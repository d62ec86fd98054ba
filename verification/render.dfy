/**
  The text that paths and patterns render to: the builder loops of the String
  methods, and the decimal rendering of an index.
 */
module Render {

  /**
    One turn of a String loop over a strings.Builder holding b: the separator
    " / " is written only when something has been written already.
   */
  function Append(b: string, s: string): string {
    if |b| > 0 then b + " / " + s else b + s
  }

  /** What the builder holds after writing each of parts in turn. */
  function Build(parts: seq<string>): string {
    if parts == [] then "" else Append(Build(parts[..|parts| - 1]), parts[|parts| - 1])
  }

  /** The parts with " / " between each two neighbours. */
  function Interleave(parts: seq<string>): string {
    if parts == [] then ""
    else if |parts| == 1 then parts[0]
    else parts[0] + " / " + Interleave(parts[1..])
  }

  /** Interleaving a concatenation puts one separator where the two halves meet. */
  lemma {:induction false} InterleaveAppend(a: seq<string>, b: seq<string>)
    requires a != [] && b != []
    ensures Interleave(a + b) == Interleave(a) + " / " + Interleave(b)
  {
    if |a| == 1 {
      assert (a + b)[1..] == b;
    } else {
      assert (a + b)[1..] == a[1..] + b;
      InterleaveAppend(a[1..], b);
    }
  }

  /**
    When no part renders empty, the builder's "separator once something is
    written" is the same as a separator between each two parts.
   */
  lemma {:induction false} BuildIsInterleave(parts: seq<string>)
    requires forall i :: 0 <= i < |parts| ==> parts[i] != ""
    ensures Build(parts) == Interleave(parts)
    ensures parts != [] ==> Build(parts) != ""
  {
    if parts != [] {
      var init := parts[..|parts| - 1];
      var last := parts[|parts| - 1];
      BuildIsInterleave(init);
      if init != [] {
        InterleaveAppend(init, [last]);
        assert init + [last] == parts;
      }
    }
  }

  function Digit(d: nat): char
    requires d < 10
  {
    "0123456789"[d]
  }

  function NatText(n: nat): string
    decreases n
  {
    if n < 10 then [Digit(n)] else NatText(n / 10) + [Digit(n % 10)]
  }

  /** The %d rendering of an integer. */
  function IntText(i: int): string {
    if i < 0 then "-" + NatText(-i) else NatText(i)
  }
}
