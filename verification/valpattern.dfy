/**
  Patterns over values (package valpattern): elements that match a value and
  yield (path, sub-value) pairs, the flattening constructor New, and the
  frontier expansion by which a composite pattern matches.
 */
module ValPattern {
  import opened Reflect
  import opened Render
  import ValPath

  /**
    A pattern element: a lifted path (PathElem), one of the three wildcards, or
    a composite of elements (joined), which stands for the concatenation of its
    members' leaves.
   */
  datatype Elem =
    | PathElem(path: ValPath.Path)
    | AllExportedFields
    | AllMapKeys
    | AllMapValues
    | Joined(children: seq<Elem>)

  /** A match: the route taken, nil only for the empty composite, and the value it reaches. */
  datatype Pair = Pair(path: Option<ValPath.Path>, value: Value)

  /** Every pair names a route that, followed from root, reaches the pair's value. */
  ghost predicate Sound(root: Value, pairs: seq<Pair>) {
    forall i :: 0 <= i < |pairs| ==>
      pairs[i].path.Some? && ValPath.Traverse(pairs[i].path.value, root) == ValPath.Ok(pairs[i].value)
  }

  // ---------------------------------------------------------------------------
  // The leaf elements
  // ---------------------------------------------------------------------------

  /** PathElem.Match: one pair when the path can be followed, none otherwise. */
  function MatchPath(p: ValPath.Path, v: Value): (r: seq<Pair>)
    ensures |r| <= 1
    ensures |r| == 1 <==> ValPath.Traverse(p, v).Ok?
    ensures forall i :: 0 <= i < |r| ==> r[i].path == Some(p)
  {
    match ValPath.Traverse(p, v)
    case ErrTodo => []
    case Ok(found) => [Pair(Some(p), found)]
  }

  /** The pairs AllExportedFields yields for the walked fields ls of the struct v. */
  function ExportedPairs(v: Value, ls: seq<Located>): (r: seq<Pair>)
    requires v.Struct?
    ensures |r| <= |ls|
    ensures forall i :: 0 <= i < |r| ==>
      && r[i].path.Some? && r[i].path.value.Atom? && r[i].path.value.step.ExportedField?
      && ValPath.ExportedFieldTraverse(r[i].path.value.step.name, v) == ValPath.Ok(r[i].value)
    ensures forall k :: 0 <= k < |ls| && Visible(v, ls[k]) && ls[k].field.exported ==>
      Pair(Some(ValPath.Atom(ValPath.ExportedField(ls[k].field.name))), ls[k].field.val) in r
  {
    if ls == [] then []
    else
      var l := ls[0];
      var head :=
        if Visible(v, l) && l.field.exported
        then [Pair(Some(ValPath.Atom(ValPath.ExportedField(l.field.name))), FieldByName(v, l.field.name))]
        else [];
      head + ExportedPairs(v, ls[1..])
  }

  /**
    AllExportedFieldsElem.Match: for a struct, one pair per visible exported
    field, direct or promoted, in the order of reflect.VisibleFields; nothing
    for any other value.
   */
  function MatchAllExportedFields(v: Value): (r: seq<Pair>)
    ensures !v.Struct? ==> r == []
  {
    if !IsValid(v) || !v.Struct? then [] else ExportedPairs(v, Walk(v))
  }

  /** The pairs AllMapKeysElem.Match yields as the code is written: the double-wrapped key and the entry's value. */
  function MatchAllMapKeysAsWritten(v: Value): (r: seq<Pair>)
    ensures v.Map? && !v.isNil ==> |r| == |v.entries|
    ensures !v.Map? || v.isNil ==> r == []
  {
    if !IsValid(v) || !v.Map? || IsNil(v) then []
    else
      seq(|v.entries|, i requires 0 <= i < |v.entries| =>
        Pair(Some(ValPath.Atom(ValPath.MapKey(ValueOfValue(v.entries[i].key)))), MapIndex(v, v.entries[i].key)))
  }

  /** AllMapKeysElem.Match as intended: one pair per entry, the route to the key and the key itself. */
  function MatchAllMapKeys(v: Value): (r: seq<Pair>)
    ensures v.Map? && !v.isNil ==> |r| == |v.entries|
    ensures !v.Map? || v.isNil ==> r == []
  {
    if !IsValid(v) || !v.Map? || IsNil(v) then []
    else
      seq(|v.entries|, i requires 0 <= i < |v.entries| =>
        Pair(Some(ValPath.Atom(ValPath.MapKey(v.entries[i].key))), v.entries[i].key))
  }

  /** The pairs AllMapValuesElem.Match yields as the code is written: the double-wrapped key and the entry's value. */
  function MatchAllMapValuesAsWritten(v: Value): (r: seq<Pair>)
    ensures v.Map? && !v.isNil ==> |r| == |v.entries|
    ensures !v.Map? || v.isNil ==> r == []
  {
    if !IsValid(v) || !v.Map? || IsNil(v) then []
    else
      seq(|v.entries|, i requires 0 <= i < |v.entries| =>
        Pair(Some(ValPath.Atom(ValPath.MapValueOfKey(ValueOfValue(v.entries[i].key)))), v.entries[i].val))
  }

  /** AllMapValuesElem.Match as intended: one pair per entry, the route through the key and the entry's value. */
  function MatchAllMapValues(v: Value): (r: seq<Pair>)
    ensures v.Map? && !v.isNil ==> |r| == |v.entries|
    ensures !v.Map? || v.isNil ==> r == []
  {
    if !IsValid(v) || !v.Map? || IsNil(v) then []
    else
      seq(|v.entries|, i requires 0 <= i < |v.entries| =>
        Pair(Some(ValPath.Atom(ValPath.MapValueOfKey(v.entries[i].key))), v.entries[i].val))
  }

  /**
    The Match method of a leaf element: every pair has a route, a lifted path
    yields at most one pair, and a wildcard yields nothing from the invalid Value.
   */
  function LeafMatch(e: Elem, v: Value): (r: seq<Pair>)
    requires !e.Joined?
    ensures forall i :: 0 <= i < |r| ==> r[i].path.Some?
    ensures e.PathElem? ==> |r| <= 1
    ensures !e.PathElem? && !IsValid(v) ==> r == []
  {
    match e
    case PathElem(p) => MatchPath(p, v)
    case AllExportedFields => MatchAllExportedFields(v)
    case AllMapKeys => MatchAllMapKeys(v)
    case AllMapValues => MatchAllMapValues(v)
  }

  // ---------------------------------------------------------------------------
  // Soundness of the leaves
  // ---------------------------------------------------------------------------

  /** Every pair a lifted path yields is sound. */
  lemma MatchPathSound(p: ValPath.Path, v: Value)
    ensures Sound(v, MatchPath(p, v))
  {
  }

  /** AllExportedFields yields each field once: no two of its pairs share a route. */
  lemma MatchAllExportedFieldsOnce(v: Value)
    ensures forall a, b :: 0 <= a < b < |MatchAllExportedFields(v)| ==>
      MatchAllExportedFields(v)[a].path != MatchAllExportedFields(v)[b].path
  {
    if IsValid(v) && v.Struct? {
      WalkDistinct(v);
      ExportedPairsDistinct(v, Walk(v));
    }
  }

  /** Every visible exported field is found by AllExportedFields, and every pair it yields is sound. */
  lemma MatchAllExportedFieldsSound(v: Value)
    ensures Sound(v, MatchAllExportedFields(v))
    ensures v.Struct? ==> forall name :: FindField(v, name).Some? && FindField(v, name).value.field.exported ==>
      Pair(Some(ValPath.Atom(ValPath.ExportedField(name))), FieldByName(v, name)) in MatchAllExportedFields(v)
  {
    var r := MatchAllExportedFields(v);
    if v.Struct? {
      forall i | 0 <= i < |r|
        ensures r[i].path.Some? && ValPath.Traverse(r[i].path.value, v) == ValPath.Ok(r[i].value)
      {
        ExportedPairSound(v, i);
      }
      forall name | FindField(v, name).Some? && FindField(v, name).value.field.exported
        ensures Pair(Some(ValPath.Atom(ValPath.ExportedField(name))), FieldByName(v, name)) in r
      {
        ExportedFieldYielded(v, name);
      }
    }
  }

  /** The i-th pair AllExportedFields yields on a struct is sound. */
  lemma ExportedPairSound(v: Value, i: nat)
    requires v.Struct? && i < |MatchAllExportedFields(v)|
    ensures MatchAllExportedFields(v)[i].path.Some?
    ensures ValPath.Traverse(MatchAllExportedFields(v)[i].path.value, v) == ValPath.Ok(MatchAllExportedFields(v)[i].value)
  {
    var r := MatchAllExportedFields(v);
    assert r == ExportedPairs(v, Walk(v));
    assert ValPath.ExportedFieldTraverse(r[i].path.value.step.name, v) == ValPath.Ok(r[i].value);
  }

  /** A visible exported field of a struct is among the pairs AllExportedFields yields. */
  lemma ExportedFieldYielded(v: Value, name: string)
    requires v.Struct? && FindField(v, name).Some? && FindField(v, name).value.field.exported
    ensures Pair(Some(ValPath.Atom(ValPath.ExportedField(name))), FieldByName(v, name)) in MatchAllExportedFields(v)
  {
    var ws := Walk(v);
    assert MatchAllExportedFields(v) == ExportedPairs(v, ws);
    var l := FindField(v, name).value;
    FoundInWalk(v, name);
    var k :| 0 <= k < |ws| && ws[k] == l;
    assert Visible(v, ws[k]) && ws[k].field.exported;
    assert FieldByName(v, name) == ws[k].field.val;
  }

  /** Every pair yielded for the walked fields ls names a field that its name resolves to, and that field is in ls. */
  lemma {:induction false} ExportedPairsFrom(v: Value, ls: seq<Located>)
    requires v.Struct?
    ensures forall i :: 0 <= i < |ExportedPairs(v, ls)| ==>
      FindField(v, ExportedPairs(v, ls)[i].path.value.step.name).Some? &&
      FindField(v, ExportedPairs(v, ls)[i].path.value.step.name).value in ls
  {
    if ls != [] {
      ExportedPairsFrom(v, ls[1..]);
      var r := ExportedPairs(v, ls);
      var tail := ExportedPairs(v, ls[1..]);
      forall i | 0 <= i < |r|
        ensures FindField(v, r[i].path.value.step.name).Some? && FindField(v, r[i].path.value.step.name).value in ls
      {
        if i >= |r| - |tail| {
          assert r[i] == tail[i - (|r| - |tail|)];
          var l := FindField(v, r[i].path.value.step.name).value;
          assert l in ls[1..];
        }
      }
    }
  }

  /** The fields walked in ls, if no two share a route, give pairs with distinct routes. */
  lemma {:induction false} ExportedPairsDistinct(v: Value, ls: seq<Located>)
    requires v.Struct? && DistinctRoutes(ls)
    ensures forall a, b :: 0 <= a < b < |ExportedPairs(v, ls)| ==> ExportedPairs(v, ls)[a].path != ExportedPairs(v, ls)[b].path
  {
    if ls != [] {
      var tail := ExportedPairs(v, ls[1..]);
      assert DistinctRoutes(ls[1..]) by {
        forall a, b | 0 <= a < b < |ls[1..]|
          ensures ls[1..][a].index != ls[1..][b].index
        {
          assert ls[1..][a] == ls[a + 1] && ls[1..][b] == ls[b + 1];
        }
      }
      ExportedPairsDistinct(v, ls[1..]);
      ExportedPairsFrom(v, ls[1..]);
      if Visible(v, ls[0]) && ls[0].field.exported {
        var n := ls[0].field.name;
        assert ls[0] !in ls[1..] by {
          forall k | 0 <= k < |ls[1..]|
            ensures ls[1..][k] != ls[0]
          {
            assert ls[1..][k].index == ls[k + 1].index != ls[0].index;
          }
        }
        forall b | 0 <= b < |tail|
          ensures tail[b].path != Some(ValPath.Atom(ValPath.ExportedField(n)))
        {
          assert FindField(v, tail[b].path.value.step.name).value in ls[1..];
        }
      }
    }
  }

  /** The key pairs, as intended, are sound in a well-formed value and carry each key exactly once. */
  lemma MatchAllMapKeysSound(v: Value)
    requires WellFormed(v)
    ensures Sound(v, MatchAllMapKeys(v))
    ensures v.Map? ==> forall i :: 0 <= i < |v.entries| ==>
      Pair(Some(ValPath.Atom(ValPath.MapKey(v.entries[i].key))), v.entries[i].key) in MatchAllMapKeys(v)
  {
    var r := MatchAllMapKeys(v);
    forall i | 0 <= i < |r|
      ensures r[i].path.Some? && ValPath.Traverse(r[i].path.value, v) == ValPath.Ok(r[i].value)
    {
      var k := v.entries[i].key;
      assert HasKey(v, k);
      MapIndexFinds(v, k);
    }
    if v.Map? {
      assert v.isNil ==> v.entries == [];
      forall i | 0 <= i < |v.entries|
        ensures Pair(Some(ValPath.Atom(ValPath.MapKey(v.entries[i].key))), v.entries[i].key) in r
      {
        assert r[i] == Pair(Some(ValPath.Atom(ValPath.MapKey(v.entries[i].key))), v.entries[i].key);
      }
    }
  }

  /** The route through the key of an entry of a well-formed map reaches that entry's value. */
  lemma MapValueRoute(v: Value, i: nat)
    requires v.Map? && WellFormed(v) && !v.isNil && i < |v.entries|
    ensures ValPath.Traverse(ValPath.Atom(ValPath.MapValueOfKey(v.entries[i].key)), v) == ValPath.Ok(v.entries[i].val)
  {
    var k := v.entries[i].key;
    assert HasKey(v, k);
    MapIndexFinds(v, k);
    MapIndexAt(v, i);
  }

  /** The value pairs, as intended, are sound in a well-formed value and carry each entry exactly once. */
  lemma MatchAllMapValuesSound(v: Value)
    requires WellFormed(v)
    ensures Sound(v, MatchAllMapValues(v))
    ensures v.Map? ==> forall i :: 0 <= i < |v.entries| ==>
      Pair(Some(ValPath.Atom(ValPath.MapValueOfKey(v.entries[i].key))), v.entries[i].val) in MatchAllMapValues(v)
  {
    var r := MatchAllMapValues(v);
    forall i | 0 <= i < |r|
      ensures r[i].path.Some? && ValPath.Traverse(r[i].path.value, v) == ValPath.Ok(r[i].value)
    {
      MapValueRoute(v, i);
    }
    if v.Map? {
      assert v.isNil ==> v.entries == [];
      forall i | 0 <= i < |v.entries|
        ensures Pair(Some(ValPath.Atom(ValPath.MapValueOfKey(v.entries[i].key))), v.entries[i].val) in r
      {
        assert r[i] == Pair(Some(ValPath.Atom(ValPath.MapValueOfKey(v.entries[i].key))), v.entries[i].val);
      }
    }
  }

  /** Every leaf yields sound pairs from a well-formed value. */
  lemma LeafMatchSound(e: Elem, v: Value)
    requires !e.Joined? && WellFormed(v)
    ensures Sound(v, LeafMatch(e, v))
  {
    match e
    case PathElem(p) => MatchPathSound(p, v);
    case AllExportedFields => MatchAllExportedFieldsSound(v);
    case AllMapKeys => MatchAllMapKeysSound(v);
    case AllMapValues => MatchAllMapValuesSound(v);
  }

  // ---------------------------------------------------------------------------
  // Leaves, New and rendering
  // ---------------------------------------------------------------------------

  /** The Elems method: the leaf elements an element stands for, in order. */
  function Elems(e: Elem): (r: seq<Elem>)
    ensures forall i :: 0 <= i < |r| ==> !r[i].Joined?
    ensures !e.Joined? ==> r == [e]
    decreases e, 1
  {
    if e.Joined? then ElemsFrom(e, 0) else [e]
  }

  /** The leaves of the members of a composite from position k on. */
  function ElemsFrom(e: Elem, k: nat): (r: seq<Elem>)
    requires e.Joined? && k <= |e.children|
    ensures forall i :: 0 <= i < |r| ==> !r[i].Joined?
    decreases e, 0, |e.children| - k
  {
    if k == |e.children| then [] else Elems(e.children[k]) + ElemsFrom(e, k + 1)
  }

  /** The leaves of a composite are the leaves of its first member followed by those of the rest. */
  lemma ElemsCons(x: Elem, xs: seq<Elem>)
    ensures Elems(Joined([x] + xs)) == Elems(x) + Elems(Joined(xs))
  {
    ElemsFromShift(x, xs, 0);
  }

  lemma {:induction false} ElemsFromShift(x: Elem, xs: seq<Elem>, k: nat)
    requires k <= |xs|
    ensures ElemsFrom(Joined([x] + xs), k + 1) == ElemsFrom(Joined(xs), k)
    decreases |xs| - k
  {
    if k < |xs| {
      assert ([x] + xs)[k + 1] == xs[k];
      ElemsFromShift(x, xs, k + 1);
    }
  }

  /** The non-nil arguments of New, in order. */
  function NonNil(args: seq<Option<Elem>>): (r: seq<Elem>)
    ensures |r| <= |args|
    ensures r == [] <==> forall i :: 0 <= i < |args| ==> args[i].None?
  {
    if args == [] then []
    else (if args[0].Some? then [args[0].value] else []) + NonNil(args[1..])
  }

  /**
    New: drops nil arguments; no argument left gives nil, one gives that element
    unchanged, more give their composite. Either way the leaves are the leaves
    of the non-nil arguments, in order.
   */
  function New(args: seq<Option<Elem>>): (r: Option<Elem>)
    ensures r.None? <==> forall i :: 0 <= i < |args| ==> args[i].None?
    ensures |NonNil(args)| == 1 ==> r == Some(NonNil(args)[0])
    ensures |NonNil(args)| >= 2 ==> r == Some(Joined(NonNil(args)))
    ensures r.Some? ==> Elems(r.value) == Elems(Joined(NonNil(args)))
  {
    Collapse(NonNil(args))
  }

  /** What New returns for its non-nil arguments es. */
  function Collapse(es: seq<Elem>): (r: Option<Elem>)
    ensures r.None? <==> es == []
    ensures |es| == 1 ==> r == Some(es[0])
    ensures |es| >= 2 ==> r == Some(Joined(es))
    ensures r.Some? ==> Elems(r.value) == Elems(Joined(es))
  {
    if |es| == 0 then None
    else if |es| == 1 then
      ElemsCons(es[0], []);
      assert [es[0]] + [] == es;
      Some(es[0])
    else Some(Joined(es))
  }

  lemma {:induction false} NonNilAppend(a: seq<Option<Elem>>, b: seq<Option<Elem>>)
    ensures NonNil(a + b) == NonNil(a) + NonNil(b)
  {
    if a == [] {
      assert a + b == b;
    } else {
      assert (a + b)[0] == a[0];
      assert (a + b)[1..] == a[1..] + b;
      NonNilAppend(a[1..], b);
    }
  }

  /** Nil arguments of New are dropped wherever they stand. */
  lemma NewDropsNil(xs: seq<Option<Elem>>, ys: seq<Option<Elem>>)
    ensures New(xs + [None] + ys) == New(xs + ys)
  {
    var nil: seq<Option<Elem>> := [None];
    assert NonNil(nil) == [] by {
      assert nil[1..] == [];
    }
    NonNilAppend(xs + [None], ys);
    NonNilAppend(xs, [None]);
    NonNilAppend(xs, ys);
    assert NonNil(xs + [None] + ys) == NonNil(xs + ys);
    assert New(xs + [None] + ys) == Collapse(NonNil(xs + [None] + ys));
  }

  lemma {:induction false} ElemsAppend(a: seq<Elem>, b: seq<Elem>)
    ensures Elems(Joined(a + b)) == Elems(Joined(a)) + Elems(Joined(b))
  {
    if a == [] {
      assert a + b == b;
      assert Elems(Joined(a)) == [];
    } else {
      assert a == [a[0]] + a[1..];
      assert a + b == [a[0]] + (a[1..] + b);
      ElemsCons(a[0], a[1..] + b);
      ElemsCons(a[0], a[1..]);
      ElemsAppend(a[1..], b);
    }
  }

  /** Every element of es, present. */
  function Present(es: seq<Elem>): (r: seq<Option<Elem>>)
    ensures |r| == |es|
  {
    seq(|es|, i requires 0 <= i < |es| => Some(es[i]))
  }

  lemma {:induction false} NonNilPresent(es: seq<Elem>)
    ensures NonNil(Present(es)) == es
  {
    if es != [] {
      assert Present(es)[0] == Some(es[0]);
      assert Present(es)[1..] == Present(es[1..]);
      NonNilPresent(es[1..]);
    }
  }

  /**
    New of present elements only: one element is returned unchanged, two or more
    become their composite, in order.
   */
  lemma NewPresent(es: seq<Elem>)
    ensures |es| == 1 ==> New(Present(es)) == Some(es[0])
    ensures |es| >= 2 ==> New(Present(es)) == Some(Joined(es))
  {
    NonNilPresent(es);
  }

  /** New of two or three present elements, written out, is their composite. */
  lemma NewSmall(a: Elem, b: Elem, c: Elem)
    ensures New([Some(a), Some(b)]) == Some(Joined([a, b]))
    ensures New([Some(a), Some(b), Some(c)]) == Some(Joined([a, b, c]))
  {
    assert [Some(c)][1..] == [];
    assert NonNil([Some(c)]) == [c];
    assert [Some(b), Some(c)][1..] == [Some(c)];
    assert NonNil([Some(b), Some(c)]) == [b, c];
    assert [Some(a), Some(b), Some(c)][1..] == [Some(b), Some(c)];
    assert NonNil([Some(a), Some(b), Some(c)]) == [a, b, c];
    assert [Some(b)][1..] == [];
    assert NonNil([Some(b)]) == [b];
    assert [Some(a), Some(b)][1..] == [Some(b)];
    assert NonNil([Some(a), Some(b)]) == [a, b];
  }

  /** The leaves of a composite of one element are that element's. */
  lemma ElemsOne(a: Elem)
    ensures Elems(Joined([a])) == Elems(a)
  {
    assert Elems(Joined([])) == [];
    ElemsCons(a, []);
    assert [a] + [] == [a];
  }

  /** The leaves of a composite of two or three elements. */
  lemma ElemsPair(a: Elem, b: Elem)
    ensures Elems(Joined([a, b])) == Elems(a) + Elems(b)
  {
    ElemsOne(b);
    ElemsCons(a, [b]);
    assert [a] + [b] == [a, b];
  }

  lemma ElemsTriple(a: Elem, b: Elem, c: Elem)
    ensures Elems(Joined([a, b, c])) == Elems(a) + Elems(b) + Elems(c)
  {
    ElemsPair(b, c);
    ElemsCons(a, [b, c]);
    assert [a] + [b, c] == [a, b, c];
  }

  /** New is associative as far as leaves go: nesting a composite on either side makes no difference. */
  lemma NewAssociative(a: Elem, b: Elem, c: Elem)
    ensures New([Some(a), Some(b)]).Some? && New([Some(b), Some(c)]).Some?
    ensures Elems(New([Some(New([Some(a), Some(b)]).value), Some(c)]).value) ==
            Elems(New([Some(a), Some(b), Some(c)]).value)
    ensures Elems(New([Some(a), Some(New([Some(b), Some(c)]).value)]).value) ==
            Elems(New([Some(a), Some(b), Some(c)]).value)
  {
    NewSmall(a, b, c);
    NewSmall(b, c, c);
    NewSmall(Joined([a, b]), c, c);
    NewSmall(a, Joined([b, c]), c);
    ElemsTriple(a, b, c);
    ElemsPair(a, b);
    ElemsPair(b, c);
    ElemsPair(Joined([a, b]), c);
    ElemsPair(a, Joined([b, c]));
  }

  /** The String method of a leaf; a wildcard renders between angle brackets, a path Join returns never renders empty. */
  function LeafText(e: Elem): (r: string)
    requires !e.Joined?
    ensures !e.PathElem? ==> |r| >= 2 && r[0] == '<' && r[|r| - 1] == '>'
    ensures e.PathElem? && ValPath.IsCanonical(e.path) ==> r != ""
  {
    match e
    case PathElem(p) => ValPath.Text(p)
    case AllExportedFields => "<all exported fields>"
    case AllMapKeys => "<all map keys>"
    case AllMapValues => "<all map values>"
  }

  function LeafTexts(es: seq<Elem>): seq<string>
    requires forall i :: 0 <= i < |es| ==> !es[i].Joined?
  {
    seq(|es|, i requires 0 <= i < |es| => LeafText(es[i]))
  }

  /** The String method of an element; a composite never renders empty, and with no leaves renders as "<empty pattern>". */
  function Text(e: Elem): (r: string)
    ensures e.Joined? ==> r != ""
    ensures e.Joined? && Elems(e) == [] ==> r == "<empty pattern>"
  {
    if !e.Joined? then LeafText(e)
    else
      var b := Build(LeafTexts(Elems(e)));
      if |b| == 0 then "<empty pattern>" else b
  }

  /**
    A composite whose leaves all render to some text renders as those texts
    with " / " between them, or as "<empty pattern>" when it has no leaves.
   */
  lemma JoinedText(children: seq<Elem>)
    requires forall i :: 0 <= i < |Elems(Joined(children))| ==> LeafText(Elems(Joined(children))[i]) != ""
    ensures Text(Joined(children)) ==
            if Elems(Joined(children)) == [] then "<empty pattern>"
            else Interleave(LeafTexts(Elems(Joined(children))))
  {
    BuildIsInterleave(LeafTexts(Elems(Joined(children))));
  }

  /** joined.String: the builder loop over the leaves. */
  method JoinedString(children: seq<Elem>) returns (s: string)
    ensures s == Text(Joined(children))
  {
    var leaves := Elems(Joined(children));
    var b := "";
    for i := 0 to |leaves|
      invariant b == Build(LeafTexts(leaves[..i]))
    {
      assert LeafTexts(leaves[..i + 1])[..i] == LeafTexts(leaves[..i]);
      if |b| > 0 {
        b := b + " / ";
      }
      b := b + LeafText(leaves[i]);
    }
    assert leaves[..|leaves|] == leaves;
    if |b| == 0 {
      s := "<empty pattern>";
    } else {
      s := b;
    }
  }

  // ---------------------------------------------------------------------------
  // Frontier expansion
  // ---------------------------------------------------------------------------

  /** The pairs one frontier pair grows into through the leaf e: each match, its route joined onto the pair's. */
  function Extend(p: Pair, e: Elem): (r: seq<Pair>)
    requires !e.Joined?
    ensures |r| == |LeafMatch(e, p.value)|
  {
    var ms := LeafMatch(e, p.value);
    seq(|ms|, i requires 0 <= i < |ms| => Pair(Some(ValPath.Join([p.path, ms[i].path])), ms[i].value))
  }

  /** The next frontier: every pair of f extended through e, in order; a lifted path never branches. */
  function ExpandOne(f: seq<Pair>, e: Elem): (r: seq<Pair>)
    requires !e.Joined?
    ensures e.PathElem? ==> |r| <= |f|
  {
    if f == [] then [] else Extend(f[0], e) + ExpandOne(f[1..], e)
  }

  /** The frontier after the leaves es, left to right; nothing grows out of an empty frontier. */
  function Expand(f: seq<Pair>, es: seq<Elem>): (r: seq<Pair>)
    requires forall i :: 0 <= i < |es| ==> !es[i].Joined?
    ensures f == [] ==> r == []
    decreases es
  {
    if es == [] then f else Expand(ExpandOne(f, es[0]), es[1..])
  }

  /** Expanding a frontier piecewise: the next frontier of a + b is that of a followed by that of b. */
  lemma {:induction false} ExpandOneAppend(a: seq<Pair>, b: seq<Pair>, e: Elem)
    requires !e.Joined?
    ensures ExpandOne(a + b, e) == ExpandOne(a, e) + ExpandOne(b, e)
  {
    if a == [] {
      assert a + b == b;
    } else {
      assert (a + b)[1..] == a[1..] + b;
      ExpandOneAppend(a[1..], b, e);
      AppendAssoc(Extend(a[0], e), ExpandOne(a[1..], e), ExpandOne(b, e));
    }
  }

  /** Concatenation of frontiers is associative. */
  lemma AppendAssoc(x: seq<Pair>, y: seq<Pair>, z: seq<Pair>)
    ensures x + (y + z) == (x + y) + z
  {
  }

  /** The number of matches e finds across the values of the frontier f. */
  function MatchCount(f: seq<Pair>, e: Elem): nat
    requires !e.Joined?
  {
    if f == [] then 0 else |LeafMatch(e, f[0].value)| + MatchCount(f[1..], e)
  }

  /** The next frontier has one pair per match found from each pair of the current one. */
  lemma {:induction false} ExpandOneLength(f: seq<Pair>, e: Elem)
    requires !e.Joined?
    ensures |ExpandOne(f, e)| == MatchCount(f, e)
  {
    if f != [] {
      ExpandOneLength(f[1..], e);
    }
  }

  /** Extending a sound pair from a well-formed root yields sound pairs. */
  lemma ExtendSound(root: Value, p: Pair, e: Elem)
    requires !e.Joined? && WellFormed(root)
    requires p.path.Some? && ValPath.Traverse(p.path.value, root) == ValPath.Ok(p.value)
    ensures Sound(root, Extend(p, e))
  {
    ValPath.TraverseWellFormed(p.path.value, root);
    LeafMatchSound(e, p.value);
    var ms := LeafMatch(e, p.value);
    forall i | 0 <= i < |ms|
      ensures ValPath.Traverse(ValPath.Join([p.path, ms[i].path]), root) == ValPath.Ok(ms[i].value)
    {
      ValPath.TraverseJoin(p.path.value, ms[i].path.value, root);
    }
  }

  lemma {:induction false} ExpandOneSound(root: Value, f: seq<Pair>, e: Elem)
    requires !e.Joined? && WellFormed(root) && Sound(root, f)
    ensures Sound(root, ExpandOne(f, e))
  {
    if f != [] {
      ExtendSound(root, f[0], e);
      ExpandOneSound(root, f[1..], e);
    }
  }

  /** Frontier expansion from a well-formed root keeps every pair sound. */
  lemma {:induction false} ExpandSound(root: Value, f: seq<Pair>, es: seq<Elem>)
    requires forall i :: 0 <= i < |es| ==> !es[i].Joined?
    requires WellFormed(root) && Sound(root, f)
    ensures Sound(root, Expand(f, es))
    decreases es
  {
    if es != [] {
      ExpandOneSound(root, f, es[0]);
      ExpandSound(root, ExpandOne(f, es[0]), es[1..]);
    }
  }

  /** Lifted paths only narrow the frontier: a path never branches. */
  lemma {:induction false} ExpandPathsNarrow(f: seq<Pair>, es: seq<Elem>)
    requires forall i :: 0 <= i < |es| ==> es[i].PathElem?
    ensures |Expand(f, es)| <= |f|
    decreases es
  {
    if es != [] {
      ExpandPathsNarrow(ExpandOne(f, es[0]), es[1..]);
    }
  }

  /** Every match of every frontier pair, its route joined onto the pair's, is in the next frontier. */
  lemma {:induction false} ExpandOneComplete(f: seq<Pair>, e: Elem, i: nat, m: Pair)
    requires !e.Joined? && i < |f| && m in LeafMatch(e, f[i].value)
    ensures Pair(Some(ValPath.Join([f[i].path, m.path])), m.value) in ExpandOne(f, e)
  {
    if i == 0 {
      var ms := LeafMatch(e, f[0].value);
      var k :| 0 <= k < |ms| && ms[k] == m;
      assert Extend(f[0], e)[k] == Pair(Some(ValPath.Join([f[0].path, m.path])), m.value);
    } else {
      assert f[1..][i - 1] == f[i];
      ExpandOneComplete(f[1..], e, i - 1, m);
    }
  }

  /** One pass of the frontier loop of joined.Match: every pair of the frontier extended through the leaf e, in order. */
  method ExtendFrontier(out: seq<Pair>, e: Elem) returns (next: seq<Pair>)
    requires !e.Joined?
    ensures next == ExpandOne(out, e)
  {
    next := [];
    for k := 0 to |out|
      invariant next == ExpandOne(out[..k], e)
    {
      ExpandOneAppend(out[..k], [out[k]], e);
      assert out[..k + 1] == out[..k] + [out[k]];
      assert ExpandOne([out[k]], e) == Extend(out[k], e) + ExpandOne([], e);
      next := next + Extend(out[k], e);
    }
    assert out[..|out|] == out;
  }

  /** The frontier loop of joined.Match: replaces the frontier by its expansion through each leaf in turn. */
  method ExpandFrontier(start: seq<Pair>, leaves: seq<Elem>) returns (out: seq<Pair>)
    requires forall i :: 0 <= i < |leaves| ==> !leaves[i].Joined?
    ensures out == Expand(start, leaves)
  {
    out := start;
    for i := 0 to |leaves|
      invariant Expand(start, leaves) == Expand(out, leaves[i..])
    {
      assert leaves[i..][1..] == leaves[i + 1..];
      out := ExtendFrontier(out, leaves[i]);
    }
  }

  /**
    joined.Match as the code is written: the frontier starts out empty, so a
    composite with leaves matches nothing at all.
   */
  method MatchJoinedAsWritten(children: seq<Elem>, v: Value) returns (out: seq<Pair>)
    ensures |children| == 0 ==> out == [Pair(None, v)]
    ensures |children| > 0 && !IsValid(v) ==> out == []
    ensures |children| > 0 && IsValid(v) ==> out == Expand([], Elems(Joined(children)))
    ensures |children| > 0 ==> out == []
  {
    if |children| == 0 {
      return [Pair(None, v)];
    }
    if !IsValid(v) {
      return [];
    }
    out := ExpandFrontier([], Elems(Joined(children)));
  }

  /**
    joined.Match as intended: the frontier starts from the empty route to v, and
    every pair it ends with, from a well-formed v, is sound.
   */
  method MatchJoined(children: seq<Elem>, v: Value) returns (out: seq<Pair>)
    ensures |children| == 0 ==> out == [Pair(None, v)]
    ensures |children| > 0 && !IsValid(v) ==> out == []
    ensures |children| > 0 && IsValid(v) ==> out == Expand([Pair(Some(ValPath.Empty), v)], Elems(Joined(children)))
    ensures |children| > 0 && WellFormed(v) ==> Sound(v, out)
  {
    if |children| == 0 {
      return [Pair(None, v)];
    }
    if !IsValid(v) {
      return [];
    }
    var start := [Pair(Some(ValPath.Empty), v)];
    out := ExpandFrontier(start, Elems(Joined(children)));
    if WellFormed(v) {
      ExpandSound(v, start, Elems(Joined(children)));
    }
  }

  // ---------------------------------------------------------------------------
  // The discrepancies
  // ---------------------------------------------------------------------------

  /**
    As written, in every map whose key type is not reflect.Value, AllMapKeys
    pairs each entry's value, not its key, with a route that fails, since the
    double-wrapped key has the type reflect.Value.
   */
  lemma MapKeysAsWrittenDiverge(v: Value)
    requires v.Map? && WellFormed(v) && !v.isNil && v.keyType != "reflect.Value"
    ensures forall i :: 0 <= i < |v.entries| ==>
      && MatchAllMapKeysAsWritten(v)[i].value == v.entries[i].val
      && ValPath.Traverse(MatchAllMapKeysAsWritten(v)[i].path.value, v) == ValPath.ErrTodo
  {
    forall i | 0 <= i < |v.entries|
      ensures MatchAllMapKeysAsWritten(v)[i].value == v.entries[i].val
    {
      MapIndexAt(v, i);
    }
  }

  /**
    As written, in every map whose key type is not reflect.Value, AllMapValues
    pairs each entry's value with a route that fails.
   */
  lemma MapValuesAsWrittenDiverge(v: Value)
    requires v.Map? && WellFormed(v) && !v.isNil && v.keyType != "reflect.Value"
    ensures forall i :: 0 <= i < |v.entries| ==>
      && MatchAllMapValuesAsWritten(v)[i].value == v.entries[i].val
      && ValPath.Traverse(MatchAllMapValuesAsWritten(v)[i].path.value, v) == ValPath.ErrTodo
  {
  }

  // ---------------------------------------------------------------------------
  // The discrepancies, on a concrete map
  // ---------------------------------------------------------------------------

  /** The map {"key": 42} of type map[string]int. */
  function SampleMap(): Value {
    Map("map[string]int", "string", false, [Entry(Str("string", "key"), Scalar("int", 42))])
  }

  /**
    As written, the pair AllMapKeys yields for {"key": 42} names a route that
    fails, and carries 42 rather than the key; the intended pair's route reaches
    the key it carries.
   */
  lemma MapKeysDiscrepancy()
    ensures |MatchAllMapKeysAsWritten(SampleMap())| == 1
    ensures ValPath.Traverse(MatchAllMapKeysAsWritten(SampleMap())[0].path.value, SampleMap()) == ValPath.ErrTodo
    ensures MatchAllMapKeysAsWritten(SampleMap())[0].value == Scalar("int", 42)
    ensures MatchAllMapKeys(SampleMap()) == [Pair(Some(ValPath.Atom(ValPath.MapKey(Str("string", "key")))), Str("string", "key"))]
    ensures Sound(SampleMap(), MatchAllMapKeys(SampleMap()))
  {
    var m := SampleMap();
    assert KeyIndex(m.entries, Str("string", "key")) == Some(0);
    assert HasKey(m, Str("string", "key"));
    MatchAllMapKeysSound(m);
  }

  /**
    As written, the pair AllMapValues yields for {"key": 42} names a route that
    fails although it carries the right value; the intended pair is sound.
   */
  lemma MapValuesDiscrepancy()
    ensures |MatchAllMapValuesAsWritten(SampleMap())| == 1
    ensures ValPath.Traverse(MatchAllMapValuesAsWritten(SampleMap())[0].path.value, SampleMap()) == ValPath.ErrTodo
    ensures MatchAllMapValues(SampleMap()) == [Pair(Some(ValPath.Atom(ValPath.MapValueOfKey(Str("string", "key")))), Scalar("int", 42))]
    ensures Sound(SampleMap(), MatchAllMapValues(SampleMap()))
  {
    MatchAllMapValuesSound(SampleMap());
  }

  /**
    As written, the composite New(Path(Empty()), Path(Empty())) matches nothing
    on the integer 42; started from the empty route it yields the one pair
    (empty path, 42).
   */
  lemma EmptyStartDiscrepancy()
    ensures New([Some(PathElem(ValPath.Empty)), Some(PathElem(ValPath.Empty))]) ==
            Some(Joined([PathElem(ValPath.Empty), PathElem(ValPath.Empty)]))
    ensures Expand([], Elems(Joined([PathElem(ValPath.Empty), PathElem(ValPath.Empty)]))) == []
    ensures Expand([Pair(Some(ValPath.Empty), Scalar("int", 42))], Elems(Joined([PathElem(ValPath.Empty), PathElem(ValPath.Empty)]))) ==
            [Pair(Some(ValPath.Empty), Scalar("int", 42))]
  {
    var e := PathElem(ValPath.Empty);
    NewSmall(e, e, e);
    ElemsPair(e, e);
    var leaves := Elems(Joined([e, e]));
    assert leaves == [e, e];
    ValPath.JoinIdentity(Some(ValPath.Empty));
    ValPath.JoinSingle(ValPath.Empty);
    var f := [Pair(Some(ValPath.Empty), Scalar("int", 42))];
    assert ExpandOne(f, e) == Extend(f[0], e) + ExpandOne([], e);
    assert ExpandOne(f, e) == f;
    assert leaves[1..] == [e];
    assert Expand(f, leaves) == Expand(f, [e]);
    assert Expand(f, [e]) == Expand(f, []);
  }
}
