/**
  Deterministic paths into a value (package valpath): the atomic steps, the
  flattening Join with its canonical form, traversal as a left fold of the steps,
  and the text a path renders to.
 */
module ValPath {
  import opened Reflect
  import opened Render

  /**
    The atomic steps (DerefPart, InterPart, IndexPart, MapKeyPart,
    MapValueOfKeyPart, ExportedFieldPart). A map step carries the key itself.
   */
  datatype Step =
    | Deref
    | Inter
    | Index(i: int)
    | MapKey(key: Value)
    | MapValueOfKey(key: Value)
    | ExportedField(name: string)

  /**
    A path: the empty path (emptyPathElem), one atomic step, or a list of paths
    (pathListElem), which stands for the concatenation of its members' steps.
   */
  datatype Path = Empty | Atom(step: Step) | List(parts: seq<Path>)

  /** A traversal's outcome. ErrTodo stands for the pair (zero Value, ErrTodo) every failure returns. */
  datatype Result = Ok(value: Value) | ErrTodo

  // ---------------------------------------------------------------------------
  // One step
  // ---------------------------------------------------------------------------

  /** DerefPart.Traverse: follows a valid, non-nil pointer. */
  function DerefTraverse(v: Value): (r: Result)
    ensures r.Ok? <==> v.Ptr? && v.target.Some?
    ensures r.Ok? ==> Some(r.value) == v.target
  {
    if !IsValid(v) then ErrTodo
    else if !v.Ptr? then ErrTodo
    else if IsNil(v) then ErrTodo
    else Ok(ElemOf(v))
  }

  /** InterPart.Traverse: unwraps a valid, non-nil interface. */
  function InterTraverse(v: Value): (r: Result)
    ensures r.Ok? <==> v.Iface? && v.dynamic.Some?
    ensures r.Ok? ==> Some(r.value) == v.dynamic
  {
    if !IsValid(v) then ErrTodo
    else if !v.Iface? then ErrTodo
    else if IsNil(v) then ErrTodo
    else Ok(ElemOf(v))
  }

  /** IndexPart.Traverse: element i of an array or slice; negative and too large indices fail. */
  function IndexTraverse(i: int, v: Value): (r: Result)
    ensures r.Ok? <==> v.Slice? && 0 <= i < |v.elems|
    ensures r.Ok? ==> r.value == v.elems[i]
  {
    if !IsValid(v) then ErrTodo
    else if !v.Slice? then ErrTodo
    else if i < 0 || i >= |v.elems| then ErrTodo
    else Ok(v.elems[i])
  }

  /** The guards MapKeyPart and MapValueOfKeyPart share, up to the final "found" check. */
  predicate KeyApplies(k: Value, v: Value) {
    v.Map? && IsValid(k) && k.ty == v.keyType && !v.isNil
  }

  /** MapKeyPart.Traverse: the key itself, provided the map holds it. */
  function MapKeyTraverse(k: Value, v: Value): (r: Result)
    ensures r.Ok? ==> KeyApplies(k, v) && HasKey(v, k) && r.value == k
    ensures KeyApplies(k, v) && HasKey(v, k) && WellFormed(v) ==> r.Ok?
  {
    if !IsValid(v) then ErrTodo
    else if !v.Map? then ErrTodo
    else if !IsValid(k) then ErrTodo
    else if k.ty != v.keyType then ErrTodo
    else if IsNil(v) then ErrTodo
    else
      MapIndexFinds(v, k);
      if !IsValid(MapIndex(v, k)) then ErrTodo else Ok(k)
  }

  /** MapValueOfKeyPart.Traverse: the value stored under the key. */
  function MapValueOfKeyTraverse(k: Value, v: Value): (r: Result)
    ensures r.Ok? ==> KeyApplies(k, v) && exists i :: 0 <= i < |v.entries| && v.entries[i] == Entry(k, r.value)
    ensures KeyApplies(k, v) && HasKey(v, k) && WellFormed(v) ==> r.Ok?
    ensures r.Ok? <==> MapKeyTraverse(k, v).Ok?
  {
    if !IsValid(v) then ErrTodo
    else if !v.Map? then ErrTodo
    else if !IsValid(k) then ErrTodo
    else if k.ty != v.keyType then ErrTodo
    else if IsNil(v) then ErrTodo
    else
      MapIndexFinds(v, k);
      var val := MapIndex(v, k);
      if !IsValid(val) then ErrTodo else Ok(val)
  }

  /**
    ExportedFieldPart.Traverse: the field name resolves to, direct or promoted,
    provided it is exported and is not behind a nil embedded pointer.
   */
  function ExportedFieldTraverse(name: string, v: Value): (r: Result)
    ensures r.Ok? <==> v.Struct? && FindField(v, name).Some? && FindField(v, name).value.field.exported
    ensures r.Ok? ==> r.value == FieldByName(v, name)
  {
    if !IsValid(v) then ErrTodo
    else if !v.Struct? then ErrTodo
    else match FindField(v, name)
      case None => ErrTodo
      case Some(l) => if !l.field.exported then ErrTodo else Ok(l.field.val)
  }

  /** The Traverse method of an atomic step; no step accepts an invalid value. */
  function StepTraverse(s: Step, v: Value): (r: Result)
    ensures !IsValid(v) ==> r == ErrTodo
  {
    match s
    case Deref => DerefTraverse(v)
    case Inter => InterTraverse(v)
    case Index(i) => IndexTraverse(i, v)
    case MapKey(k) => MapKeyTraverse(k, v)
    case MapValueOfKey(k) => MapValueOfKeyTraverse(k, v)
    case ExportedField(name) => ExportedFieldTraverse(name, v)
  }

  /** A step taken from a well-formed value reaches a well-formed value. */
  lemma StepWellFormed(s: Step, v: Value)
    requires WellFormed(v) && StepTraverse(s, v).Ok?
    ensures WellFormed(StepTraverse(s, v).value)
  {
    match s
    case Index(i) =>
      assert WellFormed(v.elems[i]);
    case MapKey(k) =>
      var i :| 0 <= i < |v.entries| && v.entries[i].key == k;
      assert WellFormed(v.entries[i].key);
    case MapValueOfKey(k) =>
      var i :| 0 <= i < |v.entries| && v.entries[i] == Entry(k, StepTraverse(s, v).value);
      assert WellFormed(v.entries[i].val);
    case ExportedField(name) =>
      FoundFieldWellFormed(v, name);
    case _ =>
  }

  // ---------------------------------------------------------------------------
  // Steps of a path, Join and the canonical form
  // ---------------------------------------------------------------------------

  /** The elems method: the atomic steps a path stands for, in order; the empty path stands for none. */
  function Elems(p: Path): (r: seq<Step>)
    ensures p.Empty? ==> r == []
    ensures p.Atom? ==> r == [p.step]
    ensures p.List? && p.parts == [] ==> r == []
    decreases p, 1
  {
    match p
    case Empty => []
    case Atom(s) => [s]
    case List(_) => ElemsFrom(p, 0)
  }

  /** The steps of the members of a list from position k on. */
  function ElemsFrom(p: Path, k: nat): seq<Step>
    requires p.List? && k <= |p.parts|
    decreases p, 0, |p.parts| - k
  {
    if k == |p.parts| then [] else Elems(p.parts[k]) + ElemsFrom(p, k + 1)
  }

  /** The steps of a list are the steps of its first member followed by those of the rest. */
  lemma ElemsCons(x: Path, xs: seq<Path>)
    ensures Elems(List([x] + xs)) == Elems(x) + Elems(List(xs))
  {
    ElemsFromShift(x, xs, 0);
  }

  lemma {:induction false} ElemsFromShift(x: Path, xs: seq<Path>, k: nat)
    requires k <= |xs|
    ensures ElemsFrom(List([x] + xs), k + 1) == ElemsFrom(List(xs), k)
    decreases |xs| - k
  {
    if k < |xs| {
      assert ([x] + xs)[k + 1] == xs[k];
      ElemsFromShift(x, xs, k + 1);
    }
  }

  /** The steps of the non-nil arguments of Join, in argument order; None stands for a nil Path. */
  function Flatten(args: seq<Option<Path>>): seq<Step> {
    if args == [] then [] else StepsOf(args[0]) + Flatten(args[1..])
  }

  /** The steps of a possibly nil path; nil has none. */
  function StepsOf(x: Option<Path>): seq<Step> {
    if x.Some? then Elems(x.value) else []
  }

  /** The shapes Join returns: the empty path, one step, or a list of two or more steps. */
  predicate IsCanonical(p: Path) {
    match p
    case Empty => true
    case Atom(_) => true
    case List(ps) => |ps| >= 2 && forall i :: 0 <= i < |ps| ==> ps[i].Atom?
  }

  function Atoms(steps: seq<Step>): seq<Path> {
    seq(|steps|, i requires 0 <= i < |steps| => Atom(steps[i]))
  }

  lemma {:induction false} ElemsOfAtoms(p: Path, k: nat)
    requires p.List? && k <= |p.parts|
    requires forall i :: 0 <= i < |p.parts| ==> p.parts[i].Atom?
    ensures |ElemsFrom(p, k)| == |p.parts| - k
    ensures forall i :: 0 <= i < |p.parts| - k ==> ElemsFrom(p, k)[i] == p.parts[k + i].step
    decreases |p.parts| - k
  {
    if k < |p.parts| {
      ElemsOfAtoms(p, k + 1);
    }
  }

  /** The canonical path for a sequence of steps; its steps are exactly those given. */
  function Canonical(steps: seq<Step>): (r: Path)
    ensures Elems(r) == steps
    ensures IsCanonical(r)
  {
    if |steps| == 0 then Empty
    else if |steps| == 1 then Atom(steps[0])
    else
      var p := List(Atoms(steps));
      ElemsOfAtoms(p, 0);
      assert Elems(p) == steps;
      p
  }

  /**
    Join: drops nil arguments and concatenates the steps of the others, in order,
    into the canonical path for them.
   */
  function Join(args: seq<Option<Path>>): (r: Path)
    ensures Elems(r) == Flatten(args)
    ensures IsCanonical(r)
  {
    Canonical(Flatten(args))
  }

  lemma FlattenCons(x: Option<Path>, xs: seq<Option<Path>>)
    ensures Flatten([x] + xs) == StepsOf(x) + Flatten(xs)
  {
    assert ([x] + xs)[0] == x;
    assert ([x] + xs)[1..] == xs;
  }

  lemma {:induction false} FlattenAppend(a: seq<Option<Path>>, b: seq<Option<Path>>)
    ensures Flatten(a + b) == Flatten(a) + Flatten(b)
  {
    if a != [] {
      assert a + b == [a[0]] + (a[1..] + b);
      assert a == [a[0]] + a[1..];
      FlattenCons(a[0], a[1..] + b);
      FlattenCons(a[0], a[1..]);
      FlattenAppend(a[1..], b);
    } else {
      assert a + b == b;
    }
  }

  lemma FlattenSmall(a: Option<Path>, b: Option<Path>, c: Option<Path>)
    ensures Flatten([a]) == StepsOf(a)
    ensures Flatten([a, b]) == StepsOf(a) + StepsOf(b)
    ensures Flatten([a, b, c]) == StepsOf(a) + StepsOf(b) + StepsOf(c)
  {
    FlattenCons(c, []);
    FlattenCons(b, []);
    FlattenCons(a, []);
    assert [b, c] == [b] + [c];
    FlattenCons(b, [c]);
    assert [a, b] == [a] + [b];
    FlattenCons(a, [b]);
    assert [a, b, c] == [a] + [b, c];
    FlattenCons(a, [b, c]);
  }

  /** A canonical path is determined by its steps. */
  lemma CanonicalUnique(p: Path, q: Path)
    requires IsCanonical(p) && IsCanonical(q) && Elems(p) == Elems(q)
    ensures p == q
  {
    if p.List? {
      ElemsOfAtoms(p, 0);
    }
    if q.List? {
      ElemsOfAtoms(q, 0);
    }
    if p.List? && q.List? {
      assert |p.parts| == |q.parts|;
      forall i | 0 <= i < |p.parts|
        ensures p.parts[i] == q.parts[i]
      {
        assert Elems(p)[i] == Elems(q)[i];
      }
    }
  }

  /** Joining a canonical path alone gives it back; in particular Join of one Join is that Join. */
  lemma JoinSingle(p: Path)
    requires IsCanonical(p)
    ensures Join([Some(p)]) == p
  {
    FlattenSmall(Some(p), None, None);
    CanonicalUnique(Join([Some(p)]), p);
  }

  /** Join of no non-nil path is the empty path, and the empty path is an identity of Join on both sides. */
  lemma JoinIdentity(p: Option<Path>)
    ensures Join([]) == Empty
    ensures Join([Some(Empty), p]) == Join([p])
    ensures Join([p, Some(Empty)]) == Join([p])
  {
    FlattenSmall(Some(Empty), p, None);
    FlattenSmall(p, Some(Empty), None);
  }

  /** Nil arguments are dropped wherever they stand. */
  lemma JoinDropsNil(xs: seq<Option<Path>>, ys: seq<Option<Path>>)
    ensures Join(xs + [None] + ys) == Join(xs + ys)
  {
    var nil: seq<Option<Path>> := [None];
    assert Flatten(nil) == [] by {
      assert nil[1..] == [];
    }
    FlattenAppend(xs + nil, ys);
    FlattenAppend(xs, nil);
    FlattenAppend(xs, ys);
    assert Flatten(xs + [None] + ys) == Flatten(xs + ys);
  }

  /** Join is associative: nesting makes no difference, step for step and as a value. */
  lemma JoinAssociative(a: Option<Path>, b: Option<Path>, c: Option<Path>)
    ensures Join([Some(Join([a, b])), c]) == Join([a, b, c])
    ensures Join([a, Some(Join([b, c]))]) == Join([a, b, c])
  {
    FlattenSmall(a, b, c);
    FlattenSmall(b, c, None);
    FlattenSmall(Some(Join([a, b])), c, None);
    FlattenSmall(a, Some(Join([b, c])), None);
  }

  /** Canonicalising the steps of a canonical path gives it back. */
  lemma CanonicalRoundTrip(p: Path)
    requires IsCanonical(p)
    ensures Canonical(Elems(p)) == p
  {
    CanonicalUnique(Canonical(Elems(p)), p);
  }

  // ---------------------------------------------------------------------------
  // Traversal
  // ---------------------------------------------------------------------------

  /** The steps taken left to right from v; the first failing step fails the whole. */
  function Fold(steps: seq<Step>, v: Value): (r: Result)
    ensures steps == [] ==> r == Ok(v)
    ensures steps != [] && !IsValid(v) ==> r == ErrTodo
    ensures steps != [] && StepTraverse(steps[0], v).ErrTodo? ==> r == ErrTodo
  {
    if steps == [] then Ok(v)
    else match StepTraverse(steps[0], v)
      case ErrTodo => ErrTodo
      case Ok(w) => Fold(steps[1..], w)
  }

  /** Continues a traversal that reached r with the steps that follow. */
  function Then(r: Result, steps: seq<Step>): Result {
    match r
    case ErrTodo => ErrTodo
    case Ok(w) => Fold(steps, w)
  }

  /**
    The Traverse method of a path. The empty path is the identity on valid values
    and fails on the invalid one; on a valid value every path is the left fold
    of its steps; a canonical path fails on the invalid value.
   */
  function Traverse(p: Path, v: Value): (r: Result)
    ensures p.Empty? ==> (r.Ok? <==> IsValid(v)) && (r.Ok? ==> r.value == v)
    ensures IsValid(v) ==> r == Fold(Elems(p), v)
    ensures IsCanonical(p) && !IsValid(v) ==> r == ErrTodo
  {
    match p
    case Empty => if !IsValid(v) then ErrTodo else Ok(v)
    case Atom(s) => StepTraverse(s, v)
    case List(_) =>
      assert IsCanonical(p) ==> Elems(p) != [] by {
        if IsCanonical(p) {
          ElemsOfAtoms(p, 0);
        }
      }
      Fold(Elems(p), v)
  }

  /** Traversing a concatenation traverses the first part, then the second from where it ended. */
  lemma {:induction false} FoldAppend(a: seq<Step>, b: seq<Step>, v: Value)
    ensures Fold(a + b, v) == Then(Fold(a, v), b)
  {
    if a == [] {
      assert a + b == b;
    } else {
      assert (a + b)[0] == a[0];
      assert (a + b)[1..] == a[1..] + b;
      match StepTraverse(a[0], v)
      case ErrTodo =>
      case Ok(w) => FoldAppend(a[1..], b, w);
    }
  }

  /** Once a prefix of the steps fails, the whole traversal fails. */
  lemma FoldAbortsOnFailure(steps: seq<Step>, k: nat, v: Value)
    requires k <= |steps| && Fold(steps[..k], v) == ErrTodo
    ensures Fold(steps, v) == ErrTodo
  {
    FoldAppend(steps[..k], steps[k..], v);
    assert steps[..k] + steps[k..] == steps;
  }

  /** A traversal from a well-formed value that succeeds reaches a well-formed value. */
  lemma {:induction false} FoldWellFormed(steps: seq<Step>, v: Value)
    requires WellFormed(v) && Fold(steps, v).Ok?
    ensures WellFormed(Fold(steps, v).value)
  {
    if steps != [] {
      StepWellFormed(steps[0], v);
      FoldWellFormed(steps[1..], StepTraverse(steps[0], v).value);
    }
  }

  lemma TraverseWellFormed(p: Path, v: Value)
    requires WellFormed(v) && Traverse(p, v).Ok?
    ensures WellFormed(Traverse(p, v).value)
  {
    FoldWellFormed(Elems(p), v);
  }

  /**
    Traversing Join(a, b) from a well-formed value is traversing a and then b
    from where a ended.
   */
  lemma TraverseJoin(a: Path, b: Path, v: Value)
    requires WellFormed(v)
    ensures Traverse(Join([Some(a), Some(b)]), v) ==
            match Traverse(a, v)
            case ErrTodo => ErrTodo
            case Ok(w) => Traverse(b, w)
  {
    FlattenSmall(Some(a), Some(b), None);
    FoldAppend(Elems(a), Elems(b), v);
    if Traverse(a, v).Ok? {
      TraverseWellFormed(a, v);
    }
  }

  /**
    The conditions under which a name not declared directly in the struct v is
    promoted through its field j: no earlier embedded field supplies the name,
    and j is embedded, exported and the field its own name resolves to.
   */
  predicate PromotedThrough(v: Value, name: string, j: nat) {
    && v.Struct? && j < |v.fields|
    && DirectField(v.fields, name).None?
    && (forall k :: 0 <= k < j ==> PromotedVia(v.fields[k], name).None?)
    && v.fields[j].embedded && v.fields[j].exported
    && DirectField(v.fields, v.fields[j].name) == Some(j)
  }

  /**
    A field promoted from a struct embedded by value is reached alike by its own
    name and by the route through the embedded field.
   */
  lemma PromotedByValue(v: Value, name: string, j: nat)
    requires PromotedThrough(v, name, j) && v.fields[j].val.Struct?
    requires FindField(v.fields[j].val, name).Some?
    ensures Traverse(Atom(ExportedField(name)), v) ==
            Traverse(Join([Some(Atom(ExportedField(v.fields[j].name))), Some(Atom(ExportedField(name)))]), v)
  {
    var n := v.fields[j].name;
    FindPromotedSkips(v, name, 0, j);
    FlattenSmall(Some(Atom(ExportedField(n))), Some(Atom(ExportedField(name))), None);
    assert Fold([ExportedField(n), ExportedField(name)], v) == Fold([ExportedField(name)], v.fields[j].val);
  }

  /**
    A field promoted from a struct embedded through a non-nil pointer is reached
    alike by its own name and by the route through the field and the pointer.
   */
  lemma PromotedByPointer(v: Value, name: string, j: nat)
    requires PromotedThrough(v, name, j)
    requires v.fields[j].val.Ptr? && v.fields[j].val.target.Some? && v.fields[j].val.target.value.Struct?
    requires FindField(v.fields[j].val.target.value, name).Some?
    ensures Traverse(Atom(ExportedField(name)), v) ==
            Traverse(Join([Some(Atom(ExportedField(v.fields[j].name))), Some(Atom(Deref)), Some(Atom(ExportedField(name)))]), v)
  {
    var n := v.fields[j].name;
    var inner := v.fields[j].val.target.value;
    FindPromotedSkips(v, name, 0, j);
    FlattenSmall(Some(Atom(ExportedField(n))), Some(Atom(Deref)), Some(Atom(ExportedField(name))));
    var steps := [ExportedField(n), Deref, ExportedField(name)];
    assert Elems(Join([Some(Atom(ExportedField(n))), Some(Atom(Deref)), Some(Atom(ExportedField(name)))])) == steps;
    assert steps[1..] == [Deref, ExportedField(name)];
    assert steps[1..][1..] == [ExportedField(name)];
    assert StepTraverse(ExportedField(n), v) == Ok(v.fields[j].val);
    assert StepTraverse(Deref, v.fields[j].val) == Ok(inner);
    assert Fold(steps, v) == Fold([ExportedField(name)], inner);
    var l := FindField(inner, name).value;
    assert FindField(v, name) == Some(Located([j] + l.index, l.field));
  }

  /**
    When the embedded pointer is nil and no later embedded field supplies the
    name, the field is reached neither by its own name nor by the route through
    the pointer.
   */
  lemma PromotedThroughNil(v: Value, name: string, j: nat)
    requires PromotedThrough(v, name, j) && v.fields[j].val.Ptr? && v.fields[j].val.target.None?
    requires forall k :: j < k < |v.fields| ==> PromotedVia(v.fields[k], name).None?
    ensures Traverse(Atom(ExportedField(name)), v) == ErrTodo
    ensures Traverse(Join([Some(Atom(ExportedField(v.fields[j].name))), Some(Atom(Deref)), Some(Atom(ExportedField(name)))]), v) == ErrTodo
  {
    var n := v.fields[j].name;
    FindPromotedSkips(v, name, 0, |v.fields|);
    FlattenSmall(Some(Atom(ExportedField(n))), Some(Atom(Deref)), Some(Atom(ExportedField(name))));
    var steps := [ExportedField(n), Deref, ExportedField(name)];
    assert Elems(Join([Some(Atom(ExportedField(n))), Some(Atom(Deref)), Some(Atom(ExportedField(name)))])) == steps;
    assert steps[1..] == [Deref, ExportedField(name)];
    assert StepTraverse(ExportedField(n), v) == Ok(v.fields[j].val);
    assert StepTraverse(Deref, v.fields[j].val) == ErrTodo;
    assert Fold(steps, v) == ErrTodo;
  }

  /** pathListElem.Traverse: the loop over the list's steps that stops at the first failure. */
  method TraverseList(parts: seq<Path>, v: Value) returns (r: Result)
    ensures r == Traverse(List(parts), v)
  {
    var steps := Elems(List(parts));
    var cur := v;
    var i := 0;
    while i < |steps|
      invariant 0 <= i <= |steps|
      invariant Fold(steps, v) == Fold(steps[i..], cur)
    {
      assert steps[i..][1..] == steps[i + 1..];
      match StepTraverse(steps[i], cur) {
        case ErrTodo =>
          return ErrTodo;
        case Ok(w) =>
          cur := w;
      }
      i := i + 1;
    }
    r := Ok(cur);
  }

  // ---------------------------------------------------------------------------
  // Rendering
  // ---------------------------------------------------------------------------

  /** The String method of an atomic step: a non-empty text between angle brackets. */
  function StepText(s: Step): (r: string)
    ensures |r| >= 2 && r[0] == '<' && r[|r| - 1] == '>'
  {
    match s
    case Deref => "<deref>"
    case Inter => "<inter>"
    case Index(i) => "<index " + IntText(i) + ">"
    case MapKey(k) => "<map key " + ValueText(k) + ">"
    case MapValueOfKey(k) => "<map value of key " + ValueText(k) + ">"
    case ExportedField(name) => "<exported field " + name + ">"
  }

  function Texts(steps: seq<Step>): seq<string> {
    seq(|steps|, i requires 0 <= i < |steps| => StepText(steps[i]))
  }

  /**
    The String method of a path: "<empty path>" for the empty path, and for a
    list the empty text exactly when it has no steps; so a path Join returns
    never renders empty.
   */
  function Text(p: Path): (r: string)
    ensures p.Empty? ==> r == "<empty path>"
    ensures p.List? ==> (r == "" <==> Elems(p) == [])
    ensures IsCanonical(p) ==> r != ""
  {
    match p
    case Empty => "<empty path>"
    case Atom(s) => StepText(s)
    case List(_) =>
      BuildIsInterleave(Texts(Elems(p)));
      assert IsCanonical(p) ==> Elems(p) != [] by {
        if IsCanonical(p) {
          ElemsOfAtoms(p, 0);
        }
      }
      Build(Texts(Elems(p)))
  }

  /**
    A joined path renders as "<empty path>" when it has no steps, and otherwise
    as the renderings of its steps with " / " between them.
   */
  lemma JoinText(args: seq<Option<Path>>)
    ensures Text(Join(args)) ==
            if Flatten(args) == [] then "<empty path>" else Interleave(Texts(Flatten(args)))
  {
    var steps := Flatten(args);
    if |steps| >= 2 {
      BuildIsInterleave(Texts(steps));
    }
  }

  lemma TextsAppend(a: seq<Step>, b: seq<Step>)
    ensures Texts(a + b) == Texts(a) + Texts(b)
  {
  }

  /** The rendering of Join(a, b), when both have steps, is a's rendering, " / ", then b's. */
  lemma JoinTextSplits(a: Path, b: Path)
    requires Elems(a) != [] && Elems(b) != []
    ensures Text(Join([Some(a), Some(b)])) == Text(Join([Some(a)])) + " / " + Text(Join([Some(b)]))
  {
    FlattenSmall(Some(a), Some(b), None);
    FlattenSmall(Some(b), None, None);
    var ta, tb := Texts(Elems(a)), Texts(Elems(b));
    JoinText([Some(a), Some(b)]);
    JoinText([Some(a)]);
    JoinText([Some(b)]);
    TextsAppend(Elems(a), Elems(b));
    InterleaveAppend(ta, tb);
  }

  /** pathListElem.String: the builder loop over the list's steps. */
  method ListString(parts: seq<Path>) returns (s: string)
    ensures s == Text(List(parts))
  {
    var steps := Elems(List(parts));
    var b := "";
    for i := 0 to |steps|
      invariant b == Build(Texts(steps[..i]))
    {
      assert Texts(steps[..i + 1])[..i] == Texts(steps[..i]);
      if |b| > 0 {
        b := b + " / ";
      }
      b := b + StepText(steps[i]);
    }
    assert steps[..|steps|] == steps;
    s := b;
  }
}
