/**
  The slice of Go's reflect package that path and pattern navigation relies on,
  as plain values. A Value is the runtime value a reflect.Value handle points at;
  every operation here only reads it.
 */
module Reflect {

  datatype Option<+T> = None | Some(value: T)

  /** A Go type, known only by its name; two types are the same when their names are. */
  type TypeName = string

  /**
    The kinds of value the navigation code distinguishes. Scalar stands for every
    kind that has nothing to navigate into (bool, numbers, channels, functions);
    Str is the string kind, kept apart because reflect renders it differently.
    Slice covers both arrays and slices; a nil slice is a Slice with no elements.
    A nil pointer, nil interface or nil map carries no target, no dynamic value
    or no entries. Map entries are listed in the runtime's iteration order,
    which the program treats as arbitrary.
   */
  datatype Value =
    | Invalid
    | Scalar(ty: TypeName, bits: int)
    | Str(ty: TypeName, text: string)
    | Ptr(ty: TypeName, target: Option<Value>)
    | Iface(ty: TypeName, dynamic: Option<Value>)
    | Slice(ty: TypeName, elems: seq<Value>)
    | Map(ty: TypeName, keyType: TypeName, isNil: bool, entries: seq<Entry>)
    | Struct(ty: TypeName, fields: seq<Field>)

  datatype Entry = Entry(key: Value, val: Value)

  /** A struct field: its name, whether it is exported, whether it is embedded (anonymous), and its value. */
  datatype Field = Field(name: string, exported: bool, embedded: bool, val: Value)

  /** A field found by name: its index sequence, as reflect's StructField.Index, and the field itself. */
  datatype Located = Located(index: seq<nat>, field: Field)

  predicate IsValid(v: Value) {
    !v.Invalid?
  }

  /** Value.IsNil, for the kinds the navigation code asks it of; a nil pointer or interface leads nowhere. */
  predicate IsNil(v: Value)
    requires v.Ptr? || v.Iface? || v.Map?
    ensures IsNil(v) <==> (v.Ptr? && v.target.None?) || (v.Iface? && v.dynamic.None?) || (v.Map? && v.isNil)
  {
    match v
    case Ptr(_, t) => t.None?
    case Iface(_, d) => d.None?
    case Map(_, _, isNil, _) => isNil
  }

  /** Value.Elem: the target of a pointer or the dynamic value of an interface. */
  function ElemOf(v: Value): (r: Value)
    requires (v.Ptr? || v.Iface?) && !IsNil(v)
    ensures v.Ptr? ==> Some(r) == v.target
    ensures v.Iface? ==> Some(r) == v.dynamic
  {
    if v.Ptr? then v.target.value else v.dynamic.value
  }

  /** The position of the first entry stored under key k, if any. */
  function KeyIndex(entries: seq<Entry>, k: Value): (r: Option<nat>)
    ensures r.Some? ==> r.value < |entries| && entries[r.value].key == k
    ensures r.Some? ==> forall i :: 0 <= i < r.value ==> entries[i].key != k
    ensures r.None? <==> forall i :: 0 <= i < |entries| ==> entries[i].key != k
  {
    if entries == [] then None
    else if entries[0].key == k then Some(0)
    else match KeyIndex(entries[1..], k)
      case None => None
      case Some(i) => Some(i + 1)
  }

  /** Value.MapIndex: the value stored under k, or the invalid Value when k is absent or the map is nil. */
  function MapIndex(v: Value, k: Value): (r: Value)
    requires v.Map?
    ensures IsValid(r) ==> !v.isNil && exists i :: 0 <= i < |v.entries| && v.entries[i] == Entry(k, r)
    ensures v.isNil || (forall i :: 0 <= i < |v.entries| ==> v.entries[i].key != k) ==> r == Invalid
  {
    if v.isNil then Invalid
    else match KeyIndex(v.entries, k)
      case None => Invalid
      case Some(i) => v.entries[i].val
  }

  /** Whether some entry of the map v is stored under k. */
  predicate HasKey(v: Value, k: Value)
    requires v.Map?
  {
    exists i :: 0 <= i < |v.entries| && v.entries[i].key == k
  }

  /** In a well-formed map, MapIndex finds every key the map holds. */
  lemma MapIndexFinds(v: Value, k: Value)
    ensures v.Map? && WellFormed(v) && HasKey(v, k) ==> IsValid(MapIndex(v, k))
  {
    if v.Map? && WellFormed(v) && HasKey(v, k) {
      var i := KeyIndex(v.entries, k).value;
      assert WellFormed(v.entries[i].val);
    }
  }

  /** In a well-formed map, looking up the key of an entry finds that entry's value. */
  lemma MapIndexAt(v: Value, i: nat)
    requires v.Map? && WellFormed(v) && !v.isNil && i < |v.entries|
    ensures MapIndex(v, v.entries[i].key) == v.entries[i].val
  {
    var es := v.entries;
    assert forall a, b :: 0 <= a < b < |es| ==> es[a].key != es[b].key;
    var j := KeyIndex(es, es[i].key).value;
    assert j == i;
  }

  /** Value.String: the string itself for the string kind, "<T Value>" otherwise. */
  function ValueText(v: Value): (r: string)
    ensures v.Str? ==> r == v.text
    ensures !v.Str? ==> |r| >= 2 && r[0] == '<' && r[|r| - 1] == '>'
  {
    match v
    case Invalid => "<invalid Value>"
    case Str(_, s) => s
    case _ => "<" + v.ty + " Value>"
  }

  /**
    reflect.ValueOf applied to something that is itself a reflect.Value: a struct
    value of the type reflect.Value. Its fields are unexported and play no part
    here, so they are not listed.
   */
  function ValueOfValue(k: Value): (r: Value)
    ensures r.Struct? && r.ty == "reflect.Value"
    ensures IsValid(r)
  {
    Struct("reflect.Value", [])
  }

  // ---------------------------------------------------------------------------
  // Field resolution (Type.FieldByName, Value.FieldByIndexErr, VisibleFields)
  // ---------------------------------------------------------------------------

  /** The first field of fs called name, if any. */
  function DirectField(fs: seq<Field>, name: string): (r: Option<nat>)
    ensures r.Some? ==> r.value < |fs| && fs[r.value].name == name
    ensures r.Some? ==> forall i :: 0 <= i < r.value ==> fs[i].name != name
    ensures r.None? <==> forall i :: 0 <= i < |fs| ==> fs[i].name != name
  {
    if fs == [] then None
    else if fs[0].name == name then Some(0)
    else match DirectField(fs[1..], name)
      case None => None
      case Some(i) => Some(i + 1)
  }

  /**
    The struct whose fields an embedded field promotes: the struct it holds by
    value, or the one its non-nil pointer points at.
   */
  predicate Promotes(f: Field) {
    f.embedded && (f.val.Struct? || (f.val.Ptr? && f.val.target.Some? && f.val.target.value.Struct?))
  }

  /**
    FieldByName followed by FieldByIndexErr, on the value s: a direct field of s
    wins; otherwise the embedded structs are searched in declaration order. An
    embedded nil pointer contributes nothing.
   */
  function FindField(s: Value, name: string): (r: Option<Located>)
    requires s.Struct?
    ensures r.Some? ==> r.value.field.name == name
    ensures DirectField(s.fields, name).Some? ==>
      r == Some(Located([DirectField(s.fields, name).value], s.fields[DirectField(s.fields, name).value]))
    ensures r.Some? ==> |r.value.index| >= 1 && r.value.index[0] < |s.fields|
    decreases s, 1
  {
    match DirectField(s.fields, name)
    case Some(i) => Some(Located([i], s.fields[i]))
    case None => FindPromoted(s, name, 0)
  }

  /** The search of FindField through the embedded fields of s from position j on. */
  function FindPromoted(s: Value, name: string, j: nat): (r: Option<Located>)
    requires s.Struct? && j <= |s.fields|
    ensures r.Some? ==> r.value.field.name == name
    ensures r.Some? ==> |r.value.index| >= 1 && j <= r.value.index[0] < |s.fields|
    decreases s, 0, |s.fields| - j
  {
    if j == |s.fields| then None
    else
      var f := s.fields[j];
      var found :=
        if !Promotes(f) then None
        else if f.val.Struct? then FindField(f.val, name)
        else FindField(f.val.target.value, name);
      match found
      case Some(l) => Some(Located([j] + l.index, l.field))
      case None => FindPromoted(s, name, j + 1)
  }

  /**
    What the embedded field f supplies under name: the field its promoted struct
    resolves name to, located within that struct.
   */
  function PromotedVia(f: Field, name: string): (r: Option<Located>)
    ensures r.Some? ==> Promotes(f) && r.value.field.name == name
  {
    if !Promotes(f) then None
    else if f.val.Struct? then FindField(f.val, name)
    else FindField(f.val.target.value, name)
  }

  /** Value.FieldByName: the value of the field that name resolves to, or the invalid Value when none does. */
  function FieldByName(s: Value, name: string): (r: Value)
    requires s.Struct?
    ensures FindField(s, name).None? ==> r == Invalid
    ensures DirectField(s.fields, name).Some? ==> r == s.fields[DirectField(s.fields, name).value].val
    ensures FindField(s, name).Some? ==> r == FindField(s, name).value.field.val
  {
    match FindField(s, name)
    case None => Invalid
    case Some(l) => l.field.val
  }

  /** Prefixes index i to the index sequence of every located field. */
  function Under(i: nat, ls: seq<Located>): seq<Located>
  {
    seq(|ls|, k requires 0 <= k < |ls| => Located([i] + ls[k].index, ls[k].field))
  }

  /**
    Every field of s in the order of reflect.VisibleFields before hidden fields
    are removed: each field, followed at once by the fields its embedded struct
    promotes.
   */
  function Walk(s: Value): (r: seq<Located>)
    requires s.Struct?
    ensures |r| >= |s.fields|
    ensures s.fields != [] ==> r[0] == Located([0], s.fields[0])
    decreases s, 1
  {
    WalkFrom(s, 0)
  }

  /** The walk of the fields of s from position j on. */
  function WalkFrom(s: Value, j: nat): (r: seq<Located>)
    requires s.Struct? && j <= |s.fields|
    ensures |r| >= |s.fields| - j
    ensures j < |s.fields| ==> r[0] == Located([j], s.fields[j])
    decreases s, 0, |s.fields| - j
  {
    if j == |s.fields| then []
    else
      var f := s.fields[j];
      var promoted :=
        if !Promotes(f) then []
        else if f.val.Struct? then Walk(f.val)
        else Walk(f.val.target.value);
      [Located([j], f)] + Under(j, promoted) + WalkFrom(s, j + 1)
  }

  /** The fields the embedded field j of s promotes, as walked within its struct. */
  function PromotedWalk(s: Value, j: nat): seq<Located>
    requires s.Struct? && j < |s.fields|
  {
    var f := s.fields[j];
    if !Promotes(f) then []
    else if f.val.Struct? then Walk(f.val)
    else Walk(f.val.target.value)
  }

  /** Where the walk of s reaches field j: the walk from j on is what is left of the whole walk there. */
  function WalkPos(s: Value, j: nat): int
    requires s.Struct? && j <= |s.fields|
  {
    |Walk(s)| - |WalkFrom(s, j)|
  }

  /** The walk from any position on is a suffix of the whole walk. */
  lemma {:induction false} WalkFromSuffix(s: Value, j: nat)
    requires s.Struct? && j <= |s.fields|
    ensures |WalkFrom(s, j)| <= |Walk(s)|
    ensures Walk(s)[WalkPos(s, j)..] == WalkFrom(s, j)
  {
    if j > 0 {
      WalkFromSuffix(s, j - 1);
      var head := [Located([j - 1], s.fields[j - 1])] + Under(j - 1, PromotedWalk(s, j - 1));
      assert WalkFrom(s, j - 1) == head + WalkFrom(s, j);
      assert (head + WalkFrom(s, j))[|head|..] == WalkFrom(s, j);
    }
  }

  /**
    The order of reflect.VisibleFields: field j is walked, at WalkPos(s, j), and
    the fields it promotes follow it at once.
   */
  lemma WalkAt(s: Value, j: nat)
    requires s.Struct? && j < |s.fields|
    ensures 0 <= WalkPos(s, j) < |Walk(s)|
    ensures Walk(s)[WalkPos(s, j)] == Located([j], s.fields[j])
    ensures WalkPos(s, j) + 1 + |PromotedWalk(s, j)| <= |Walk(s)|
    ensures Walk(s)[WalkPos(s, j) + 1..WalkPos(s, j) + 1 + |PromotedWalk(s, j)|] == Under(j, PromotedWalk(s, j))
    ensures Located([j], s.fields[j]) in Walk(s)
  {
    WalkFromSuffix(s, j);
    var head := [Located([j], s.fields[j])] + Under(j, PromotedWalk(s, j));
    assert WalkFrom(s, j) == head + WalkFrom(s, j + 1);
    assert (head + WalkFrom(s, j + 1))[1..1 + |PromotedWalk(s, j)|] == Under(j, PromotedWalk(s, j));
  }

  /** Fields are walked in declaration order. */
  lemma {:induction false} WalkOrdered(s: Value, i: nat, j: nat)
    requires s.Struct? && i < j < |s.fields|
    ensures WalkPos(s, i) < WalkPos(s, j)
    decreases j - i
  {
    var head := [Located([i], s.fields[i])] + Under(i, PromotedWalk(s, i));
    assert WalkFrom(s, i) == head + WalkFrom(s, i + 1);
    if i + 1 < j {
      WalkOrdered(s, i + 1, j);
    }
  }

  /** No two of the located fields ls lie on the same route. */
  predicate DistinctRoutes(ls: seq<Located>) {
    forall a, b :: 0 <= a < b < |ls| ==> ls[a].index != ls[b].index
  }

  /** Every route of ls is non-empty and starts at position lo or later. */
  predicate RoutesFrom(ls: seq<Located>, lo: nat) {
    forall a :: 0 <= a < |ls| ==> |ls[a].index| >= 1 && lo <= ls[a].index[0]
  }

  /** A field followed by the distinct routes it promotes, all placed under its position j. */
  lemma UnderDistinct(j: nat, f: Field, ls: seq<Located>)
    requires DistinctRoutes(ls) && RoutesFrom(ls, 0)
    ensures DistinctRoutes([Located([j], f)] + Under(j, ls))
    ensures forall a :: 0 <= a < |[Located([j], f)] + Under(j, ls)| ==>
      |([Located([j], f)] + Under(j, ls))[a].index| >= 1 && ([Located([j], f)] + Under(j, ls))[a].index[0] == j
  {
    var head := [Located([j], f)] + Under(j, ls);
    forall a, b | 0 <= a < b < |head|
      ensures head[a].index != head[b].index
    {
      if a == 0 {
        assert head[b].index == [j] + ls[b - 1].index;
      } else {
        assert head[a].index[1..] == ls[a - 1].index;
        assert head[b].index[1..] == ls[b - 1].index;
      }
    }
  }

  lemma ConcatDistinct(head: seq<Located>, rest: seq<Located>, j: nat)
    requires DistinctRoutes(head) && DistinctRoutes(rest) && RoutesFrom(rest, j + 1)
    requires forall a :: 0 <= a < |head| ==> |head[a].index| >= 1 && head[a].index[0] == j
    ensures DistinctRoutes(head + rest)
    ensures RoutesFrom(head + rest, j)
  {
    var r := head + rest;
    forall a, b | 0 <= a < b < |r|
      ensures r[a].index != r[b].index
    {
      if b >= |head| && a < |head| {
        assert r[a].index[0] == j < r[b].index[0];
      } else if a < |head| {
        assert r[a] == head[a] && r[b] == head[b];
      } else {
        assert r[a] == rest[a - |head|] && r[b] == rest[b - |head|];
      }
    }
  }

  /** The walked fields of s lie on distinct routes: no field is walked twice. */
  lemma {:induction false} WalkDistinct(s: Value)
    requires s.Struct?
    ensures DistinctRoutes(Walk(s)) && RoutesFrom(Walk(s), 0)
    decreases s, 1
  {
    WalkFromDistinct(s, 0);
  }

  lemma {:induction false} WalkFromDistinct(s: Value, j: nat)
    requires s.Struct? && j <= |s.fields|
    ensures DistinctRoutes(WalkFrom(s, j)) && RoutesFrom(WalkFrom(s, j), j)
    decreases s, 0, |s.fields| - j
  {
    if j < |s.fields| {
      var f := s.fields[j];
      var promoted :=
        if !Promotes(f) then []
        else if f.val.Struct? then Walk(f.val)
        else Walk(f.val.target.value);
      if Promotes(f) {
        WalkDistinct(if f.val.Struct? then f.val else f.val.target.value);
      }
      WalkFromDistinct(s, j + 1);
      UnderDistinct(j, f, promoted);
      ConcatDistinct([Located([j], f)] + Under(j, promoted), WalkFrom(s, j + 1), j);
    }
  }

  /** A walked field is visible when its name resolves to it and not to another field. */
  predicate Visible(s: Value, l: Located)
    requires s.Struct?
  {
    FindField(s, l.field.name) == Some(l)
  }

  /** A field that occurs in the walk of s from position j on still occurs in the walk from any earlier position. */
  lemma {:induction false} WalkFromGrows(s: Value, i: nat, j: nat, l: Located)
    requires s.Struct? && i <= j <= |s.fields| && l in WalkFrom(s, j)
    ensures l in WalkFrom(s, i)
    decreases j - i
  {
    if i < j {
      WalkFromGrows(s, i + 1, j, l);
    }
  }

  /** The search of FindPromoted from position i on finds a field whenever some embedded field from i on supplies one. */
  lemma {:induction false} FindPromotedFinds(s: Value, name: string, i: nat, k: nat)
    requires s.Struct? && i <= k < |s.fields| && PromotedVia(s.fields[k], name).Some?
    ensures FindPromoted(s, name, i).Some?
    decreases k - i
  {
    if i < k && PromotedVia(s.fields[i], name).None? {
      FindPromotedFinds(s, name, i + 1, k);
    }
  }

  /** Every walked field's name resolves to some field: a name present in the struct is found. */
  lemma {:induction false} WalkedFieldFound(s: Value, l: Located)
    requires s.Struct? && l in Walk(s)
    ensures FindField(s, l.field.name).Some?
    decreases s, 1
  {
    WalkedFromFound(s, 0, l);
  }

  lemma {:induction false} WalkedFromFound(s: Value, j: nat, l: Located)
    requires s.Struct? && j <= |s.fields| && l in WalkFrom(s, j)
    ensures FindField(s, l.field.name).Some?
    decreases s, 0, |s.fields| - j
  {
    var name := l.field.name;
    if DirectField(s.fields, name).None? {
      var f := s.fields[j];
      var promoted :=
        if !Promotes(f) then []
        else if f.val.Struct? then Walk(f.val)
        else Walk(f.val.target.value);
      assert WalkFrom(s, j) == [Located([j], f)] + Under(j, promoted) + WalkFrom(s, j + 1);
      if l in WalkFrom(s, j + 1) {
        WalkedFromFound(s, j + 1, l);
      } else {
        assert l != Located([j], f);
        var a :| 0 <= a < |promoted| && Under(j, promoted)[a] == l;
        var inner := if f.val.Struct? then f.val else f.val.target.value;
        WalkedFieldFound(inner, promoted[a]);
        assert PromotedVia(f, name).Some?;
        FindPromotedFinds(s, name, 0, j);
      }
    }
  }

  /** Every field a name resolves to is among the walked fields. */
  lemma {:induction false} FoundInWalk(s: Value, name: string)
    requires s.Struct?
    ensures FindField(s, name).Some? ==> FindField(s, name).value in Walk(s)
    decreases s, 1
  {
    match DirectField(s.fields, name)
    case Some(i) =>
      assert Located([i], s.fields[i]) in WalkFrom(s, i);
      WalkFromGrows(s, 0, i, Located([i], s.fields[i]));
    case None =>
      FoundPromotedInWalk(s, name, 0);
  }

  lemma {:induction false} FoundPromotedInWalk(s: Value, name: string, j: nat)
    requires s.Struct? && j <= |s.fields|
    ensures FindPromoted(s, name, j).Some? ==> FindPromoted(s, name, j).value in WalkFrom(s, j)
    decreases s, 0, |s.fields| - j
  {
    if j < |s.fields| {
      var f := s.fields[j];
      if Promotes(f) {
        var inner := if f.val.Struct? then f.val else f.val.target.value;
        FoundInWalk(inner, name);
        var found := FindField(inner, name);
        if found.Some? {
          var l := found.value;
          var k :| 0 <= k < |Walk(inner)| && Walk(inner)[k] == l;
          assert Under(j, Walk(inner))[k] == Located([j] + l.index, l.field);
          assert WalkFrom(s, j) == [Located([j], f)] + Under(j, Walk(inner)) + WalkFrom(s, j + 1);
          return;
        }
      }
      FoundPromotedInWalk(s, name, j + 1);
      if FindPromoted(s, name, j).Some? {
        assert FindPromoted(s, name, j) == FindPromoted(s, name, j + 1);
      }
    }
  }

  // ---------------------------------------------------------------------------
  // Well-formedness
  // ---------------------------------------------------------------------------

  /**
    The values the model represents: nothing inside a value is invalid, a
    map's keys are distinct and have its key type, a nil map has no entries, and
    a struct's field names are distinct, apart from blank "_" fields, which Go
    lets a struct repeat.
   */
  ghost predicate WellFormed(v: Value)
    decreases v
  {
    match v
    case Invalid => false
    case Scalar(_, _) => true
    case Str(_, _) => true
    case Ptr(_, t) => t.Some? ==> WellFormed(t.value)
    case Iface(_, d) => d.Some? ==> WellFormed(d.value)
    case Slice(_, es) => forall i :: 0 <= i < |es| ==> WellFormed(es[i])
    case Map(_, kt, isNil, es) =>
      && (isNil ==> es == [])
      && (forall i :: 0 <= i < |es| ==> WellFormed(es[i].key) && WellFormed(es[i].val))
      && (forall i :: 0 <= i < |es| ==> !es[i].key.Invalid? && es[i].key.ty == kt)
      && (forall i, j :: 0 <= i < j < |es| ==> es[i].key != es[j].key)
    case Struct(_, fs) =>
      && (forall i :: 0 <= i < |fs| ==> WellFormed(fs[i].val))
      && (forall i, j :: 0 <= i < j < |fs| && fs[i].name != "_" ==> fs[i].name != fs[j].name)
  }

  /** A field that name resolves to, in a well-formed struct, holds a well-formed value. */
  lemma {:induction false} FoundFieldWellFormed(s: Value, name: string)
    requires s.Struct? && WellFormed(s)
    ensures FindField(s, name).Some? ==> WellFormed(FindField(s, name).value.field.val)
    decreases s, 1
  {
    if DirectField(s.fields, name).None? {
      FoundPromotedWellFormed(s, name, 0);
    }
  }

  lemma {:induction false} FoundPromotedWellFormed(s: Value, name: string, j: nat)
    requires s.Struct? && WellFormed(s) && j <= |s.fields|
    ensures FindPromoted(s, name, j).Some? ==> WellFormed(FindPromoted(s, name, j).value.field.val)
    decreases s, 0, |s.fields| - j
  {
    if j < |s.fields| {
      var f := s.fields[j];
      assert WellFormed(f.val);
      if Promotes(f) {
        if f.val.Struct? {
          FoundFieldWellFormed(f.val, name);
        } else {
          FoundFieldWellFormed(f.val.target.value, name);
        }
      }
      FoundPromotedWellFormed(s, name, j + 1);
    }
  }

  /** Skipping embedded fields that supply nothing under name does not change what the embedded search finds. */
  lemma {:induction false} FindPromotedSkips(s: Value, name: string, i: nat, j: nat)
    requires s.Struct? && i <= j <= |s.fields|
    requires forall k :: i <= k < j ==> PromotedVia(s.fields[k], name).None?
    ensures FindPromoted(s, name, i) == FindPromoted(s, name, j)
    decreases j - i
  {
    if i < j {
      FindPromotedSkips(s, name, i + 1, j);
    }
  }

  /**
    FieldByName of a promoted name: when no field of s declares the name and
    field j is the first embedded field that supplies it, the value is the one
    field j supplies.
   */
  lemma FieldByNamePromoted(s: Value, name: string, j: nat)
    requires s.Struct? && j < |s.fields| && DirectField(s.fields, name).None?
    requires forall k :: 0 <= k < j ==> PromotedVia(s.fields[k], name).None?
    requires PromotedVia(s.fields[j], name).Some?
    ensures FieldByName(s, name) == PromotedVia(s.fields[j], name).value.field.val
  {
    FindPromotedSkips(s, name, 0, j);
  }
}
