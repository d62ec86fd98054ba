# Reflection paths and patterns, modelled in Dafny

This project models the two packages of go-reflection-playground that navigate
Go values obtained by reflection.

- **valpath** gives deterministic paths. A path is the empty path, one atomic
  step, or a flattened list of steps. The steps are `Deref`, `Inter`,
  `Index(i)`, `MapKey(k)`, `MapValueOfKey(k)` and `ExportedField(name)`.
  - `Traverse` follows a path from a value. It yields the value reached, or
    fails with the single error `ErrTodo`.
  - `Join` drops nil paths, flattens the rest and returns a canonical path.
  - `String` renders a path.
- **valpattern** gives wildcard patterns. Each element matches a value and
  yields `(path, sub-value)` pairs.
  - The elements are a lifted path, `AllExportedFields`, `AllMapKeys`,
    `AllMapValues`, and a `joined` composite built by `New`.
  - A composite matches by frontier expansion: each leaf, in turn, extends
    every pair of the frontier.

The files are:

- `reflect.dfy` (module `Reflect`) models a `reflect.Value` as the datatype
  `Value`. It also holds the reflection queries the code uses:
  - `IsNil`, `ElemOf` and `MapIndex`;
  - field resolution for `FieldByName` with `FieldByIndexErr` (`FindField`);
  - `VisibleFields` (`Walk`, `Visible`);
  - `WellFormed`, the invariant of every value the model represents (no
    invalid value inside, distinct map keys of the map's key type, distinct
    non-blank field names). The Go values it does not cover are listed under
    Left out.
- `render.dfy` (module `Render`) models the `strings.Builder` loop shared by
  both String methods, and `%d`.
- `valpath.dfy` (module `ValPath`) models package valpath.
  - The per-step traversals and `Join` are functions.
  - `pathListElem.Traverse` and `pathListElem.String` are loops, so they are
    methods (`TraverseList`, `ListString`). Each is proved equal to the
    function (`Traverse`, `Text`) about which the algebra is proved.
- `valpattern.dfy` (module `ValPattern`) models package valpattern.
  - The leaf matches, `Elems` and `New` are functions.
  - `joined.Match` and `joined.String` are loops, so they are methods:
    `MatchJoined`/`ExpandFrontier` and `JoinedString`. Each is proved against
    the functions `Expand` and `Text`.

Central results:

- `Join` is canonical, associative, has the empty path as identity and
  drops nil.
- Traversal of a join is traversal of one part, then the other.
- A promoted field is reached exactly as the explicit route through its
  embedded field reaches it, when that embedded field is exported, is the
  field its own name resolves to, and no earlier embedded field supplies the
  name.
- With the corrections recorded under Findings, every pair a pattern yields
  from a well-formed value names a route that `Traverse` follows to that
  pair's value (`Sound`). As written, the map wildcards yield pairs whose
  routes fail (`MapKeysAsWrittenDiverge`, `MapValuesAsWrittenDiverge`).

Behaviour of the code that the model keeps as it is:

- Every failure is the one sentinel `ErrTodo`, whose own text marks it as a
  placeholder (valpath/valpath.go:14). There is no taxonomy of errors.
- A composite with no children yields the single pair (nil path, v), even
  when v is invalid (valpattern/valpattern.go:162-165).
- The frontier of `joined.Match` starts empty (valpattern/valpattern.go:170).
  So every composite `New` can build, which has two or more leaves, matches
  nothing. The author's note at valpattern/valpattern.go:160 doubts the loop.
  The package's test at valpattern/valpattern_test.go:52-56 expects the pair
  (valpath.Empty(), 42) from a pattern `valpattern.Empty()` that valpattern.go
  does not define. If that pattern is `Path(valpath.Empty())`, a lone leaf,
  the test passes as written, so it is no firm evidence either way. The model
  has both starts and records the difference under Findings.
- `AllMapKeys` pairs each key route with the entry's value, while following
  that route with `MapKeyPart.Traverse` returns the key
  (valpath/valpath.go:224); both map wildcards also wrap the key a second
  time. The model has both forms and records the difference under Findings.

## Model

| member | source | states |
|---|---|---|
| Reflect.ElemOf | valpath/valpath.go:111-122 | the target of a non-nil pointer, or the dynamic value of a non-nil interface |
| Reflect.KeyIndex | valpath/valpath.go:218-221 | the first entry stored under k, or none exactly when no entry has key k |
| Reflect.MapIndex | valpath/valpath.go:218-221 | a valid result is the value of an entry stored under k in a non-nil map; a nil map or a missing key gives the invalid Value |
| Reflect.MapIndexFinds | valpath/valpath.go:218-221 | in a well-formed map, lookup of a present key never reports "not found" |
| Reflect.MapIndexAt | valpattern/valpattern.go:86 | in a well-formed non-nil map, looking up an entry's key gives that entry's value, since keys are distinct |
| Reflect.DirectField | valpath/valpath.go:297-300 | the first field declared with the name, or none exactly when no field has it |
| Reflect.FindField | valpath/valpath.go:296-310 | the field a name resolves to carries that name; a direct field of that name wins, at index [i] |
| Reflect.PromotedVia | valpath/valpath.go:297 | an embedded field supplies a name only when it promotes a struct, and what it supplies carries the name |
| Reflect.FieldByName | valpattern/valpattern.go:60 | the value of the field that name resolves to, a direct field first, and the invalid Value when the name resolves to nothing |
| Reflect.FieldByNamePromoted | valpattern/valpattern.go:60 | a name no field declares gives the value supplied by the first embedded field that promotes it |
| Reflect.Walk | valpattern/valpattern.go:57 | at least one walked entry per declared field, the first declared field first |
| Reflect.WalkFromSuffix | valpattern/valpattern.go:57 | the walk from any field on is a suffix of the whole walk |
| Reflect.WalkAt | valpattern/valpattern.go:57 | every declared field is walked, and the fields it promotes follow it at once, as in reflect.VisibleFields |
| Reflect.WalkOrdered | valpattern/valpattern.go:57 | declared fields are walked in declaration order |
| Reflect.WalkDistinct | valpattern/valpattern.go:57 | no field is walked twice: the walked fields lie on distinct index routes |
| Reflect.WalkedFieldFound | valpath/valpath.go:297-300 | the name of every walked field resolves to some field, so a name present in the struct is found |
| Reflect.FoundInWalk | valpattern/valpattern.go:57-60 | every field a name resolves to is among the visible fields walked by VisibleFields |
| Reflect.FoundFieldWellFormed | valpath/valpath.go:305-310 | a field resolved in a well-formed struct holds a well-formed value |
| Reflect.FindPromotedSkips | valpath/valpath.go:297-300 | embedded fields that supply nothing under the name do not affect the search |
| Reflect.IsNil | valpath/valpath.go:118 | nil exactly for a pointer with no target, an interface with no dynamic value, or a nil map |
| Reflect.ValueText | valpath/valpath.go:196-198 | a string renders as itself, any other value between angle brackets |
| Reflect.ValueOfValue | valpath/valpath.go:191 | wrapping a reflect.Value in reflect.ValueOf gives a valid struct of the type reflect.Value, whatever it wraps |
| Render.InterleaveAppend | valpath/valpath.go:67-80 | rendering two non-empty lists in one puts exactly one " / " where they meet |
| Render.BuildIsInterleave | valpath/valpath.go:67-80 | the builder loop, which writes " / " only once something has been written, gives the parts separated by " / "; a non-empty list of non-empty parts renders non-empty |
| ValPath.DerefTraverse | valpath/valpath.go:111-122 | succeeds exactly on a non-nil pointer, and then gives its target |
| ValPath.InterTraverse | valpath/valpath.go:140-151 | succeeds exactly on a non-nil interface, and then gives its dynamic value |
| ValPath.IndexTraverse | valpath/valpath.go:169-182 | succeeds exactly on an array or slice with 0 <= i < length, and then gives element i |
| ValPath.MapKeyTraverse | valpath/valpath.go:200-225 | success implies a non-nil map, a valid key of the map's key type, and the key present, and gives the key itself; in a well-formed map those conditions suffice |
| ValPath.MapValueOfKeyTraverse | valpath/valpath.go:243-268 | success gives the value of an entry stored under the key; it succeeds exactly when MapKey does |
| ValPath.ExportedFieldTraverse | valpath/valpath.go:289-311 | succeeds exactly on a struct in which the name resolves to an exported field, and gives that field's value |
| ValPath.StepTraverse | valpath/valpath.go:111-311 | no step accepts the invalid value |
| ValPath.StepWellFormed | valpath/valpath.go:111-311 | a step taken from a well-formed value reaches a well-formed value |
| ValPath.Elems | valpath/valpath.go:61-63 | the empty path and a list with no members have no steps; an atomic step is its own single step |
| ValPath.ElemsCons | valpath/valpath.go:93-99 | the steps of a list are its first member's steps, then the rest's |
| ValPath.Canonical | valpath/valpath.go:35-41 | the path built has exactly the given steps and is canonical (empty, one step, or a list of two or more steps) |
| ValPath.Join | valpath/valpath.go:26-42 | the result's steps are the non-nil arguments' steps in order, and the result is canonical |
| ValPath.FlattenAppend | valpath/valpath.go:27-33 | the steps of a concatenation of arguments are the concatenation of their steps |
| ValPath.CanonicalUnique | valpath/valpath.go:35-41 | two canonical paths with the same steps are equal |
| ValPath.JoinSingle | valpath/valpath.go:38-39 | joining a canonical path alone gives it back |
| ValPath.JoinIdentity | valpath/valpath.go:34-38 | Join of nothing is the empty path; the empty path is a left and right identity of Join |
| ValPath.JoinDropsNil | valpath/valpath.go:28-30 | a nil argument anywhere makes no difference |
| ValPath.JoinAssociative | valpath/valpath.go:26-42 | Join(Join(a, b), c) = Join(a, b, c) = Join(a, Join(b, c)) |
| ValPath.CanonicalRoundTrip | valpath/valpath.go:93-99 | canonicalising the steps of a canonical path gives it back |
| ValPath.Traverse | valpath/valpath.go:54-59 | the empty path returns a valid value unchanged and fails on the invalid one; on a valid value every path is the left fold of its steps; a canonical path fails on the invalid value |
| ValPath.Fold | valpath/valpath.go:82-91 | no steps return the value; a failing first step, or an invalid value, fails the whole |
| ValPath.FoldAppend | valpath/valpath.go:82-91 | following a concatenation of steps follows the first part, then the second from where the first ended |
| ValPath.FoldAbortsOnFailure | valpath/valpath.go:83-87 | once a prefix of the steps fails, the whole traversal fails |
| ValPath.FoldWellFormed | valpath/valpath.go:82-91 | a successful traversal from a well-formed value reaches a well-formed value |
| ValPath.TraverseWellFormed | valpath/valpath.go:82-91 | the same for a path |
| ValPath.TraverseJoin | valpath/valpath.go:26-42 | traversing Join(a, b) from a well-formed value is traversing a, then b from a's result |
| ValPath.PromotedByValue | valpath/valpath.go:286-311 | when the embedded field is exported, is the field its own name resolves to, and no earlier embedded field supplies the name, a field promoted from a struct embedded by value is reached alike by its own name and by the route through the embedded field |
| ValPath.PromotedByPointer | valpath/valpath.go:286-311 | when the embedded field is exported, is the field its own name resolves to, and no earlier embedded field supplies the name, a field promoted through a non-nil embedded pointer is reached alike by its own name and by the route field, deref, field |
| ValPath.PromotedThroughNil | valpath/valpath.go:305-309 | behind a nil embedded pointer, when no other embedded field supplies the name, both the promoted name and the explicit route fail |
| ValPath.TraverseList | valpath/valpath.go:82-91 | the loop that reassigns the current value step by step and stops at the first failure computes the path's traversal |
| ValPath.StepText | valpath/valpath.go:107-109 | every step renders as a non-empty text between angle brackets |
| ValPath.Text | valpath/valpath.go:50-80 | the empty path renders "<empty path>"; a list renders empty exactly when it has no steps; a path Join returns never renders empty |
| ValPath.JoinText | valpath/valpath.go:50-52 | a joined path renders as "<empty path>" when it has no steps, and otherwise as its steps' texts separated by " / " |
| ValPath.JoinTextSplits | valpath/valpath.go:67-80 | Join(a, b) renders as a's rendering, " / ", then b's |
| ValPath.ListString | valpath/valpath.go:67-80 | the builder loop computes the path's rendering |
| ValPattern.MatchPath | valpattern/valpattern.go:31-37 | at most one pair; one exactly when the path can be followed, and its route is the path itself |
| ValPattern.MatchPathSound | valpattern/valpattern.go:31-37 | the pair's value is the path's traversal from the value |
| ValPattern.ExportedPairs | valpattern/valpattern.go:57-62 | every pair is the route to an exported field that reaches the pair's value; every visible exported field walked is paired with its value |
| ValPattern.MatchAllExportedFields | valpattern/valpattern.go:53-56 | nothing for a value that is not a struct |
| ValPattern.MatchAllExportedFieldsSound | valpattern/valpattern.go:53-63 | every pair is sound, and every exported field a name resolves to, direct or promoted, is yielded with its value |
| ValPattern.ExportedPairSound | valpattern/valpattern.go:57-62 | each pair yielded on a struct names a field whose route reaches the pair's value |
| ValPattern.ExportedFieldYielded | valpattern/valpattern.go:57-62 | an exported field that a name resolves to is yielded with that field's value |
| ValPattern.MatchAllExportedFieldsOnce | valpattern/valpattern.go:57-62 | no two pairs share a route, so each exported field is yielded once |
| ValPattern.ExportedPairsFrom | valpattern/valpattern.go:57-62 | every pair names a field its name resolves to, taken from the walked fields |
| ValPattern.ExportedPairsDistinct | valpattern/valpattern.go:57-62 | walked fields on distinct routes give pairs on distinct routes |
| ValPattern.MatchAllMapKeysAsWritten | valpattern/valpattern.go:79-89 | nothing for a nil or non-map value; otherwise one pair per entry; its value and route are given by MapKeysAsWrittenDiverge |
| ValPattern.MapKeysAsWrittenDiverge | valpattern/valpattern.go:86 | in every well-formed map whose key type is not reflect.Value, pair i carries entry i's value, not its key, and its route fails |
| ValPattern.MatchAllMapKeys | valpattern/valpattern.go:79-89 | nothing for a nil or non-map value; otherwise one pair per entry |
| ValPattern.MatchAllMapKeysSound | valpattern/valpattern.go:79-89 | in a well-formed value every pair is sound, and every key is yielded with a route to it |
| ValPattern.MatchAllMapValuesAsWritten | valpattern/valpattern.go:105-121 | nothing for a nil or non-map value; otherwise one pair per entry, so the count is the map's size; its routes are given by MapValuesAsWrittenDiverge |
| ValPattern.MapValuesAsWrittenDiverge | valpattern/valpattern.go:119 | in every well-formed map whose key type is not reflect.Value, pair i carries entry i's value on a route that fails |
| ValPattern.MatchAllMapValues | valpattern/valpattern.go:105-121 | nothing for a nil or non-map value; otherwise one pair per entry, so the count is the map's size |
| ValPattern.MapValueRoute | valpath/valpath.go:243-268 | in a well-formed non-nil map, the route through an entry's key reaches that entry's value |
| ValPattern.MatchAllMapValuesSound | valpattern/valpattern.go:105-121 | in a well-formed value every pair is sound, and every entry is yielded with its value |
| ValPattern.LeafMatch | valpattern/valpattern.go:31-121 | every pair has a route; a lifted path yields at most one pair; a wildcard yields nothing from the invalid Value |
| ValPattern.LeafMatchSound | valpattern/valpattern.go:31-121 | every leaf element yields only sound pairs from a well-formed value |
| ValPattern.Elems | valpattern/valpattern.go:188-194 | only leaves are yielded; a leaf yields just itself |
| ValPattern.ElemsCons | valpattern/valpattern.go:188-194 | the leaves of a composite are its first child's leaves, then the rest's |
| ValPattern.ElemsAppend | valpattern/valpattern.go:188-194 | the leaves of a concatenation of children are the concatenation of their leaves |
| ValPattern.NonNil | valpattern/valpattern.go:128-132 | nothing is left exactly when every argument is nil |
| ValPattern.New | valpattern/valpattern.go:127-141 | nil exactly when every argument is nil; one non-nil argument is returned unchanged; two or more become their composite, in order; either way the leaves are the non-nil arguments' leaves |
| ValPattern.Collapse | valpattern/valpattern.go:134-140 | no element gives nil, one gives that element, two or more give their composite; the leaves are the elements' leaves |
| ValPattern.NewDropsNil | valpattern/valpattern.go:128-132 | a nil argument anywhere makes no difference |
| ValPattern.NewPresent | valpattern/valpattern.go:127-141 | New of any number of present elements: one is returned unchanged, two or more give their composite |
| ValPattern.NewSmall | valpattern/valpattern.go:137-140 | two or three present elements, written as literals, give their composite |
| ValPattern.NewAssociative | valpattern/valpattern.go:127-141 | New(New(a, b), c) and New(a, New(b, c)) have the same leaves as New(a, b, c) |
| ValPattern.LeafText | valpattern/valpattern.go:27-29 | a wildcard renders between angle brackets; a lifted path Join returns never renders empty |
| ValPattern.Text | valpattern/valpattern.go:145-158 | a composite never renders empty, and renders "<empty pattern>" when it has no leaves |
| ValPattern.JoinedText | valpattern/valpattern.go:145-158 | a composite renders as "<empty pattern>" with no leaves, and otherwise as its leaves' texts separated by " / " |
| ValPattern.JoinedString | valpattern/valpattern.go:145-158 | the builder loop computes the composite's rendering |
| ValPattern.Extend | valpattern/valpattern.go:173-180 | one pair per match of the leaf on the pair's value |
| ValPattern.ExpandOne | valpattern/valpattern.go:172-183 | a lifted path never makes the next frontier larger than the current one |
| ValPattern.Expand | valpattern/valpattern.go:170-184 | nothing grows out of an empty frontier, whatever the leaves |
| ValPattern.ExpandPathsNarrow | valpattern/valpattern.go:31-37 | lifted paths never branch: the frontier does not grow through them |
| ValPattern.ExpandOneLength | valpattern/valpattern.go:172-183 | the next frontier has as many pairs as matches found from all pairs of the current one |
| ValPattern.ExpandOneAppend | valpattern/valpattern.go:172-183 | the next frontier of a concatenation is the concatenation of the next frontiers |
| ValPattern.ExpandOneComplete | valpattern/valpattern.go:172-183 | every match of every frontier pair, with its route joined onto the pair's, is in the next frontier |
| ValPattern.ExtendSound | valpattern/valpattern.go:176-179 | extending a sound pair from a well-formed root gives sound pairs |
| ValPattern.ExpandOneSound | valpattern/valpattern.go:172-183 | one expansion step keeps the frontier sound |
| ValPattern.ExpandSound | valpattern/valpattern.go:171-184 | the whole expansion keeps the frontier sound |
| ValPattern.ExtendFrontier | valpattern/valpattern.go:172-183 | the loop over the frontier that appends each pair's extensions computes the next frontier |
| ValPattern.ExpandFrontier | valpattern/valpattern.go:170-184 | the loop that rebuilds the frontier once per leaf computes the expansion |
| ValPattern.MatchJoinedAsWritten | valpattern/valpattern.go:160-186 | no children gives (nil, v); an invalid value gives nothing; with the empty start a composite with children gives nothing at all |
| ValPattern.MatchJoined | valpattern/valpattern.go:160-186 | as above, but from the start (empty path, v) the result is the expansion, and every pair is sound for a well-formed value |
| ValPattern.MapKeysDiscrepancy | valpattern/valpattern.go:86 | on {"key": 42} the written pair's route fails and carries 42; the intended pair is sound and carries the key |
| ValPattern.MapValuesDiscrepancy | valpattern/valpattern.go:119 | on {"key": 42} the written pair's route fails; the intended pair is sound |
| ValPattern.EmptyStartDiscrepancy | valpattern/valpattern.go:170 | New(Path(Empty()), Path(Empty())) is a two-leaf composite; on 42 it yields nothing as written, and (empty path, 42) from the intended start |

## Findings

| source | as written | input that shows it | evidently intended | confidence | as-written member | corrected member |
|---|---|---|---|---|---|---|
| valpattern/valpattern.go:170 | the frontier starts as an empty slice, so every expansion step maps nothing to nothing | New(Path(valpath.Empty()), Path(valpath.Empty())), matched against the int 42, yields no pair | start from the single pair (empty path, v), so that a composite of lifted paths yields what its leaves yield; the author's doubt at line 160 points the same way | not executed | ValPattern.MatchJoinedAsWritten | ValPattern.MatchJoined |
| valpattern/valpattern.go:86 | AllMapKeys pairs the key route with MapIndex(k), the entry's value, while MapKeyPart.Traverse (valpath/valpath.go:224) returns the key | map[string]int {"key": 42}: the pair carries 42, not "key" | carry the key, so that the pair's route reaches the pair's value | not executed | ValPattern.MatchAllMapKeysAsWritten | ValPattern.MatchAllMapKeys |
| valpattern/valpattern.go:119 | the key, already a reflect.Value, goes through the generic MapValueOfKey (valpath/valpath.go:234), which wraps it in reflect.ValueOf a second time; the step's key then has type reflect.Value, so the step fails. When the map's key type is not an interface, Go fails because reflect.Value is not assignable to it; when it is an interface, the wrapped key is assignable but MapIndex finds no entry under it. The model states the first case: its assignability is equality of type names, so the interface-keyed case is not covered. The same holds for MapKey at line 86 | map[string]int {"key": 42}: the route of the pair yielded fails with ErrTodo | build the step from the key itself | not executed | ValPattern.MatchAllMapValuesAsWritten | ValPattern.MatchAllMapValues |

The counterexamples are the lemmas `ValPattern.EmptyStartDiscrepancy`,
`ValPattern.MapKeysDiscrepancy` and `ValPattern.MapValuesDiscrepancy`. The
leaf dispatch `LeafMatch` and the frontier expansion use the corrected members.

## Left out

- Go's reflection runtime is replaced by the `Value` datatype. Type
  assignability (`AssignableTo`) is equality of type names, so a key of any
  type is never assignable to an interface key type here; for
  interface-keyed maps the double wrap of line 119 fails in Go because
  `MapIndex` finds no entry, and the discrepancy lemmas require a key type
  other than `reflect.Value` and do not cover that route. Map key lookup
  uses structural equality of values.
- Go values the model does not represent: pointers carry no identity, so
  pointer map keys, which Go compares by address, are not modelled; NaN
  map keys, which make equal-looking keys distinct, and cyclic values are
  not represented either. `WellFormed` describes only the values the model
  represents, and the soundness lemmas hold for those.
- MatchAllExportedFields yields its pairs in the walk's order by
  construction; `WalkAt` and `WalkOrdered` state that order (declaration
  order, promoted fields right after their embedded field), which is the
  order Go documents for `VisibleFields`.
- Field resolution checks direct fields first, then searches the embedded
  structs depth first in declaration order. Go's `FieldByName` searches
  breadth first and treats two fields at the same depth as ambiguous. The two
  differ only when several embedded structs supply the same name.
- A nil embedded pointer contributes no fields to `FindField` or `Walk`. Go
  knows the promoted fields from the static type. So when a later embedded
  struct supplies the same name, Go fails on the nil pointer while the model
  finds the later field.
- MatchAllExportedFields: Go's `VisibleFields` lists the fields promoted
  through a nil embedded pointer, and `FieldByName` then panics on them. The
  model does not list them, so it yields no pair for them and does not model
  the panic. The soundness lemmas therefore hold for such values too, and say
  nothing about the panic.
- Laziness, early stop and the iterator plumbing of go-iters are left out.
  Every sequence is a finite `seq`.
- The runtime's map iteration order is arbitrary. Entries are listed in a
  fixed order, and the properties proved are counts and membership, never
  order.
- `ValueText` follows `reflect.Value.String` only as far as `<T Value>` and
  the string kind. Formatting of other keys is not modelled.
- The `<nil>` branch of `pathListElem.String` is left out. `Join` never puts
  a nil member into a list, so a `List` here holds only paths.
- `Text` of a leaf element rendering to "" is modelled as the builder behaves,
  but the lemma `JoinedText` assumes non-empty leaf texts.
- The constructors `Deref()`, `Inter()`, `Index`, `MapKey`, `MapValueOfKey`,
  `ExportedField`, `Path`, `AllExportedFields()`, `AllMapKeys()` and
  `AllMapValues()` are the datatype constructors themselves. Apart from the
  double wrap recorded above, they have no logic.
- testtypes/types.go holds only fixture types, so it is not part of this
  model.
