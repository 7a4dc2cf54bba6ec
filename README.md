# fig: a verified model of the configuration resolver

fig resolves configuration values from a nested settings tree. A value is named by a
`/`-separated path such as `/dev/app/url`:
- every segment but the last is a scope chain;
- the last segment is the key.

The value for a key comes from the **deepest scope on the chain that directly holds the key**.
Root-level entries act as defaults for every path. A string value that starts with the marker
`#REF:` is a reference: the rest of the string is another path, looked up in turn. A hop limit
cuts reference cycles.

Beside single lookups, the resolver does two more things:
- it lists the keys at a path;
- it flattens a path's values into one map.

## How the model is organised

The project models the `TreeReader` class of `fig/main.py` and the module-level copies in
`test/test_main.py`. It has six modules:

- **Paths** (`paths.dfy`): Python's `str.split` and `str.join` for a one-character separator,
  with their round trips.
- **Tree** (`tree.dfy`): the tree and two ways of walking it down a chain of segments.
  - Values are `Val` (string, integer or boolean); a tree node is a scalar or an ordered list of
    entries.
  - `Lookup` is `m[k]` on a mapping.
  - `Reach` and `Candidate` are the descent through mappings and the override candidate.
  - `Walk` steps through the chain exactly as the lookup loop does. It can step onto a scalar,
    since Python's `tmpdata = tmpdata[p]` lets it. From there a later non-empty segment raises
    TypeError, and so does the key check, unless the scalar is a string that does not contain the
    key.
- **Resolution** (`resolution.dfy`): what the resolver computes, as functions of the tree.
  - `StepAt` is one level of lookup and `Resolve` is `get_val`.
  - `Listing` is `list_path`.
  - `Overlay` is the key loop of `get_path_vals`, and `PathVals` is `get_path_vals` itself.
  - All the properties are proved here: override precedence, error kinds, the hop bound, what
    the listing holds and what the flattening stores.
- **FigMain** (`fig_main.dfy`): `class TreeReader`.
  - It has two `const` fields, the tree and the hop limit, set by the constructor and only read
    afterwards.
  - Its methods `GetVal`, `ListPath` and `GetPathVals` run the loops of the source, over a node
    cursor and a candidate.
  - Each method is proved to compute the matching function of Resolution.
- **TestMain** (`test_main.dfy`): the test module.
  - The fixture tree is a set of constants.
  - The module-level `get_val` and `list_path` delegate to a `TreeReader` over the fixture.
  - The module's own **downward** `get_path_vals` is a method with its in-place merge loop,
    proved against the function `FlattenDown`.
  - Every assertion of the test functions is a lemma about the fixture.
- **AncestorFold** (`ancestor_fold.dfy`): how folding in ancestors compares with looking up at
  the target path. The source's fold agrees on every key without `/`, except for a key whose lookup at
  the target path names a subtree: a deeper scope holds it as a mapping, or as a reference that
  leads to one (see Findings). A corrected fold prunes such keys and agrees on every key without
  `/`. The class keeps the source's fold.

The lemmas `FigMain.WalkTurn`, `FigMain.DescendStep`,
`TestMain.FlattenStart` and `TestMain.MergeStep` unfold one step of a function for the loop
proofs. They are proof helpers and have no row below.

Errors are a result datatype, not exceptions:

| Dafny `Error` | Python |
|---|---|
| `PathError` | `PCPathError` |
| `ValueError` | `PCValueError` |
| `RefError` | `PCRefError` |
| `TraversalError` | a KeyError or TypeError escaping the walk |

There is no I/O:
- the tree and the hop limit are constructor parameters;
- logging is left out.

## Model

| member | source | states |
|---|---|---|
| Paths.Split | fig/main.py:26-27 | `str.split` never returns an empty list, and no piece contains the separator |
| Paths.SplitLength | fig/main.py:26-27 | splitting gives one piece more than there are separators |
| Paths.JoinSplit | fig/main.py:81-83 | `sep.join(s.split(sep)) == s` |
| Paths.SplitNoSep | fig/main.py:26-27 | a string without the separator splits into itself alone |
| Paths.SplitAppend | fig/main.py:81-83 | the split of `a + sep + b` is the split of `a` followed by the split of `b` |
| Paths.SplitJoin | fig/main.py:81-83 | `"/".join(parts).split("/") == parts` for separator-free pieces, so the parent path splits into the path's pieces minus the last |
| Paths.ChildSplit | fig/main.py:89 | `f"{path}/{key}"` for a key without `/` splits into the path's pieces plus the key |
| Tree.Keys | fig/main.py:70 | `list(m.keys())` has one key per entry, in the mapping's order |
| Tree.LookupFound | fig/main.py:38-39 | `m[k]` exists exactly for the keys of the mapping and is the value of an entry of that name |
| Tree.LookupFirst | fig/main.py:38-39 | with unique keys, `m[k]` is the value of the one entry named `k` |
| Tree.Descend | fig/main.py:66-68 | the descent of `list_path` through mappings: an empty segment stays put; a non-empty one succeeds exactly when the child exists and is a mapping, and yields that mapping |
| Tree.NonEmpty | fig/main.py:36 | the segments kept include no empty one and are no more than the chain's |
| Tree.ReachIgnoresEmpty | fig/main.py:35-37 | descending through a chain is descending through its non-empty segments alone |
| Tree.ReachPrefix | fig/main.py:35-37 | if the end of a chain is reachable, every prefix of it is |
| Tree.WalkOnMaps | fig/main.py:30-39 | while every step lands on a mapping, the lookup walk is the descent and its candidate is the override candidate |
| Tree.WalkOffMaps | fig/main.py:35-39 | a walk that goes on past the mappings stands on a string, and its candidate is still that of a reachable prefix: a scalar passed on the way never supplies the value |
| Tree.StuckBeyond | fig/main.py:35-39 | once an exception is raised in the walk, the whole walk fails |
| Tree.OccursNeedsRoom | fig/main.py:38 | `key in s` is false when the key is longer than the string |
| Tree.CandidateAbsent | fig/main.py:30-39 | there is no candidate exactly when no scope on the chain, the root included, holds the key |
| Tree.CandidateIsDeepest | fig/main.py:30-39 | override precedence: the candidate is the entry of the deepest scope holding the key, whatever shallower scopes hold |
| Tree.RootDefault | fig/main.py:30-32 | a key held only at the root is found at the root from any chain of mappings |
| Tree.ChildLower | test/test_main.py:118-119 | a child is strictly lower than the mapping that holds it |
| Tree.ReachKeepsSegmentKeys | test/test_main.py:118-119 | every mapping reached from a tree whose keys are path segments has segment keys too |
| Resolution.Prefix | fig/main.py:26 | the scope chain has two pieces fewer than the split, none for a path without `/`, and is the pieces between the first and the last |
| Resolution.Key | fig/main.py:27 | the key is the last piece and contains no `/` |
| Resolution.Classify | fig/main.py:41-53 | no candidate is a value error; a mapping is a path error and is never dereferenced; a marked string hops to the path after the marker; any other scalar is final |
| Resolution.StepAtOnMaps | fig/main.py:26-45 | along a chain of mappings, one level classifies the override candidate |
| Resolution.ResolvedIsNotRef | fig/main.py:47-56 | a successful lookup never yields a `#REF:` string. This holds of the model because the model does not swallow a TypeError inside a referenced lookup; the source can return the raw `#REF:` string then (see `FigMain.TreeReader.GetVal` under Left out) |
| Resolution.RefErrorIffChainTooLong | fig/main.py:47-51 | the lookup is a reference error exactly when the reference chain goes on for more hops than the limit allows, so at most `iter_limit + 1 - iteration` hops are taken |
| Resolution.ResolvedEndsChain | fig/main.py:47-56 | a successful value is the final scalar of a reference chain within the hop limit |
| Resolution.ChainEndResolves | fig/main.py:47-56 | conversely, a chain ending at a scalar within the hop limit is what the lookup returns |
| Resolution.SelfReferenceFails | fig/main.py:48-51 | a value referring to its own path is a reference error for every limit: the cycle is cut |
| Resolution.ListingIsReachedKeys | fig/main.py:64-70 | `list_path` lists exactly the keys of the mapping reached by the non-empty segments after the first piece, in order, and fails when the descent fails |
| Resolution.ListedKeyIsDirect | fig/main.py:85-89 | looking up `path/k` for a listed key walks the listing's scopes and takes the entry held directly at `path` |
| Resolution.OverlayIsUnion | fig/main.py:79-91 | the key loop over a seed map is the seed overwritten by the loop over nothing, and fails the same way |
| Resolution.OverlayValues | fig/main.py:87-91 | the key loop stores every key whose lookup succeeds, with its value; it keeps the seed's other entries and adds nothing else |
| Resolution.OverlaySucceeds | fig/main.py:87-91 | the key loop succeeds exactly when every key's lookup is a value or a subtree |
| Resolution.OverlayFirstError | fig/main.py:87-91 | the loop fails with the error of the first key whose lookup is neither a value nor a subtree |
| Resolution.ParentSplit | fig/main.py:81-83 | the parent path splits into the path's pieces without the last, so the ancestor recursion terminates |
| Resolution.PathValsFoldsAncestors | fig/main.py:81-93 | with `recursive`, the result is the parent's flattening overwritten by this level's own values, and any failure is the result |
| Resolution.PathValsLevel | fig/main.py:85-93 | without `recursive`, the result holds exactly the listed keys whose lookup succeeds, each with `get_val(path/key)` |
| Resolution.PathValsLevelSucceeds | fig/main.py:85-93 | without `recursive`, flattening succeeds exactly when the path lists and no listed key fails other than as a subtree |
| Resolution.PathValsOverridesAncestors | fig/main.py:81-91 | with `recursive`, a listed key whose lookup succeeds has its own value in the result, over any ancestor's |
| Resolution.ChildValBelowUnlisted | fig/main.py:35-39 | a key the scope `path` does not hold is looked up below `path` exactly as below its parent |
| Resolution.PathValsMatchesGetVal | fig/main.py:81-91 | with `recursive`, a key whose `get_val(path/k)` succeeds is in the result with that value, and a key in the result has its `get_val(path/k)` value unless that lookup names a subtree |
| AncestorFold.ShadowedAncestorSurvives | fig/main.py:81-91 | on `{"k": "x", "a": {"k": {}}}`, flattening `/a` gives `{"k": "x"}` while `get_val("/a/k")` is a path error |
| AncestorFold.OverlayPrunedValues | fig/main.py:87-91 | the corrected key loop holds a key of the loop exactly when its lookup succeeds, with that value, and leaves every other key as in the seed |
| AncestorFold.OverlayPrunedFails | fig/main.py:87-91 | the corrected key loop fails exactly when the source's does, with the same error |
| AncestorFold.PathValsPrunedFails | fig/main.py:81-91 | the corrected flattening fails exactly when the source's does, with the same error |
| AncestorFold.PathValsPrunedMatchesGetVal | fig/main.py:81-91 | for the corrected flattening, a key is in the result exactly when `get_val(path/k)` succeeds, and then with that value |
| AncestorFold.ShadowedAncestorPruned | fig/main.py:81-91 | on the same tree, the corrected flattening of `/a` is empty |
| FigMain.TreeReader.constructor | fig/main.py:13-16 | the reader holds the given tree and hop limit, 5 by default |
| FigMain.TreeReader.WalkScopes | fig/main.py:26-39 | the loop reassigning `tmpdata` and `val` computes exactly `Walk`: the candidate of the deepest scope holding the key, or the exception that stops it |
| FigMain.TreeReader.GetVal | fig/main.py:18-56 | the loop over the scope chain and the reference recursion compute exactly `Resolve`, and so have every property proved of it |
| FigMain.TreeReader.ListPath | fig/main.py:59-70 | the descent loop computes exactly `Listing` |
| FigMain.TreeReader.GetPathVals | fig/main.py:72-93 | the parent call plus the in-place key loop compute exactly `PathVals` |
| FigMain.NoReachBeyond | fig/main.py:66-68 | once the descent fails, the whole chain is unreachable |
| TestMain.GetVal | test/test_main.py:51-89 | the module-level copy computes `Resolve` over the fixture, just like the class |
| TestMain.ListPath | test/test_main.py:92-103 | the module-level copy computes `Listing` over the fixture |
| TestMain.ChildMeasure | test/test_main.py:114-120 | descending to a listed child lowers the tree height reached, so the downward recursion terminates on trees with segment keys |
| TestMain.MergeInto | test/test_main.py:119-120 | the `for k, v in ...items(): out[k] = v` loop leaves `out` overwritten by the subtree's map |
| TestMain.GetPathVals | test/test_main.py:105-122 | the downward `get_path_vals` on the fixture computes exactly `FlattenDown` |
| TestMain.MergeDownIsOverlay | test/test_main.py:112-122 | without `recursive`, the downward key loop is the class's key loop |
| TestMain.FlattenDownAgrees | test/test_main.py:105-122 | without `recursive`, the test copy's `get_path_vals` and the class's agree, failures included |
| TestMain.FlattenDownSupplied | test/test_main.py:105-122 | soundness: every entry of the downward flattening, with or without `recursive`, is the looked-up value of a key listed at the path or at a path below it |
| TestMain.FlattenDownComplete | test/test_main.py:105-122 | completeness, the converse: with `recursive`, a key listed at any path the loop goes down to through subtrees, whose lookup there succeeds, is in the result |
| TestMain.FlattenDownLevel | test/test_main.py:112-120 | one level of completeness: every listed key whose lookup succeeds is in the result, and with `recursive` each listed subtree flattens successfully and all its keys are in the result |
| TestMain.MergeDownKeeps | test/test_main.py:114-120 | the downward key loop only adds keys: the seed's keys stay, each remaining key whose lookup succeeds is stored, and with `recursive` each remaining subtree's flattened keys are merged in |
| TestMain.MergeDownSupplied | test/test_main.py:114-120 | the downward key loop, the merge of flattened subtrees included, keeps every entry supplied from at or below the path |
| TestMain.DataHasSegmentKeys | test/test_main.py:5-37 | every key of the fixture, at every level, is a non-empty segment without `/` |
| TestMain.RegularPathResolution | test/test_main.py:124-131 | `/global` is "one", `/dev/app/name` is "myapp", `/qa/app/count` is 10, `/qa/app/db_pass` is a value error, `/dev` is a path error |
| TestMain.PathOverlap | test/test_main.py:133-134 | `/dev/app/count` is the root default 7 |
| TestMain.References | test/test_main.py:136-138 | `/dev/app/db_pass` is "thepassword", and `/dev/app/url` is "dev.internal" through the root-level reference |
| TestMain.ReferenceOverlap | test/test_main.py:140-141 | `/qa/app/url` is "www.com" |
| TestMain.RecursiveRefs | test/test_main.py:143-146 | `/prod/app/url` is "www.com" after two hops, and `/too/much/recursion` is a reference error |
| TestMain.WalkThroughString | test/test_main.py:68-72 | past the string at `/dev/app/name` the walk goes on, so `/dev/app/name/count` is the root's 7; `/dev/app/name/my` fails because "my" occurs in "myapp" |
| TestMain.ListPathDev | test/test_main.py:148-149 | `list_path("/dev")` is `["app", "db"]`, in that order |
| TestMain.ListTestIsVacuous | test/test_main.py:149 | the assertion as written also accepts `[]`, `["db"]` and `["app", "db", "qa"]` |
| TestMain.FlattenTwoValues | test/test_main.py:114-116 | a level holding two plain values flattens to the map of those two |
| TestMain.FlattenTwoSubtrees | test/test_main.py:114-120 | with `recursive`, a level holding two subtrees flattens to their flattenings merged, the second over the first |
| TestMain.FlattenDevApp | test/test_main.py:152 | `/dev/app` flattens to {name: "myapp", db_pass: "thepassword"} |
| TestMain.FlattenDev | test/test_main.py:153 | `/dev` with `recursive` flattens to {name, db_pass, password} |
| TestMain.GetPathValsDev | test/test_main.py:151-153 | both assertions of `test_get_path_vals` |

## Left out

- Logging (`logging.getLogger`, `.debug`, `.info` and the `LOG_LEVEL` variable) is left out, because it has no effect on any result.
- The `dict(self.data)` shallow copies are left out, because the tree is never mutated. It is an immutable value, and the reader's fields are `const`.
- Python's distinct failure kinds are one `TraversalError`: the KeyError of a missing segment, and the TypeError of indexing a scalar, of `key in 7`, or of `s[key]` on a string containing the key. The walk's branches are modelled, including the substring test that decides whether a string lets it pass.
- `list_path` on a path that ends on a scalar raises AttributeError in Python (`.keys()`) or TypeError. The model gives `TraversalError`.
- FigMain.TreeReader.GetVal: the `except TypeError` around the reference hop (fig/main.py:52-53) is not reproduced. A TypeError raised inside the referenced lookup would be swallowed there, and the raw `#REF:` string returned. In the model, the inner failure is the result, which is why `Resolution.ResolvedIsNotRef` holds of the model but not of the source: on `{"a": "#REF:/b/s", "b": "str"}`, the source returns `"#REF:/b/s"` for `/a`.
- The insertion order of the output dictionaries of both `get_path_vals` versions is not modelled. They are maps.
- Values are strings, integers and booleans. Floats, None and lists are left out, because the tree holds none.
- TestMain.FlattenDown requires that every key of the tree is a non-empty segment without `/` (`SegmentKeys`), and so do `TestMain.MergeDown` and the lemmas about them. The copy in the source takes any tree. With a key `""` or a key containing `/`, `f"{path}/{key}"` need not name a deeper mapping, and the downward recursion need not terminate. On `{"a": {"": {"v": 1}}}`, `get_path_vals("/a", True)` lists `""`, `get_val("/a/")` raises PCPathError, and the recursion goes on with `/a/`, `/a//`, … until Python's recursion limit. `TestMain.GetPathVals` has no precondition: it proves `SegmentKeys` of the fixture.
- Mappings are entry lists, so a tree may repeat a key within one mapping. A Python dict holds each key once, and a dict literal with a repeated key keeps the last value. In the model, `Lookup` takes the first entry of that name and `Keys` lists a repeated key twice. Such trees stand for no dict. The fixture repeats no key.
- The pytest fixtures machinery and the exception classes are left out. `pytest.raises` becomes an equality with the matching `Err`.

## Findings

| source | as written | input that shows it | evidently intended | confidence | as-written member | corrected member |
|---|---|---|---|---|---|---|
| test/test_main.py:149 | `list_path("/dev").sort() == ["app","db"].sort()`. `list.sort()` sorts in place and returns None, so both sides are None | any listing, e.g. `[]` or `["db"]`, passes | `sorted(list_path("/dev")) == ["app", "db"]` | high, not executed | TestMain.ListTestIsVacuous | TestMain.ListPathDev |
| fig/main.py:81-91 | an ancestor's value survives when the key's lookup at the deeper scope names a subtree (the scope holds the key as a mapping, or as a reference leading to one): `get_val(f"{path}/{key}")` raises PCPathError, and `continue` leaves `out[key]` as the parent's flattening set it | `{"k": "x", "a": {"k": {}}}`: `get_path_vals("/a")` gives `{"k": "x"}`, but `get_val("/a/k")` raises PCPathError | the flattened map gives each key the value `get_val` gives at the target path, e.g. `out.pop(key, None)` before `continue` | medium, not executed | AncestorFold.ShadowedAncestorSurvives | AncestorFold.PathValsPrunedMatchesGetVal |
