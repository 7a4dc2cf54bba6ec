/** What the resolver computes, as functions of the tree: one level of lookup
    (override walk and classification), reference following under a hop limit,
    listing the keys at a path, and flattening a path's values together with its
    ancestors'. The class in fig_main.dfy is proved to compute exactly these. */
module Resolution {
  import opened Paths
  import opened Tree

  /** The failure kinds: PCPathError, PCValueError, PCRefError, and the
      KeyError/TypeError of a descent that cannot go on. */
  datatype Error = PathError | ValueError | RefError | TraversalError

  datatype Result<+T> = Ok(value: T) | Err(error: Error)

  /** The outcome of one level of lookup, before any reference is followed. */
  datatype Step = Fail(error: Error) | Hop(target: string) | Final(v: Val)

  /** The reference marker and the default hop limit. */
  const RefMarker: string := "#REF:"
  const DefaultIterLimit: int := 5

  /** `val[:5] == "#REF:"`: a string value that starts with the marker. */
  predicate IsRef(v: Val)
  {
    v.Str? && |v.s| >= 5 && v.s[..5] == RefMarker
  }

  /** `path.split("/")[1:-1]`: the scope chain of a lookup. */
  function Prefix(path: string): (segs: seq<string>)
    ensures var parts := Split(path, Slash);
            |segs| == if |parts| >= 2 then |parts| - 2 else 0
    ensures forall i :: 0 <= i < |segs| ==> segs[i] == Split(path, Slash)[i + 1]
  {
    var parts := Split(path, Slash);
    if |parts| >= 2 then parts[1..|parts| - 1] else []
  }

  /** `path.split("/")[-1]`: the key of a lookup. */
  function Key(path: string): (key: string)
    ensures Slash !in key
  {
    var parts := Split(path, Slash);
    parts[|parts| - 1]
  }

  /** `path.split("/")[1:]`: the segments `list_path` descends. */
  function ListSegs(path: string): seq<string>
  {
    Split(path, Slash)[1..]
  }

  /** What becomes of the candidate: none is a value error, a mapping is a path
      error, a reference is a hop to the path after the marker, any other scalar
      is the result. */
  function Classify(c: Option<Node>): (s: Step)
    ensures c.None? <==> s == Fail(ValueError)
    ensures (c.Some? && c.value.Map?) <==> s == Fail(PathError)
    ensures s.Hop? <==> c.Some? && c.value.Scalar? && IsRef(c.value.v)
    ensures s.Hop? ==> RefMarker + s.target == c.value.v.s
    ensures s.Final? <==> c.Some? && c.value.Scalar? && !IsRef(c.value.v)
    ensures s.Final? ==> c == Some(Scalar(s.v))
  {
    match c
    case None => Fail(ValueError)
    case Some(Map(_)) => Fail(PathError)
    case Some(Scalar(v)) =>
      if IsRef(v) then
        assert v.s == v.s[..5] + v.s[5..];
        Hop(v.s[5..])
      else Final(v)
  }

  /** One level of `get_val`: walk the scope chain (an exception raised on the
      way is a traversal error), then classify the candidate. */
  function StepAt(root: Entries, path: string): Step
  {
    match Walk(root, Prefix(path), Key(path))
    case Stuck => Fail(TraversalError)
    case At(_, cand) => Classify(cand)
  }

  /** Along a chain of mappings, one level classifies the override candidate:
      the entry of the deepest scope holding the key. */
  lemma StepAtOnMaps(root: Entries, path: string)
    requires Reach(root, Prefix(path)).Some?
    ensures StepAt(root, path) == Classify(Candidate(root, Prefix(path), Key(path)))
  {
    WalkOnMaps(root, Prefix(path), Key(path));
  }

  /** Hops still allowed at `iteration`: a hop is taken only while
      `iteration <= limit`. */
  function Allowed(limit: int, iteration: int): nat
  {
    if iteration <= limit then limit - iteration + 1 else 0
  }

  /** `get_val(path, iteration)`: resolve one level, and follow a reference
      while the hop limit allows it. */
  function Resolve(root: Entries, limit: int, path: string, iteration: int): Result<Val>
    decreases Allowed(limit, iteration)
  {
    match StepAt(root, path)
    case Fail(e) => Err(e)
    case Final(v) => Ok(v)
    case Hop(t) =>
      if iteration > limit then Err(RefError)
      else Resolve(root, limit, t, iteration + 1)
  }

  /** The path reached from `path` after following `n` references, if each of
      the first `n` levels on the way is a reference. */
  function Chain(root: Entries, path: string, n: nat): Option<string>
    decreases n
  {
    if n == 0 then Some(path)
    else
      match StepAt(root, path)
      case Hop(t) => Chain(root, t, n - 1)
      case _ => None
  }

  /** Reference transparency: a successful lookup never yields a reference. */
  lemma {:induction false} ResolvedIsNotRef(root: Entries, limit: int, path: string, iteration: int)
    requires Resolve(root, limit, path, iteration).Ok?
    ensures !IsRef(Resolve(root, limit, path, iteration).value)
    decreases Allowed(limit, iteration)
  {
    match StepAt(root, path)
    case Fail(_) =>
    case Final(v) =>
    case Hop(t) =>
      ResolvedIsNotRef(root, limit, t, iteration + 1);
  }

  /** Hop bound: the lookup fails with a reference error exactly when the chain
      of references goes on for more hops than are allowed, so at most
      `Allowed(limit, iteration)` hops are ever followed. */
  lemma {:induction false} RefErrorIffChainTooLong(root: Entries, limit: int, path: string, iteration: int)
    ensures Resolve(root, limit, path, iteration) == Err(RefError) <==>
            Chain(root, path, Allowed(limit, iteration) + 1).Some?
    decreases Allowed(limit, iteration)
  {
    match StepAt(root, path)
    case Fail(e) =>
    case Final(v) =>
    case Hop(t) =>
      assert Chain(root, path, Allowed(limit, iteration) + 1) == Chain(root, t, Allowed(limit, iteration));
      if iteration <= limit {
        RefErrorIffChainTooLong(root, limit, t, iteration + 1);
      }
  }

  /** The reference chain from `path` ends after `n` hops at the scalar `v`. */
  ghost predicate EndsAt(root: Entries, path: string, n: nat, v: Val)
  {
    Chain(root, path, n).Some? && StepAt(root, Chain(root, path, n).value) == Final(v)
  }

  /** A successful lookup is the final scalar of a reference chain no longer
      than the hop limit allows. */
  lemma {:induction false} ResolvedEndsChain(root: Entries, limit: int, path: string, iteration: int)
    requires Resolve(root, limit, path, iteration).Ok?
    ensures exists n :: 0 <= n <= Allowed(limit, iteration) &&
                        EndsAt(root, path, n, Resolve(root, limit, path, iteration).value)
    decreases Allowed(limit, iteration)
  {
    var v := Resolve(root, limit, path, iteration).value;
    match StepAt(root, path)
    case Final(w) =>
      assert EndsAt(root, path, 0, v);
    case Hop(t) =>
      ResolvedEndsChain(root, limit, t, iteration + 1);
      var m :| 0 <= m <= Allowed(limit, iteration + 1) && EndsAt(root, t, m, v);
      assert Chain(root, path, m + 1) == Chain(root, t, m);
      assert EndsAt(root, path, m + 1, v);
  }

  /** Conversely, a reference chain that ends at a scalar within the hop limit
      is what the lookup yields. */
  lemma {:induction false} ChainEndResolves(root: Entries, limit: int, path: string, iteration: int, n: nat, v: Val)
    requires n <= Allowed(limit, iteration)
    requires EndsAt(root, path, n, v)
    ensures Resolve(root, limit, path, iteration) == Ok(v)
    decreases n
  {
    if n > 0 {
      var t := StepAt(root, path).target;
      assert Chain(root, path, n) == Chain(root, t, n - 1);
      ChainEndResolves(root, limit, t, iteration + 1, n - 1, v);
    }
  }

  /** A value that refers to its own path (the level's candidate is the marker
      followed by the path itself) is always a reference error, however high
      the hop limit: the loop is cut, not followed forever. */
  lemma {:induction false} SelfReferenceFails(root: Entries, limit: int, path: string, iteration: int)
    requires StepAt(root, path) == Hop(path)
    ensures Resolve(root, limit, path, iteration) == Err(RefError)
    decreases Allowed(limit, iteration)
  {
    if iteration <= limit {
      SelfReferenceFails(root, limit, path, iteration + 1);
    }
  }

  /** `list_path(path)`: the keys, in order, of the mapping reached by the
      segments after the first; a failed descent is a traversal error. */
  function Listing(root: Entries, path: string): Result<seq<string>>
  {
    match Reach(root, ListSegs(path))
    case None => Err(TraversalError)
    case Some(e) => Ok(Keys(e))
  }

  /** `list_path` lists exactly the keys of the mapping reached through the
      non-empty segments after the first one: empty segments never descend. */
  lemma ListingIsReachedKeys(root: Entries, path: string)
    ensures Listing(root, path) ==
              match Reach(root, NonEmpty(ListSegs(path)))
              case None => Err(TraversalError)
              case Some(e) => Ok(Keys(e))
  {
    ReachIgnoresEmpty(root, ListSegs(path));
  }

  /** Looking up `path + "/" + k` for a key `k` listed at `path` walks the same
      scopes `list_path` did and takes the entry held directly at `path`. */
  lemma ListedKeyIsDirect(root: Entries, path: string, k: string)
    requires Reach(root, ListSegs(path)).Some?
    requires k in Keys(Reach(root, ListSegs(path)).value)
    requires Slash !in k
    ensures Prefix(path + "/" + k) == ListSegs(path) && Key(path + "/" + k) == k
    ensures StepAt(root, path + "/" + k) == Classify(Lookup(Reach(root, ListSegs(path)).value, k))
  {
    ChildSplit(path, k);
    LookupFound(Reach(root, ListSegs(path)).value, k);
    var p := Split(path, Slash);
    assert Split(path + "/" + k, Slash) == p + [k];
    assert (p + [k])[1..|p|] == p[1..];
    WalkOnMaps(root, ListSegs(path), k);
  }

  /** The lookup of the child `k` of `path`, as `get_path_vals` makes it. */
  function ChildVal(root: Entries, limit: int, path: string, k: string): Result<Val>
  {
    Resolve(root, limit, path + "/" + k, 0)
  }

  /** A lookup outcome `get_path_vals` gets past: a value, or a subtree. */
  predicate Skippable(r: Result<Val>)
  {
    r.Ok? || r == Err(PathError)
  }

  /** The key loop of `get_path_vals`: each key's value, looked up below
      `path`, is stored over `out`; a subtree is skipped; any other failure
      ends the loop. */
  function Overlay(root: Entries, limit: int, path: string, keys: seq<string>,
                   out: map<string, Val>): Result<map<string, Val>>
    decreases |keys|
  {
    if keys == [] then Ok(out)
    else
      match ChildVal(root, limit, path, keys[0])
      case Ok(v) => Overlay(root, limit, path, keys[1..], out[keys[0] := v])
      case Err(PathError) => Overlay(root, limit, path, keys[1..], out)
      case Err(e) => Err(e)
  }

  /** The key loop run over a seed map is the seed overwritten by the loop run
      over nothing, and fails the same way. */
  lemma {:induction false} OverlayIsUnion(root: Entries, limit: int, path: string, keys: seq<string>,
                                          out: map<string, Val>)
    ensures Overlay(root, limit, path, keys, out) ==
              match Overlay(root, limit, path, keys, map[])
              case Ok(m) => Ok(out + m)
              case Err(e) => Err(e)
    decreases |keys|
  {
    if keys != [] {
      var k := keys[0];
      match ChildVal(root, limit, path, k)
      case Ok(v) =>
        OverlayIsUnion(root, limit, path, keys[1..], out[k := v]);
        OverlayIsUnion(root, limit, path, keys[1..], map[k := v]);
        OverlayIsUnion(root, limit, path, keys[1..], map[]);
        var empty: map<string, Val> := map[];
        assert empty[k := v] == map[k := v];
        assert Overlay(root, limit, path, keys, out) == Overlay(root, limit, path, keys[1..], out[k := v]);
        assert Overlay(root, limit, path, keys, map[]) == Overlay(root, limit, path, keys[1..], map[k := v]);
        match Overlay(root, limit, path, keys[1..], map[]) {
          case Ok(m) =>
            assert out + (map[k := v] + m) == out[k := v] + m;
            assert Overlay(root, limit, path, keys[1..], out[k := v]) == Ok(out[k := v] + m);
            assert Overlay(root, limit, path, keys[1..], map[k := v]) == Ok(map[k := v] + m);
          case Err(_) =>
        }
      case Err(PathError) =>
        OverlayIsUnion(root, limit, path, keys[1..], out);
        assert Overlay(root, limit, path, keys, out) == Overlay(root, limit, path, keys[1..], out);
        assert Overlay(root, limit, path, keys, map[]) == Overlay(root, limit, path, keys[1..], map[]);
      case Err(_) =>
    } else {
      var empty: map<string, Val> := map[];
      assert out + empty == out;
    }
  }

  /** What the key loop stores: every key whose lookup succeeds, with that
      value, over the seed; the seed's other entries stay; nothing else. */
  lemma {:induction false} OverlayValues(root: Entries, limit: int, path: string, keys: seq<string>,
                                         out: map<string, Val>)
    requires Overlay(root, limit, path, keys, out).Ok?
    ensures var m := Overlay(root, limit, path, keys, out).value;
      && (forall k :: k in keys && ChildVal(root, limit, path, k).Ok? ==>
            k in m && m[k] == ChildVal(root, limit, path, k).value)
      && (forall k :: k in out && !(k in keys && ChildVal(root, limit, path, k).Ok?) ==>
            k in m && m[k] == out[k])
      && (forall k :: k in m ==> k in out || (k in keys && ChildVal(root, limit, path, k).Ok?))
    decreases |keys|
  {
    if keys != [] {
      var k := keys[0];
      assert forall x :: x in keys <==> x == k || x in keys[1..];
      match ChildVal(root, limit, path, k)
      case Ok(v) =>
        OverlayValues(root, limit, path, keys[1..], out[k := v]);
      case Err(PathError) =>
        OverlayValues(root, limit, path, keys[1..], out);
    }
  }

  /** When the key loop fails: it succeeds exactly when every key's lookup is a
      value or a subtree. */
  lemma {:induction false} OverlaySucceeds(root: Entries, limit: int, path: string, keys: seq<string>,
                                           out: map<string, Val>)
    ensures Overlay(root, limit, path, keys, out).Ok? <==>
              forall i :: 0 <= i < |keys| ==> Skippable(ChildVal(root, limit, path, keys[i]))
    decreases |keys|
  {
    if keys != [] {
      var k := keys[0];
      assert forall i :: 1 <= i < |keys| ==> keys[i] == keys[1..][i - 1];
      match ChildVal(root, limit, path, k)
      case Ok(v) =>
        OverlaySucceeds(root, limit, path, keys[1..], out[k := v]);
      case Err(PathError) =>
        OverlaySucceeds(root, limit, path, keys[1..], out);
      case Err(_) =>
    }
  }

  /** The error the key loop fails with is that of the first key whose lookup is
      neither a value nor a subtree. */
  lemma {:induction false} OverlayFirstError(root: Entries, limit: int, path: string, keys: seq<string>,
                                             out: map<string, Val>, i: nat)
    requires i < |keys| && !Skippable(ChildVal(root, limit, path, keys[i]))
    requires forall j :: 0 <= j < i ==> Skippable(ChildVal(root, limit, path, keys[j]))
    ensures Overlay(root, limit, path, keys, out) == Err(ChildVal(root, limit, path, keys[i]).error)
    decreases |keys|
  {
    if i > 0 {
      var k := keys[0];
      assert Skippable(ChildVal(root, limit, path, keys[0]));
      assert forall j :: 0 <= j < i - 1 ==> keys[1..][j] == keys[j + 1];
      match ChildVal(root, limit, path, k)
      case Ok(v) =>
        OverlayFirstError(root, limit, path, keys[1..], out[k := v], i - 1);
      case Err(PathError) =>
        OverlayFirstError(root, limit, path, keys[1..], out, i - 1);
    }
  }

  /** `"/".join(path.split("/")[:-1])`: the path one level up. */
  function Parent(path: string): string
    requires |Split(path, Slash)| > 1
  {
    var p := Split(path, Slash);
    Join(p[..|p| - 1], Slash)
  }

  /** The parent path splits into the pieces of `path` without its last one. */
  lemma ParentSplit(path: string)
    requires |Split(path, Slash)| > 1
    ensures Split(Parent(path), Slash) == Split(path, Slash)[..|Split(path, Slash)| - 1]
  {
    var p := Split(path, Slash);
    SplitJoin(p[..|p| - 1], Slash);
  }

  /** `get_path_vals(path, recursive)`: with `recursive` and an ancestor to go
      to, the parent's flattened map first; then the key loop at `path`. */
  function PathVals(root: Entries, limit: int, path: string, recursive: bool): Result<map<string, Val>>
    decreases |Split(path, Slash)|
  {
    var p := Split(path, Slash);
    var base: Result<map<string, Val>> :=
      if recursive && |p| > 1 then
        ParentSplit(path);
        PathVals(root, limit, Parent(path), true)
      else Ok(map[]);
    match base
    case Err(e) => Err(e)
    case Ok(out) =>
      match Listing(root, path)
      case Err(e) => Err(e)
      case Ok(keys) => Overlay(root, limit, path, keys, out)
  }

  /** Flattening with ancestors is the parent's flattened map overwritten by
      this level's own map; any failure on the way is the result. */
  lemma PathValsFoldsAncestors(root: Entries, limit: int, path: string)
    requires |Split(path, Slash)| > 1
    ensures PathVals(root, limit, path, true) ==
              match PathVals(root, limit, Parent(path), true)
              case Err(e) => Err(e)
              case Ok(up) =>
                match PathVals(root, limit, path, false)
                case Err(e) => Err(e)
                case Ok(here) => Ok(up + here)
  {
    match Listing(root, path)
    case Err(_) =>
    case Ok(keys) =>
      match PathVals(root, limit, Parent(path), true)
      case Err(_) =>
      case Ok(up) =>
        OverlayIsUnion(root, limit, path, keys, up);
  }

  /** Flattening without ancestors holds exactly the keys listed at `path`
      whose lookup succeeds, each with its looked-up value. */
  lemma PathValsLevel(root: Entries, limit: int, path: string)
    requires PathVals(root, limit, path, false).Ok?
    ensures Listing(root, path).Ok?
    ensures var m := PathVals(root, limit, path, false).value;
            var keys := Listing(root, path).value;
            forall k :: k in m <==> k in keys && ChildVal(root, limit, path, k).Ok?
    ensures var m := PathVals(root, limit, path, false).value;
            forall k :: k in m ==> m[k] == ChildVal(root, limit, path, k).value
  {
    OverlayValues(root, limit, path, Listing(root, path).value, map[]);
  }

  /** Flattening without ancestors succeeds exactly when `path` can be listed
      and no listed key's lookup fails other than by naming a subtree. */
  lemma PathValsLevelSucceeds(root: Entries, limit: int, path: string)
    ensures PathVals(root, limit, path, false).Ok? <==>
              Listing(root, path).Ok? &&
              forall i :: 0 <= i < |Listing(root, path).value| ==>
                Skippable(ChildVal(root, limit, path, Listing(root, path).value[i]))
  {
    if Listing(root, path).Ok? {
      OverlaySucceeds(root, limit, path, Listing(root, path).value, map[]);
    }
  }

  /** Deeper scope wins in the flattening: a key listed at `path` whose lookup
      succeeds has its own looked-up value in the result, over whatever the
      ancestors supplied. */
  lemma PathValsOverridesAncestors(root: Entries, limit: int, path: string, k: string)
    requires PathVals(root, limit, path, true).Ok?
    requires Listing(root, path).Ok? && k in Listing(root, path).value
    requires ChildVal(root, limit, path, k).Ok?
    ensures k in PathVals(root, limit, path, true).value
    ensures PathVals(root, limit, path, true).value[k] == ChildVal(root, limit, path, k).value
  {
    if |Split(path, Slash)| > 1 {
      PathValsFoldsAncestors(root, limit, path);
    }
    PathValsLevel(root, limit, path);
  }

  /** Looking up `path + "/" + k` walks the scopes `list_path(path)` descends,
      whether or not `k` is listed there. */
  lemma ChildStep(root: Entries, path: string, k: string)
    requires Reach(root, ListSegs(path)).Some?
    requires Slash !in k
    ensures Prefix(path + "/" + k) == ListSegs(path) && Key(path + "/" + k) == k
    ensures StepAt(root, path + "/" + k) == Classify(Candidate(root, ListSegs(path), k))
  {
    ChildSplit(path, k);
    var p := Split(path, Slash);
    assert (p + [k])[1..|p|] == p[1..];
    StepAtOnMaps(root, path + "/" + k);
  }

  /** A key not held at `path` is looked up below `path` exactly as below its
      parent: the scope `path` adds nothing to the override walk. */
  lemma ChildValBelowUnlisted(root: Entries, limit: int, path: string, k: string)
    requires |Split(path, Slash)| > 1
    requires Reach(root, ListSegs(path)).Some?
    requires Slash !in k && k !in Keys(Reach(root, ListSegs(path)).value)
    ensures Reach(root, ListSegs(Parent(path))).Some?
    ensures ChildVal(root, limit, path, k) == ChildVal(root, limit, Parent(path), k)
  {
    var s := ListSegs(path);
    ParentSplit(path);
    assert ListSegs(Parent(path)) == s[..|s| - 1];
    ChildStep(root, path, k);
    ChildStep(root, Parent(path), k);
    LookupFound(Reach(root, s).value, k);
    assert Candidate(root, s, k) == Candidate(root, s[..|s| - 1], k);
    assert StepAt(root, path + "/" + k) == StepAt(root, Parent(path) + "/" + k);
  }

  /** A key held at `path` gets its value from this level: the looked-up value
      when the lookup succeeds; otherwise the lookup names a subtree. */
  lemma PathValsListedKey(root: Entries, limit: int, path: string, k: string)
    requires |Split(path, Slash)| > 1 && PathVals(root, limit, path, true).Ok?
    requires k in Listing(root, path).value
    ensures var m := PathVals(root, limit, path, true).value;
            ChildVal(root, limit, path, k).Ok? ==> k in m && m[k] == ChildVal(root, limit, path, k).value
    ensures Skippable(ChildVal(root, limit, path, k))
  {
    PathValsFoldsAncestors(root, limit, path);
    PathValsLevelSucceeds(root, limit, path);
    PathValsLevel(root, limit, path);
    var keys := Listing(root, path).value;
    var i :| 0 <= i < |keys| && keys[i] == k;
  }

  /** A key not held at `path` is in the flattening exactly as in the parent's,
      and is looked up as below the parent. */
  lemma PathValsUnlistedKey(root: Entries, limit: int, path: string, k: string)
    requires |Split(path, Slash)| > 1 && PathVals(root, limit, path, true).Ok?
    requires Slash !in k && k !in Listing(root, path).value
    ensures PathVals(root, limit, Parent(path), true).Ok?
    ensures var m := PathVals(root, limit, path, true).value;
            var up := PathVals(root, limit, Parent(path), true).value;
            (k in m <==> k in up) && (k in m ==> m[k] == up[k])
    ensures ChildVal(root, limit, path, k) == ChildVal(root, limit, Parent(path), k)
  {
    PathValsFoldsAncestors(root, limit, path);
    PathValsLevel(root, limit, path);
    ChildValBelowUnlisted(root, limit, path, k);
  }

  /** Ancestor folding against direct lookup at the target: every key whose
      lookup below `path` succeeds is in the flattened map with that value, and
      every key in the map has its looked-up value unless that lookup names a
      subtree. The exception is real (see `AncestorFold`): a deeper scope that
      holds the key as a subtree does not remove an ancestor's value. */
  lemma {:induction false} PathValsMatchesGetVal(root: Entries, limit: int, path: string, k: string)
    requires PathVals(root, limit, path, true).Ok?
    requires Slash !in k
    ensures var m := PathVals(root, limit, path, true).value;
            ChildVal(root, limit, path, k).Ok? ==> k in m && m[k] == ChildVal(root, limit, path, k).value
    ensures var m := PathVals(root, limit, path, true).value;
            k in m && ChildVal(root, limit, path, k) != Err(PathError) ==>
              ChildVal(root, limit, path, k) == Ok(m[k])
    decreases |Split(path, Slash)|
  {
    var keys := Listing(root, path).value;
    if |Split(path, Slash)| > 1 {
      if k in keys {
        PathValsListedKey(root, limit, path, k);
      } else {
        PathValsUnlistedKey(root, limit, path, k);
        ParentSplit(path);
        PathValsMatchesGetVal(root, limit, Parent(path), k);
      }
    } else {
      PathValsLevel(root, limit, path);
      if k !in keys {
        ChildStep(root, path, k);
        assert ListSegs(path) == [];
        LookupFound(root, k);
      }
    }
  }

  // Short paths written segment by segment: their pieces, one level of their
  // lookup, and their listing.

  /** The pieces of a path of one, two or three separator-free segments. */
  lemma SplitPath(a: string, b: string, c: string)
    requires Slash !in a && Slash !in b && Slash !in c
    ensures Split("/" + a, Slash) == ["", a]
    ensures Split("/" + a + "/" + b, Slash) == ["", a, b]
    ensures Split("/" + a + "/" + b + "/" + c, Slash) == ["", a, b, c]
  {
    assert "" + "/" + a == "/" + a;
    ChildSplit("", a);
    ChildSplit("/" + a, b);
    ChildSplit("/" + a + "/" + b, c);
  }

  /** One level of lookup of a top-level path `/a`: the root entry. */
  lemma LevelTop(root: Entries, path: string, a: string)
    requires path == "/" + a && Slash !in a
    ensures StepAt(root, path) == Classify(Lookup(root, a))
  {
    SplitPath(a, "", "");
    assert Prefix(path) == [] && Key(path) == a;
  }

  /** One level of lookup of `/a/b`: the override walk over the root and the
      scope `a`. */
  lemma LevelTwo(root: Entries, path: string, a: string, b: string, e1: Entries, cand: Option<Node>)
    requires path == "/" + a + "/" + b && Slash !in a && Slash !in b && a != ""
    requires Descend(root, a) == Some(e1)
    requires cand == if Has(e1, b) then Lookup(e1, b) else Lookup(root, b)
    ensures StepAt(root, path) == Classify(cand)
  {
    SplitPath(a, b, "");
    assert Prefix(path) == [a] && Key(path) == b;
    assert [a][..0] == [];
    assert Reach(root, [a]) == Some(e1);
    assert Candidate(root, [a], b) == if Has(e1, b) then Lookup(e1, b) else Lookup(root, b);
    StepAtOnMaps(root, path);
  }

  /** The listing of a top-level path `/a`: the keys of the scope `a`. */
  lemma ListTop(root: Entries, path: string, a: string, e1: Entries)
    requires path == "/" + a && Slash !in a && a != ""
    requires Descend(root, a) == Some(e1)
    ensures Listing(root, path) == Ok(Keys(e1))
  {
    SplitPath(a, "", "");
    assert ListSegs(path) == [a] && [a][..0] == [];
    assert Reach(root, [a]) == Some(e1);
  }
}
