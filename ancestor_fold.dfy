/** Folding in ancestors against looking up at the target path. Flattening a
    path with its ancestors is meant to give each key the value `get_val` gives
    it at that path. The fold as written keeps an ancestor's value for a key
    whose lookup at the deeper scope names a subtree (the scope holds the key
    as a mapping, or as a reference leading to one), where `get_val` reports
    a path error; `ShadowedAncestorSurvives` shows it on a two-level tree.
    `PathValsPruned` is the fold with that key dropped instead, and
    `PathValsPrunedMatchesGetVal` proves that property of it on every tree. */
module AncestorFold {
  import opened Paths
  import opened Tree
  import opened Resolution

  /** The key loop with a subtree removing the key from the map built so far,
      instead of leaving an ancestor's value in place. */
  function OverlayPruned(root: Entries, limit: int, path: string, keys: seq<string>,
                         out: map<string, Val>): Result<map<string, Val>>
    decreases |keys|
  {
    if keys == [] then Ok(out)
    else
      match ChildVal(root, limit, path, keys[0])
      case Ok(v) => OverlayPruned(root, limit, path, keys[1..], out[keys[0] := v])
      case Err(PathError) => OverlayPruned(root, limit, path, keys[1..], out - {keys[0]})
      case Err(e) => Err(e)
  }

  /** The flattening with ancestors, built on the pruning key loop. */
  function PathValsPruned(root: Entries, limit: int, path: string): Result<map<string, Val>>
    decreases |Split(path, Slash)|
  {
    var p := Split(path, Slash);
    var base: Result<map<string, Val>> :=
      if |p| > 1 then
        ParentSplit(path);
        PathValsPruned(root, limit, Parent(path))
      else Ok(map[]);
    match base
    case Err(e) => Err(e)
    case Ok(out) =>
      match Listing(root, path)
      case Err(e) => Err(e)
      case Ok(keys) => OverlayPruned(root, limit, path, keys, out)
  }

  /** What the pruning loop leaves: a key of the loop is present exactly when
      its lookup succeeds, with that value; any other key is as in the seed. */
  lemma {:induction false} OverlayPrunedValues(root: Entries, limit: int, path: string, keys: seq<string>,
                                               out: map<string, Val>)
    requires OverlayPruned(root, limit, path, keys, out).Ok?
    ensures var m := OverlayPruned(root, limit, path, keys, out).value;
      && (forall k :: k in keys ==>
            (k in m <==> ChildVal(root, limit, path, k).Ok?) &&
            (k in m ==> m[k] == ChildVal(root, limit, path, k).value))
      && (forall k :: k !in keys ==> (k in m <==> k in out) && (k in m ==> m[k] == out[k]))
    decreases |keys|
  {
    if keys != [] {
      var k := keys[0];
      assert forall x :: x in keys <==> x == k || x in keys[1..];
      match ChildVal(root, limit, path, k)
      case Ok(v) =>
        OverlayPrunedValues(root, limit, path, keys[1..], out[k := v]);
      case Err(PathError) =>
        OverlayPrunedValues(root, limit, path, keys[1..], out - {k});
    }
  }

  /** Pruning changes no failure: the pruning loop fails exactly when the
      source's loop does, with the same error, whatever either starts from. */
  lemma {:induction false} OverlayPrunedFails(root: Entries, limit: int, path: string, keys: seq<string>,
                                              out: map<string, Val>, seed: map<string, Val>)
    ensures OverlayPruned(root, limit, path, keys, out).Err? == Overlay(root, limit, path, keys, seed).Err?
    ensures OverlayPruned(root, limit, path, keys, out).Err? ==>
              OverlayPruned(root, limit, path, keys, out).error == Overlay(root, limit, path, keys, seed).error
    decreases |keys|
  {
    if keys != [] {
      var k := keys[0];
      match ChildVal(root, limit, path, k)
      case Ok(v) =>
        OverlayPrunedFails(root, limit, path, keys[1..], out[k := v], seed[k := v]);
      case Err(PathError) =>
        OverlayPrunedFails(root, limit, path, keys[1..], out - {k}, seed);
      case Err(_) =>
    }
  }

  /** The corrected flattening fails exactly when the source's does, with the
      same error. */
  lemma {:induction false} PathValsPrunedFails(root: Entries, limit: int, path: string)
    ensures PathValsPruned(root, limit, path).Err? == PathVals(root, limit, path, true).Err?
    ensures PathValsPruned(root, limit, path).Err? ==>
              PathValsPruned(root, limit, path).error == PathVals(root, limit, path, true).error
    decreases |Split(path, Slash)|
  {
    if |Split(path, Slash)| > 1 {
      ParentSplit(path);
      PathValsPrunedFails(root, limit, Parent(path));
      match PathValsPruned(root, limit, Parent(path))
      case Err(_) =>
      case Ok(out) =>
        match Listing(root, path)
        case Err(_) =>
        case Ok(keys) =>
          OverlayPrunedFails(root, limit, path, keys, out, PathVals(root, limit, Parent(path), true).value);
    } else {
      match Listing(root, path)
      case Err(_) =>
      case Ok(keys) =>
        OverlayPrunedFails(root, limit, path, keys, map[], map[]);
    }
  }

  /** The intended property, for the corrected flattening: a key is in the map
      exactly when its lookup at `path` succeeds, and then with that value. */
  lemma {:induction false} PathValsPrunedMatchesGetVal(root: Entries, limit: int, path: string, k: string)
    requires PathValsPruned(root, limit, path).Ok?
    requires Slash !in k
    ensures var m := PathValsPruned(root, limit, path).value;
            (k in m <==> ChildVal(root, limit, path, k).Ok?) &&
            (k in m ==> m[k] == ChildVal(root, limit, path, k).value)
    decreases |Split(path, Slash)|
  {
    var keys := Listing(root, path).value;
    var out: map<string, Val> := map[];
    if |Split(path, Slash)| > 1 {
      ParentSplit(path);
      out := PathValsPruned(root, limit, Parent(path)).value;
      PathValsPrunedMatchesGetVal(root, limit, Parent(path), k);
    }
    OverlayPrunedValues(root, limit, path, keys, out);
    if k !in keys {
      if |Split(path, Slash)| > 1 {
        ChildValBelowUnlisted(root, limit, path, k);
      } else {
        ChildStep(root, path, k);
        assert ListSegs(path) == [];
        LookupFound(root, k);
      }
    }
  }

  /** A tree where the scope `a` holds `k` as an (empty) subtree and the root
      holds it as a string. */
  const ShadowTree: Entries := [("k", Scalar(Str("x"))), ("a", Map([("k", Map([]))]))]

  /** The first level of both foldings of `/a`: the root's listing. */
  lemma ShadowRootLevel()
    ensures Listing(ShadowTree, "") == Ok(["k", "a"])
    ensures ChildVal(ShadowTree, DefaultIterLimit, "", "k") == Ok(Str("x"))
    ensures ChildVal(ShadowTree, DefaultIterLimit, "", "a") == Err(PathError)
  {
    assert "" + "/" + "k" == "/" + "k" && "" + "/" + "a" == "/" + "a";
    LevelTop(ShadowTree, "/k", "k");
    LevelTop(ShadowTree, "/a", "a");
    assert ListSegs("") == [];
    var ks := Keys(ShadowTree);
    assert |ks| == 2 && ks[0] == "k" && ks[1] == "a";
    assert ks == ["k", "a"];
  }

  /** The second level: `/a` lists `k`, whose lookup names the subtree. */
  lemma ShadowScopeLevel()
    ensures Split("/a", Slash) == ["", "a"] && Parent("/a") == ""
    ensures Listing(ShadowTree, "/a") == Ok(["k"])
    ensures ChildVal(ShadowTree, DefaultIterLimit, "/a", "k") == Err(PathError)
  {
    SplitPath("a", "", "");
    assert Join([""], Slash) == "";
    ListTop(ShadowTree, "/a", "a", [("k", Map([]))]);
    var ks := Keys([("k", Map([]))]);
    assert |ks| == 1 && ks[0] == "k";
    assert ks == ["k"];
    LevelTwo(ShadowTree, "/a/k", "a", "k", [("k", Map([]))], Some(Map([])));
  }

  /** The source's fold keeps the root's `k` at `/a`, although looking up
      `/a/k` is a path error: the flattened map does not agree with `get_val`. */
  lemma ShadowedAncestorSurvives()
    ensures PathVals(ShadowTree, DefaultIterLimit, "/a", true) == Ok(map["k" := Str("x")])
    ensures ChildVal(ShadowTree, DefaultIterLimit, "/a", "k") == Err(PathError)
  {
    ShadowRootLevel();
    ShadowScopeLevel();
    var empty: map<string, Val> := map[];
    assert Split("", Slash) == [""];
    assert PathVals(ShadowTree, DefaultIterLimit, "", true) == Ok(map["k" := Str("x")]) by {
      assert Overlay(ShadowTree, DefaultIterLimit, "", ["k", "a"], empty) ==
             Overlay(ShadowTree, DefaultIterLimit, "", ["a"], empty["k" := Str("x")]);
      assert ["k", "a"][1..] == ["a"] && ["a"][1..] == [];
      assert empty["k" := Str("x")] == map["k" := Str("x")];
    }
    assert ["k"][1..] == [];
  }

  /** The corrected fold drops the root's `k` at `/a`, as `get_val` would. */
  lemma ShadowedAncestorPruned()
    ensures PathValsPruned(ShadowTree, DefaultIterLimit, "/a") == Ok(map[])
  {
    ShadowRootLevel();
    ShadowScopeLevel();
    var empty: map<string, Val> := map[];
    assert Split("", Slash) == [""];
    assert PathValsPruned(ShadowTree, DefaultIterLimit, "") == Ok(map["k" := Str("x")]) by {
      assert ["k", "a"][1..] == ["a"] && ["a"][1..] == [];
      assert empty["k" := Str("x")] - {"a"} == map["k" := Str("x")];
    }
    assert ["k"][1..] == [];
    assert map["k" := Str("x")] - {"k"} == empty;
  }
}
