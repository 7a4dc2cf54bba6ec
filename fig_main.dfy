/** The `TreeReader` class: a settings tree and a reference-hop limit, fixed at
    construction, and the three lookups over them. Each method runs the loop the
    source runs and is proved to compute the matching function of module
    Resolution. */
module FigMain {
  import opened Paths
  import opened Tree
  import opened Resolution

  class TreeReader {
    /** The tree and the hop limit; set once, only read afterwards. */
    const data: Entries
    const iterLimit: int

    constructor (treeData: Entries, iterLimit: int := DefaultIterLimit)
      ensures data == treeData && this.iterLimit == iterLimit
    {
      data := treeData;
      this.iterLimit := iterLimit;
    }

    /** The walk of `get_val` down the scope chain: the root's entry for the
        key, then per segment `tmpdata = tmpdata[p]` unless the segment is empty,
        and `if key in tmpdata: val = tmpdata[key]`. An exception raised on the
        way ends the walk. */
    method WalkScopes(prefix: seq<string>, key: string) returns (w: Walked)
      ensures w == Walk(data, prefix, key)
    {
      var tmp: Node := Map(data);
      var val: Option<Node> := None;
      if Has(data, key) {
        val := Lookup(data, key);
      }
      for i := 0 to |prefix|
        invariant Walk(data, prefix[..i], key) == At(tmp, val)
      {
        WalkTurn(data, prefix, i, key);
        var p := prefix[i];
        if p != "" {
          if tmp.Scalar? {
            StuckBeyond(data, prefix, i + 1, key);
            return Stuck;
          }
          var child := Lookup(tmp.entries, p);
          if child.None? {
            StuckBeyond(data, prefix, i + 1, key);
            return Stuck;
          }
          tmp := child.value;
        }
        match tmp {
          case Map(e) =>
            if Has(e, key) {
              val := Lookup(e, key);
            }
          case Scalar(Str(s)) =>
            if Occurs(key, s) {
              StuckBeyond(data, prefix, i + 1, key);
              return Stuck;
            }
          case Scalar(_) =>
            StuckBeyond(data, prefix, i + 1, key);
            return Stuck;
        }
      }
      assert prefix[..|prefix|] == prefix;
      return At(tmp, val);
    }

    /** `get_val`: the override walk over the scope chain, classification of
        the candidate, and a recursive lookup for each reference hop. */
    method GetVal(path: string, iteration: int := 0) returns (r: Result<Val>)
      ensures r == Resolve(data, iterLimit, path, iteration)
      decreases Allowed(iterLimit, iteration)
    {
      var parts := Split(path, Slash);
      var prefix := if |parts| >= 2 then parts[1..|parts| - 1] else [];
      var key := parts[|parts| - 1];
      assert prefix == Prefix(path) && key == Key(path);
      var w := WalkScopes(prefix, key);
      if w.Stuck? {
        return Err(TraversalError);
      }
      var val := w.cand;
      if val.None? {
        return Err(ValueError);
      }
      if val.value.Map? {
        return Err(PathError);
      }
      var v := val.value.v;
      if v.Str? && |v.s| >= 5 && v.s[..5] == RefMarker {
        if iteration > iterLimit {
          return Err(RefError);
        }
        assert StepAt(data, path) == Hop(v.s[5..]);
        r := GetVal(v.s[5..], iteration + 1);
        return;
      }
      return Ok(v);
    }

    /** `list_path`: descend through the segments after the first, skipping
        empty ones, and list the keys found there. */
    method ListPath(path: string) returns (r: Result<seq<string>>)
      ensures r == Listing(data, path)
    {
      var prefix := Split(path, Slash)[1..];
      var tmp := data;
      for i := 0 to |prefix|
        invariant Reach(data, prefix[..i]) == Some(tmp)
      {
        DescendStep(data, prefix, i);
        var p := prefix[i];
        if p != "" {
          var child := Lookup(tmp, p);
          if !(child.Some? && child.value.Map?) {
            NoReachBeyond(data, prefix, i + 1);
            return Err(TraversalError);
          }
          tmp := child.value.entries;
        }
      }
      assert prefix[..|prefix|] == prefix;
      return Ok(Keys(tmp));
    }

    /** `get_path_vals`: the parent's flattened map first when `recursive`, then
        every key listed at `path` looked up and stored, subtrees skipped. */
    method GetPathVals(path: string, recursive: bool := true) returns (r: Result<map<string, Val>>)
      ensures r == PathVals(data, iterLimit, path, recursive)
      decreases |Split(path, Slash)|
    {
      var out: map<string, Val> := map[];
      var p := Split(path, Slash);
      if recursive && |p| > 1 {
        ParentSplit(path);
        var up := GetPathVals(Join(p[..|p| - 1], Slash));
        if up.Err? {
          return Err(up.error);
        }
        out := up.value;
      }
      var listed := ListPath(path);
      if listed.Err? {
        return Err(listed.error);
      }
      var keys := listed.value;
      ghost var seed := out;
      for i := 0 to |keys|
        invariant Overlay(data, iterLimit, path, keys[i..], out) == Overlay(data, iterLimit, path, keys, seed)
      {
        assert keys[i..][1..] == keys[i + 1..];
        var key := keys[i];
        var v := GetVal(path + "/" + key);
        if v.Ok? {
          out := out[key := v.value];
        } else if v.error != PathError {
          return Err(v.error);
        }
      }
      assert keys[|keys|..] == [];
      return Ok(out);
    }
  }

  /** One turn of the lookup loop: index the node the walk stands on by
      segment `i`, then check the key there. */
  lemma WalkTurn(root: Entries, segs: seq<string>, i: nat, key: string)
    requires i < |segs|
    ensures Walk(root, segs[..i + 1], key) ==
              match Walk(root, segs[..i], key)
              case Stuck => Stuck
              case At(n, cand) =>
                match Index(n, segs[i])
                case None => Stuck
                case Some(m) => Check(m, key, cand)
  {
    assert segs[..i + 1][..i] == segs[..i];
  }

  /** One turn of the descent loop: the mapping after segment `i` is one
      descent from the mapping before it. */
  lemma DescendStep(root: Entries, segs: seq<string>, i: nat)
    requires i < |segs| && Reach(root, segs[..i]).Some?
    ensures Reach(root, segs[..i + 1]) == Descend(Reach(root, segs[..i]).value, segs[i])
  {
    assert segs[..i + 1][..i] == segs[..i];
  }

  /** Once the descent fails at some prefix, the whole chain is unreachable. */
  lemma NoReachBeyond(root: Entries, segs: seq<string>, k: nat)
    requires k <= |segs|
    requires Reach(root, segs[..k]).None?
    ensures Reach(root, segs).None?
  {
    if Reach(root, segs).Some? {
      ReachPrefix(root, segs, k);
    }
  }
}
