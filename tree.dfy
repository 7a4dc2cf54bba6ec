/** The settings tree the resolver reads: nested mappings from string keys to
    scalars or further mappings, kept as ordered entry lists so that the order in
    which a mapping lists its keys is part of the value. */
module Tree {

  datatype Option<+T> = None | Some(value: T)

  /** A scalar setting: a string, an integer or a boolean. */
  datatype Val = Str(s: string) | Int(i: int) | Bool(b: bool)

  /** A tree node: a scalar leaf, or a mapping given by its entries in order. */
  datatype Node = Scalar(v: Val) | Map(entries: seq<(string, Node)>)

  type Entries = seq<(string, Node)>

  /** The keys of a mapping, in the mapping's order. */
  function Keys(e: Entries): (ks: seq<string>)
    ensures |ks| == |e|
    ensures forall i :: 0 <= i < |e| ==> ks[i] == e[i].0
  {
    seq(|e|, i requires 0 <= i < |e| => e[i].0)
  }

  /** `m[k]` on a mapping: the value of the first entry named `k`, if any. */
  function Lookup(e: Entries, k: string): Option<Node>
  {
    if e == [] then None
    else if e[0].0 == k then Some(e[0].1)
    else Lookup(e[1..], k)
  }

  /** `m[k]` exists exactly for the keys of the mapping, and is the value of an
      entry of that name. */
  lemma {:induction false} LookupFound(e: Entries, k: string)
    ensures Lookup(e, k).Some? <==> k in Keys(e)
    ensures Lookup(e, k).Some? ==> exists i :: 0 <= i < |e| && e[i] == (k, Lookup(e, k).value)
  {
    if e != [] {
      assert Keys(e) == [e[0].0] + Keys(e[1..]);
      LookupFound(e[1..], k);
      if e[0].0 != k && Lookup(e, k).Some? {
        var i :| 0 <= i < |e[1..]| && e[1..][i] == (k, Lookup(e, k).value);
        assert e[i + 1] == (k, Lookup(e, k).value);
      }
    }
  }

  /** Lookup finds the first entry of that name: with unique keys, as a
      dictionary has, the one entry. */
  lemma {:induction false} LookupFirst(e: Entries, k: string, i: nat)
    requires i < |e| && e[i].0 == k
    requires forall j :: 0 <= j < i ==> e[j].0 != k
    ensures Lookup(e, k) == Some(e[i].1)
  {
    if i > 0 {
      assert forall j :: 0 <= j < i - 1 ==> e[1..][j] == e[j + 1];
      LookupFirst(e[1..], k, i - 1);
    }
  }

  /** A key no entry carries is not found. */
  lemma LookupAbsent(e: Entries, k: string)
    requires forall i :: 0 <= i < |e| ==> e[i].0 != k
    ensures Lookup(e, k) == None
  {
    LookupFound(e, k);
  }

  /** `k in m` on a mapping. */
  predicate Has(e: Entries, k: string)
  {
    Lookup(e, k).Some?
  }

  /** One step of the descent: an empty segment stays where it is, a non-empty
      one moves into the child mapping of that name; a missing child or a scalar
      child is a failed descent. */
  function Descend(e: Entries, seg: string): (r: Option<Entries>)
    ensures seg == "" ==> r == Some(e)
    ensures seg != "" ==> (r.Some? <==> Lookup(e, seg).Some? && Lookup(e, seg).value.Map?)
    ensures seg != "" && r.Some? ==> Lookup(e, seg) == Some(Map(r.value))
  {
    if seg == "" then Some(e)
    else
      match Lookup(e, seg)
      case Some(Map(c)) => Some(c)
      case _ => None
  }

  /** The mapping reached from `root` by descending through `segs` in order, or
      None if some step fails. */
  function Reach(root: Entries, segs: seq<string>): Option<Entries>
    decreases |segs|
  {
    if segs == [] then Some(root)
    else
      match Reach(root, segs[..|segs| - 1])
      case None => None
      case Some(e) => Descend(e, segs[|segs| - 1])
  }

  /** The scope at depth `k` of the chain `segs` (depth 0 is the root) directly
      holds `key`. */
  ghost predicate ScopeHas(root: Entries, segs: seq<string>, k: nat, key: string)
    requires k <= |segs|
  {
    Reach(root, segs[..k]).Some? && Has(Reach(root, segs[..k]).value, key)
  }

  /** The override walk: the root entry for `key` is the baseline, and every
      scope on the chain that directly holds `key` replaces the candidate, so the
      deepest such scope supplies it. */
  function Candidate(root: Entries, segs: seq<string>, key: string): Option<Node>
    requires Reach(root, segs).Some?
    decreases |segs|
  {
    if segs == [] then Lookup(root, key)
    else
      var here := Reach(root, segs).value;
      if Has(here, key) then Lookup(here, key)
      else Candidate(root, segs[..|segs| - 1], key)
  }

  /** Python's `key in s` on strings: `key` occurs in `s` as a contiguous
      piece; the empty key occurs in every string. */
  predicate Occurs(key: string, s: string)
    decreases |s|
  {
    key <= s || (s != [] && Occurs(key, s[1..]))
  }

  /** A key longer than the string does not occur in it. */
  lemma {:induction false} OccursNeedsRoom(key: string, s: string)
    requires |key| > |s|
    ensures !Occurs(key, s)
    decreases |s|
  {
    if s != [] {
      OccursNeedsRoom(key, s[1..]);
    }
  }

  /** Where the lookup walk stands: stuck on an exception raised mid-walk, or at
      a node with the candidate found so far. */
  datatype Walked = Stuck | At(here: Node, cand: Option<Node>)

  /** `tmpdata[p]` for a non-empty segment: the child of a mapping (a missing one
      raises KeyError); indexing a scalar raises TypeError. An empty segment
      stays put. */
  function Index(n: Node, seg: string): Option<Node>
  {
    if seg == "" then Some(n)
    else
      match n
      case Map(e) => Lookup(e, seg)
      case Scalar(_) => None
  }

  /** `if key in tmpdata: val = tmpdata[key]` at the node `n`: a mapping holding
      the key replaces the candidate; a string the key does not occur in leaves
      it; a string it occurs in (`s[key]`) and any other scalar (`key in 7`)
      raise TypeError. */
  function Check(n: Node, key: string, cand: Option<Node>): Walked
  {
    match n
    case Map(e) => At(n, if Has(e, key) then Lookup(e, key) else cand)
    case Scalar(Str(s)) => if Occurs(key, s) then Stuck else At(n, cand)
    case Scalar(_) => Stuck
  }

  /** The lookup walk of `get_val` over the segments `segs`: the root's entry
      for `key` first, then per segment one `Index` step and one `Check`. */
  function Walk(root: Entries, segs: seq<string>, key: string): Walked
    decreases |segs|
  {
    if segs == [] then At(Map(root), Lookup(root, key))
    else
      match Walk(root, segs[..|segs| - 1], key)
      case Stuck => Stuck
      case At(n, cand) =>
        match Index(n, segs[|segs| - 1])
        case None => Stuck
        case Some(m) => Check(m, key, cand)
  }

  /** While every step lands on a mapping, the walk is the descent by `Reach`
      and its candidate is the override candidate. */
  lemma {:induction false} WalkOnMaps(root: Entries, segs: seq<string>, key: string)
    requires Reach(root, segs).Some?
    ensures Walk(root, segs, key) == At(Map(Reach(root, segs).value), Candidate(root, segs, key))
    decreases |segs|
  {
    if segs != [] {
      WalkOnMaps(root, segs[..|segs| - 1], key);
    }
  }

  /** A walk that stands off the mappings stands on a string, and its candidate
      is still the override candidate of some reachable prefix: a scalar the
      walk passes through never supplies the value. */
  lemma {:induction false} WalkOffMaps(root: Entries, segs: seq<string>, key: string)
    requires Walk(root, segs, key).At? && Reach(root, segs).None?
    ensures Walk(root, segs, key).here.Scalar? && Walk(root, segs, key).here.v.Str?
    ensures exists k :: 0 <= k < |segs| && Reach(root, segs[..k]).Some? &&
                        Walk(root, segs, key).cand == Candidate(root, segs[..k], key)
    decreases |segs|
  {
    var init := segs[..|segs| - 1];
    var last := segs[|segs| - 1];
    assert segs[..|segs| - 1] == init;
    if Reach(root, init).Some? {
      WalkOnMaps(root, init, key);
      assert init[..|init|] == init;
    } else {
      WalkOffMaps(root, init, key);
      var k :| 0 <= k < |init| && Reach(root, init[..k]).Some? &&
               Walk(root, init, key).cand == Candidate(root, init[..k], key);
      assert init[..k] == segs[..k];
    }
  }

  /** Once the walk is stuck it stays stuck. */
  lemma {:induction false} StuckBeyond(root: Entries, segs: seq<string>, k: nat, key: string)
    requires k <= |segs| && Walk(root, segs[..k], key).Stuck?
    ensures Walk(root, segs, key).Stuck?
    decreases |segs| - k
  {
    if k == |segs| {
      assert segs[..k] == segs;
    } else {
      assert segs[..k + 1][..k] == segs[..k];
      StuckBeyond(root, segs, k + 1, key);
    }
  }

  /** A chain whose end is reachable has every one of its prefixes reachable. */
  lemma {:induction false} ReachPrefix(root: Entries, segs: seq<string>, k: nat)
    requires k <= |segs|
    requires Reach(root, segs).Some?
    ensures Reach(root, segs[..k]).Some?
    decreases |segs|
  {
    if k < |segs| {
      var init := segs[..|segs| - 1];
      assert init[..k] == segs[..k];
      ReachPrefix(root, init, k);
    } else {
      assert segs[..k] == segs;
    }
  }

  /** The segments that are not empty, in order. */
  function NonEmpty(segs: seq<string>): (r: seq<string>)
    ensures forall i :: 0 <= i < |r| ==> r[i] != ""
    ensures |r| <= |segs|
    decreases |segs|
  {
    if segs == [] then []
    else
      var init := NonEmpty(segs[..|segs| - 1]);
      if segs[|segs| - 1] == "" then init else init + [segs[|segs| - 1]]
  }

  /** Empty segments do not descend: reaching through `segs` is reaching through
      its non-empty segments alone. */
  lemma {:induction false} ReachIgnoresEmpty(root: Entries, segs: seq<string>)
    ensures Reach(root, segs) == Reach(root, NonEmpty(segs))
    decreases |segs|
  {
    if segs != [] {
      var init := segs[..|segs| - 1];
      var last := segs[|segs| - 1];
      ReachIgnoresEmpty(root, init);
      if last != "" {
        var ne := NonEmpty(init) + [last];
        assert NonEmpty(segs) == ne;
        assert ne[..|ne| - 1] == NonEmpty(init);
      }
    }
  }

  /** Dropping the last segment leaves the scopes above it as they were. */
  lemma ScopeHasInit(root: Entries, segs: seq<string>, k: nat, key: string)
    requires k < |segs|
    ensures ScopeHas(root, segs, k, key) == ScopeHas(root, segs[..|segs| - 1], k, key)
  {
    assert segs[..|segs| - 1][..k] == segs[..k];
  }

  /** Override precedence, absent case: there is no candidate exactly when no
      scope on the chain, root included, directly holds the key. */
  lemma {:induction false} CandidateAbsent(root: Entries, segs: seq<string>, key: string)
    requires Reach(root, segs).Some?
    ensures Candidate(root, segs, key).None? <==>
              forall k :: 0 <= k <= |segs| ==> !ScopeHas(root, segs, k, key)
    decreases |segs|
  {
    assert segs[..|segs|] == segs;
    assert ScopeHas(root, segs, |segs|, key) == Has(Reach(root, segs).value, key);
    if segs != [] {
      var init := segs[..|segs| - 1];
      CandidateAbsent(root, init, key);
      forall k | 0 <= k < |segs|
        ensures ScopeHas(root, segs, k, key) == ScopeHas(root, init, k, key)
      {
        ScopeHasInit(root, segs, k, key);
      }
    }
  }

  /** Override precedence: when the scope at depth `k` holds the key and no
      deeper scope does, the candidate is that scope's entry, whatever shallower
      scopes, the root included, hold. */
  lemma {:induction false} CandidateIsDeepest(root: Entries, segs: seq<string>, key: string, k: nat)
    requires Reach(root, segs).Some?
    requires k <= |segs| && ScopeHas(root, segs, k, key)
    requires forall j :: k < j <= |segs| ==> !ScopeHas(root, segs, j, key)
    ensures Candidate(root, segs, key) == Lookup(Reach(root, segs[..k]).value, key)
    decreases |segs|
  {
    assert segs[..|segs|] == segs;
    assert ScopeHas(root, segs, |segs|, key) == Has(Reach(root, segs).value, key);
    if k < |segs| {
      var init := segs[..|segs| - 1];
      forall j | k <= j < |segs|
        ensures ScopeHas(root, segs, j, key) == ScopeHas(root, init, j, key)
      {
        ScopeHasInit(root, segs, j, key);
      }
      assert init[..k] == segs[..k];
      CandidateIsDeepest(root, init, key, k);
    }
  }

  /** A key that only the root holds is found at the root whatever the chain:
      root-level entries act as defaults for every path. */
  lemma RootDefault(root: Entries, segs: seq<string>, key: string)
    requires Reach(root, segs).Some?
    requires forall k :: 1 <= k <= |segs| ==> !ScopeHas(root, segs, k, key)
    ensures Candidate(root, segs, key) == Lookup(root, key)
  {
    assert segs[..0] == [];
    if ScopeHas(root, segs, 0, key) {
      CandidateIsDeepest(root, segs, key, 0);
    } else {
      CandidateAbsent(root, segs, key);
    }
  }

  /** All keys, at every level, are usable as single path segments: non-empty
      and free of '/'. */
  ghost predicate SegmentKeys(n: Node)
  {
    n.Map? ==>
      forall i :: 0 <= i < |n.entries| ==>
        n.entries[i].0 != "" && '/' !in n.entries[i].0 && SegmentKeys(n.entries[i].1)
  }

  /** Max of two naturals. */
  function Max(a: nat, b: nat): nat { if a < b then b else a }

  /** Height of a node: 0 for a scalar, one more than its tallest child for a
      mapping. */
  function Height(n: Node): nat
    decreases n, 1
  {
    match n
    case Scalar(_) => 0
    case Map(_) => 1 + MaxHeight(n, 0)
  }

  /** The tallest child of mapping `n` from position `j` on. */
  function MaxHeight(n: Node, j: nat): (h: nat)
    requires n.Map? && j <= |n.entries|
    ensures forall i :: j <= i < |n.entries| ==> Height(n.entries[i].1) <= h
    decreases n, 0, |n.entries| - j
  {
    if j == |n.entries| then 0
    else Max(Height(n.entries[j].1), MaxHeight(n, j + 1))
  }

  /** A child is strictly lower than the mapping that holds it. */
  lemma ChildLower(e: Entries, k: string)
    requires Lookup(e, k).Some?
    ensures Height(Lookup(e, k).value) < Height(Map(e))
  {
    LookupFound(e, k);
    var i :| 0 <= i < |e| && e[i] == (k, Lookup(e, k).value);
    assert Height(Map(e).entries[i].1) <= MaxHeight(Map(e), 0);
  }

  /** Every mapping reached from a tree with segment keys has segment keys too. */
  lemma {:induction false} ReachKeepsSegmentKeys(root: Entries, segs: seq<string>)
    requires SegmentKeys(Map(root))
    requires Reach(root, segs).Some?
    ensures SegmentKeys(Map(Reach(root, segs).value))
    decreases |segs|
  {
    if segs != [] {
      var init := segs[..|segs| - 1];
      var last := segs[|segs| - 1];
      ReachKeepsSegmentKeys(root, init);
      var e := Reach(root, init).value;
      if last != "" {
        LookupFound(e, last);
        var i :| 0 <= i < |e| && e[i] == (last, Lookup(e, last).value);
        assert SegmentKeys(Map(e).entries[i].1);
      }
    }
  }
}
