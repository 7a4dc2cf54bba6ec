/** Python's `str.split(sep)` and `sep.join(parts)` for a one-character separator,
    which is all the resolver uses to take a path apart and to put a parent path
    back together. */
module Paths {

  /** The path separator. */
  const Slash: char := '/'

  /** Python's `s.split(sep)`: the pieces between the separators, empty pieces
      included, never an empty list (`"".split("/") == [""]`). */
  function Split(s: string, sep: char): (parts: seq<string>)
    ensures |parts| >= 1
    ensures forall i :: 0 <= i < |parts| ==> sep !in parts[i]
    decreases |s|
  {
    if s == [] then [""]
    else
      var rest := Split(s[1..], sep);
      if s[0] == sep then [""] + rest
      else [[s[0]] + rest[0]] + rest[1..]
  }

  /** Python's `sep.join(parts)`. */
  function Join(parts: seq<string>, sep: char): (s: string)
    decreases |parts|
  {
    if parts == [] then ""
    else if |parts| == 1 then parts[0]
    else parts[0] + [sep] + Join(parts[1..], sep)
  }

  /** Number of occurrences of `c` in `s`. */
  function Count(s: string, c: char): nat
  {
    if s == [] then 0 else (if s[0] == c then 1 else 0) + Count(s[1..], c)
  }

  /** Splitting yields one piece more than there are separators. */
  lemma {:induction false} SplitLength(s: string, sep: char)
    ensures |Split(s, sep)| == Count(s, sep) + 1
    decreases |s|
  {
    if s != [] {
      SplitLength(s[1..], sep);
    }
  }

  /** Joining the pieces of a split gives the string back. */
  lemma {:induction false} JoinSplit(s: string, sep: char)
    ensures Join(Split(s, sep), sep) == s
    decreases |s|
  {
    if s != [] {
      var rest := Split(s[1..], sep);
      JoinSplit(s[1..], sep);
      if s[0] == sep {
        assert Split(s, sep) == [""] + rest;
        assert ([""] + rest)[1..] == rest;
      } else {
        var parts := Split(s, sep);
        assert parts == [[s[0]] + rest[0]] + rest[1..];
        if |rest| == 1 {
          assert Join(parts, sep) == [s[0]] + rest[0];
          assert Join(rest, sep) == rest[0];
        } else {
          assert parts[1..] == rest[1..];
          assert Join(parts, sep) == [s[0]] + rest[0] + [sep] + Join(rest[1..], sep);
          assert Join(rest, sep) == rest[0] + [sep] + Join(rest[1..], sep);
        }
        assert s == [s[0]] + s[1..];
      }
    }
  }

  /** A string without the separator splits into itself alone. */
  lemma {:induction false} SplitNoSep(s: string, sep: char)
    requires sep !in s
    ensures Split(s, sep) == [s]
    decreases |s|
  {
    if s != [] {
      assert sep !in s[1..] by {
        forall i | 0 <= i < |s[1..]| ensures s[1..][i] != sep {
          assert s[1..][i] == s[i + 1];
        }
      }
      SplitNoSep(s[1..], sep);
      assert s == [s[0]] + s[1..];
    }
  }

  /** One unfolding of `Split` on a string given as its first character and the
      rest. */
  lemma SplitCons(c: char, t: string, sep: char)
    ensures Split([c] + t, sep) ==
              if c == sep then [""] + Split(t, sep)
              else [[c] + Split(t, sep)[0]] + Split(t, sep)[1..]
  {
    assert ([c] + t)[1..] == t;
  }

  /** Putting one character in front distributes over a list of pieces that
      extends `left`: the shape `SplitCons` gives, on lists alone. */
  lemma ConsPieces(c: char, sep: char, left: seq<string>, right: seq<string>)
    requires |left| >= 1
    ensures (if c == sep then [""] + (left + right) else [[c] + (left + right)[0]] + (left + right)[1..]) ==
            (if c == sep then [""] + left else [[c] + left[0]] + left[1..]) + right
  {
    if c != sep {
      assert (left + right)[1..] == left[1..] + right;
    }
  }

  /** The inductive step of `SplitAppend`: if the split of `s` extends the split
      of `t` by `right`, so does the split of `c + s` extend that of `c + t`. */
  lemma SplitAppendStep(c: char, s: string, t: string, sep: char, right: seq<string>)
    requires Split(s, sep) == Split(t, sep) + right
    ensures Split([c] + s, sep) == Split([c] + t, sep) + right
  {
    SplitCons(c, s, sep);
    SplitCons(c, t, sep);
    ConsPieces(c, sep, Split(t, sep), right);
  }

  /** Splitting `a + sep + b` splits `a` and `b` separately. */
  lemma {:induction false} SplitAppend(a: string, b: string, sep: char)
    ensures Split(a + [sep] + b, sep) == Split(a, sep) + Split(b, sep)
    decreases |a|
  {
    if a == [] {
      assert a + [sep] + b == [sep] + b;
      SplitCons(sep, b, sep);
    } else {
      var t := a[1..];
      SplitAppend(t, b, sep);
      SplitAppendStep(a[0], t + [sep] + b, t, sep, Split(b, sep));
      assert [a[0]] + t == a;
      assert [a[0]] + (t + [sep] + b) == a + [sep] + b;
    }
  }

  /** Splitting a joined list of separator-free pieces gives the pieces back. */
  lemma {:induction false} SplitJoin(parts: seq<string>, sep: char)
    requires |parts| >= 1
    requires forall i :: 0 <= i < |parts| ==> sep !in parts[i]
    ensures Split(Join(parts, sep), sep) == parts
    decreases |parts|
  {
    SplitNoSep(parts[0], sep);
    if |parts| > 1 {
      SplitJoin(parts[1..], sep);
      SplitAppend(parts[0], Join(parts[1..], sep), sep);
      assert parts == [parts[0]] + parts[1..];
    }
  }

  /** `path + "/" + key` for a key without a separator adds exactly one piece. */
  lemma ChildSplit(path: string, key: string)
    requires Slash !in key
    ensures Split(path + "/" + key, Slash) == Split(path, Slash) + [key]
  {
    assert path + "/" + key == path + [Slash] + key;
    SplitAppend(path, key, Slash);
    SplitNoSep(key, Slash);
  }
}
