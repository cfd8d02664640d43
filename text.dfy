/**
  The few string and file-name helpers of Go's standard library that the core
  relies on (strings.Split, strings.Join, strings.TrimSuffix, strings.ReplaceAll
  and filepath.Ext), for one-character separators. Go strings are byte strings;
  here a `string` holds one `char` per byte.
 */
module Text {

  predicate IsSuffix(r: string, s: string) {
    |r| <= |s| && s[|s| - |r|..] == r
  }

  /** A character missing from a string is missing from its suffixes. */
  lemma SuffixWithout(r: string, s: string, c: char)
    requires IsSuffix(r, s) && c !in s
    ensures c !in r
  {
    forall k | 0 <= k < |r|
      ensures r[k] != c
    {
      assert r[k] == s[|s| - |r| + k];
    }
  }

  lemma SuffixOfSuffix(r: string, t: string, s: string)
    requires IsSuffix(r, t) && IsSuffix(t, s)
    ensures IsSuffix(r, s)
  {
    assert s[|s| - |r|..] == t[|t| - |r|..];
  }

  /** Index of the first `c` in `s` at or after `j`, or `|s|` when there is none. */
  function FirstFrom(s: string, c: char, j: nat): (i: nat)
    requires j <= |s|
    ensures j <= i <= |s|
    ensures i < |s| ==> s[i] == c
    ensures forall k :: j <= k < i ==> s[k] != c
    decreases |s| - j
  {
    if j == |s| then j
    else if s[j] == c then j
    else FirstFrom(s, c, j + 1)
  }

  /** Index of the first `c` in `s`, or `|s|` when `s` has none. */
  function FirstIndex(s: string, c: char): (i: nat)
    ensures i <= |s|
    ensures i < |s| ==> s[i] == c
    ensures c !in s[..i]
  {
    FirstFrom(s, c, 0)
  }

  /** strings.Split(s, string(c)): the maximal `c`-free pieces of `s`, in order. */
  function Split(s: string, c: char): (parts: seq<string>)
    ensures |parts| >= 1
    decreases |s|
  {
    var i := FirstIndex(s, c);
    if i == |s| then [s] else [s[..i]] + Split(s[i + 1..], c)
  }

  /** The pieces of a split hold no separator. */
  lemma {:induction false} SplitPieces(s: string, c: char)
    ensures forall k :: 0 <= k < |Split(s, c)| ==> c !in Split(s, c)[k]
    decreases |s|
  {
    var i := FirstIndex(s, c);
    if i < |s| {
      SplitPieces(s[i + 1..], c);
      assert Split(s, c) == [s[..i]] + Split(s[i + 1..], c);
    } else {
      assert s[..i] == s;
    }
  }

  /** strings.Join(parts, string(c)). */
  function Join(parts: seq<string>, c: char): string
  {
    if |parts| == 0 then ""
    else if |parts| == 1 then parts[0]
    else parts[0] + [c] + Join(parts[1..], c)
  }

  lemma SplitWithout(s: string, c: char)
    requires c !in s
    ensures Split(s, c) == [s]
  {
  }

  /** One step of strings.Split: the text before the first `c`, then the split of the rest. */
  lemma SplitStep(s: string, c: char)
    requires FirstIndex(s, c) < |s|
    ensures Split(s, c) == [s[..FirstIndex(s, c)]] + Split(s[FirstIndex(s, c) + 1..], c)
  {
  }

  lemma JoinCons(x: string, rest: seq<string>, c: char)
    requires |rest| >= 1
    ensures Join([x] + rest, c) == x + [c] + Join(rest, c)
  {
    assert ([x] + rest)[1..] == rest;
  }

  /** Joining the pieces again gives back the original string. */
  lemma {:induction false} JoinSplit(s: string, c: char)
    ensures Join(Split(s, c), c) == s
    decreases |s|
  {
    var i := FirstIndex(s, c);
    if i < |s| {
      var rest := Split(s[i + 1..], c);
      calc {
        Join(Split(s, c), c);
        == { SplitStep(s, c); }
        Join([s[..i]] + rest, c);
        == { JoinCons(s[..i], rest, c); }
        s[..i] + [c] + Join(rest, c);
        == { JoinSplit(s[i + 1..], c); }
        s[..i] + [c] + s[i + 1..];
      }
      assert s == s[..i] + [c] + s[i + 1..];
    } else {
      assert Split(s, c) == [s];
    }
  }

  /** Splitting a join of separator-free pieces gives back the pieces. */
  lemma {:induction false} SplitJoin(parts: seq<string>, c: char)
    requires |parts| >= 1
    requires forall k :: 0 <= k < |parts| ==> c !in parts[k]
    ensures Split(Join(parts, c), c) == parts
  {
    if |parts| == 1 {
      SplitWithout(parts[0], c);
    } else {
      var s := Join(parts, c);
      var rest := Join(parts[1..], c);
      var tail := [c] + rest;
      assert s == parts[0] + tail;
      FirstIndexAfter(parts[0], tail, c);
      var i := |parts[0]|;
      assert s[..i] == parts[0];
      assert s[i + 1..] == rest;
      assert Split(s, c) == [parts[0]] + Split(rest, c);
      SplitJoin(parts[1..], c);
      assert parts == [parts[0]] + parts[1..];
    }
  }

  lemma FirstIndexAfter(a: string, b: string, c: char)
    requires c !in a && |b| > 0 && b[0] == c
    ensures FirstIndex(a + b, c) == |a|
  {
    assert forall k :: 0 <= k < |a| ==> (a + b)[k] == a[k];
    assert (a + b)[|a|] == c;
  }

  /** The last piece of strings.Split(s, string(c)). */
  function LastField(s: string, c: char): string
  {
    var parts := Split(s, c);
    parts[|parts| - 1]
  }

  /** The last field of `s` is the last field of the text after its first `c`. */
  lemma LastFieldStep(s: string, c: char)
    requires FirstIndex(s, c) < |s|
    ensures LastField(s, c) == LastField(s[FirstIndex(s, c) + 1..], c)
  {
    var parts := Split(s[FirstIndex(s, c) + 1..], c);
    SplitStep(s, c);
    assert Split(s, c)[|parts|] == parts[|parts| - 1];
  }

  /** Without a `c`, the last field is all of `s`. */
  lemma LastFieldWhole(s: string, c: char)
    requires FirstIndex(s, c) == |s|
    ensures LastField(s, c) == s && c !in s
  {
    assert Split(s, c) == [s];
  }

  /** The last field is a `c`-free suffix of `s`. */
  lemma {:induction false} LastFieldSuffix(s: string, c: char)
    ensures c !in LastField(s, c)
    ensures IsSuffix(LastField(s, c), s)
    decreases |s|
  {
    var i := FirstIndex(s, c);
    if i == |s| {
      LastFieldWhole(s, c);
    } else {
      var rest := s[i + 1..];
      assert LastField(s, c) == LastField(rest, c) by {
        LastFieldStep(s, c);
      }
      LastFieldSuffix(rest, c);
      SuffixOfSuffix(LastField(rest, c), rest, s);
    }
  }

  /** When `s` holds a `c`, one stands right before the last field. */
  lemma {:induction false} LastFieldAfterSeparator(s: string, c: char)
    requires c in s
    ensures |LastField(s, c)| < |s| && s[|s| - |LastField(s, c)| - 1] == c
    decreases |s|
  {
    var i := FirstIndex(s, c);
    assert i < |s| by {
      if i == |s| {
        assert false;
      }
    }
    var rest := s[i + 1..];
    assert LastField(s, c) == LastField(rest, c) by {
      LastFieldStep(s, c);
    }
    var r := LastField(rest, c);
    assert IsSuffix(r, rest) by {
      LastFieldSuffix(rest, c);
    }
    var j := FirstIndex(rest, c);
    if j < |rest| {
      assert c in rest by {
        assert rest[j] == c;
      }
      LastFieldAfterSeparator(rest, c);
      assert s[|s| - |r| - 1] == rest[|rest| - |r| - 1];
    } else {
      assert r == rest by {
        LastFieldWhole(rest, c);
      }
    }
  }

  /**
    The last field is exactly the text after the last `c`: it holds no `c`,
    it ends `s`, it is all of `s` when `s` has no `c`, and otherwise a `c`
    stands right before it.
   */
  lemma LastFieldIsTextAfterLast(s: string, c: char)
    ensures c !in LastField(s, c)
    ensures IsSuffix(LastField(s, c), s)
    ensures c !in s ==> LastField(s, c) == s
    ensures c in s ==> |LastField(s, c)| < |s| && s[|s| - |LastField(s, c)| - 1] == c
  {
    LastFieldSuffix(s, c);
    if c in s {
      LastFieldAfterSeparator(s, c);
    } else {
      SplitWithout(s, c);
    }
  }

  /** The text after a `c` that has no `c` of its own is the last field, whatever precedes it. */
  lemma {:induction false} LastFieldAfter(x: string, c: char, y: string)
    requires c !in y
    ensures LastField(x + [c] + y, c) == y
    decreases |x|
  {
    var s := x + [c] + y;
    var i := FirstIndex(s, c);
    assert s[|x|] == c;
    if i < |x| {
      assert s[i + 1..] == x[i + 1..] + [c] + y;
      LastFieldAfter(x[i + 1..], c, y);
    } else {
      assert s[i + 1..] == y;
      SplitWithout(y, c);
    }
  }

  /** Taking the last field twice is taking it once. */
  lemma LastFieldIdempotent(s: string, c: char)
    ensures LastField(LastField(s, c), c) == LastField(s, c)
  {
    LastFieldIsTextAfterLast(s, c);
    SplitWithout(LastField(s, c), c);
  }

  predicate HasSuffix(s: string, suffix: string) {
    IsSuffix(suffix, s)
  }

  /** strings.TrimSuffix. */
  function TrimSuffix(s: string, suffix: string): (r: string)
    ensures HasSuffix(s, suffix) ==> r + suffix == s
    ensures !HasSuffix(s, suffix) ==> r == s
  {
    if HasSuffix(s, suffix) then s[..|s| - |suffix|] else s
  }

  /**
    The scan of filepath.Ext over `path[..n]`, from the end backwards: the
    index of the last '.' after the last '/', or `|path|` when a '/' or the
    start comes first.
   */
  function DotIndex(path: string, n: nat): (j: nat)
    requires n <= |path|
    ensures j <= |path|
    ensures j < |path| ==> j < n && path[j] == '.' && forall k :: j < k < n ==> path[k] != '.' && path[k] != '/'
    ensures j == |path| && (forall k :: 0 <= k < n ==> path[k] != '/') ==> forall k :: 0 <= k < n ==> path[k] != '.'
    decreases n
  {
    if n == 0 || path[n - 1] == '/' then |path|
    else if path[n - 1] == '.' then n - 1
    else DotIndex(path, n - 1)
  }

  /**
    filepath.Ext on a Unix path: the suffix of `path` that starts at the last
    '.' of its final element, or "" when that element has no '.'.
   */
  function Ext(path: string): (e: string)
    ensures IsSuffix(e, path)
    ensures e != "" ==> e[0] == '.' && '.' !in e[1..] && '/' !in e
    ensures e == "" && '/' !in path ==> '.' !in path
  {
    var j := DotIndex(path, |path|);
    if j == |path| then "" else path[j..]
  }

  /** A '.' followed only by characters other than '.' and '/' starts the extension. */
  lemma {:induction false} DotIndexAt(path: string, j: nat, n: nat)
    requires j < n <= |path| && path[j] == '.'
    requires forall k :: j < k < n ==> path[k] != '.' && path[k] != '/'
    ensures DotIndex(path, n) == j
    decreases n
  {
    if n - 1 > j {
      DotIndexAt(path, j, n - 1);
    }
  }

  /** strings.ReplaceAll(s, string(a), string(b)) for single characters. */
  function ReplaceChar(s: string, a: char, b: char): (r: string)
    ensures |r| == |s|
    ensures forall k :: 0 <= k < |s| ==> r[k] == (if s[k] == a then b else s[k])
  {
    if |s| == 0 then "" else [if s[0] == a then b else s[0]] + ReplaceChar(s[1..], a, b)
  }
}
