/** JavaScript's `String.prototype.split` with a one-character separator,
    the only form `dataURLToBlob` uses. */
module JsString {

  /** Index of the first occurrence of `c` in `s`. */
  function IndexOf(s: string, c: char): (i: nat)
    requires c in s
    ensures i < |s| && s[i] == c
    ensures forall k :: 0 <= k < i ==> s[k] != c
  {
    if s[0] == c then 0 else 1 + IndexOf(s[1..], c)
  }

  /** `s.split(c)`: the maximal pieces of `s` between occurrences of `c`,
      always at least one (`"".split(",")` is `[""]`). */
  function Split(s: string, c: char): (parts: seq<string>)
    ensures |parts| >= 1
    decreases |s|
  {
    if c !in s then [s]
    else
      var i := IndexOf(s, c);
      [s[..i]] + Split(s[i + 1..], c)
  }

  /** `parts.join(c)`, the inverse of `Split`. */
  function Join(parts: seq<string>, c: char): string
    requires |parts| >= 1
  {
    if |parts| == 1 then parts[0] else parts[0] + [c] + Join(parts[1..], c)
  }

  /** No piece of `s.split(c)` holds `c`. */
  lemma {:induction false} SplitPiecesFree(s: string, c: char)
    ensures forall k :: 0 <= k < |Split(s, c)| ==> c !in Split(s, c)[k]
    decreases |s|
  {
    if c in s {
      var i := IndexOf(s, c);
      SplitPiecesFree(s[i + 1..], c);
      assert c !in s[..i];
    }
  }

  /** Splitting and joining again gives back the original string. */
  lemma {:induction false} JoinSplit(s: string, c: char)
    ensures Join(Split(s, c), c) == s
    decreases |s|
  {
    if c in s {
      var i := IndexOf(s, c);
      var parts := Split(s, c);
      assert parts == [s[..i]] + Split(s[i + 1..], c);
      assert parts[0] == s[..i] && parts[1..] == Split(s[i + 1..], c);
      JoinSplit(s[i + 1..], c);
      assert Join(parts, c) == s[..i] + [c] + s[i + 1..];
      assert s == s[..i] + [c] + s[i + 1..];
    }
  }

  /** Joining pieces free of `c` and splitting again gives back the pieces. */
  lemma {:induction false} SplitJoin(parts: seq<string>, c: char)
    requires |parts| >= 1
    requires forall k :: 0 <= k < |parts| ==> c !in parts[k]
    ensures Split(Join(parts, c), c) == parts
  {
    if |parts| > 1 {
      var tail := parts[1..];
      assert forall k :: 0 <= k < |tail| ==> tail[k] == parts[k + 1];
      SplitJoin(tail, c);
      assert c !in parts[0];
      SplitAt(parts[0], Join(tail, c), c);
      assert Join(parts, c) == parts[0] + [c] + Join(tail, c);
      assert parts == [parts[0]] + tail;
    }
  }

  /** Splitting at a first separator placed after a separator-free prefix. */
  lemma SplitAt(p: string, q: string, c: char)
    requires c !in p
    ensures Split(p + [c] + q, c) == [p] + Split(q, c)
  {
    var s := p + [c] + q;
    assert s[|p|] == c;
    assert s[..|p|] == p;
    assert s[|p| + 1..] == q;
    IndexOfAt(s, c, |p|);
  }

  /** The first occurrence is the one at an index with no earlier `c`. */
  lemma IndexOfAt(s: string, c: char, i: nat)
    requires i < |s| && s[i] == c && c !in s[..i]
    ensures IndexOf(s, c) == i
  {
    assert forall k :: 0 <= k < i ==> s[..i][k] == s[k];
  }

  /** Number of occurrences of `c` in `s`. */
  function Count(s: string, c: char): nat
  {
    if s == [] then 0 else (if s[0] == c then 1 else 0) + Count(s[1..], c)
  }

  lemma {:induction false} CountAppend(a: string, b: string, c: char)
    ensures Count(a + b, c) == Count(a, c) + Count(b, c)
  {
    if a != [] {
      assert (a + b)[0] == a[0] && (a + b)[1..] == a[1..] + b;
      CountAppend(a[1..], b, c);
    } else {
      assert a + b == b;
    }
  }

  lemma {:induction false} CountAbsent(s: string, c: char)
    requires c !in s
    ensures Count(s, c) == 0
  {
    if s != [] { CountAbsent(s[1..], c); }
  }

  /** `s.split(c)` has one piece more than `s` has separators. */
  lemma {:induction false} SplitLength(s: string, c: char)
    ensures |Split(s, c)| == Count(s, c) + 1
    decreases |s|
  {
    if c !in s {
      CountAbsent(s, c);
    } else {
      var i := IndexOf(s, c);
      SplitLength(s[i + 1..], c);
      assert s == s[..i] + ([c] + s[i + 1..]);
      CountAppend(s[..i], [c] + s[i + 1..], c);
      CountAbsent(s[..i], c);
      assert ([c] + s[i + 1..])[1..] == s[i + 1..];
    }
  }

  /** `t` is the run of `s` that starts at `start` and extends up to, not
      including, the first character in `stops` (or to the end of `s`). */
  ghost predicate Token(s: string, start: nat, t: string, stops: set<char>)
  {
    && start + |t| <= |s|
    && t == s[start..start + |t|]
    && (forall k :: 0 <= k < |t| ==> t[k] !in stops)
    && (start + |t| == |s| || s[start + |t|] in stops)
  }

  /** At a given start there is only one token. */
  lemma TokenUnique(s: string, start: nat, t: string, u: string, stops: set<char>)
    requires Token(s, start, t, stops) && Token(s, start, u, stops)
    ensures t == u
  {
    assert forall k :: 0 <= k < |t| ==> s[start + k] == t[k] && s[start + k] !in stops;
    assert forall k :: 0 <= k < |u| ==> s[start + k] == u[k] && s[start + k] !in stops;
    assert |t| == |u|;
  }

  /** The first piece of `s.split(c)` is the token at index 0. */
  lemma SplitFirstToken(s: string, c: char)
    ensures Token(s, 0, Split(s, c)[0], {c})
  {
  }

  /** When `s` holds `c`, the second piece of `s.split(c)` is the token that
      starts just after the first `c`. */
  lemma SplitSecondToken(s: string, c: char)
    requires c in s
    ensures |Split(s, c)| >= 2
    ensures Token(s, IndexOf(s, c) + 1, Split(s, c)[1], {c})
  {
    var i := IndexOf(s, c);
    var rest := s[i + 1..];
    assert Split(s, c)[1] == Split(rest, c)[0];
    SplitFirstToken(rest, c);
    TokenShift(s, i + 1, Split(rest, c)[0], {c});
  }

  /** A token at the start of a suffix is a token of the whole string. */
  lemma TokenShift(s: string, start: nat, t: string, stops: set<char>)
    requires start <= |s|
    requires Token(s[start..], 0, t, stops)
    ensures Token(s, start, t, stops)
  {
    var rest := s[start..];
    assert |t| <= |rest|;
    assert rest[..|t|] == s[start..start + |t|];
    if start + |t| < |s| {
      assert rest[|t|] == s[start + |t|];
    }
  }

  /** A run up to `b` inside a run up to `a` is a run up to `a` or `b`. */
  lemma TokenWithin(s: string, start: nat, f: string, m: string, a: char, b: char)
    requires Token(s, start, f, {a})
    requires Token(f, 0, m, {b})
    ensures Token(s, start, m, {a, b})
  {
    assert f[..|m|] == m;
    assert s[start..start + |m|] == f[..|m|];
    assert forall k :: 0 <= k < |m| ==> m[k] == f[k];
    if |m| < |f| {
      assert s[start + |m|] == f[|m|];
    }
  }
}
