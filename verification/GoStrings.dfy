/** The pieces of Go's strings package the repository scans text with, on characters. */
module GoStrings {

  /** strings.IndexByte. */
  function IndexOf(s: string, c: char): (i: int)
    ensures -1 <= i < |s|
    ensures i == -1 <==> c !in s
    ensures i >= 0 ==> s[i] == c && c !in s[..i]
  {
    if s == "" then -1
    else if s[0] == c then 0
    else
      assert s == [s[0]] + s[1..];
      var i := IndexOf(s[1..], c);
      assert i >= 0 ==> s[..i + 1] == [s[0]] + s[1..][..i];
      if i < 0 then -1 else i + 1
  }

  /** strings.LastIndexByte. */
  function LastIndexOf(s: string, c: char): (i: int)
    ensures -1 <= i < |s|
    ensures i == -1 <==> c !in s
    ensures i >= 0 ==> s[i] == c && c !in s[i + 1..]
  {
    if s == "" then -1
    else if s[|s| - 1] == c then |s| - 1
    else
      var t := s[..|s| - 1];
      assert s == t + [s[|s| - 1]];
      var i := LastIndexOf(t, c);
      assert i >= 0 ==> s[i + 1..] == t[i + 1..] + [s[|s| - 1]];
      i
  }

  /** strings.Split with a one-character separator. */
  function Split(s: string, c: char): (r: seq<string>)
    ensures r != []
    decreases |s|
  {
    var i := IndexOf(s, c);
    if i < 0 then [s] else [s[..i]] + Split(s[i + 1..], c)
  }

  function Join(r: seq<string>, c: char): string
    requires r != []
  {
    if |r| == 1 then r[0] else r[0] + [c] + Join(r[1..], c)
  }

  /** Splitting loses nothing. */
  lemma {:induction false} JoinSplit(s: string, c: char)
    ensures Join(Split(s, c), c) == s
    decreases |s|
  {
    var i := IndexOf(s, c);
    if i >= 0 {
      var a, b := s[..i], s[i + 1..];
      JoinSplit(b, c);
      JoinCons(a, Split(b, c), c);
      assert s == a + [c] + b;
    }
  }

  lemma JoinCons(a: string, r: seq<string>, c: char)
    requires r != []
    ensures Join([a] + r, c) == a + [c] + Join(r, c)
  {
    assert ([a] + r)[1..] == r;
  }

  lemma {:induction false} IndexOfIs(s: string, c: char, n: nat)
    requires n < |s| && s[n] == c && c !in s[..n]
    ensures IndexOf(s, c) == n
  {
    if n > 0 {
      assert s[..n] == [s[0]] + s[1..][..n - 1];
      IndexOfIs(s[1..], c, n - 1);
    }
  }

  lemma {:induction false} LastIndexOfIs(s: string, c: char, n: nat)
    requires n < |s| && s[n] == c && c !in s[n + 1..]
    ensures LastIndexOf(s, c) == n
  {
    if n < |s| - 1 {
      var t := s[..|s| - 1];
      assert s[n + 1..] == t[n + 1..] + [s[|s| - 1]];
      LastIndexOfIs(t, c, n);
    }
  }

  lemma SplitAt(a: string, c: char, b: string)
    requires c !in a
    ensures Split(a + [c] + b, c) == [a] + Split(b, c)
  {
    var s := a + [c] + b;
    assert s[..|a|] == a && s[|a| + 1..] == b;
    IndexOfIs(s, c, |a|);
  }

  /** Splitting is the inverse of joining pieces free of the separator. */
  lemma {:induction false} SplitJoin(r: seq<string>, c: char)
    requires r != []
    requires forall k :: 0 <= k < |r| ==> c !in r[k]
    ensures Split(Join(r, c), c) == r
  {
    if |r| > 1 {
      SplitJoin(r[1..], c);
      SplitAt(r[0], c, Join(r[1..], c));
    }
  }

  /** A separator splits what is on its two sides separately. */
  lemma {:induction false} SplitBetween(a: string, c: char, b: string)
    ensures Split(a + [c] + b, c) == Split(a, c) + Split(b, c)
    decreases |a|
  {
    hide Split, IndexOf;
    var i := IndexOf(a, c);
    if i < 0 {
      SplitAt(a, c, b);
      SplitWhole(a, c);
    } else {
      var x, y := a[..i], a[i + 1..];
      assert a == x + [c] + y;
      assert a + [c] + b == x + [c] + (y + [c] + b);
      SplitAt(x, c, y);
      SplitAt(x, c, y + [c] + b);
      SplitBetween(y, c, b);
    }
  }

  lemma SplitWhole(s: string, c: char)
    requires c !in s
    ensures Split(s, c) == [s]
  {
  }

  /** unicode.IsSpace. */
  predicate IsSpace(c: char) {
    '\t' <= c <= '\r' || c == ' ' || c == '\U{85}' || c == '\U{A0}' || c == '\U{1680}' ||
    '\U{2000}' <= c <= '\U{200A}' || c == '\U{2028}' || c == '\U{2029}' || c == '\U{202F}' ||
    c == '\U{205F}' || c == '\U{3000}'
  }

  function TrimLeft(s: string): (r: string)
    ensures r == "" || !IsSpace(r[0])
  {
    if s != "" && IsSpace(s[0]) then TrimLeft(s[1..]) else s
  }

  function TrimRight(s: string): (r: string)
    ensures r == "" || !IsSpace(r[|r| - 1])
    ensures r <= s
  {
    if s != "" && IsSpace(s[|s| - 1]) then TrimRight(s[..|s| - 1]) else s
  }

  /** strings.TrimSpace: the result neither starts nor ends with space. */
  function TrimSpace(s: string): (r: string)
    ensures r == "" || (!IsSpace(r[0]) && !IsSpace(r[|r| - 1]))
  {
    TrimRight(TrimLeft(s))
  }

  predicate AllSpace(s: string) {
    forall k :: 0 <= k < |s| ==> IsSpace(s[k])
  }

  lemma {:induction false} TrimLeftDrops(s: string) returns (l: string)
    ensures s == l + TrimLeft(s) && AllSpace(l)
  {
    if s != "" && IsSpace(s[0]) {
      l := TrimLeftDrops(s[1..]);
      assert s == [s[0]] + s[1..];
      l := [s[0]] + l;
    } else {
      l := "";
    }
  }

  lemma {:induction false} TrimRightDrops(s: string) returns (r: string)
    ensures s == TrimRight(s) + r && AllSpace(r)
  {
    if s != "" && IsSpace(s[|s| - 1]) {
      r := TrimRightDrops(s[..|s| - 1]);
      assert s == s[..|s| - 1] + [s[|s| - 1]];
      r := r + [s[|s| - 1]];
    } else {
      r := "";
    }
  }

  /** TrimSpace drops space at the two ends and nothing else. */
  lemma TrimSpaceDrops(s: string) returns (l: string, r: string)
    ensures s == l + TrimSpace(s) + r && AllSpace(l) && AllSpace(r)
  {
    l := TrimLeftDrops(s);
    r := TrimRightDrops(TrimLeft(s));
  }

  /** Neither starts nor ends with space. */
  predicate Tight(s: string) {
    s == "" || (!IsSpace(s[0]) && !IsSpace(s[|s| - 1]))
  }

  lemma {:induction false} TrimLeftOf(l: string, s: string)
    requires AllSpace(l)
    ensures TrimLeft(l + s) == TrimLeft(s)
  {
    if l == "" {
      assert l + s == s;
    } else {
      assert (l + s)[1..] == l[1..] + s;
      TrimLeftOf(l[1..], s);
    }
  }

  lemma {:induction false} TrimRightOf(s: string, r: string)
    requires AllSpace(r)
    ensures TrimRight(s + r) == TrimRight(s)
  {
    if r == "" {
      assert s + r == s;
    } else {
      assert (s + r)[..|s + r| - 1] == s + r[..|r| - 1];
      TrimRightOf(s, r[..|r| - 1]);
    }
  }

  /** TrimSpace, by what it leaves. */
  lemma TrimSpaceIff(s: string, t: string)
    ensures TrimSpace(s) == t <==> Tight(t) && exists l, r :: s == l + t + r && AllSpace(l) && AllSpace(r)
  {
    var l0, r0 := TrimSpaceDrops(s);
    forall l, r | Tight(t) && s == l + t + r && AllSpace(l) && AllSpace(r) ensures TrimSpace(s) == t {
      assert s == l + (t + r);
      TrimLeftOf(l, t + r);
      if t == "" {
        assert t + r == r && r + "" == r;
        TrimLeftOf(r, "");
      } else {
        TrimRightOf(t, r);
      }
    }
  }

  lemma TrimmedIsFixed(s: string)
    requires s == "" || (!IsSpace(s[0]) && !IsSpace(s[|s| - 1]))
    ensures TrimSpace(s) == s
  {
  }
}
