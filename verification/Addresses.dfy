/** Comparison of two DNS answers: server/standard/resolver.go, sameAddresses. */
module Addresses {
  import opened Common

  /** The part of resolver.Address that matters here; only `addr` is ever compared. */
  datatype Address = Address(addr: string, serverName: string)

  function AddrsOf(a: seq<Address>): (r: seq<string>)
    ensures |r| == |a|
    ensures forall i :: 0 <= i < |a| ==> r[i] == a[i].addr
  {
    seq(|a|, i requires 0 <= i < |a| => a[i].addr)
  }

  /** What an answer means to a client: how often each Addr occurs. */
  ghost function Bag(a: seq<Address>): multiset<string> {
    multiset(AddrsOf(a))
  }

  // ----- Go's string order, a total order -----

  predicate Le(a: string, b: string) {
    a == "" || (b != "" && (a[0] < b[0] || (a[0] == b[0] && Le(a[1..], b[1..]))))
  }

  lemma {:induction false} LeTotal(a: string, b: string)
    ensures Le(a, b) || Le(b, a)
  {
    if a != "" && b != "" && a[0] == b[0] {
      LeTotal(a[1..], b[1..]);
    }
  }

  lemma {:induction false} LeAntisymmetric(a: string, b: string)
    requires Le(a, b) && Le(b, a)
    ensures a == b
  {
    if a != "" && b != "" {
      LeAntisymmetric(a[1..], b[1..]);
      assert a == [a[0]] + a[1..] && b == [b[0]] + b[1..];
    }
  }

  lemma {:induction false} LeTransitive(a: string, b: string, c: string)
    requires Le(a, b) && Le(b, c)
    ensures Le(a, c)
  {
    if a != "" && a[0] == b[0] == c[0] {
      LeTransitive(a[1..], b[1..], c[1..]);
    }
  }

  // ----- sort.Strings: any ascending permutation is the same list -----

  ghost predicate Ascending(s: seq<string>) {
    forall i, j :: 0 <= i < j < |s| ==> Le(s[i], s[j])
  }

  function Insert(x: string, s: seq<string>): (r: seq<string>)
    requires Ascending(s)
    ensures Ascending(r) && multiset(r) == multiset{x} + multiset(s)
  {
    if s == [] then [x]
    else if Le(x, s[0]) then
      assert forall j :: 0 <= j < |s| ==> Le(x, s[j]) by {
        forall j | 0 < j < |s| ensures Le(x, s[j]) { LeTransitive(x, s[0], s[j]); }
      }
      [x] + s
    else
      MultisetHead(s);
      var r := Insert(x, s[1..]);
      assert forall j :: 0 <= j < |r| ==> Le(s[0], r[j]) by {
        LeTotal(x, s[0]);
        forall j | 0 <= j < |r| ensures Le(s[0], r[j]) {
          assert r[j] in multiset(r);
          assert r[j] == x || r[j] in s[1..];
        }
      }
      [s[0]] + r
  }

  /** sort.Strings. */
  function SortStrings(s: seq<string>): (r: seq<string>)
    ensures Ascending(r) && multiset(r) == multiset(s)
  {
    if s == [] then [] else MultisetHead(s); Insert(s[0], SortStrings(s[1..]))
  }

  /** Two ascending lists with the same elements are the same list. */
  lemma {:induction false} AscendingIsCanonical(a: seq<string>, b: seq<string>)
    requires Ascending(a) && Ascending(b) && multiset(a) == multiset(b)
    ensures a == b
  {
    if a == [] {
      assert |multiset(b)| == 0;
    } else {
      assert a[0] in multiset(a) && |multiset(b)| == |a|;
      assert b[0] in multiset(b);
      assert a[0] in b && b[0] in a;
      assert Le(a[0], b[0]) && Le(b[0], a[0]) by { LeTotal(a[0], a[0]); }
      LeAntisymmetric(a[0], b[0]);
      MultisetHead(a);
      MultisetHead(b);
      assert multiset(a[1..]) == multiset(a) - multiset{a[0]};
      assert multiset(b[1..]) == multiset(b) - multiset{b[0]};
      AscendingIsCanonical(a[1..], b[1..]);
    }
  }

  /** The append loop over one of the two lists. */
  method CollectAddrs(a: seq<Address>) returns (strs: seq<string>)
    ensures strs == AddrsOf(a)
  {
    strs := [];
    for k := 0 to |a|
      invariant strs == AddrsOf(a)[..k]
    {
      strs := strs + [a[k].addr];
    }
  }

  /** The length test and the pointwise comparison of the two sorted lists. */
  method EqualLists(x: seq<string>, y: seq<string>) returns (same: bool)
    ensures same <==> x == y
  {
    if |x| == |y| {
      for i := 0 to |x|
        invariant x[..i] == y[..i]
      {
        if x[i] != y[i] {
          return false;
        }
      }
      assert x == x[..|x|] && y == y[..|x|];
    } else {
      return false;
    }
    return true;
  }

  /** sameAddresses decides equality of the two multisets of Addr. */
  method SameAddresses(a1: seq<Address>, a2: seq<Address>) returns (same: bool)
    ensures same <==> Bag(a1) == Bag(a2)
  {
    var a1str := CollectAddrs(a1);
    var a2str := CollectAddrs(a2);
    SortedEqualIffSameBag(a1, a2);
    same := EqualLists(SortStrings(a1str), SortStrings(a2str));
  }

  lemma SortedEqualIffSameBag(a: seq<Address>, b: seq<Address>)
    ensures SortStrings(AddrsOf(a)) == SortStrings(AddrsOf(b)) <==> Bag(a) == Bag(b)
  {
    if Bag(a) == Bag(b) {
      AscendingIsCanonical(SortStrings(AddrsOf(a)), SortStrings(AddrsOf(b)));
    }
  }

  /** Reordering either answer, or changing anything but Addr, is invisible to the comparison. */
  lemma PermutationKeepsBag(a: seq<Address>, b: seq<Address>, f: seq<nat>)
    requires |f| == |a| == |b|
    requires forall i :: 0 <= i < |f| ==> f[i] < |a|
    requires forall i, j :: 0 <= i < j < |f| ==> f[i] != f[j]
    requires forall i :: 0 <= i < |f| ==> b[i].addr == a[f[i]].addr
    ensures Bag(a) == Bag(b)
  {
    PermutedMultiset(AddrsOf(a), AddrsOf(b), f);
  }

  lemma {:induction false} PermutedMultiset(s: seq<string>, t: seq<string>, f: seq<nat>)
    requires |f| == |s| == |t|
    requires forall i :: 0 <= i < |f| ==> f[i] < |s|
    requires forall i, j :: 0 <= i < j < |f| ==> f[i] != f[j]
    requires forall i :: 0 <= i < |f| ==> t[i] == s[f[i]]
    ensures multiset(s) == multiset(t)
  {
    if s != [] {
      var p := f[0];
      var s' := s[..p] + s[p + 1..];
      var g := seq(|f| - 1, i requires 0 <= i < |f| - 1 => if f[i + 1] < p then f[i + 1] else f[i + 1] - 1);
      PermutedMultiset(s', t[1..], g);
      MultisetHead(t);
      assert s == s[..p] + [s[p]] + s[p + 1..];
    }
  }
}
