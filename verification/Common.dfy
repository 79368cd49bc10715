/** Result types and sequence facts shared by the other modules. */
module Common {

  datatype Option<+T> = None | Some(value: T)

  datatype Result<+T, +E> = Ok(value: T) | Err(error: E)

  /** Last element of a history, or a default when nothing happened yet. */
  function LastOr<T>(s: seq<T>, default: T): T {
    if s == [] then default else s[|s| - 1]
  }

  lemma MultisetHead<T>(s: seq<T>)
    requires s != []
    ensures multiset(s) == multiset{s[0]} + multiset(s[1..])
  {
    assert s == [s[0]] + s[1..];
  }
}

/** The gRPC status codes and statuses the other modules speak of. */
module Codes {

  const OK: nat := 0
  const UNKNOWN: nat := 2
  const INTERNAL: nat := 13

  datatype Status = Status(code: nat, message: string)
}

/** Quotients and remainders from first principles. */
module Division {

  lemma DivModStep(t: nat, m: nat)
    requires m > 0
    ensures if t % m + 1 < m then (t + 1) / m == t / m && (t + 1) % m == t % m + 1
            else (t + 1) / m == t / m + 1 && (t + 1) % m == 0
  {
    var q, r := t / m, t % m;
    assert t == q * m + r;
    if r + 1 < m {
      DivModUnique(t + 1, m, q, r + 1);
    } else {
      assert (q + 1) * m == q * m + m;
      DivModUnique(t + 1, m, q + 1, 0);
    }
  }

  lemma DivModUnique(t: nat, m: nat, q: nat, r: nat)
    requires m > 0 && r < m && t == q * m + r
    ensures t / m == q && t % m == r
  {
    var q', r' := t / m, t % m;
    assert t == q' * m + r';
    if q < q' {
      MulLe(q + 1, q', m);
    } else if q' < q {
      MulLe(q' + 1, q, m);
    }
  }

  lemma MulLe(x: nat, y: nat, m: nat)
    requires x <= y
    ensures x * m <= y * m
  {
    assert y * m == x * m + (y - x) * m;
  }

  lemma SumDivMod(x: nat, y: nat, n: nat)
    requires n > 0
    ensures var r := x % n + y % n;
            (x + y) / n == x / n + y / n + (if r < n then 0 else 1) &&
            (x + y) % n == if r < n then r else r - n
  {
    Carry(x / n, x % n, y / n, y % n, n);
    assert x == (x / n) * n + x % n && y == (y / n) * n + y % n;
  }

  lemma Carry(q: nat, r: nat, q': nat, r': nat, n: nat)
    requires r < n && r' < n
    ensures var t := (q * n + r) + (q' * n + r');
            t / n == q + q' + (if r + r' < n then 0 else 1) &&
            t % n == if r + r' < n then r + r' else r + r' - n
  {
    Distribute(q, q', n);
    Distribute(q + q', 1, n);
    if r + r' < n {
      DivModUnique((q * n + r) + (q' * n + r'), n, q + q', r + r');
    } else {
      DivModUnique((q * n + r) + (q' * n + r'), n, q + q' + 1, r + r' - n);
    }
  }

  lemma Distribute(x: nat, y: nat, m: nat)
    ensures (x + y) * m == x * m + y * m
  {
  }
}
