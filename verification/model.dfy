/** The data model shared by the share splitter, the ledger and the
    settlement planner: amounts are exact reals (no floating-point rounding),
    a stored expense row, a (name, amount) entry and a transfer. */
module Model {

  /** The one tolerance the ledger uses: the split check, the debtor and
      creditor filters and the settlement loop all compare against 0.1. */
  const Tolerance: real := 0.1

  datatype Option<+T> = None | Some(value: T)

  datatype Result<+R, +E> = Success(value: R) | Failure(error: E)

  /** One row of the expense log. `shares` is the decoded share mapping;
      `None` stands for a payload that could not be decoded. */
  datatype Row = Row(payer: string, amount: real, shares: Option<map<string, real>>)

  /** A member name with an amount: a balance, a debt or a credit. */
  datatype Entry = Entry(name: string, amount: real)

  /** A suggested payment of `amount` from `from` to `to`. */
  datatype Transfer = Transfer(from: string, to: string, amount: real)

  function Abs(x: real): real {
    if x < 0.0 then -x else x
  }

  function Min(x: real, y: real): (r: real)
    ensures r <= x && r <= y && (r == x || r == y)
  {
    if x <= y then x else y
  }

  /** The value stored under `n`, a missing key reading as 0. */
  function Lookup(m: map<string, real>, n: string): real {
    if n in m then m[n] else 0.0
  }

  /** The sum of `m` over the names `ns`, in order; a name listed twice
      counts twice, a missing key counts 0. */
  function SumOver(ns: seq<string>, m: map<string, real>): real {
    if ns == [] then 0.0 else SumOver(ns[..|ns| - 1], m) + Lookup(m, ns[|ns| - 1])
  }

  lemma {:induction false} SumOverAppend(a: seq<string>, b: seq<string>, m: map<string, real>)
    ensures SumOver(a + b, m) == SumOver(a, m) + SumOver(b, m)
    decreases |b|
  {
    if b == [] {
      assert a + b == a;
    } else {
      var b' := b[..|b| - 1];
      assert (a + b)[..|a + b| - 1] == a + b';
      SumOverAppend(a, b', m);
    }
  }

  /** Two maps that agree on every listed name give the same sum. */
  lemma {:induction false} SumOverAgree(ns: seq<string>, m1: map<string, real>, m2: map<string, real>)
    requires forall n :: n in ns ==> Lookup(m1, n) == Lookup(m2, n)
    ensures SumOver(ns, m1) == SumOver(ns, m2)
  {
    if ns != [] {
      var ns' := ns[..|ns| - 1];
      assert forall n :: n in ns' ==> n in ns;
      SumOverAgree(ns', m1, m2);
    }
  }

  /** Every listed name holding the same value `a` gives `|ns|` copies of `a`. */
  lemma {:induction false} SumOverConstant(ns: seq<string>, m: map<string, real>, a: real)
    requires forall n :: n in ns ==> Lookup(m, n) == a
    ensures SumOver(ns, m) == (|ns| as real) * a
  {
    if ns != [] {
      var ns' := ns[..|ns| - 1];
      assert forall n :: n in ns' ==> n in ns;
      SumOverConstant(ns', m, a);
      assert (|ns| as real) * a == (|ns'| as real) * a + a;
    }
  }
}
