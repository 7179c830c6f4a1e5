/** The settlement planner: members owing more than the tolerance pay
    members owed more than the tolerance, largest first, until one side
    runs out. */
module Settlement {
  import opened Model
  import opened Members
  import opened Ledger

  /** No name occurs twice: the entries come from a dictionary's items. */
  predicate UniqueNames(es: seq<Entry>) {
    forall i, j :: 0 <= i < j < |es| ==> es[i].name != es[j].name
  }

  lemma {:induction false} UniqueCons(x: Entry, rest: seq<Entry>)
    requires UniqueNames(rest)
    requires forall e :: e in rest ==> e.name != x.name
    ensures UniqueNames([x] + rest)
  {
    var r := [x] + rest;
    forall i, j | 0 <= i < j < |r| ensures r[i].name != r[j].name {
      assert r[j] == rest[j - 1];
      if i > 0 {
        assert r[i] == rest[i - 1];
      }
    }
  }

  predicate HasName(es: seq<Entry>, n: string) {
    exists e :: e in es && e.name == n
  }

  /** Non-increasing by amount. */
  predicate SortedDesc(es: seq<Entry>) {
    forall i, j :: 0 <= i < j < |es| ==> es[i].amount >= es[j].amount
  }

  /** The entries with amount `v`, in their order: a stable sort keeps
      this subsequence unchanged for every `v`. */
  function WithAmount(es: seq<Entry>, v: real): seq<Entry> {
    if es == [] then []
    else (if es[0].amount == v then [es[0]] else []) + WithAmount(es[1..], v)
  }

  function SumAmounts(es: seq<Entry>): real {
    if es == [] then 0.0 else SumAmounts(es[..|es| - 1]) + es[|es| - 1].amount
  }

  /** The members who owe more than the tolerance, with their balances, in
      balance-table order. */
  function Debtors(balances: seq<Entry>): (r: seq<Entry>)
    ensures forall e :: e in r <==> e in balances && e.amount > Tolerance
  {
    if balances == [] then []
    else
      assert forall e :: e in balances[1..] ==> e in balances;
      (if balances[0].amount > Tolerance then [balances[0]] else []) + Debtors(balances[1..])
  }

  /** What a creditor is owed: the negated balance. */
  function Owed(e: Entry): Entry {
    Entry(e.name, -e.amount)
  }

  /** The members who are owed more than the tolerance, with what they are
      owed as a positive amount, in balance-table order. */
  function Creditors(balances: seq<Entry>): (r: seq<Entry>)
    ensures forall e :: e in r <==> e.amount > Tolerance && Owed(e) in balances
  {
    if balances == [] then []
    else
      assert forall e :: e in balances[1..] ==> e in balances;
      (if balances[0].amount < -Tolerance then [Owed(balances[0])] else []) + Creditors(balances[1..])
  }

  lemma {:induction false} DebtorsUnique(balances: seq<Entry>)
    requires UniqueNames(balances)
    ensures UniqueNames(Debtors(balances))
  {
    if balances != [] {
      var b, tail := balances[0], balances[1..];
      var rest := Debtors(tail);
      DebtorsUnique(tail);
      if b.amount > Tolerance {
        forall e | e in rest ensures e.name != b.name {
          var k :| 0 <= k < |tail| && tail[k] == e;
          assert balances[k + 1] == e;
        }
        UniqueCons(b, rest);
        assert Debtors(balances) == [b] + rest;
      } else {
        assert Debtors(balances) == rest;
      }
    }
  }

  lemma {:induction false} CreditorsUnique(balances: seq<Entry>)
    requires UniqueNames(balances)
    ensures UniqueNames(Creditors(balances))
  {
    if balances != [] {
      var b, tail := balances[0], balances[1..];
      var rest := Creditors(tail);
      CreditorsUnique(tail);
      if b.amount < -Tolerance {
        forall e | e in rest ensures e.name != b.name {
          var k :| 0 <= k < |tail| && tail[k] == Owed(e);
          assert balances[k + 1] == Owed(e);
        }
        UniqueCons(Owed(b), rest);
        assert Creditors(balances) == [Owed(b)] + rest;
      } else {
        assert Creditors(balances) == rest;
      }
    }
  }

  /** Filtering keeps the order of the debtors that owe the same amount. */
  lemma {:induction false} DebtorsKeepOrder(balances: seq<Entry>, v: real)
    requires v > Tolerance
    ensures WithAmount(Debtors(balances), v) == WithAmount(balances, v)
  {
    if balances != [] {
      DebtorsKeepOrder(balances[1..], v);
      WithAmountAppend((if balances[0].amount > Tolerance then [balances[0]] else []), Debtors(balances[1..]), v);
    }
  }

  /** Filtering keeps the order of the creditors that are owed the same
      amount. */
  lemma {:induction false} CreditorsKeepOrder(balances: seq<Entry>, v: real)
    requires v > Tolerance
    ensures WithAmount(Creditors(balances), v) == Negated(WithAmount(balances, -v))
  {
    if balances != [] {
      CreditorsKeepOrder(balances[1..], v);
      var head := if balances[0].amount < -Tolerance then [Owed(balances[0])] else [];
      WithAmountAppend(head, Creditors(balances[1..]), v);
      var b := balances[0];
      if b.amount == -v {
        assert WithAmount(balances, -v) == [b] + WithAmount(balances[1..], -v);
      } else {
        assert WithAmount(balances, -v) == WithAmount(balances[1..], -v);
      }
    }
  }

  lemma {:induction false} WithAmountAppend(a: seq<Entry>, b: seq<Entry>, v: real)
    ensures WithAmount(a + b, v) == WithAmount(a, v) + WithAmount(b, v)
  {
    if a != [] {
      assert (a + b)[1..] == a[1..] + b;
      WithAmountAppend(a[1..], b, v);
    } else {
      assert a + b == b;
    }
  }

  /** The entries with their amounts negated. */
  function Negated(es: seq<Entry>): (r: seq<Entry>)
    ensures |r| == |es|
  {
    if es == [] then [] else [Owed(es[0])] + Negated(es[1..])
  }

  /** Insert `x` in front of the first entry it is not smaller than. */
  function Insert(s: seq<Entry>, x: Entry): seq<Entry> {
    if s == [] || x.amount >= s[0].amount then [x] + s
    else [s[0]] + Insert(s[1..], x)
  }

  /** Inserting adds exactly `x`. */
  lemma {:induction false} InsertPermutes(s: seq<Entry>, x: Entry)
    ensures multiset(Insert(s, x)) == multiset(s) + multiset{x}
  {
    if s != [] && x.amount < s[0].amount {
      assert s == [s[0]] + s[1..];
      InsertPermutes(s[1..], x);
    }
  }

  lemma {:induction false} InsertSorted(s: seq<Entry>, x: Entry)
    requires SortedDesc(s)
    ensures SortedDesc(Insert(s, x))
  {
    if s == [] || x.amount >= s[0].amount {
      SortedCons(x, s);
    } else {
      var s0, t := s[0], s[1..];
      var tail := Insert(t, x);
      assert SortedDesc(t);
      InsertSorted(t, x);
      InsertMembers(t, x);
      assert Insert(s, x) == [s0] + tail;
      forall e | e in tail ensures s0.amount >= e.amount {
        if e != x {
          var k :| 0 <= k < |t| && t[k] == e;
          assert s[k + 1] == e;
        }
      }
      SortedCons(s0, tail);
    }
  }

  lemma {:induction false} SortedCons(h: Entry, t: seq<Entry>)
    requires SortedDesc(t)
    requires forall e :: e in t ==> h.amount >= e.amount
    ensures SortedDesc([h] + t)
  {
    var r := [h] + t;
    forall i, j | 0 <= i < j < |r| ensures r[i].amount >= r[j].amount {
      assert r[j] == t[j - 1];
      if i > 0 {
        assert r[i] == t[i - 1];
      }
    }
  }

  /** Inserting adds `x` and nothing else. */
  lemma {:induction false} InsertMembers(s: seq<Entry>, x: Entry)
    ensures forall e :: e in Insert(s, x) ==> e == x || e in s
  {
    var r := Insert(s, x);
    InsertPermutes(s, x);
    forall e | e in r ensures e == x || e in s {
      assert multiset(r)[e] > 0;
    }
  }

  /** `x` lands in front of every entry with its own amount. */
  lemma {:induction false} InsertStable(s: seq<Entry>, x: Entry, v: real)
    ensures WithAmount(Insert(s, x), v) == WithAmount([x], v) + WithAmount(s, v)
  {
    if s == [] || x.amount >= s[0].amount {
      WithAmountAppend([x], s, v);
    } else {
      assert s == [s[0]] + s[1..];
      InsertStable(s[1..], x, v);
      InsertStableStep(s[0], s[1..], x, v);
    }
  }

  /** `x` passes an entry with a larger amount, which cannot share its
      amount. */
  lemma {:induction false} InsertStableStep(s0: Entry, t: seq<Entry>, x: Entry, v: real)
    requires x.amount < s0.amount
    requires WithAmount(Insert(t, x), v) == WithAmount([x], v) + WithAmount(t, v)
    ensures WithAmount(Insert([s0] + t, x), v) == WithAmount([x], v) + WithAmount([s0] + t, v)
  {
    var wx, w0, wt := WithAmount([x], v), WithAmount([s0], v), WithAmount(t, v);
    assert wx == [] || w0 == [] by {
      WithAmountSingle(s0, v);
      WithAmountSingle(x, v);
    }
    calc {
      WithAmount(Insert([s0] + t, x), v);
      { assert ([s0] + t)[0] == s0 && ([s0] + t)[1..] == t; }
      WithAmount([s0] + Insert(t, x), v);
      { WithAmountAppend([s0], Insert(t, x), v); }
      w0 + (wx + wt);
      wx + (w0 + wt);
      { WithAmountAppend([s0], t, v); }
      wx + WithAmount([s0] + t, v);
    }
  }

  lemma {:induction false} WithAmountSingle(e: Entry, v: real)
    ensures WithAmount([e], v) == if e.amount == v then [e] else []
  {
    assert [e][1..] == [];
  }

  lemma {:induction false} InsertUnique(s: seq<Entry>, x: Entry)
    requires UniqueNames(s)
    requires forall e :: e in s ==> e.name != x.name
    ensures UniqueNames(Insert(s, x))
  {
    if s == [] || x.amount >= s[0].amount {
      UniqueCons(x, s);
    } else {
      var s0, t := s[0], s[1..];
      var tail := Insert(t, x);
      assert UniqueNames(t);
      assert forall e :: e in t ==> e in s;
      InsertUnique(t, x);
      InsertMembers(t, x);
      assert Insert(s, x) == [s0] + tail;
      forall e | e in tail ensures e.name != s0.name {
        if e != x {
          var k :| 0 <= k < |t| && t[k] == e;
          assert s[k + 1] == e;
        }
      }
      UniqueCons(s0, tail);
    }
  }

  /** Python's `sorted(xs, key=amount, reverse=True)`: a permutation of the
      input (sortedness and stability are the lemmas below). */
  function SortDesc(xs: seq<Entry>): (r: seq<Entry>)
    ensures multiset(r) == multiset(xs)
  {
    if xs == [] then []
    else
      assert xs == [xs[0]] + xs[1..];
      InsertPermutes(SortDesc(xs[1..]), xs[0]);
      Insert(SortDesc(xs[1..]), xs[0])
  }

  lemma {:induction false} SortDescSorted(xs: seq<Entry>)
    ensures SortedDesc(SortDesc(xs))
  {
    if xs != [] {
      SortDescSorted(xs[1..]);
      InsertSorted(SortDesc(xs[1..]), xs[0]);
    }
  }

  /** Entries with equal amounts keep their input order. */
  lemma {:induction false} SortDescStable(xs: seq<Entry>, v: real)
    ensures WithAmount(SortDesc(xs), v) == WithAmount(xs, v)
  {
    if xs != [] {
      SortDescStable(xs[1..], v);
      InsertStable(SortDesc(xs[1..]), xs[0], v);
    }
  }

  lemma {:induction false} SortDescUnique(xs: seq<Entry>)
    requires UniqueNames(xs)
    ensures UniqueNames(SortDesc(xs))
  {
    if xs != [] {
      var rest := SortDesc(xs[1..]);
      assert UniqueNames(xs[1..]);
      SortDescUnique(xs[1..]);
      forall e | e in rest ensures e.name != xs[0].name {
        assert multiset(rest)[e] > 0;
        var k :| 0 <= k < |xs[1..]| && xs[1..][k] == e;
        assert xs[k + 1] == e;
      }
      InsertUnique(rest, xs[0]);
    }
  }

  /** The party of `t` on the given side: its payer when `outgoing`, its
      payee otherwise. */
  function Side(t: Transfer, outgoing: bool): string {
    if outgoing then t.from else t.to
  }

  /** Total that `n` sends (`outgoing`) or receives over the transfers. */
  function Flow(ts: seq<Transfer>, n: string, outgoing: bool): real {
    if ts == [] then 0.0
    else Flow(ts[..|ts| - 1], n, outgoing) + (if Side(ts[|ts| - 1], outgoing) == n then ts[|ts| - 1].amount else 0.0)
  }

  function Sent(ts: seq<Transfer>, n: string): real {
    Flow(ts, n, true)
  }

  function Received(ts: seq<Transfer>, n: string): real {
    Flow(ts, n, false)
  }

  /** Total moved by the transfers. */
  function Moved(ts: seq<Transfer>): real {
    if ts == [] then 0.0 else Moved(ts[..|ts| - 1]) + ts[|ts| - 1].amount
  }

  /** `rest` is what the transfers leave of the amounts `orig`, on the given
      side: same names, every remainder between 0 and the original amount,
      each name's flow plus its remainder is its original amount, and all
      the remainders plus everything moved is the original total. */
  predicate Accounted(orig: seq<Entry>, rest: seq<Entry>, ts: seq<Transfer>, outgoing: bool) {
    && |rest| == |orig|
    && (forall k :: 0 <= k < |rest| ==>
         && rest[k].name == orig[k].name
         && 0.0 <= rest[k].amount <= orig[k].amount
         && Flow(ts, orig[k].name, outgoing) + rest[k].amount == orig[k].amount)
    && SumAmounts(rest) + Moved(ts) == SumAmounts(orig)
  }

  lemma {:induction false} AccountedInit(orig: seq<Entry>, outgoing: bool)
    requires forall k :: 0 <= k < |orig| ==> orig[k].amount >= 0.0
    ensures Accounted(orig, orig, [], outgoing)
  {
  }

  lemma {:induction false} FlowAppend(ts: seq<Transfer>, t: Transfer, n: string, outgoing: bool)
    ensures Flow(ts + [t], n, outgoing) == Flow(ts, n, outgoing) + (if Side(t, outgoing) == n then t.amount else 0.0)
    ensures Moved(ts + [t]) == Moved(ts) + t.amount
  {
    assert (ts + [t])[..|ts|] == ts;
  }

  /** The remainders before `i` are below the tolerance, the others are not:
      the loop's pointer `i` stands at the first unsettled entry. */
  predicate SettledBefore(rest: seq<Entry>, i: nat) {
    && i <= |rest|
    && (forall k :: 0 <= k < i ==> rest[k].amount < Tolerance)
    && (forall k :: i <= k < |rest| ==> rest[k].amount >= Tolerance)
  }

  /** Lowering the remainder at the pointer keeps the pointer valid, once
      it moves past a remainder that dropped below the tolerance. */
  lemma {:induction false} SettledStep(rest: seq<Entry>, i: nat, a: real)
    requires SettledBefore(rest, i) && i < |rest|
    ensures var rest' := rest[i := Entry(rest[i].name, a)];
      SettledBefore(rest', if a < Tolerance then i + 1 else i)
  {
  }

  /** Every transfer moves at least the tolerance from a debtor to a
      creditor. */
  predicate Paired(ts: seq<Transfer>, debtors: seq<Entry>, creditors: seq<Entry>) {
    forall t :: t in ts ==> t.amount >= Tolerance && HasName(debtors, t.from) && HasName(creditors, t.to)
  }

  lemma {:induction false} PairedStep(ts: seq<Transfer>, debtors: seq<Entry>, creditors: seq<Entry>, i: nat, j: nat, a: real)
    requires Paired(ts, debtors, creditors)
    requires i < |debtors| && j < |creditors| && a >= Tolerance
    ensures Paired(ts + [Transfer(debtors[i].name, creditors[j].name, a)], debtors, creditors)
  {
    assert debtors[i] in debtors && creditors[j] in creditors;
  }

  /** One transfer taken from the remainder at `k` keeps the account. */
  lemma {:induction false} AccountedStep(orig: seq<Entry>, rest: seq<Entry>, ts: seq<Transfer>, outgoing: bool, k: nat, t: Transfer, e: Entry)
    requires Accounted(orig, rest, ts, outgoing) && UniqueNames(orig)
    requires k < |rest| && Side(t, outgoing) == rest[k].name
    requires 0.0 <= t.amount <= rest[k].amount
    requires e == Entry(rest[k].name, rest[k].amount - t.amount)
    ensures Accounted(orig, rest[k := e], ts + [t], outgoing)
  {
    var rest' := rest[k := e];
    var ts' := ts + [t];
    SumAmountsUpdate(rest, k, rest'[k]);
    FlowAppend(ts, t, orig[k].name, outgoing);
    forall q | 0 <= q < |rest'|
      ensures rest'[q].name == orig[q].name
      ensures 0.0 <= rest'[q].amount <= orig[q].amount
      ensures Flow(ts', orig[q].name, outgoing) + rest'[q].amount == orig[q].amount
    {
      FlowAppend(ts, t, orig[q].name, outgoing);
      if q != k {
        assert orig[q].name != orig[k].name;
      }
    }
  }

  lemma {:induction false} SumAmountsUpdate(es: seq<Entry>, k: nat, e: Entry)
    requires k < |es|
    ensures SumAmounts(es[k := e]) == SumAmounts(es) - es[k].amount + e.amount
  {
    var n := |es| - 1;
    if k < n {
      assert es[k := e][..n] == es[..n][k := e];
      SumAmountsUpdate(es[..n], k, e);
    } else {
      assert es[k := e][..n] == es[..n];
    }
  }

  lemma {:induction false} EntryBelowSum(es: seq<Entry>, k: nat)
    requires k < |es|
    requires forall i :: 0 <= i < |es| ==> es[i].amount >= 0.0
    ensures es[k].amount <= SumAmounts(es)
  {
    var n := |es| - 1;
    SumAmountsNonNegative(es[..n]);
    if k < n {
      EntryBelowSum(es[..n], k);
    }
  }

  lemma {:induction false} SumAmountsNonNegative(es: seq<Entry>)
    requires forall i :: 0 <= i < |es| ==> es[i].amount >= 0.0
    ensures SumAmounts(es) >= 0.0
  {
    if es != [] {
      SumAmountsNonNegative(es[..|es| - 1]);
    }
  }

  lemma {:induction false} SumAmountsBelow(es: seq<Entry>, b: real)
    requires forall i :: 0 <= i < |es| ==> es[i].amount < b
    ensures SumAmounts(es) <= b * (|es| as real)
  {
    if es != [] {
      SumAmountsBelow(es[..|es| - 1], b);
    }
  }

  /** Once one side is settled below the tolerance and the two sides held
      equal totals, everything left on the other side is below the
      tolerance times the number of parties. */
  lemma {:induction false} Residue(settled: seq<Entry>, other: seq<Entry>, size: nat)
    requires |settled| + |other| <= size
    requires forall k :: 0 <= k < |settled| ==> 0.0 <= settled[k].amount < Tolerance
    requires forall k :: 0 <= k < |other| ==> 0.0 <= other[k].amount
    requires SumAmounts(other) == SumAmounts(settled)
    ensures forall k :: 0 <= k < |settled| ==> settled[k].amount <= Tolerance * (size as real)
    ensures forall k :: 0 <= k < |other| ==> other[k].amount <= Tolerance * (size as real)
  {
    SumAmountsBelow(settled, Tolerance);
    forall k | 0 <= k < |other| ensures other[k].amount <= Tolerance * (size as real) {
      EntryBelowSum(other, k);
    }
  }

  /** What a run of the settlement loop produces: the transfers in order
      and what is left of the debts and of the credits. */
  datatype Run = Run(transfers: seq<Transfer>, restD: seq<Entry>, restC: seq<Entry>)

  /** The settlement loop as a recursive function, from the pointers `i`
      into the debt remainders `rd` and `j` into the credit remainders `rc`,
      after the transfers `done`: while both lists have entries left, the
      debtor at `i` pays the creditor at `j` the smaller of their
      remainders, both remainders are lowered by it, and a pointer moves on
      once its remainder is below the tolerance. One of the two remainders
      drops to zero, so at least one pointer moves at each step. */
  function Greedy(rd: seq<Entry>, rc: seq<Entry>, i: nat, j: nat, done: seq<Transfer>): Run
    decreases |rd| - i + |rc| - j
  {
    if i < |rd| && j < |rc| then
      var amt := Min(rd[i].amount, rc[j].amount);
      var d := Entry(rd[i].name, rd[i].amount - amt);
      var c := Entry(rc[j].name, rc[j].amount - amt);
      Greedy(rd[i := d], rc[j := c], if d.amount < Tolerance then i + 1 else i,
             if c.amount < Tolerance then j + 1 else j, done + [Transfer(rd[i].name, rc[j].name, amt)])
    else
      Run(done, rd, rc)
  }

  /** The amount of the first entry named `n`, 0 when there is none. */
  function AmountOf(es: seq<Entry>, n: string): real {
    if es == [] then 0.0 else if es[0].name == n then es[0].amount else AmountOf(es[1..], n)
  }

  lemma {:induction false} AmountOfUnique(es: seq<Entry>, k: nat)
    requires UniqueNames(es) && k < |es|
    ensures AmountOf(es, es[k].name) == es[k].amount
  {
    if k > 0 {
      var tail := es[1..];
      assert UniqueNames(tail) by {
        forall a, b | 0 <= a < b < |tail| ensures tail[a].name != tail[b].name {
          assert tail[a] == es[a + 1] && tail[b] == es[b + 1];
        }
      }
      assert es[0].name != es[k].name;
      assert tail[k - 1] == es[k];
      AmountOfUnique(tail, k - 1);
    }
  }

  lemma {:induction false} AmountOfMember(es: seq<Entry>, e: Entry)
    requires UniqueNames(es) && e in es
    ensures AmountOf(es, e.name) == e.amount
  {
    var k :| 0 <= k < |es| && es[k] == e;
    AmountOfUnique(es, k);
  }

  /** The greedy rule: every transfer is the smaller of what its payer
      still owed and what its payee was still owed just before it. */
  predicate MinRule(ts: seq<Transfer>, debtors: seq<Entry>, creditors: seq<Entry>) {
    ts == [] ||
      var init, t := ts[..|ts| - 1], ts[|ts| - 1];
      && MinRule(init, debtors, creditors)
      && t.amount == Min(AmountOf(debtors, t.from) - Sent(init, t.from), AmountOf(creditors, t.to) - Received(init, t.to))
  }

  /** The greedy rule, transfer by transfer. */
  lemma {:induction false} MinRuleAt(ts: seq<Transfer>, debtors: seq<Entry>, creditors: seq<Entry>, k: nat)
    requires MinRule(ts, debtors, creditors) && k < |ts|
    ensures ts[k].amount == Min(AmountOf(debtors, ts[k].from) - Sent(ts[..k], ts[k].from),
                                AmountOf(creditors, ts[k].to) - Received(ts[..k], ts[k].to))
    decreases |ts|
  {
    var init := ts[..|ts| - 1];
    if k < |init| {
      MinRuleAt(init, debtors, creditors, k);
      assert init[..k] == ts[..k] && init[k] == ts[k];
    }
  }

  /** A transfer of the smaller remainder at the two pointers keeps the
      greedy rule. */
  lemma {:induction false} MinRuleStep(debtors: seq<Entry>, creditors: seq<Entry>, restD: seq<Entry>, restC: seq<Entry>,
                                       ts: seq<Transfer>, i: nat, j: nat, t: Transfer)
    requires UniqueNames(debtors) && UniqueNames(creditors)
    requires Accounted(debtors, restD, ts, true) && Accounted(creditors, restC, ts, false)
    requires MinRule(ts, debtors, creditors)
    requires i < |restD| && j < |restC|
    requires t == Transfer(restD[i].name, restC[j].name, Min(restD[i].amount, restC[j].amount))
    ensures MinRule(ts + [t], debtors, creditors)
  {
    AmountOfUnique(debtors, i);
    AmountOfUnique(creditors, j);
    assert (ts + [t])[..|ts|] == ts;
  }

  /** The run from the original lists, all the way. */
  function Settlement(debtors: seq<Entry>, creditors: seq<Entry>): Run {
    Greedy(debtors, creditors, 0, 0, [])
  }

  /** The rest of the loop, from where it stands, finishes the run that
      started from the original lists. */
  predicate Continues(debtors: seq<Entry>, creditors: seq<Entry>, restD: seq<Entry>, restC: seq<Entry>,
                      ts: seq<Transfer>, i: nat, j: nat)
  {
    Greedy(restD, restC, i, j, ts) == Settlement(debtors, creditors)
  }

  /** One step of the loop continues the same run. */
  lemma {:induction false} ContinuesStep(debtors: seq<Entry>, creditors: seq<Entry>, restD: seq<Entry>, restC: seq<Entry>,
                                         ts: seq<Transfer>, i: nat, j: nat, t: Transfer, d: Entry, c: Entry, i2: nat, j2: nat)
    requires Continues(debtors, creditors, restD, restC, ts, i, j)
    requires i < |restD| && j < |restC|
    requires t == Transfer(restD[i].name, restC[j].name, Min(restD[i].amount, restC[j].amount))
    requires d == Entry(restD[i].name, restD[i].amount - t.amount)
    requires c == Entry(restC[j].name, restC[j].amount - t.amount)
    requires i2 == if d.amount < Tolerance then i + 1 else i
    requires j2 == if c.amount < Tolerance then j + 1 else j
    ensures Continues(debtors, creditors, restD[i := d], restC[j := c], ts + [t], i2, j2)
  {
    assert Greedy(restD, restC, i, j, ts) == Greedy(restD[i := d], restC[j := c], i2, j2, ts + [t]);
  }

  /** What holds before every step of the settlement loop: both lists are
      accounted for by the transfers so far, each pointer stands at the
      first entry not yet settled, every transfer goes from a debtor to a
      creditor, and every step moved at least one pointer, the last step
      of a loop that exhausts both lists moving both. */
  predicate SettleInvariant(debtors: seq<Entry>, creditors: seq<Entry>, restD: seq<Entry>, restC: seq<Entry>,
                            ts: seq<Transfer>, i: nat, j: nat)
  {
    && Accounted(debtors, restD, ts, true)
    && Accounted(creditors, restC, ts, false)
    && SettledBefore(restD, i) && SettledBefore(restC, j)
    && Paired(ts, debtors, creditors)
    && MinRule(ts, debtors, creditors)
    && Continues(debtors, creditors, restD, restC, ts, i, j)
    && |ts| <= i + j <= 2 * |ts|
    && (i == |restD| && j == |restC| && ts != [] ==> |ts| < i + j)
  }

  /** One step of the loop keeps the invariant and moves a pointer: the
      transfer `t` of the smaller remainder, the lowered remainders `d` and
      `c`, and the pointers `i2`, `j2` moved past a remainder that dropped
      below the tolerance. */
  lemma {:induction false} SettleStep(debtors: seq<Entry>, creditors: seq<Entry>, restD: seq<Entry>, restC: seq<Entry>,
                                      ts: seq<Transfer>, i: nat, j: nat, t: Transfer, d: Entry, c: Entry, i2: nat, j2: nat)
    requires UniqueNames(debtors) && UniqueNames(creditors)
    requires SettleInvariant(debtors, creditors, restD, restC, ts, i, j)
    requires i < |restD| && j < |restC|
    requires t == Transfer(restD[i].name, restC[j].name, Min(restD[i].amount, restC[j].amount))
    requires d == Entry(restD[i].name, restD[i].amount - t.amount)
    requires c == Entry(restC[j].name, restC[j].amount - t.amount)
    requires i2 == if d.amount < Tolerance then i + 1 else i
    requires j2 == if c.amount < Tolerance then j + 1 else j
    ensures i + j < i2 + j2
    ensures SettleInvariant(debtors, creditors, restD[i := d], restC[j := c], ts + [t], i2, j2)
  {
    AccountedStep(debtors, restD, ts, true, i, t, d);
    AccountedStep(creditors, restC, ts, false, j, t, c);
    PairedStep(ts, debtors, creditors, i, j, t.amount);
    MinRuleStep(debtors, creditors, restD, restC, ts, i, j, t);
    ContinuesStep(debtors, creditors, restD, restC, ts, i, j, t, d, c, i2, j2);
    SettledStep(restD, i, d.amount);
    SettledStep(restC, j, c.amount);
  }

  /** Before the first step the invariant holds. */
  lemma {:induction false} SettleStart(debtors: seq<Entry>, creditors: seq<Entry>)
    requires forall k :: 0 <= k < |debtors| ==> debtors[k].amount > Tolerance
    requires forall k :: 0 <= k < |creditors| ==> creditors[k].amount > Tolerance
    ensures SettleInvariant(debtors, creditors, debtors, creditors, [], 0, 0)
  {
    AccountedInit(debtors, true);
    AccountedInit(creditors, false);
  }

  /** Where the loop stops, the invariant gives the settlement's promises. */
  lemma {:induction false} SettleDone(debtors: seq<Entry>, creditors: seq<Entry>, restD: seq<Entry>, restC: seq<Entry>,
                                      ts: seq<Transfer>, i: nat, j: nat)
    requires forall k :: 0 <= k < |debtors| ==> debtors[k].amount > Tolerance
    requires forall k :: 0 <= k < |creditors| ==> creditors[k].amount > Tolerance
    requires SettleInvariant(debtors, creditors, restD, restC, ts, i, j)
    requires !(i < |restD| && j < |restC|)
    ensures Run(ts, restD, restC) == Settlement(debtors, creditors)
    ensures MinRule(ts, debtors, creditors)
    ensures Accounted(debtors, restD, ts, true)
    ensures Accounted(creditors, restC, ts, false)
    ensures Paired(ts, debtors, creditors)
    ensures || (forall k :: 0 <= k < |restD| ==> restD[k].amount < Tolerance)
            || (forall k :: 0 <= k < |restC| ==> restC[k].amount < Tolerance)
    ensures ts == [] <==> debtors == [] || creditors == []
    ensures ts == [] || |ts| < |debtors| + |creditors|
    ensures SumAmounts(debtors) == SumAmounts(creditors) ==>
      && (forall k :: 0 <= k < |restD| ==> restD[k].amount <= Tolerance * ((|debtors| + |creditors|) as real))
      && (forall k :: 0 <= k < |restC| ==> restC[k].amount <= Tolerance * ((|debtors| + |creditors|) as real))
  {
    assert Greedy(restD, restC, i, j, ts) == Run(ts, restD, restC);
    if SumAmounts(debtors) == SumAmounts(creditors) {
      Completeness(debtors, creditors, restD, restC, ts);
    }
  }

  /** The two-pointer settlement loop. Each step pays the smaller of the
      current debtor's and creditor's remaining amounts and moves past
      whichever drops below the tolerance. The results are the transfers and
      the remaining amounts the loop leaves in both lists. */
  method Settle(debtors: seq<Entry>, creditors: seq<Entry>)
    returns (transfers: seq<Transfer>, restD: seq<Entry>, restC: seq<Entry>)
    requires forall k :: 0 <= k < |debtors| ==> debtors[k].amount > Tolerance
    requires forall k :: 0 <= k < |creditors| ==> creditors[k].amount > Tolerance
    requires UniqueNames(debtors) && UniqueNames(creditors)
    // the loop computes the greedy run
    ensures Run(transfers, restD, restC) == Settlement(debtors, creditors)
    // every transfer is the smaller of what its payer and its payee still had
    ensures MinRule(transfers, debtors, creditors)
    // what each debtor paid plus what is left of the debt is the debt
    ensures Accounted(debtors, restD, transfers, true)
    // what each creditor received plus what is still owed is the credit
    ensures Accounted(creditors, restC, transfers, false)
    ensures Paired(transfers, debtors, creditors)
    // the loop stops once one side is settled below the tolerance
    ensures || (forall k :: 0 <= k < |restD| ==> restD[k].amount < Tolerance)
            || (forall k :: 0 <= k < |restC| ==> restC[k].amount < Tolerance)
    ensures transfers == [] <==> debtors == [] || creditors == []
    ensures transfers == [] || |transfers| < |debtors| + |creditors|
    // equal totals on both sides: nothing larger than the tolerance per party is left
    ensures SumAmounts(debtors) == SumAmounts(creditors) ==>
      && (forall k :: 0 <= k < |restD| ==> restD[k].amount <= Tolerance * ((|debtors| + |creditors|) as real))
      && (forall k :: 0 <= k < |restC| ==> restC[k].amount <= Tolerance * ((|debtors| + |creditors|) as real))
  {
    transfers := [];
    restD, restC := debtors, creditors;
    SettleStart(debtors, creditors);
    var i, j := 0, 0;
    while i < |restD| && j < |restC|
      invariant SettleInvariant(debtors, creditors, restD, restC, transfers, i, j)
      decreases |restD| - i + |restC| - j
    {
      var amt := Min(restD[i].amount, restC[j].amount);
      var t := Transfer(restD[i].name, restC[j].name, amt);
      var d := Entry(restD[i].name, restD[i].amount - amt);
      var c := Entry(restC[j].name, restC[j].amount - amt);
      ghost var restD0, restC0, transfers0, i0, j0 := restD, restC, transfers, i, j;
      transfers := transfers + [t];
      restD := restD[i := d];
      restC := restC[j := c];
      if d.amount < Tolerance {
        i := i + 1;
      }
      if c.amount < Tolerance {
        j := j + 1;
      }
      SettleStep(debtors, creditors, restD0, restC0, transfers0, i0, j0, t, d, c, i, j);
    }
    SettleDone(debtors, creditors, restD, restC, transfers, i, j);
  }

  /** Settlement completeness: when the debts and the credits have equal
      totals, the settlement loop's exit leaves nobody with more than the
      tolerance times the number of parties. */
  lemma {:induction false} Completeness(debtors: seq<Entry>, creditors: seq<Entry>, restD: seq<Entry>, restC: seq<Entry>, ts: seq<Transfer>)
    requires Accounted(debtors, restD, ts, true) && Accounted(creditors, restC, ts, false)
    requires || (forall k :: 0 <= k < |restD| ==> restD[k].amount < Tolerance)
             || (forall k :: 0 <= k < |restC| ==> restC[k].amount < Tolerance)
    requires SumAmounts(debtors) == SumAmounts(creditors)
    ensures forall k :: 0 <= k < |restD| ==> restD[k].amount <= Tolerance * ((|debtors| + |creditors|) as real)
    ensures forall k :: 0 <= k < |restC| ==> restC[k].amount <= Tolerance * ((|debtors| + |creditors|) as real)
  {
    var size := |debtors| + |creditors|;
    if forall k :: 0 <= k < |restD| ==> restD[k].amount < Tolerance {
      Residue(restD, restC, size);
    } else {
      Residue(restC, restD, size);
    }
  }

  /** The residue bound of `Completeness` cannot be the tolerance itself:
      with debts of 1.0, 1.0 and 0.15 against credits of 1.075 and 1.075
      (equal totals of 2.15), each creditor is left 0.075, below the
      tolerance, so the loop stops with the third debtor still owing 0.15. */
  lemma {:induction false} UnsettledDebtor()
    ensures var debtors := [Entry("A", 1.0), Entry("B", 1.0), Entry("C", 0.15)];
            var creditors := [Entry("D", 1.075), Entry("E", 1.075)];
            var run := Settlement(debtors, creditors);
            && SumAmounts(debtors) == SumAmounts(creditors)
            && run.transfers == [Transfer("A", "D", 1.0), Transfer("B", "E", 1.0)]
            && |run.restD| == 3 && run.restD[2] == Entry("C", 0.15)
            && run.restD[2].amount > Tolerance
  {
    var d0 := [Entry("A", 1.0), Entry("B", 1.0), Entry("C", 0.15)];
    var c0 := [Entry("D", 1.075), Entry("E", 1.075)];
    var t1, t2 := Transfer("A", "D", 1.0), Transfer("B", "E", 1.0);
    var d1, c1 := d0[0 := Entry("A", 0.0)], c0[0 := Entry("D", 0.075)];
    var d2, c2 := d1[1 := Entry("B", 0.0)], c1[1 := Entry("E", 0.075)];
    assert [] + [t1] == [t1] && [t1] + [t2] == [t1, t2];
    calc {
      Settlement(d0, c0);
      Greedy(d0, c0, 0, 0, []);
      { assert Min(d0[0].amount, c0[0].amount) == 1.0; }
      Greedy(d1, c1, 1, 1, [t1]);
      { assert Min(d1[1].amount, c1[1].amount) == 1.0; }
      Greedy(d2, c2, 2, 2, [t1, t2]);
      Run([t1, t2], d2, c2);
    }
    assert d2[2] == Entry("C", 0.15);
    assert SumAmounts(d0) == 2.15 by {
      assert d0[..1][..0] == [] && d0[..2][..1] == d0[..1];
      assert SumAmounts(d0[..1]) == 1.0;
      assert SumAmounts(d0[..2]) == 2.0;
    }
    assert SumAmounts(c0) == 2.15 by {
      assert c0[..1][..0] == [];
      assert SumAmounts(c0[..1]) == 1.075;
    }
  }

  /** Sorting keeps the entries: same length, same members. */
  lemma {:induction false} SortDescSame(xs: seq<Entry>)
    ensures |SortDesc(xs)| == |xs|
    ensures forall e :: e in SortDesc(xs) <==> e in xs
  {
    var r := SortDesc(xs);
    assert |multiset(r)| == |multiset(xs)|;
    forall e ensures e in r <==> e in xs {
      assert multiset(r)[e] == multiset(xs)[e];
    }
  }

  lemma {:induction false} SumAmountsCons(x: Entry, s: seq<Entry>)
    ensures SumAmounts([x] + s) == x.amount + SumAmounts(s)
    decreases |s|
  {
    if s == [] {
      assert [x] + s == [x];
      assert [x][..0] == [];
    } else {
      var s' := s[..|s| - 1];
      assert ([x] + s)[..|s|] == [x] + s';
      SumAmountsCons(x, s');
    }
  }

  lemma {:induction false} SumAmountsInsert(s: seq<Entry>, x: Entry)
    ensures SumAmounts(Insert(s, x)) == SumAmounts(s) + x.amount
  {
    if s == [] || x.amount >= s[0].amount {
      SumAmountsCons(x, s);
    } else {
      SumAmountsInsert(s[1..], x);
      SumAmountsCons(s[0], Insert(s[1..], x));
      SumAmountsCons(s[0], s[1..]);
      assert s == [s[0]] + s[1..];
    }
  }

  /** Sorting does not change the total. */
  lemma {:induction false} SortDescSum(xs: seq<Entry>)
    ensures SumAmounts(SortDesc(xs)) == SumAmounts(xs)
  {
    if xs != [] {
      SortDescSum(xs[1..]);
      SumAmountsInsert(SortDesc(xs[1..]), xs[0]);
      SumAmountsCons(xs[0], xs[1..]);
      assert xs == [xs[0]] + xs[1..];
    }
  }

  /** The position of `e` in an accounted list, and what the transfers
      moved for it. */
  lemma {:induction false} AccountedAt(orig: seq<Entry>, rest: seq<Entry>, ts: seq<Transfer>, outgoing: bool, e: Entry)
    returns (k: nat)
    requires Accounted(orig, rest, ts, outgoing) && e in orig
    ensures k < |orig| && orig[k] == e
    ensures 0.0 <= Flow(ts, e.name, outgoing) <= e.amount
    ensures e.amount - Flow(ts, e.name, outgoing) == rest[k].amount
  {
    k :| 0 <= k < |orig| && orig[k] == e;
  }

  /** Every debtor of the balance table sends between nothing and its debt,
      and at least its debt less any bound on what the loop leaves; when
      every remainder is below the tolerance, so is every debtor's unpaid
      debt. */
  lemma {:induction false} SentBounds(balances: seq<Entry>, debtors: seq<Entry>, restD: seq<Entry>, ts: seq<Transfer>, b: real)
    requires Accounted(debtors, restD, ts, true)
    requires forall e :: e in Debtors(balances) ==> e in debtors
    ensures forall e :: e in balances && e.amount > Tolerance ==>
      && 0.0 <= Sent(ts, e.name) <= e.amount
      && ((forall k :: 0 <= k < |restD| ==> restD[k].amount <= b) ==> e.amount - Sent(ts, e.name) <= b)
      && ((forall k :: 0 <= k < |restD| ==> restD[k].amount < Tolerance) ==> e.amount - Sent(ts, e.name) < Tolerance)
  {
    forall e | e in balances && e.amount > Tolerance
      ensures 0.0 <= Sent(ts, e.name) <= e.amount
      ensures (forall k :: 0 <= k < |restD| ==> restD[k].amount <= b) ==> e.amount - Sent(ts, e.name) <= b
      ensures (forall k :: 0 <= k < |restD| ==> restD[k].amount < Tolerance) ==> e.amount - Sent(ts, e.name) < Tolerance
    {
      var k := AccountedAt(debtors, restD, ts, true, e);
    }
  }

  lemma {:induction false} OwedTwice(e: Entry)
    ensures Owed(Owed(e)) == e
  {
  }

  /** Every creditor of the balance table receives between nothing and
      what it is owed, and at least that less any bound on what the loop
      leaves; when every remainder is below the tolerance, so is every
      creditor's unpaid credit. */
  lemma {:induction false} ReceivedBounds(balances: seq<Entry>, creditors: seq<Entry>, restC: seq<Entry>, ts: seq<Transfer>, b: real)
    requires Accounted(creditors, restC, ts, false)
    requires forall e :: e in Creditors(balances) ==> e in creditors
    ensures forall e :: e in balances && e.amount < -Tolerance ==>
      && 0.0 <= Received(ts, e.name) <= -e.amount
      && ((forall k :: 0 <= k < |restC| ==> restC[k].amount <= b) ==> -e.amount - Received(ts, e.name) <= b)
      && ((forall k :: 0 <= k < |restC| ==> restC[k].amount < Tolerance) ==> -e.amount - Received(ts, e.name) < Tolerance)
  {
    forall e | e in balances && e.amount < -Tolerance
      ensures 0.0 <= Received(ts, e.name) <= -e.amount
      ensures (forall k :: 0 <= k < |restC| ==> restC[k].amount <= b) ==> -e.amount - Received(ts, e.name) <= b
      ensures (forall k :: 0 <= k < |restC| ==> restC[k].amount < Tolerance) ==> -e.amount - Received(ts, e.name) < Tolerance
    {
      OwedTwice(e);
      var k := AccountedAt(creditors, restC, ts, false, Owed(e));
    }
  }

  /** The greedy rule against a balance table: transfer `k` is the smaller
      of what its payer's balance still asked of it and what its payee's
      negated balance still asked for, after the transfers before it. */
  predicate PaysMin(ts: seq<Transfer>, balances: seq<Entry>, k: nat)
    requires k < |ts|
  {
    ts[k].amount == Min(AmountOf(balances, ts[k].from) - Sent(ts[..k], ts[k].from),
                        -AmountOf(balances, ts[k].to) - Received(ts[..k], ts[k].to))
  }

  /** The greedy rule restated against the balance table: a debtor's debt
      is its balance, a creditor's credit its negated balance. */
  lemma {:induction false} MinRuleLift(balances: seq<Entry>, debtors: seq<Entry>, creditors: seq<Entry>, ts: seq<Transfer>)
    requires UniqueNames(balances) && UniqueNames(debtors) && UniqueNames(creditors)
    requires forall e :: e in debtors ==> e in balances
    requires forall e :: e in creditors ==> Owed(e) in balances
    requires Paired(ts, debtors, creditors) && MinRule(ts, debtors, creditors)
    ensures forall k :: 0 <= k < |ts| ==> PaysMin(ts, balances, k)
  {
    forall k | 0 <= k < |ts|
      ensures PaysMin(ts, balances, k)
    {
      MinRuleAt(ts, debtors, creditors, k);
      assert ts[k] in ts;
      var d :| d in debtors && d.name == ts[k].from;
      var c :| c in creditors && c.name == ts[k].to;
      PaysMinAt(balances, debtors, creditors, ts, k, d, c);
    }
  }

  /** One transfer of the greedy rule, read against the balance table
      through its payer's entry `d` and its payee's entry `c`. */
  lemma {:induction false} PaysMinAt(balances: seq<Entry>, debtors: seq<Entry>, creditors: seq<Entry>,
                                     ts: seq<Transfer>, k: nat, d: Entry, c: Entry)
    requires UniqueNames(balances) && UniqueNames(debtors) && UniqueNames(creditors)
    requires k < |ts|
    requires d in debtors && d in balances && d.name == ts[k].from
    requires c in creditors && Owed(c) in balances && c.name == ts[k].to
    requires ts[k].amount == Min(AmountOf(debtors, ts[k].from) - Sent(ts[..k], ts[k].from),
                                 AmountOf(creditors, ts[k].to) - Received(ts[..k], ts[k].to))
    ensures PaysMin(ts, balances, k)
  {
    AmountOfMember(debtors, d);
    AmountOfMember(balances, d);
    AmountOfMember(creditors, c);
    AmountOfMember(balances, Owed(c));
  }

  /** A transfer between names of the sorted lists is between names of the
      filtered lists. */
  lemma {:induction false} PairedNames(ts: seq<Transfer>, debtors: seq<Entry>, creditors: seq<Entry>, owing: seq<Entry>, owed: seq<Entry>)
    requires Paired(ts, debtors, creditors)
    requires forall e :: e in debtors ==> e in owing
    requires forall e :: e in creditors ==> e in owed
    ensures forall t :: t in ts ==> HasName(owing, t.from) && HasName(owed, t.to)
  {
    forall t | t in ts
      ensures HasName(owing, t.from) && HasName(owed, t.to)
    {
      var d :| d in debtors && d.name == t.from;
      var c :| c in creditors && c.name == t.to;
    }
  }

  /** Sorting the filtered debtors or creditors only reorders them: every
      amount stays beyond the tolerance, names stay unique, and the count,
      the entries and the total are unchanged. */
  lemma {:induction false} SortedFilter(filtered: seq<Entry>)
    requires UniqueNames(filtered)
    requires forall e :: e in filtered ==> e.amount > Tolerance
    ensures forall k :: 0 <= k < |SortDesc(filtered)| ==> SortDesc(filtered)[k].amount > Tolerance
    ensures UniqueNames(SortDesc(filtered))
    ensures |SortDesc(filtered)| == |filtered|
    ensures forall e :: e in SortDesc(filtered) <==> e in filtered
    ensures SumAmounts(SortDesc(filtered)) == SumAmounts(filtered)
  {
    SortDescUnique(filtered);
    SortDescSame(filtered);
    SortDescSum(filtered);
    var r := SortDesc(filtered);
    forall k | 0 <= k < |r| ensures r[k].amount > Tolerance {
      assert r[k] in filtered;
    }
  }

  /** The settlement loop's run on the sorted debtors and creditors of
      `balances`, seen from the balance table: the greedy rule against the
      balances, and one side settled below the tolerance. */
  lemma {:induction false} PlanGreedy(balances: seq<Entry>, debtors: seq<Entry>, creditors: seq<Entry>,
                                      transfers: seq<Transfer>, restD: seq<Entry>, restC: seq<Entry>)
    requires UniqueNames(balances)
    requires debtors == SortDesc(Debtors(balances)) && creditors == SortDesc(Creditors(balances))
    requires Accounted(debtors, restD, transfers, true)
    requires Accounted(creditors, restC, transfers, false)
    requires Paired(transfers, debtors, creditors)
    requires Run(transfers, restD, restC) == Settlement(debtors, creditors)
    requires MinRule(transfers, debtors, creditors)
    requires || (forall k :: 0 <= k < |restD| ==> restD[k].amount < Tolerance)
             || (forall k :: 0 <= k < |restC| ==> restC[k].amount < Tolerance)
    ensures transfers == Settlement(SortDesc(Debtors(balances)), SortDesc(Creditors(balances))).transfers
    ensures forall k :: 0 <= k < |transfers| ==> PaysMin(transfers, balances, k)
    ensures || (forall e :: e in balances && e.amount > Tolerance ==> e.amount - Sent(transfers, e.name) < Tolerance)
            || (forall e :: e in balances && e.amount < -Tolerance ==> -e.amount - Received(transfers, e.name) < Tolerance)
  {
    var owing, owed := Debtors(balances), Creditors(balances);
    DebtorsUnique(balances);
    CreditorsUnique(balances);
    SortedFilter(owing);
    SortedFilter(owed);
    MinRuleLift(balances, debtors, creditors, transfers);
    SentBounds(balances, debtors, restD, transfers, 0.0);
    ReceivedBounds(balances, creditors, restC, transfers, 0.0);
  }

  /** Whatever the settlement loop returns for the sorted debtors and
      creditors of `balances` gives the planner's promises. */
  lemma {:induction false} PlanResult(balances: seq<Entry>, debtors: seq<Entry>, creditors: seq<Entry>,
                                      transfers: seq<Transfer>, restD: seq<Entry>, restC: seq<Entry>)
    requires UniqueNames(balances)
    requires debtors == SortDesc(Debtors(balances)) && creditors == SortDesc(Creditors(balances))
    requires Accounted(debtors, restD, transfers, true)
    requires Accounted(creditors, restC, transfers, false)
    requires Paired(transfers, debtors, creditors)
    requires transfers == [] <==> debtors == [] || creditors == []
    requires transfers == [] || |transfers| < |debtors| + |creditors|
    requires SumAmounts(debtors) == SumAmounts(creditors) ==>
      && (forall k :: 0 <= k < |restD| ==> restD[k].amount <= Tolerance * ((|debtors| + |creditors|) as real))
      && (forall k :: 0 <= k < |restC| ==> restC[k].amount <= Tolerance * ((|debtors| + |creditors|) as real))
    ensures forall t :: t in transfers ==> t.amount >= Tolerance
    ensures forall t :: t in transfers ==> HasName(Debtors(balances), t.from) && HasName(Creditors(balances), t.to)
    ensures forall e :: e in balances && e.amount > Tolerance ==> 0.0 <= Sent(transfers, e.name) <= e.amount
    ensures forall e :: e in balances && e.amount < -Tolerance ==> 0.0 <= Received(transfers, e.name) <= -e.amount
    ensures transfers == [] <==> Debtors(balances) == [] || Creditors(balances) == []
    ensures transfers == [] || |transfers| < Parties(balances)
    ensures SumAmounts(Debtors(balances)) == SumAmounts(Creditors(balances)) ==>
      && (forall e :: e in balances && e.amount > Tolerance ==>
            e.amount - Sent(transfers, e.name) <= Tolerance * (Parties(balances) as real))
      && (forall e :: e in balances && e.amount < -Tolerance ==>
            -e.amount - Received(transfers, e.name) <= Tolerance * (Parties(balances) as real))
  {
    var owing, owed := Debtors(balances), Creditors(balances);
    DebtorsUnique(balances);
    CreditorsUnique(balances);
    SortedFilter(owing);
    SortedFilter(owed);
    var bound := Tolerance * ((|debtors| + |creditors|) as real);
    PairedNames(transfers, debtors, creditors, owing, owed);
    SentBounds(balances, debtors, restD, transfers, bound);
    ReceivedBounds(balances, creditors, restC, transfers, bound);
  }

  /** The number of members taking part in the settlement. */
  function Parties(balances: seq<Entry>): nat {
    |Debtors(balances)| + |Creditors(balances)|
  }

  /** The transfer suggestions for a balance table: filter the debtors and
      the creditors, sort each by amount, largest first, and run the
      settlement loop. Only members beyond the tolerance take part; no
      debtor pays more than they owe and no creditor receives more than they
      are owed; when the debts and the credits have equal totals, nobody is
      left with more than the tolerance per party. */
  method Plan(balances: seq<Entry>) returns (transfers: seq<Transfer>)
    requires UniqueNames(balances)
    ensures transfers == Settlement(SortDesc(Debtors(balances)), SortDesc(Creditors(balances))).transfers
    ensures forall k :: 0 <= k < |transfers| ==> PaysMin(transfers, balances, k)
    ensures forall t :: t in transfers ==> t.amount >= Tolerance
    ensures forall t :: t in transfers ==> HasName(Debtors(balances), t.from) && HasName(Creditors(balances), t.to)
    ensures forall e :: e in balances && e.amount > Tolerance ==> 0.0 <= Sent(transfers, e.name) <= e.amount
    ensures forall e :: e in balances && e.amount < -Tolerance ==> 0.0 <= Received(transfers, e.name) <= -e.amount
    ensures || (forall e :: e in balances && e.amount > Tolerance ==> e.amount - Sent(transfers, e.name) < Tolerance)
            || (forall e :: e in balances && e.amount < -Tolerance ==> -e.amount - Received(transfers, e.name) < Tolerance)
    ensures transfers == [] <==> Debtors(balances) == [] || Creditors(balances) == []
    ensures transfers == [] || |transfers| < Parties(balances)
    ensures SumAmounts(Debtors(balances)) == SumAmounts(Creditors(balances)) ==>
      && (forall e :: e in balances && e.amount > Tolerance ==>
            e.amount - Sent(transfers, e.name) <= Tolerance * (Parties(balances) as real))
      && (forall e :: e in balances && e.amount < -Tolerance ==>
            -e.amount - Received(transfers, e.name) <= Tolerance * (Parties(balances) as real))
  {
    var owing, owed := Debtors(balances), Creditors(balances);
    DebtorsUnique(balances);
    CreditorsUnique(balances);
    SortedFilter(owing);
    SortedFilter(owed);
    var debtors := SortDesc(owing);
    var creditors := SortDesc(owed);
    var restD, restC;
    transfers, restD, restC := Settle(debtors, creditors);
    PlanResult(balances, debtors, creditors, transfers, restD, restC);
    PlanGreedy(balances, debtors, creditors, transfers, restD, restC);
  }

  /** The balance table has one entry per member name. */
  lemma {:induction false} BalanceItemsUnique(members: seq<string>, paid: map<string, real>, spent: map<string, real>)
    requires forall m :: m in members ==> m in paid && m in spent
    ensures UniqueNames(BalanceItems(members, paid, spent))
  {
    var items := BalanceItems(members, paid, spent);
    var order := Dedup(members);
    forall i, j | 0 <= i < j < |items| ensures items[i].name != items[j].name {
      assert items[i].name == order[i] && items[j].name == order[j];
    }
  }

  /** Every member's entry in the balance table carries the member's
      balance over the rows. */
  lemma {:induction false} BalanceEntries(members: seq<string>, rows: seq<Row>, balances: seq<Entry>)
    requires |balances| == |Dedup(members)|
    requires forall k :: 0 <= k < |balances| ==>
      balances[k].name == Dedup(members)[k] && balances[k].amount == Balance(rows, balances[k].name)
    ensures forall e :: e in balances ==> e.name in members && e.amount == Balance(rows, e.name)
    ensures forall m :: m in members ==> Entry(m, Balance(rows, m)) in balances
  {
    var order := Dedup(members);
    forall m | m in members ensures Entry(m, Balance(rows, m)) in balances {
      var k :| 0 <= k < |order| && order[k] == m;
      assert balances[k] == Entry(m, Balance(rows, m));
    }
  }

  /** The balance table read by member name gives the member's balance. */
  lemma {:induction false} AmountOfBalance(members: seq<string>, rows: seq<Row>, balances: seq<Entry>)
    requires UniqueNames(balances)
    requires |balances| == |Dedup(members)|
    requires forall k :: 0 <= k < |balances| ==>
      balances[k].name == Dedup(members)[k] && balances[k].amount == Balance(rows, balances[k].name)
    ensures forall m :: m in members ==> AmountOf(balances, m) == Balance(rows, m)
  {
    BalanceEntries(members, rows, balances);
    forall m | m in members ensures AmountOf(balances, m) == Balance(rows, m) {
      AmountOfMember(balances, Entry(m, Balance(rows, m)));
    }
  }

  /** Nobody owes more than the tolerance exactly when there are no
      debtors, and nobody is owed more than it exactly when there are no
      creditors. */
  lemma {:induction false} NoParties(members: seq<string>, rows: seq<Row>, balances: seq<Entry>)
    requires |balances| == |Dedup(members)|
    requires forall k :: 0 <= k < |balances| ==>
      balances[k].name == Dedup(members)[k] && balances[k].amount == Balance(rows, balances[k].name)
    ensures Debtors(balances) == [] <==> forall m :: m in members ==> Balance(rows, m) <= Tolerance
    ensures Creditors(balances) == [] <==> forall m :: m in members ==> Balance(rows, m) >= -Tolerance
  {
    BalanceEntries(members, rows, balances);
    if Debtors(balances) != [] {
      assert Debtors(balances)[0] in Debtors(balances);
    }
    if m :| m in members && Balance(rows, m) > Tolerance {
      assert Entry(m, Balance(rows, m)) in Debtors(balances);
    }
    if Creditors(balances) != [] {
      var c := Creditors(balances)[0];
      assert c in Creditors(balances);
      assert Owed(c) in balances;
    }
    if m :| m in members && Balance(rows, m) < -Tolerance {
      assert Owed(Entry(m, -Balance(rows, m))) == Entry(m, Balance(rows, m));
      assert Entry(m, -Balance(rows, m)) in Creditors(balances);
    }
  }

  /** What the planner promises about the balance table, stated per member. */
  lemma {:induction false} SuggestResult(members: seq<string>, rows: seq<Row>, balances: seq<Entry>, transfers: seq<Transfer>)
    requires |balances| == |Dedup(members)|
    requires forall k :: 0 <= k < |balances| ==>
      balances[k].name == Dedup(members)[k] && balances[k].amount == Balance(rows, balances[k].name)
    requires forall t :: t in transfers ==> HasName(Debtors(balances), t.from) && HasName(Creditors(balances), t.to)
    requires forall e :: e in balances && e.amount > Tolerance ==> 0.0 <= Sent(transfers, e.name) <= e.amount
    requires forall e :: e in balances && e.amount < -Tolerance ==> 0.0 <= Received(transfers, e.name) <= -e.amount
    requires || (forall e :: e in balances && e.amount > Tolerance ==> e.amount - Sent(transfers, e.name) < Tolerance)
             || (forall e :: e in balances && e.amount < -Tolerance ==> -e.amount - Received(transfers, e.name) < Tolerance)
    requires SumAmounts(Debtors(balances)) == SumAmounts(Creditors(balances)) ==>
      && (forall e :: e in balances && e.amount > Tolerance ==>
            e.amount - Sent(transfers, e.name) <= Tolerance * (Parties(balances) as real))
      && (forall e :: e in balances && e.amount < -Tolerance ==>
            -e.amount - Received(transfers, e.name) <= Tolerance * (Parties(balances) as real))
    ensures forall t :: t in transfers ==>
      && t.from in members && Balance(rows, t.from) > Tolerance
      && t.to in members && Balance(rows, t.to) < -Tolerance
    ensures forall m :: m in members && Balance(rows, m) > Tolerance ==> 0.0 <= Sent(transfers, m) <= Balance(rows, m)
    ensures forall m :: m in members && Balance(rows, m) < -Tolerance ==>
      0.0 <= Received(transfers, m) <= -Balance(rows, m)
    ensures || (forall m :: m in members && Balance(rows, m) > Tolerance ==> Balance(rows, m) - Sent(transfers, m) < Tolerance)
            || (forall m :: m in members && Balance(rows, m) < -Tolerance ==> -Balance(rows, m) - Received(transfers, m) < Tolerance)
    ensures SumAmounts(Debtors(balances)) == SumAmounts(Creditors(balances)) ==>
      && (forall m :: m in members && Balance(rows, m) > Tolerance ==>
            Balance(rows, m) - Sent(transfers, m) <= Tolerance * (Parties(balances) as real))
      && (forall m :: m in members && Balance(rows, m) < -Tolerance ==>
            -Balance(rows, m) - Received(transfers, m) <= Tolerance * (Parties(balances) as real))
  {
    BalanceEntries(members, rows, balances);
    forall t | t in transfers
      ensures t.from in members && Balance(rows, t.from) > Tolerance
      ensures t.to in members && Balance(rows, t.to) < -Tolerance
    {
      var d :| d in Debtors(balances) && d.name == t.from;
      var c :| c in Creditors(balances) && c.name == t.to;
      assert Owed(c) in balances;
    }
    forall m | m in members && Balance(rows, m) > Tolerance
      ensures 0.0 <= Sent(transfers, m) <= Balance(rows, m)
    {
      assert Entry(m, Balance(rows, m)) in balances;
    }
    forall m | m in members && Balance(rows, m) < -Tolerance
      ensures 0.0 <= Received(transfers, m) <= -Balance(rows, m)
    {
      assert Entry(m, Balance(rows, m)) in balances;
    }
  }

  /** The planner run on a balance table of the members, its promises
      stated per member. */
  method PlanReport(members: seq<string>, rows: seq<Row>, balances: seq<Entry>) returns (transfers: seq<Transfer>)
    requires UniqueNames(balances)
    requires |balances| == |Dedup(members)|
    requires forall k :: 0 <= k < |balances| ==>
      balances[k].name == Dedup(members)[k] && balances[k].amount == Balance(rows, balances[k].name)
    ensures transfers == Settlement(SortDesc(Debtors(balances)), SortDesc(Creditors(balances))).transfers
    ensures forall m :: m in members ==> AmountOf(balances, m) == Balance(rows, m)
    ensures forall k :: 0 <= k < |transfers| ==> PaysMin(transfers, balances, k)
    ensures forall t :: t in transfers ==> t.amount >= Tolerance
    ensures forall t :: t in transfers ==>
      && t.from in members && Balance(rows, t.from) > Tolerance
      && t.to in members && Balance(rows, t.to) < -Tolerance
    ensures forall m :: m in members && Balance(rows, m) > Tolerance ==> 0.0 <= Sent(transfers, m) <= Balance(rows, m)
    ensures forall m :: m in members && Balance(rows, m) < -Tolerance ==>
      0.0 <= Received(transfers, m) <= -Balance(rows, m)
    ensures transfers == [] <==>
      || (forall m :: m in members ==> Balance(rows, m) <= Tolerance)
      || (forall m :: m in members ==> Balance(rows, m) >= -Tolerance)
    ensures || (forall m :: m in members && Balance(rows, m) > Tolerance ==> Balance(rows, m) - Sent(transfers, m) < Tolerance)
            || (forall m :: m in members && Balance(rows, m) < -Tolerance ==> -Balance(rows, m) - Received(transfers, m) < Tolerance)
    ensures SumAmounts(Debtors(balances)) == SumAmounts(Creditors(balances)) ==>
      && (forall m :: m in members && Balance(rows, m) > Tolerance ==>
            Balance(rows, m) - Sent(transfers, m) <= Tolerance * (Parties(balances) as real))
      && (forall m :: m in members && Balance(rows, m) < -Tolerance ==>
            -Balance(rows, m) - Received(transfers, m) <= Tolerance * (Parties(balances) as real))
  {
    transfers := Plan(balances);
    AmountOfBalance(members, rows, balances);
    NoParties(members, rows, balances);
    SuggestResult(members, rows, balances, transfers);
  }

  /** The transfer-suggestion button (app.py:81-124): fold the log into the
      members' totals, list each member's balance in member order, and plan
      the transfers. The transfers are the greedy run on the sorted debtors
      and creditors; every suggested transfer goes from a member owing more
      than the tolerance to a member owed more than the tolerance; nobody
      pays more than they owe or receives more than they are owed; and on
      one side everybody is settled to within the tolerance. */
  method Suggest(members: seq<string>, rows: seq<Row>) returns (balances: seq<Entry>, transfers: seq<Transfer>)
    ensures |balances| == |Dedup(members)|
    ensures forall k :: 0 <= k < |balances| ==>
      balances[k].name == Dedup(members)[k] && balances[k].amount == Balance(rows, balances[k].name)
    ensures transfers == Settlement(SortDesc(Debtors(balances)), SortDesc(Creditors(balances))).transfers
    ensures forall m :: m in members ==> AmountOf(balances, m) == Balance(rows, m)
    ensures forall k :: 0 <= k < |transfers| ==> PaysMin(transfers, balances, k)
    ensures forall t :: t in transfers ==> t.amount >= Tolerance
    ensures forall t :: t in transfers ==>
      && t.from in members && Balance(rows, t.from) > Tolerance
      && t.to in members && Balance(rows, t.to) < -Tolerance
    ensures forall m :: m in members && Balance(rows, m) > Tolerance ==> 0.0 <= Sent(transfers, m) <= Balance(rows, m)
    ensures forall m :: m in members && Balance(rows, m) < -Tolerance ==>
      0.0 <= Received(transfers, m) <= -Balance(rows, m)
    ensures transfers == [] <==>
      || (forall m :: m in members ==> Balance(rows, m) <= Tolerance)
      || (forall m :: m in members ==> Balance(rows, m) >= -Tolerance)
    ensures || (forall m :: m in members && Balance(rows, m) > Tolerance ==> Balance(rows, m) - Sent(transfers, m) < Tolerance)
            || (forall m :: m in members && Balance(rows, m) < -Tolerance ==> -Balance(rows, m) - Received(transfers, m) < Tolerance)
    ensures SumAmounts(Debtors(balances)) == SumAmounts(Creditors(balances)) ==>
      && (forall m :: m in members && Balance(rows, m) > Tolerance ==>
            Balance(rows, m) - Sent(transfers, m) <= Tolerance * (Parties(balances) as real))
      && (forall m :: m in members && Balance(rows, m) < -Tolerance ==>
            -Balance(rows, m) - Received(transfers, m) <= Tolerance * (Parties(balances) as real))
  {
    var paid, spent := Aggregate(members, rows);
    balances := BalanceItems(members, paid, spent);
    BalanceItemsUnique(members, paid, spent);
    transfers := PlanReport(members, rows, balances);
  }
}
