/** The ledger: a fold over the ordered log rows into how much each member
    paid and how much each member consumed, and the balances derived from
    them (positive: the member owes; negative: the member is owed). */
module Ledger {
  import opened Model
  import opened Members

  /** What row `r` adds to what `m` paid: its amount when `m` paid it. A row
      whose shares could not be decoded adds nothing. */
  function RowPaid(r: Row, m: string): real {
    if r.shares.Some? && r.payer == m then r.amount else 0.0
  }

  /** What row `r` adds to what `m` consumed: `m`'s share, if it has one. */
  function RowSpent(r: Row, m: string): real {
    if r.shares.Some? then Lookup(r.shares.value, m) else 0.0
  }

  /** Total advanced by `m` over the rows. */
  function TotalPaid(rows: seq<Row>, m: string): real {
    if rows == [] then 0.0 else TotalPaid(rows[..|rows| - 1], m) + RowPaid(rows[|rows| - 1], m)
  }

  /** Total consumed by `m` over the rows. */
  function TotalSpent(rows: seq<Row>, m: string): real {
    if rows == [] then 0.0 else TotalSpent(rows[..|rows| - 1], m) + RowSpent(rows[|rows| - 1], m)
  }

  /** The net balance of `m`: consumed minus paid. */
  function Balance(rows: seq<Row>, m: string): real {
    TotalSpent(rows, m) - TotalPaid(rows, m)
  }

  /** The aggregation loop: both tables hold exactly the member names; each
      member's entries are the totals over the rows, so rows that cannot be
      decoded and names that are not members contribute nothing. */
  method Aggregate(members: seq<string>, rows: seq<Row>)
    returns (paid: map<string, real>, spent: map<string, real>)
    ensures paid.Keys == set m | m in members
    ensures spent.Keys == set m | m in members
    ensures forall m :: m in paid ==> paid[m] == TotalPaid(rows, m)
    ensures forall m :: m in spent ==> spent[m] == TotalSpent(rows, m)
  {
    paid := map m | m in members :: 0.0;
    spent := map m | m in members :: 0.0;
    for k := 0 to |rows|
      invariant paid.Keys == set m | m in members
      invariant spent.Keys == set m | m in members
      invariant forall m :: m in paid ==> paid[m] == TotalPaid(rows[..k], m)
      invariant forall m :: m in spent ==> spent[m] == TotalSpent(rows[..k], m)
    {
      ghost var paid0, spent0 := paid, spent;
      paid, spent := FoldRow(paid, spent, rows[k]);
      forall m | m in paid
        ensures paid[m] == TotalPaid(rows[..k + 1], m) && spent[m] == TotalSpent(rows[..k + 1], m)
      {
        TotalsStep(rows, k, m);
        assert paid[m] == paid0[m] + RowPaid(rows[k], m);
      }
    }
    assert rows[..|rows|] == rows;
  }

  /** One row of the fold: a decoded row credits its payer with the amount
      and each share to the member it names; only names already in the
      tables are touched, and an undecodable row is skipped. */
  method FoldRow(paid: map<string, real>, spent: map<string, real>, row: Row)
    returns (paid': map<string, real>, spent': map<string, real>)
    ensures paid'.Keys == paid.Keys && spent'.Keys == spent.Keys
    ensures forall m :: m in paid' ==> paid'[m] == paid[m] + RowPaid(row, m)
    ensures forall m :: m in spent' ==> spent'[m] == spent[m] + RowSpent(row, m)
  {
    paid', spent' := paid, spent;
    match row.shares {
      case None =>
        // the payload did not decode: the row is skipped
      case Some(sDict) =>
        if row.payer in paid' {
          paid' := paid'[row.payer := paid'[row.payer] + row.amount];
        }
        var keys := sDict.Keys;
        while keys != {}
          invariant keys <= sDict.Keys
          invariant spent'.Keys == spent.Keys
          invariant forall m :: m in spent' ==>
            spent'[m] == spent[m] + (if m in sDict && m !in keys then sDict[m] else 0.0)
          decreases keys
        {
          var name :| name in keys;
          if name in spent' {
            spent' := spent'[name := spent'[name] + sDict[name]];
          }
          keys := keys - {name};
        }
    }
  }

  /** The totals over one more row add that row's contribution. */
  lemma {:induction false} TotalsStep(rows: seq<Row>, k: nat, m: string)
    requires k < |rows|
    ensures TotalPaid(rows[..k + 1], m) == TotalPaid(rows[..k], m) + RowPaid(rows[k], m)
    ensures TotalSpent(rows[..k + 1], m) == TotalSpent(rows[..k], m) + RowSpent(rows[k], m)
  {
    assert rows[..k + 1][..k] == rows[..k];
  }

  /** The balance table of the report, in the key order of the dictionary
      built from the member list: every member once, in order of first
      appearance, with consumed minus paid. */
  function BalanceItems(members: seq<string>, paid: map<string, real>, spent: map<string, real>)
    : (items: seq<Entry>)
    requires forall m :: m in members ==> m in paid && m in spent
    ensures |items| == |Dedup(members)|
    ensures forall k :: 0 <= k < |items| ==>
      items[k].name == Dedup(members)[k] && items[k].amount == spent[items[k].name] - paid[items[k].name]
  {
    var order := Dedup(members);
    seq(|order|, k requires 0 <= k < |order| => Entry(order[k], spent[order[k]] - paid[order[k]]))
  }

  lemma {:induction false} TotalsAppend(a: seq<Row>, b: seq<Row>, m: string)
    ensures TotalPaid(a + b, m) == TotalPaid(a, m) + TotalPaid(b, m)
    ensures TotalSpent(a + b, m) == TotalSpent(a, m) + TotalSpent(b, m)
    decreases |b|
  {
    if b == [] {
      assert a + b == a;
    } else {
      var b' := b[..|b| - 1];
      assert (a + b)[..|a + b| - 1] == a + b';
      TotalsAppend(a, b', m);
    }
  }

  /** A row whose shares cannot be decoded adds nothing to either total, and
      the rows after it are still counted. */
  lemma {:induction false} UndecodableRowSkipped(before: seq<Row>, bad: Row, after: seq<Row>, m: string)
    requires bad.shares.None?
    ensures TotalPaid(before + [bad] + after, m) == TotalPaid(before + after, m)
    ensures TotalSpent(before + [bad] + after, m) == TotalSpent(before + after, m)
  {
    TotalsAppend(before + [bad], after, m);
    TotalsAppend(before, [bad], m);
    TotalsAppend(before, after, m);
    assert [bad][..0] == [];
  }

  /** How far row `r`'s shares over the members fall short of (negative) or
      exceed (positive) what its payer is credited among the members. */
  function RowImbalance(members: seq<string>, r: Row): real {
    if r.shares.None? then 0.0
    else SumOver(members, r.shares.value) - (if r.payer in members then r.amount else 0.0)
  }

  function TotalImbalance(members: seq<string>, rows: seq<Row>): real {
    if rows == [] then 0.0
    else TotalImbalance(members, rows[..|rows| - 1]) + RowImbalance(members, rows[|rows| - 1])
  }

  /** The sum of all the members' balances. */
  function NetTotal(members: seq<string>, rows: seq<Row>): real {
    if members == [] then 0.0
    else NetTotal(members[..|members| - 1], rows) + Balance(rows, members[|members| - 1])
  }

  /** Adding one more member to the list adds that member's balance to the
      total imbalance. */
  lemma {:induction false} ImbalanceStep(members: seq<string>, x: string, rows: seq<Row>)
    requires x !in members
    ensures TotalImbalance(members + [x], rows) == TotalImbalance(members, rows) + Balance(rows, x)
  {
    if rows != [] {
      var init := rows[..|rows| - 1];
      var r := rows[|rows| - 1];
      ImbalanceStep(members, x, init);
      if r.shares.Some? {
        assert (members + [x])[..|members|] == members;
        assert SumOver(members + [x], r.shares.value) == SumOver(members, r.shares.value) + Lookup(r.shares.value, x);
        assert r.payer in members + [x] <==> r.payer in members || r.payer == x;
      }
    }
  }

  /** The balances of distinct members add up to the total imbalance of the
      rows: every decoded row's shares are consumed by someone and its amount
      is advanced by its payer. */
  lemma {:induction false} NetTotalIsImbalance(members: seq<string>, rows: seq<Row>)
    requires Distinct(members)
    ensures NetTotal(members, rows) == TotalImbalance(members, rows)
  {
    if members == [] {
      TotalImbalanceEmpty(rows);
    } else {
      var init := members[..|members| - 1];
      var x := members[|members| - 1];
      assert x !in init;
      NetTotalIsImbalance(init, rows);
      ImbalanceStep(init, x, rows);
      assert init + [x] == members;
    }
  }

  lemma {:induction false} TotalImbalanceEmpty(rows: seq<Row>)
    ensures TotalImbalance([], rows) == 0.0
  {
    if rows != [] {
      TotalImbalanceEmpty(rows[..|rows| - 1]);
    }
  }

  /** A row that is fully inside the ledger: its payer and every share name
      are members, and its shares add up to its amount. */
  predicate BalancedRow(members: seq<string>, r: Row) {
    r.shares.Some? ==>
      && r.payer in members
      && (forall n :: n in r.shares.value ==> n in members)
      && SumOver(members, r.shares.value) == r.amount
  }

  lemma {:induction false} ImbalanceOfBalancedRows(members: seq<string>, rows: seq<Row>)
    requires forall k :: 0 <= k < |rows| ==> BalancedRow(members, rows[k])
    ensures TotalImbalance(members, rows) == 0.0
  {
    if rows != [] {
      ImbalanceOfBalancedRows(members, rows[..|rows| - 1]);
    }
  }

  /** Zero-sum: when every row stays inside the ledger and its shares add up
      to its amount, the balances of the members add up to zero. */
  lemma {:induction false} ZeroSum(members: seq<string>, rows: seq<Row>)
    requires Distinct(members)
    requires forall k :: 0 <= k < |rows| ==> BalancedRow(members, rows[k])
    ensures NetTotal(members, rows) == 0.0
  {
    NetTotalIsImbalance(members, rows);
    ImbalanceOfBalancedRows(members, rows);
  }

  lemma {:induction false} ImbalanceBound(members: seq<string>, rows: seq<Row>)
    requires forall k :: 0 <= k < |rows| ==> Abs(RowImbalance(members, rows[k])) <= Tolerance
    ensures Abs(TotalImbalance(members, rows)) <= Tolerance * (|rows| as real)
  {
    if rows != [] {
      ImbalanceBound(members, rows[..|rows| - 1]);
    }
  }

  /** When each row is only within the tolerance (the split check warns
      beyond it), the balances add up to at most the tolerance per row. */
  lemma {:induction false} NearZeroSum(members: seq<string>, rows: seq<Row>)
    requires Distinct(members)
    requires forall k :: 0 <= k < |rows| ==> Abs(RowImbalance(members, rows[k])) <= Tolerance
    ensures Abs(NetTotal(members, rows)) <= Tolerance * (|rows| as real)
  {
    NetTotalIsImbalance(members, rows);
    ImbalanceBound(members, rows);
  }
}
