/** The share splitter run when an expense is submitted: either everybody
    splits the total evenly, or every member pays what was typed in their
    box, blanks counting 0. */
module Splitter {
  import opened Model
  import Members
  import Ledger

  /** One member's share box after parsing: `None` when the box is blank
      (only whitespace), `Some(v)` when it holds the number `v`. */
  type ShareInput = Option<real>

  /** The even split divides by the number of members, which fails on an
      empty member list. */
  datatype SplitError = NoMembers

  /** What a submission writes to the log, and whether it warned that the
      typed shares do not add up to the total. */
  datatype Submission = Submission(row: Row, warning: bool)

  /** The amount a box contributes: its number, or 0 when blank. */
  function InputValue(i: ShareInput): real {
    match i
    case None => 0.0
    case Some(v) => v
  }

  /** Some member typed something into their box. */
  predicate HasManual(members: seq<string>, inputs: map<string, ShareInput>)
    requires forall m :: m in members ==> m in inputs
  {
    exists m :: m in members && inputs[m].Some?
  }

  /** Reading one member's box: a box holding only whitespace is blank,
      anything else is the number `value` it holds (turning the text into
      that number is not part of this model). */
  function ReadBox(text: string, value: real): (r: ShareInput)
    ensures r.None? <==> Members.AllSpace(text)
    ensures r.Some? ==> r.value == value
  {
    if Members.Strip(text) == [] then None else Some(value)
  }

  /** The form has typed shares exactly when some member's box holds more
      than whitespace. */
  lemma {:induction false} HasManualText(members: seq<string>, texts: map<string, string>, values: map<string, real>)
    requires forall m :: m in members ==> m in texts && m in values
    ensures HasManual(members, map m | m in members :: ReadBox(texts[m], values[m])) <==>
      exists m :: m in members && !Members.AllSpace(texts[m])
  {
    var inputs := map m | m in members :: ReadBox(texts[m], values[m]);
    if m :| m in members && !Members.AllSpace(texts[m]) {
      assert inputs[m].Some?;
    }
  }

  /** Every member gets the same share `total / |members|`. */
  function EvenSplit(total: real, members: seq<string>): (shares: map<string, real>)
    requires |members| > 0
    ensures shares.Keys == set m | m in members
    ensures forall m :: m in shares ==> shares[m] * (|members| as real) == total
  {
    map m | m in members :: total / (|members| as real)
  }

  /** The even split loses nothing: the shares, summed over the member list,
      give back the total. */
  lemma {:induction false} EvenSplitConserves(total: real, members: seq<string>)
    requires |members| > 0
    ensures SumOver(members, EvenSplit(total, members)) == total
  {
    var n := |members| as real;
    var shares := EvenSplit(total, members);
    SumOverConstant(members, shares, total / n);
    DivideAndMultiply(total, n);
  }

  lemma {:induction false} DivideAndMultiply(t: real, n: real)
    requires n != 0.0
    ensures n * (t / n) == t
  {
  }

  /** The manual split: each member's share is what their box holds (0 when
      blank), every member gets a key, and the running `manualSum` is the
      sum of the resulting shares over the member list. */
  method ManualSplit(members: seq<string>, inputs: map<string, ShareInput>)
    returns (shares: map<string, real>, manualSum: real)
    requires forall m :: m in members ==> m in inputs
    ensures shares.Keys == set m | m in members
    ensures forall m :: m in members ==> shares[m] == InputValue(inputs[m])
    ensures manualSum == SumOver(members, shares)
  {
    shares := map[];
    manualSum := 0.0;
    for k := 0 to |members|
      invariant shares.Keys == set m | m in members[..k]
      invariant forall m :: m in shares ==> shares[m] == InputValue(inputs[m])
      invariant manualSum == SumOver(members[..k], shares)
    {
      var m := members[k];
      var val := InputValue(inputs[m]);
      ghost var before := shares;
      shares := shares[m := val];
      SumOverAgree(members[..k], before, shares);
      assert members[..k + 1][..k] == members[..k];
      manualSum := manualSum + val;
    }
    assert members[..|members|] == members;
  }

  /** Submitting the expense form: the payer, the total and the member
      boxes become one log row. With every box blank the total is split
      evenly (which fails on an empty member list); otherwise the typed
      amounts are used and a mismatch with the total beyond the tolerance
      only raises a warning: the row is written all the same. */
  method SubmitExpense(payer: string, total: real, members: seq<string>, inputs: map<string, ShareInput>)
    returns (result: Result<Submission, SplitError>)
    requires forall m :: m in members ==> m in inputs
    ensures result.Failure? <==> |members| == 0
    ensures result.Success? ==>
      && result.value.row.payer == payer
      && result.value.row.amount == total
      && result.value.row.shares.Some?
      && result.value.row.shares.value.Keys == set m | m in members
    ensures result.Success? && !HasManual(members, inputs) ==>
      && result.value.row.shares.value == EvenSplit(total, members)
      && !result.value.warning
    ensures result.Success? && HasManual(members, inputs) ==>
      && (forall m :: m in members ==> result.value.row.shares.value[m] == InputValue(inputs[m]))
      && (result.value.warning <==> Abs(SumOver(members, result.value.row.shares.value) - total) > Tolerance)
    ensures result.Success? && !result.value.warning ==>
      Abs(SumOver(members, result.value.row.shares.value) - total) <= Tolerance
    ensures result.Success? && !result.value.warning && payer in members ==>
      Abs(Ledger.RowImbalance(members, result.value.row)) <= Tolerance
    ensures result.Success? && !HasManual(members, inputs) && payer in members ==>
      Ledger.BalancedRow(members, result.value.row)
  {
    var shares: map<string, real>;
    var warning := false;
    if !HasManual(members, inputs) {
      if |members| == 0 {
        return Failure(NoMembers);
      }
      shares := EvenSplit(total, members);
      EvenSplitConserves(total, members);
    } else {
      var manualSum;
      shares, manualSum := ManualSplit(members, inputs);
      if Abs(manualSum - total) > Tolerance {
        warning := true;
      }
    }
    result := Success(Submission(Row(payer, total, Some(shares)), warning));
  }
}
