/** Open-type selection over an information object set (section 13 of ITU-T X.681). */
module Selector {

  /** A cell either defines a value or type, or is left undefined. */
  datatype Cell = Undefined | ValueCell(descriptor: string, value: int) | TypeCell(descriptor: string)

  /** rows_count rows of columns_count cells each. */
  datatype ObjectSet = ObjectSet(rows: seq<seq<Cell>>, columns: nat)

  /** type_descriptor and presence_index; both are 0 when nothing was selected. */
  datatype Selection = NotSelected | Selected(descriptor: string, presence: nat)

  ghost predicate WellFormed(t: ObjectSet, key: nat) {
    && key < t.columns
    && (forall r | 0 <= r < |t.rows| :: |t.rows[r]| == t.columns)
    && (forall r | 0 <= r < |t.rows| :: t.rows[r][key].ValueCell?)
  }

  ghost predicate DistinctKeys(t: ObjectSet, key: nat)
    requires WellFormed(t, key)
  {
    forall r, q | 0 <= r < q < |t.rows| :: t.rows[r][key].value != t.rows[q][key].value
  }

  /** How many of the first r rows define the wanted column. */
  function DefinedBefore(t: ObjectSet, column: nat, r: nat): (n: nat)
    requires column < t.columns && r <= |t.rows|
    requires forall q | 0 <= q < |t.rows| :: |t.rows[q]| == t.columns
    ensures n <= r
  {
    if r == 0 then 0
    else DefinedBefore(t, column, r - 1) + if t.rows[r - 1][column].Undefined? then 0 else 1
  }

  /** A row answers a key when it has that key and defines the wanted column. */
  predicate Answers(t: ObjectSet, key: nat, column: nat, v: int, r: nat)
    requires key < t.columns && column < t.columns && r < |t.rows| && |t.rows[r]| == t.columns
  {
    t.rows[r][key].ValueCell? && t.rows[r][key].value == v && !t.rows[r][column].Undefined?
  }

  /** The selectors of E2AP_InitiatingMessage: the first answering row is selected, with a presence
      index that counts only rows that define the column. */
  method Select(t: ObjectSet, key: nat, column: nat, v: int) returns (result: Selection)
    requires WellFormed(t, key) && column < t.columns
    ensures result == NotSelected <==> forall r | 0 <= r < |t.rows| :: !Answers(t, key, column, v, r)
    ensures result != NotSelected ==>
              exists r | 0 <= r < |t.rows| ::
                && Answers(t, key, column, v, r)
                && (forall q | 0 <= q < r :: !Answers(t, key, column, v, q))
                && result == Selected(t.rows[r][column].descriptor, 1 + DefinedBefore(t, column, r))
  {
    result := NotSelected;
    var row, presenceIndex := 0, 0;
    while row < |t.rows|
      invariant 0 <= row <= |t.rows|
      invariant presenceIndex == DefinedBefore(t, column, row)
      invariant result == NotSelected
      invariant forall r | 0 <= r < row :: !Answers(t, key, column, v, r)
    {
      var constrainingCell, typeCell := t.rows[row][key], t.rows[row][column];
      if !typeCell.Undefined? {
        presenceIndex := presenceIndex + 1;
        if constrainingCell.value == v {
          result := Selected(typeCell.descriptor, presenceIndex);
          assert Answers(t, key, column, v, row);
          break;
        }
      }
      row := row + 1;
    }
  }

  /** Presence index of a row that defines the column. */
  function Presence(t: ObjectSet, column: nat, r: nat): nat
    requires column < t.columns && r < |t.rows|
    requires forall q | 0 <= q < |t.rows| :: |t.rows[q]| == t.columns
  {
    1 + DefinedBefore(t, column, r)
  }

  lemma {:induction false} DefinedBeforeGrows(t: ObjectSet, column: nat, r: nat, q: nat)
    requires column < t.columns && r <= q <= |t.rows|
    requires forall i | 0 <= i < |t.rows| :: |t.rows[i]| == t.columns
    ensures DefinedBefore(t, column, r) <= DefinedBefore(t, column, q)
    decreases q
  {
    if r == q {
    } else {
      DefinedBeforeGrows(t, column, r, q - 1);
    }
  }

  /** Presence indices of rows that define the column are distinct, increase with the row, and run
      from 1 to the number of such rows. */
  lemma PresenceIsOneToOne(t: ObjectSet, column: nat, r: nat, q: nat)
    requires column < t.columns && r < q < |t.rows|
    requires forall i | 0 <= i < |t.rows| :: |t.rows[i]| == t.columns
    requires !t.rows[r][column].Undefined? && !t.rows[q][column].Undefined?
    ensures 1 <= Presence(t, column, r) < Presence(t, column, q) <= DefinedBefore(t, column, |t.rows|)
  {
    DefinedBeforeGrows(t, column, r + 1, q);
    DefinedBeforeGrows(t, column, q + 1, |t.rows|);
  }

  lemma {:induction false} PresenceIsOnto(t: ObjectSet, column: nat, p: nat, n: nat) returns (r: nat)
    requires column < t.columns && n <= |t.rows|
    requires forall i | 0 <= i < |t.rows| :: |t.rows[i]| == t.columns
    requires 1 <= p <= DefinedBefore(t, column, n)
    ensures r < n && !t.rows[r][column].Undefined? && Presence(t, column, r) == p
    decreases n
  {
    if p <= DefinedBefore(t, column, n - 1) {
      r := PresenceIsOnto(t, column, p, n - 1);
    } else {
      r := n - 1;
    }
  }

  /** With distinct keys a key selects the type of its own row: no other row can answer it, so the
      presence index tells the key. */
  lemma KeySelectsItsRow(t: ObjectSet, key: nat, column: nat, r: nat, q: nat)
    requires WellFormed(t, key) && column < t.columns && DistinctKeys(t, key)
    requires r < |t.rows| && q < |t.rows|
    requires !t.rows[r][column].Undefined? && !t.rows[q][column].Undefined?
    ensures Answers(t, key, column, t.rows[r][key].value, q) <==> q == r
    ensures Presence(t, column, r) == Presence(t, column, q) <==> r == q
  {
    if r < q {
      PresenceIsOneToOne(t, column, r, q);
    } else if q < r {
      PresenceIsOneToOne(t, column, q, r);
    }
  }

  // ----- the elementary procedures of E2AP -----

  const INITIATING_MESSAGE := 0
  const SUCCESSFUL_OUTCOME := 1
  const UNSUCCESSFUL_OUTCOME := 2
  const PROCEDURE_CODE := 3
  const CRITICALITY := 4

  function Procedure(m: string, s: Cell, u: Cell, code: int, criticality: int): seq<Cell> {
    [TypeCell(m), s, u, ValueCell("ProcedureCode", code), ValueCell("Criticality", criticality)]
  }

  const ELEMENTARY_PROCEDURES := ObjectSet([
    Procedure("RICsubscriptionRequest", TypeCell("RICsubscriptionResponse"), TypeCell("RICsubscriptionFailure"), 8, 0),
    Procedure("RICsubscriptionDeleteRequest", TypeCell("RICsubscriptionDeleteResponse"),
              TypeCell("RICsubscriptionDeleteFailure"), 9, 0),
    Procedure("RICserviceUpdate", TypeCell("RICserviceUpdateAcknowledge"), TypeCell("RICserviceUpdateFailure"), 7, 0),
    Procedure("RICcontrolRequest", TypeCell("RICcontrolAcknowledge"), TypeCell("RICcontrolFailure"), 4, 0),
    Procedure("E2setupRequest", TypeCell("E2setupResponse"), TypeCell("E2setupFailure"), 1, 0),
    Procedure("ResetRequest", TypeCell("ResetResponse"), Undefined, 3, 0),
    Procedure("RICindication", Undefined, Undefined, 5, 1),
    Procedure("RICserviceQuery", Undefined, Undefined, 6, 1),
    Procedure("ErrorIndication", Undefined, Undefined, 2, 1)], 5)

  /** Every procedure code from 1 to 9, and no other, selects a type and a criticality for an
      initiating message, from the same row and with the same presence index. */
  lemma InitiatingMessageIsTotal(v: int)
    ensures var t := ELEMENTARY_PROCEDURES;
            && WellFormed(t, PROCEDURE_CODE) && DistinctKeys(t, PROCEDURE_CODE)
            && ((exists r | 0 <= r < |t.rows| :: Answers(t, PROCEDURE_CODE, INITIATING_MESSAGE, v, r)) <==> 1 <= v <= 9)
            && ((exists r | 0 <= r < |t.rows| :: Answers(t, PROCEDURE_CODE, CRITICALITY, v, r)) <==> 1 <= v <= 9)
            && (forall r | 0 <= r < |t.rows| ::
                  && (Answers(t, PROCEDURE_CODE, INITIATING_MESSAGE, v, r)
                      <==> Answers(t, PROCEDURE_CODE, CRITICALITY, v, r))
                  && Presence(t, INITIATING_MESSAGE, r) == Presence(t, CRITICALITY, r) == r + 1)
  {
    var t := ELEMENTARY_PROCEDURES;
    AllDefined(t, INITIATING_MESSAGE);
    AllDefined(t, CRITICALITY);
    SameRowsAnswer(v);
    if 1 <= v <= 9 {
      var r := [4, 8, 5, 3, 6, 7, 2, 0, 1][v - 1];
      assert Answers(t, PROCEDURE_CODE, INITIATING_MESSAGE, v, r);
    }
  }

  /** What each procedure code of E2AP selects: initiating message, criticality (0 reject, 1 ignore),
      and the position of the initiating message among the alternatives. */
  lemma ProcedureOfCode(v: int, r: nat)
    requires r < 9 && Answers(ELEMENTARY_PROCEDURES, PROCEDURE_CODE, INITIATING_MESSAGE, v, r)
    ensures 1 <= v <= 9
    ensures var row := ELEMENTARY_PROCEDURES.rows[r];
            && row[INITIATING_MESSAGE] == TypeCell([
                 "E2setupRequest", "ErrorIndication", "ResetRequest", "RICcontrolRequest", "RICindication",
                 "RICserviceQuery", "RICserviceUpdate", "RICsubscriptionRequest",
                 "RICsubscriptionDeleteRequest"][v - 1])
            && row[CRITICALITY] == ValueCell("Criticality", if v == 2 || v == 5 || v == 6 then 1 else 0)
            && Presence(ELEMENTARY_PROCEDURES, INITIATING_MESSAGE, r) == [5, 9, 6, 4, 7, 8, 3, 1, 2][v - 1]
  {
    AllDefined(ELEMENTARY_PROCEDURES, INITIATING_MESSAGE);
  }

  /** Exactly these codes select a successful and an unsuccessful outcome. */
  lemma OutcomesSelected(v: int)
    ensures var t := ELEMENTARY_PROCEDURES;
            && ((exists r | 0 <= r < 9 :: Answers(t, PROCEDURE_CODE, SUCCESSFUL_OUTCOME, v, r)) <==>
                  v in {1, 3, 4, 7, 8, 9})
            && ((exists r | 0 <= r < 9 :: Answers(t, PROCEDURE_CODE, UNSUCCESSFUL_OUTCOME, v, r)) <==>
                  v in {1, 4, 7, 8, 9})
  {
    if 1 <= v <= 9 {
      var t, r := ELEMENTARY_PROCEDURES, [4, 8, 5, 3, 6, 7, 2, 0, 1][v - 1];
      assert Answers(t, PROCEDURE_CODE, SUCCESSFUL_OUTCOME, v, r) <==> v in {1, 3, 4, 7, 8, 9};
      assert Answers(t, PROCEDURE_CODE, UNSUCCESSFUL_OUTCOME, v, r) <==> v in {1, 4, 7, 8, 9};
    }
  }

  /** And these are they. */
  lemma OutcomeOfCode(v: int, r: nat)
    requires r < 9 && Answers(ELEMENTARY_PROCEDURES, PROCEDURE_CODE, INITIATING_MESSAGE, v, r)
    ensures 1 <= v <= 9
    ensures var row := ELEMENTARY_PROCEDURES.rows[r];
            && row[SUCCESSFUL_OUTCOME] == [
                 TypeCell("E2setupResponse"), Undefined, TypeCell("ResetResponse"), TypeCell("RICcontrolAcknowledge"),
                 Undefined, Undefined, TypeCell("RICserviceUpdateAcknowledge"), TypeCell("RICsubscriptionResponse"),
                 TypeCell("RICsubscriptionDeleteResponse")][v - 1]
            && row[UNSUCCESSFUL_OUTCOME] == [
                 TypeCell("E2setupFailure"), Undefined, Undefined, TypeCell("RICcontrolFailure"),
                 Undefined, Undefined, TypeCell("RICserviceUpdateFailure"), TypeCell("RICsubscriptionFailure"),
                 TypeCell("RICsubscriptionDeleteFailure")][v - 1]
  {
  }

  lemma SameRowsAnswer(v: int)
    ensures var t := ELEMENTARY_PROCEDURES;
            forall r | 0 <= r < |t.rows| ::
              Answers(t, PROCEDURE_CODE, INITIATING_MESSAGE, v, r) <==> Answers(t, PROCEDURE_CODE, CRITICALITY, v, r)
  {
  }

  lemma AllDefined(t: ObjectSet, column: nat)
    requires column < t.columns
    requires forall r | 0 <= r < |t.rows| :: |t.rows[r]| == t.columns && !t.rows[r][column].Undefined?
    ensures forall r: nat | r <= |t.rows| :: DefinedBefore(t, column, r) == r
  {
    forall r: nat | r <= |t.rows|
      ensures DefinedBefore(t, column, r) == r
    {
      CountAll(t, column, r);
    }
  }

  lemma {:induction false} CountAll(t: ObjectSet, column: nat, r: nat)
    requires column < t.columns && r <= |t.rows|
    requires forall q | 0 <= q < |t.rows| :: |t.rows[q]| == t.columns && !t.rows[q][column].Undefined?
    ensures DefinedBefore(t, column, r) == r
  {
    if r == 0 {
    } else {
      CountAll(t, column, r - 1);
    }
  }
}
