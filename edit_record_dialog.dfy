/**
 * The "Edit Record" dialog: the form starts from the stored record, and its
 * submit sends the record's own id with the edited values to `updateRecord`.
 */
module EditRecordDialog {
  import opened Wrappers
  import opened Schema
  import opened ErrorToast
  import opened Records
  import opened FormInputs

  const UpdatedMessage := "Record updated successfully"

  /** `defaultValues`: the stored date and amounts of `record`. */
  function Prefill(record: DailyRecord): (v: FormValues)
    ensures v.date == Some(record.date)
    ensures v.transferAmount == record.transferAmount
    ensures v.afternoonShiftAmount == record.afternoonShiftAmount
    ensures v.nightShiftAmount == record.nightShiftAmount
    ensures v.systemAmount == record.systemAmount
    ensures AmountsNonNegative(record) ==> Accepts(v)
  {
    FormValues(Some(record.date), record.transferAmount, record.afternoonShiftAmount,
               record.nightShiftAmount, record.systemAmount)
  }

  /** `{ id: record.id, ...value }`: the form values carry no id, so the record's own id is sent. */
  function Payload(record: DailyRecord, values: FormValues): (p: UpdateInput)
    ensures p.id == record.id && p.values == values
  {
    UpdateInput(record.id, values)
  }

  /**
   * `onSubmit`: the schema runs first; then `updateRecord` with the record's id,
   * and on success `onSuccess`. An update that matched no row still counts as saved.
   * `fault` is the message of a database or transport error at the update, if one happens.
   */
  method Submit(store: RecordStore, session: Option<UserId>, record: DailyRecord, values: FormValues, fault: Option<string>)
    returns (outcome: SubmitOutcome)
    requires store.Valid()
    modifies store
    ensures store.Valid()
    ensures !Accepts(values) ==> outcome == Blocked(Issues(values)) && store.rows == old(store.rows)
    ensures Accepts(values) && session.None? ==> outcome == Failed(UnauthorizedMessage) && store.rows == old(store.rows)
    ensures Accepts(values) && session.Some? && fault.Some? ==>
              outcome == Failed(UpdateFailureToast(ErrorValue(fault.value))) && store.rows == old(store.rows)
    ensures Accepts(values) && session.Some? && fault.None? && FirstMatch(old(store.rows), record.id, session.value).Some?
              && DayTaken(old(store.rows), session.value, values.date.value, record.id) ==>
              outcome == Failed(DuplicateDateMessage) && store.rows == old(store.rows)
    ensures Accepts(values) && session.Some? && fault.None?
              && !(FirstMatch(old(store.rows), record.id, session.value).Some?
                   && DayTaken(old(store.rows), session.value, values.date.value, record.id)) ==>
              outcome == Saved(UpdatedMessage)
              && store.rows == SetWhere(old(store.rows), record.id, session.value, values.date.value, values)
  {
    match Parse(values) {
      case Failure(issues) =>
        return Blocked(issues);
      case Success(v) =>
        var r := store.UpdateRecord(session, Payload(record, v), fault);
        match r {
          case Success(_) =>
            return Saved(UpdatedMessage);
          case Failure(f) =>
            UnauthorizedToast(UpdateFailedMessage);
            UniqueViolationToast(UpdateFailedMessage);
            return Failed(UpdateFailureToast(CaughtFrom(f)));
        }
    }
  }

  /**
   * Saving the dialog without editing it is allowed (no uniqueness clash) and
   * leaves the table as it was.
   */
  lemma UneditedSaveChangesNothing(rows: seq<DailyRecord>, record: DailyRecord)
    requires WellFormed(rows)
    requires record in rows
    ensures Accepts(Prefill(record))
    ensures !DayTaken(rows, record.userId, record.date, record.id)
    ensures SetWhere(rows, record.id, record.userId, record.date, Prefill(record)) == rows
  {
    var k :| 0 <= k < |rows| && rows[k] == record;
    assert AmountsNonNegative(record);
    forall i | 0 <= i < |rows| && rows[i].userId == record.userId && rows[i].date == record.date
      ensures rows[i].id == record.id
    {
      OwnerDateIsKey(rows, i, k);
    }
    var r := SetWhere(rows, record.id, record.userId, record.date, Prefill(record));
    forall i | 0 <= i < |rows| ensures r[i] == rows[i] {
      if Targets(rows[i], record.id, record.userId) {
        assert rows[i].id == rows[k].id;
        assert i < k || k < i || i == k;
      }
    }
  }
}
