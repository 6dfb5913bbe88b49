/**
 * The "Daily Record" form: its default values and its submit, which calls
 * `createRecord` and turns a thrown error into a toast.
 */
module RecordForm {
  import opened Wrappers
  import opened DateOrder
  import opened Schema
  import opened ErrorToast
  import opened Records
  import opened FormInputs

  const SavedMessage := "Record saved successfully"

  /** `defaultValues`: today's date (a parameter; the clock is not modelled) and every amount 0. */
  function DefaultValues(today: Day): (v: FormValues)
    ensures Accepts(v)
    ensures v.date == Some(today)
    ensures v.transferAmount == v.afternoonShiftAmount == v.nightShiftAmount == v.systemAmount == 0
  {
    FormValues(Some(today), 0, 0, 0, 0)
  }

  /**
   * `onSubmit`: the schema runs first and blocks a bad form; otherwise
   * `createRecord` runs, and its failure is shown through the toast classifier.
   * `newId` is the id `crypto.randomUUID()` would draw; `fault` is the message
   * of a database or transport error at the insert, if one happens.
   */
  method Submit(store: RecordStore, session: Option<UserId>, values: FormValues, newId: RecordId, fault: Option<string>)
    returns (outcome: SubmitOutcome)
    requires store.Valid()
    requires !HasId(store.rows, newId)
    modifies store
    ensures store.Valid()
    ensures !Accepts(values) ==> outcome == Blocked(Issues(values)) && store.rows == old(store.rows)
    ensures Accepts(values) && session.None? ==> outcome == Failed(UnauthorizedMessage) && store.rows == old(store.rows)
    ensures Accepts(values) && session.Some? && fault.Some? ==>
              outcome == Failed(SaveFailureToast(ErrorValue(fault.value))) && store.rows == old(store.rows)
    ensures Accepts(values) && session.Some? && fault.None? && DayTaken(old(store.rows), session.value, values.date.value, newId) ==>
              outcome == Failed(DuplicateDateMessage) && store.rows == old(store.rows)
    ensures Accepts(values) && session.Some? && fault.None? && !DayTaken(old(store.rows), session.value, values.date.value, newId) ==>
              outcome == Saved(SavedMessage)
              && store.rows == old(store.rows) + [NewRow(newId, session.value, values.date.value, values)]
  {
    match Parse(values) {
      case Failure(issues) =>
        return Blocked(issues);
      case Success(v) =>
        var r := store.CreateRecord(session, v, newId, fault);
        match r {
          case Success(_) =>
            return Saved(SavedMessage);
          case Failure(f) =>
            UnauthorizedToast(SaveFailedMessage);
            UniqueViolationToast(SaveFailedMessage);
            return Failed(SaveFailureToast(CaughtFrom(f)));
        }
    }
  }
}
