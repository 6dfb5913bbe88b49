/**
 * The records table: the derived "difference" column with its sign and
 * colour, and the four pieces of component state (`selectedRecord`,
 * `deleteDialogOpen`, `editDialogOpen`, `isDeleting`) that its handlers set.
 * The number formatter behind `formatDifference` is the parameter `group`.
 */
module RecordsTable {
  import opened Wrappers
  import opened Schema
  import opened Records
  import opened FormInputs
  import EditRecordDialog

  /** transfer + afternoon shift + night shift - system. */
  function Difference(r: DailyRecord): (d: int)
    ensures d > 0 <==> r.transferAmount + r.afternoonShiftAmount + r.nightShiftAmount > r.systemAmount
    ensures d < 0 <==> r.transferAmount + r.afternoonShiftAmount + r.nightShiftAmount < r.systemAmount
    ensures d + r.systemAmount == r.transferAmount + r.afternoonShiftAmount + r.nightShiftAmount
  {
    r.transferAmount + r.afternoonShiftAmount + r.nightShiftAmount - r.systemAmount
  }

  function Abs(v: int): nat {
    if v < 0 then -v else v
  }

  /** `formatDifference`: a sign-dependent prefix, then the formatted magnitude. */
  function FormatDifference(group: nat -> string, v: int): (s: string)
    ensures |s| > 0
    ensures s[0] == '+' <==> v > 0
    ensures s[0] == '-' <==> v < 0
    ensures s[0] == 'R' <==> v == 0
    ensures |s| >= |group(Abs(v))| && s[|s| - |group(Abs(v))|..] == group(Abs(v))
  {
    var formatted := group(Abs(v));
    if v > 0 then "+Rp " + formatted
    else if v < 0 then "-Rp " + formatted
    else "Rp " + formatted
  }

  /** The colour of the difference cell. */
  datatype Tone = Gain | Loss | Plain

  /** The colour chosen for a difference: green above 0, red below, none at 0. */
  function DifferenceTone(v: int): (t: Tone)
    ensures t == Gain <==> v > 0
    ensures t == Loss <==> v < 0
    ensures t == Plain <==> v == 0
  {
    if v > 0 then Gain else if v < 0 then Loss else Plain
  }

  function ToneClass(t: Tone): string {
    match t
    case Gain => "text-green-600"
    case Loss => "text-red-600"
    case Plain => ""
  }

  /** The difference cell's class name. */
  function DifferenceClass(v: int): (c: string)
    ensures v > 0 ==> c == "text-right font-semibold text-green-600"
    ensures v < 0 ==> c == "text-right font-semibold text-red-600"
    ensures v == 0 ==> c == "text-right font-semibold "
  {
    "text-right font-semibold " + ToneClass(DifferenceTone(v))
  }

  /** `formatDifference(v)` and `formatDifference(-v)` differ only in their prefix. */
  lemma FormatDifferenceNegated(group: nat -> string, v: int)
    ensures v > 0 ==> FormatDifference(group, v) == "+Rp " + group(Abs(v)) && FormatDifference(group, -v) == "-Rp " + group(Abs(v))
    ensures v == 0 ==> FormatDifference(group, v) == FormatDifference(group, -v)
    ensures v < 0 ==> FormatDifference(group, v) == "-Rp " + group(Abs(v)) && FormatDifference(group, -v) == "+Rp " + group(Abs(v))
  {
    assert Abs(-v) == Abs(v);
  }

  /** Green exactly when the text shows "+", red exactly when it shows "-", no colour otherwise. */
  lemma ColourAgreesWithSign(group: nat -> string, v: int)
    ensures DifferenceTone(v) == Gain <==> FormatDifference(group, v)[0] == '+'
    ensures DifferenceTone(v) == Loss <==> FormatDifference(group, v)[0] == '-'
    ensures DifferenceTone(v) == Plain <==> FormatDifference(group, v)[0] == 'R'
  {
  }

  /** Three worked rows: a surplus, a shortfall and an exact match. */
  lemma DifferenceExamples(group: nat -> string)
    ensures var r := DailyRecord("a", "u", "2024-01-01", 100000, 50000, 50000, 180000);
            Difference(r) == 20000 && FormatDifference(group, Difference(r)) == "+Rp " + group(20000)
    ensures var r := DailyRecord("b", "u", "2024-01-02", 100000, 50000, 50000, 220000);
            Difference(r) == -20000 && FormatDifference(group, Difference(r)) == "-Rp " + group(20000)
    ensures var r := DailyRecord("c", "u", "2024-01-03", 100000, 50000, 50000, 200000);
            Difference(r) == 0 && FormatDifference(group, Difference(r)) == "Rp " + group(0)
  {
  }

  /** One rendered row: the id and the difference cell. */
  datatype RowView = RowView(id: RecordId, difference: int, text: string, className: string)

  datatype EditDialogView = EditDialogView(record: DailyRecord, open: bool)

  /** What the component renders. */
  datatype View =
    | EmptyState(message: string)
    | TableView(
        rows: seq<RowView>,
        deleteDialogOpen: bool,
        deleteDisabled: bool,
        editDialog: Option<EditDialogView>)

  const EmptyMessage := "No records found. Create your first record to get started."
  const DeletedMessage := "Record deleted successfully"
  const DeleteFailedMessage := "Failed to delete record"

  function RowFor(group: nat -> string, r: DailyRecord): RowView {
    var d := Difference(r);
    RowView(r.id, d, FormatDifference(group, d), DifferenceClass(d))
  }

  class TableState {
    var selectedRecord: Option<DailyRecord>
    var deleteDialogOpen: bool
    var editDialogOpen: bool
    var isDeleting: bool

    constructor ()
      ensures selectedRecord == None && !deleteDialogOpen && !editDialogOpen && !isDeleting
    {
      selectedRecord := None;
      deleteDialogOpen := false;
      editDialogOpen := false;
      isDeleting := false;
    }

    /**
     * The rendered view: the empty-state message for no records; otherwise one
     * row per record in order, the delete dialog, and the edit dialog only while
     * a record is selected.
     */
    function Render(group: nat -> string, records: seq<DailyRecord>): (v: View)
      reads this
      ensures v.EmptyState? <==> records == []
      ensures v.EmptyState? ==> v.message == EmptyMessage
      ensures v.TableView? ==> |v.rows| == |records|
      ensures v.TableView? ==> forall i :: 0 <= i < |records| ==>
                v.rows[i].id == records[i].id && v.rows[i].difference == Difference(records[i])
      ensures v.TableView? ==> forall i :: 0 <= i < |records| ==> v.rows[i] == RowFor(group, records[i])
      ensures v.TableView? ==> v.deleteDialogOpen == deleteDialogOpen && v.deleteDisabled == isDeleting
      ensures v.TableView? ==> (v.editDialog.Some? <==> selectedRecord.Some?)
      ensures v.TableView? && v.editDialog.Some? ==> v.editDialog.value == EditDialogView(selectedRecord.value, editDialogOpen)
    {
      if |records| == 0 then EmptyState(EmptyMessage)
      else
        TableView(
          seq(|records|, i requires 0 <= i < |records| => RowFor(group, records[i])),
          deleteDialogOpen,
          isDeleting,
          match selectedRecord
          case None => None
          case Some(r) => Some(EditDialogView(r, editDialogOpen)))
    }

    /** `handleDeleteClick`: select the record and open the delete dialog. */
    method HandleDeleteClick(record: DailyRecord)
      modifies this
      ensures selectedRecord == Some(record) && deleteDialogOpen
      ensures editDialogOpen == old(editDialogOpen) && isDeleting == old(isDeleting)
    {
      selectedRecord := Some(record);
      deleteDialogOpen := true;
    }

    /** `handleEditClick`: select the record and open the edit dialog. */
    method HandleEditClick(record: DailyRecord)
      modifies this
      ensures selectedRecord == Some(record) && editDialogOpen
      ensures deleteDialogOpen == old(deleteDialogOpen) && isDeleting == old(isDeleting)
    {
      selectedRecord := Some(record);
      editDialogOpen := true;
    }

    /**
     * `handleDeleteConfirm`: with no selection, nothing happens. Otherwise
     * delete the selected id; whether that succeeds or throws, the `finally`
     * block clears `isDeleting`, closes the delete dialog and the selection.
     * Returns the toast shown, if any. `fault` is the message of a database or
     * transport error at the delete, if one happens.
     */
    method HandleDeleteConfirm(store: RecordStore, session: Option<UserId>, fault: Option<string>) returns (toast: Option<string>)
      requires store.Valid()
      modifies this, store
      ensures store.Valid()
      ensures old(selectedRecord).None? ==>
                && toast == None && store.rows == old(store.rows)
                && selectedRecord == None && deleteDialogOpen == old(deleteDialogOpen)
                && editDialogOpen == old(editDialogOpen) && isDeleting == old(isDeleting)
      ensures old(selectedRecord).Some? ==>
                && !isDeleting && !deleteDialogOpen && selectedRecord == None
                && editDialogOpen == old(editDialogOpen)
      ensures old(selectedRecord).Some? && session.Some? && fault.None? ==>
                && toast == Some(DeletedMessage)
                && store.rows == DeleteWhere(old(store.rows), old(selectedRecord).value.id, session.value)
      ensures old(selectedRecord).Some? && (session.None? || fault.Some?) ==>
                toast == Some(DeleteFailedMessage) && store.rows == old(store.rows)
    {
      if selectedRecord.None? {
        return None;
      }
      isDeleting := true;
      var r := store.DeleteRecord(session, DeleteInput(selectedRecord.value.id), fault);
      toast := if r.Success? then Some(DeletedMessage) else Some(DeleteFailedMessage);
      // finally
      isDeleting := false;
      deleteDialogOpen := false;
      selectedRecord := None;
    }

    /** `handleEditSuccess`: close the edit dialog and clear the selection. */
    method HandleEditSuccess()
      modifies this
      ensures !editDialogOpen && selectedRecord == None
      ensures deleteDialogOpen == old(deleteDialogOpen) && isDeleting == old(isDeleting)
    {
      editDialogOpen := false;
      selectedRecord := None;
    }

    /** The delete dialog's `onOpenChange` (Cancel, Escape): sets the flag only; the selection stays. */
    method SetDeleteDialogOpen(open: bool)
      modifies this
      ensures deleteDialogOpen == open
      ensures selectedRecord == old(selectedRecord) && editDialogOpen == old(editDialogOpen) && isDeleting == old(isDeleting)
    {
      deleteDialogOpen := open;
    }

    /** The edit dialog's `onOpenChange`: sets the flag only; the selection stays. */
    method SetEditDialogOpen(open: bool)
      modifies this
      ensures editDialogOpen == open
      ensures selectedRecord == old(selectedRecord) && deleteDialogOpen == old(deleteDialogOpen) && isDeleting == old(isDeleting)
    {
      editDialogOpen := open;
    }

    /**
     * Submitting the edit dialog, which is rendered only while a record is
     * selected: the dialog's submit, and on success `onSuccess`, which is
     * `handleEditSuccess`.
     */
    method SubmitEdit(store: RecordStore, session: Option<UserId>, values: FormValues, fault: Option<string>)
      returns (outcome: SubmitOutcome)
      requires selectedRecord.Some?
      requires store.Valid()
      modifies this, store
      ensures store.Valid()
      ensures outcome.Saved? ==> !editDialogOpen && selectedRecord == None
      ensures !outcome.Saved? ==> selectedRecord == old(selectedRecord) && editDialogOpen == old(editDialogOpen)
      ensures deleteDialogOpen == old(deleteDialogOpen) && isDeleting == old(isDeleting)
      ensures outcome.Saved? <==>
                (&& Accepts(values) && session.Some? && fault.None?
                 && !(FirstMatch(old(store.rows), old(selectedRecord).value.id, session.value).Some?
                      && DayTaken(old(store.rows), session.value, values.date.value, old(selectedRecord).value.id)))
      ensures outcome.Saved? ==>
                store.rows == SetWhere(old(store.rows), old(selectedRecord).value.id, session.value, values.date.value, values)
      ensures !outcome.Saved? ==> store.rows == old(store.rows)
    {
      outcome := EditRecordDialog.Submit(store, session, selectedRecord.value, values, fault);
      if outcome.Saved? {
        HandleEditSuccess();
      }
    }
  }
}
