/**
 * What the record form and the edit dialog share: the amount inputs, which
 * store `parseIDR` of whatever is typed, and the way a submit ends.
 */
module FormInputs {
  import opened Schema
  import opened Currency
  import opened ErrorToast
  import opened Records

  /** How a submit ends. */
  datatype SubmitOutcome =
    | Blocked(issues: seq<Issue>)  // the form's onSubmit validator stopped it; nothing is sent
    | Saved(toast: string)         // the server function returned
    | Failed(toast: string)        // it threw; the toast shows this text

  /** What the client catches when a server function throws `failure`: always an `Error`, so the fallback text is never shown. */
  function CaughtFrom(failure: Failure): (e: Caught)
    ensures e.ErrorValue? && e.message == FailureMessage(failure)
    ensures forall a, b :: FailureToast(e, a) == FailureToast(e, b)
  {
    ErrorValue(FailureMessage(failure))
  }

  /** An amount input's `onChange`: the field becomes `parseIDR(text)`; the other fields keep their values. */
  function TypeAmount(v: FormValues, f: Field, text: string): (r: FormValues)
    requires f != Date
    ensures r.transferAmount == (if f == TransferAmount then ParseIDR(text) else v.transferAmount)
    ensures r.afternoonShiftAmount == (if f == AfternoonShiftAmount then ParseIDR(text) else v.afternoonShiftAmount)
    ensures r.nightShiftAmount == (if f == NightShiftAmount then ParseIDR(text) else v.nightShiftAmount)
    ensures r.systemAmount == (if f == SystemAmount then ParseIDR(text) else v.systemAmount)
    ensures FieldValid(r, f)
    ensures forall g :: g != f ==> (FieldValid(r, g) <==> FieldValid(v, g))
    ensures r.date == v.date
    ensures Accepts(v) ==> Accepts(r)
  {
    var n := ParseIDR(text);
    match f
    case TransferAmount => v.(transferAmount := n)
    case AfternoonShiftAmount => v.(afternoonShiftAmount := n)
    case NightShiftAmount => v.(nightShiftAmount := n)
    case SystemAmount => v.(systemAmount := n)
  }

  /** "Unauthorized" mentions neither word, so the toast shows it as it is. */
  lemma UnauthorizedToast(fallback: string)
    ensures FailureToast(CaughtFrom(Unauthorized), fallback) == UnauthorizedMessage
  {
    var s := UnauthorizedMessage;
    assert |s| == 12;
    forall i | 0 <= i <= |s| - 6 ensures !OccursAt("unique", s, i) {
      assert i == 0 || i == 1 || i == 2 || i == 3 || i == 4 || i == 5 || i == 6;
      assert s[i..i + 6][0] == s[i] && s[i..i + 6][1] == s[i + 1];
    }
    forall i | 0 <= i <= |s| - 9 ensures !OccursAt("duplicate", s, i) {
      assert i == 0 || i == 1 || i == 2 || i == 3;
      assert s[i..i + 9][0] == s[i];
    }
  }

  /** The store's unique-constraint error is shown as the duplicate-date message. */
  lemma UniqueViolationToast(fallback: string)
    ensures FailureToast(CaughtFrom(UniqueViolation), fallback) == DuplicateDateMessage
  {
    var s := UniqueViolationMessage;
    assert s[0..9] == "duplicate" by {
      assert |s| == 46;
      forall k | 0 <= k < 9 ensures s[0..9][k] == "duplicate"[k] {
        assert k == 0 || k == 1 || k == 2 || k == 3 || k == 4 || k == 5 || k == 6 || k == 7 || k == 8;
        assert s[0..9][k] == s[k];
      }
    }
    assert OccursAt("duplicate", s, 0);
  }
}
