/**
 * The message shown when saving or updating a record fails. It is chosen by
 * looking for the words "unique" or "duplicate" in the error's text.
 */
module ErrorToast {

  /** `sub` occurs in `s` starting at index `i`. */
  ghost predicate OccursAt(sub: string, s: string, i: int) {
    0 <= i <= |s| - |sub| && s[i..i + |sub|] == sub
  }

  /** `sub` occurs in `s` as a contiguous block. */
  ghost predicate Occurs(sub: string, s: string) {
    exists i :: OccursAt(sub, s, i)
  }

  /** `s.includes(sub)`, by trying every start position in turn. */
  function Contains(s: string, sub: string): (r: bool)
    ensures r <==> Occurs(sub, s)
    decreases |s|
  {
    if |sub| > |s| then false
    else if s[..|sub|] == sub then assert OccursAt(sub, s, 0); true
    else
      var r := Contains(s[1..], sub);
      assert r ==> Occurs(sub, s) by {
        if r {
          var i :| OccursAt(sub, s[1..], i);
          assert s[i + 1..i + 1 + |sub|] == s[1..][i..i + |sub|];
          assert OccursAt(sub, s, i + 1);
        }
      }
      assert Occurs(sub, s) ==> r by {
        if Occurs(sub, s) {
          var i :| OccursAt(sub, s, i);
          assert i != 0;
          assert s[1..][i - 1..i - 1 + |sub|] == s[i..i + |sub|];
          assert OccursAt(sub, s[1..], i - 1);
        }
      }
      r
  }

  /** A value caught by `catch (error)`: an `Error` with its message, or anything else. */
  datatype Caught = ErrorValue(message: string) | OtherValue

  const DuplicateDateMessage := "A record for this date already exists"
  const SaveFailedMessage := "Failed to save record"
  const UpdateFailedMessage := "Failed to update record"

  ghost predicate MentionsDuplicate(message: string) {
    Occurs("unique", message) || Occurs("duplicate", message)
  }

  /** The toast text for a failed submit; `fallback` is used for a thrown non-`Error`. */
  function FailureToast(e: Caught, fallback: string): (m: string)
    ensures e.OtherValue? ==> m == fallback
    ensures e.ErrorValue? && MentionsDuplicate(e.message) ==> m == DuplicateDateMessage
    ensures e.ErrorValue? && !MentionsDuplicate(e.message) ==> m == e.message
  {
    match e
    case ErrorValue(message) =>
      if Contains(message, "unique") || Contains(message, "duplicate") then DuplicateDateMessage
      else message
    case OtherValue => fallback
  }

  /** The record form's toast when `createRecord` fails. */
  function SaveFailureToast(e: Caught): (m: string)
    ensures e.OtherValue? ==> m == SaveFailedMessage
    ensures e.ErrorValue? && MentionsDuplicate(e.message) ==> m == DuplicateDateMessage
    ensures e.ErrorValue? && !MentionsDuplicate(e.message) ==> m == e.message
  {
    FailureToast(e, SaveFailedMessage)
  }

  /** The edit dialog's toast when `updateRecord` fails. */
  function UpdateFailureToast(e: Caught): (m: string)
    ensures e.OtherValue? ==> m == UpdateFailedMessage
    ensures e.ErrorValue? && MentionsDuplicate(e.message) ==> m == DuplicateDateMessage
    ensures e.ErrorValue? && !MentionsDuplicate(e.message) ==> m == e.message
  {
    FailureToast(e, UpdateFailedMessage)
  }

  /** The two forms classify an `Error` alike and differ only in the text for anything else. */
  lemma SaveAndUpdateToastsAgree(e: Caught)
    ensures e.ErrorValue? ==> SaveFailureToast(e) == UpdateFailureToast(e)
    ensures e.OtherValue? ==> SaveFailureToast(e) == SaveFailedMessage && UpdateFailureToast(e) == UpdateFailedMessage
  {
  }
}
