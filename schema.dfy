/**
 * The zod `formSchema` of the record form and the edit dialog, which is also
 * the `updateRecordSchema` of the data layer without its `id` field:
 * a date must be present and each of the four amounts must be at least 0.
 */
module Schema {
  import opened Wrappers
  import opened DateOrder

  datatype Field = Date | TransferAmount | AfternoonShiftAmount | NightShiftAmount | SystemAmount

  /** One field-level validation error, as zod reports it. */
  datatype Issue = Issue(field: Field, message: string)

  /** The values a form submits; `date == None` is a missing (or invalid) date. */
  datatype FormValues = FormValues(
    date: Option<Day>,
    transferAmount: int,
    afternoonShiftAmount: int,
    nightShiftAmount: int,
    systemAmount: int)

  const DateRequiredMessage := "Please select a date"
  const NegativeAmountMessage := "Amount cannot be negative"

  function MessageFor(f: Field): string {
    if f == Date then DateRequiredMessage else NegativeAmountMessage
  }

  /** The constraint the schema puts on one field. */
  predicate FieldValid(v: FormValues, f: Field) {
    match f
    case Date => v.date.Some?
    case TransferAmount => v.transferAmount >= 0
    case AfternoonShiftAmount => v.afternoonShiftAmount >= 0
    case NightShiftAmount => v.nightShiftAmount >= 0
    case SystemAmount => v.systemAmount >= 0
  }

  /** The input the schema lets through: a date and four non-negative amounts. */
  predicate Accepts(v: FormValues) {
    && v.date.Some?
    && v.transferAmount >= 0
    && v.afternoonShiftAmount >= 0
    && v.nightShiftAmount >= 0
    && v.systemAmount >= 0
  }

  function FieldIssues(v: FormValues, f: Field): (r: seq<Issue>)
    ensures forall x :: x in r <==> x == Issue(f, MessageFor(f)) && !FieldValid(v, f)
  {
    if FieldValid(v, f) then [] else [Issue(f, MessageFor(f))]
  }

  /** The schema's fields, in the order zod checks them. */
  const Fields: seq<Field> := [Date, TransferAmount, AfternoonShiftAmount, NightShiftAmount, SystemAmount]

  lemma EveryFieldChecked()
    ensures forall f: Field :: f in Fields
  {
    forall f: Field ensures f in Fields {
      match f
      case Date => assert Fields[0] == f;
      case TransferAmount => assert Fields[1] == f;
      case AfternoonShiftAmount => assert Fields[2] == f;
      case NightShiftAmount => assert Fields[3] == f;
      case SystemAmount => assert Fields[4] == f;
    }
  }

  /** A form is accepted exactly when every field meets its constraint. */
  lemma AcceptsEveryField(v: FormValues)
    ensures Accepts(v) <==> forall f :: FieldValid(v, f)
  {
    assert (FieldValid(v, Date) && FieldValid(v, TransferAmount) && FieldValid(v, AfternoonShiftAmount)
            && FieldValid(v, NightShiftAmount) && FieldValid(v, SystemAmount)) ==> Accepts(v);
  }

  /** The issues of the fields `fs`, in that order. */
  function IssuesOver(v: FormValues, fs: seq<Field>): (r: seq<Issue>)
    ensures forall x :: x in r <==> x.field in fs && x == Issue(x.field, MessageFor(x.field)) && !FieldValid(v, x.field)
  {
    if fs == [] then []
    else
      assert forall g :: g in fs <==> g == fs[0] || g in fs[1..];
      FieldIssues(v, fs[0]) + IssuesOver(v, fs[1..])
  }

  /** Every issue zod reports for `v`, one per failing field, in the schema's field order. */
  function Issues(v: FormValues): (r: seq<Issue>)
    ensures forall f :: Issue(f, MessageFor(f)) in r <==> !FieldValid(v, f)
    ensures forall x :: x in r ==> x.message == MessageFor(x.field)
    ensures r == [] <==> Accepts(v)
  {
    EveryFieldChecked();
    AcceptsEveryField(v);
    var r := IssuesOver(v, Fields);
    assert r != [] ==> r[0] in r;
    r
  }

  /** `formSchema.parse`: the values themselves, or the issues it throws. */
  function Parse(v: FormValues): (r: Result<FormValues, seq<Issue>>)
    ensures r.Success? <==> Accepts(v)
    ensures r.Success? ==> r.value == v
    ensures r.Failure? ==> r.error != [] && forall x :: x in r.error ==> !FieldValid(v, x.field)
  {
    var issues := Issues(v);
    if issues == [] then Success(v) else Failure(issues)
  }
}
