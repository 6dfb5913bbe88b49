/**
 * The daily_record table and the four server functions over it:
 * `getRecords`, `createRecord` (declared beside the record form),
 * `updateRecord` and `deleteRecord`. Every one of them first passes the
 * authentication middleware and then touches only rows owned by the
 * signed-in user. The table is kept in memory as a sequence of rows.
 */
module Records {
  import opened Wrappers
  import opened DateOrder
  import opened Schema

  type RecordId = string
  type UserId = string

  /** One row of the table (the store-maintained timestamps are not modelled). */
  datatype DailyRecord = DailyRecord(
    id: RecordId,
    userId: UserId,
    date: Day,
    transferAmount: int,
    afternoonShiftAmount: int,
    nightShiftAmount: int,
    systemAmount: int)

  /** The payload of `updateRecord`: the id and the form's values. */
  datatype UpdateInput = UpdateInput(id: RecordId, values: FormValues)

  /** The payload of `deleteRecord`. */
  datatype DeleteInput = DeleteInput(id: RecordId)

  /** Why a server function throws. */
  datatype Failure =
    | Unauthorized                  // no session
    | Rejected(issues: seq<Issue>)  // the input validator threw
    | UniqueViolation               // the (userId, date) unique constraint
    | StoreError(message: string)   // the database or the transport threw at the write

  const UnauthorizedMessage := "Unauthorized"
  const UniqueViolationMessage := "duplicate key value violates unique constraint"

  /** The validator's error text: the issues' messages, one per line. */
  function IssuesText(issues: seq<Issue>): string {
    if issues == [] then ""
    else if |issues| == 1 then issues[0].message
    else issues[0].message + "\n" + IssuesText(issues[1..])
  }

  /** The `message` of the `Error` the caller receives. */
  function FailureMessage(f: Failure): (m: string)
    ensures f.Unauthorized? ==> m == UnauthorizedMessage
    ensures f.UniqueViolation? ==> m == UniqueViolationMessage
    ensures f.StoreError? ==> m == f.message
    ensures f.Rejected? && f.issues != [] ==> |m| >= |f.issues[0].message| && m[..|f.issues[0].message|] == f.issues[0].message
    ensures f.Rejected? && |f.issues| == 1 ==> m == f.issues[0].message
  {
    match f
    case Unauthorized => UnauthorizedMessage
    case Rejected(issues) => IssuesText(issues)
    case UniqueViolation => UniqueViolationMessage
    case StoreError(message) => message
  }

  /** `recordAuthMiddleware`: the session's user, or `Unauthorized` when there is no session. */
  function Authenticate(session: Option<UserId>): (r: Result<UserId, Failure>)
    ensures r.Failure? <==> session.None?
    ensures r.Failure? ==> r.error == Unauthorized
    ensures r.Success? ==> r.value == session.value
  {
    match session
    case None => Failure(Unauthorized)
    case Some(user) => Success(user)
  }

  // ---------------------------------------------------------------------------
  // Row-level definitions

  /** The filter of `updateRecord` and `deleteRecord`: `id = id AND userId = user`. */
  predicate Targets(row: DailyRecord, id: RecordId, user: UserId) {
    row.id == id && row.userId == user
  }

  predicate AmountsNonNegative(row: DailyRecord) {
    && row.transferAmount >= 0
    && row.afternoonShiftAmount >= 0
    && row.nightShiftAmount >= 0
    && row.systemAmount >= 0
  }

  /** The row `createRecord` inserts. */
  function NewRow(id: RecordId, user: UserId, day: Day, v: FormValues): DailyRecord {
    DailyRecord(id, user, day, v.transferAmount, v.afternoonShiftAmount, v.nightShiftAmount, v.systemAmount)
  }

  /** The `.set({ date, transferAmount, … })` of `updateRecord`: id and owner are not in it. */
  function WithValues(row: DailyRecord, day: Day, v: FormValues): DailyRecord {
    row.(date := day,
         transferAmount := v.transferAmount,
         afternoonShiftAmount := v.afternoonShiftAmount,
         nightShiftAmount := v.nightShiftAmount,
         systemAmount := v.systemAmount)
  }

  /**
   * What the table guarantees: `id` is the primary key, `(userId, date)` is
   * unique, and every stored amount passed the schema (is at least 0).
   */
  ghost predicate WellFormed(rows: seq<DailyRecord>) {
    && (forall i, j :: 0 <= i < j < |rows| ==> rows[i].id != rows[j].id)
    && (forall i, j :: 0 <= i < j < |rows| ==> rows[i].userId != rows[j].userId || rows[i].date != rows[j].date)
    && (forall i :: 0 <= i < |rows| ==> AmountsNonNegative(rows[i]))
  }

  /** A row of `user` other than `exceptId` is already on `day`: writing `(user, day)` would break uniqueness. */
  predicate DayTaken(rows: seq<DailyRecord>, user: UserId, day: Day, exceptId: RecordId) {
    exists i :: 0 <= i < |rows| && rows[i].userId == user && rows[i].date == day && rows[i].id != exceptId
  }

  predicate HasId(rows: seq<DailyRecord>, id: RecordId) {
    exists i :: 0 <= i < |rows| && rows[i].id == id
  }

  // ---------------------------------------------------------------------------
  // The query: `where(userId = user).orderBy(desc(date))`

  /** `where(eq(userId, user))`: the user's rows and no others, each as often as stored. */
  function OwnedBy(rows: seq<DailyRecord>, user: UserId): (r: seq<DailyRecord>)
    ensures forall x :: multiset(r)[x] == if x.userId == user then multiset(rows)[x] else 0
    ensures forall x :: x in r <==> x in rows && x.userId == user
  {
    if rows == [] then []
    else
      assert rows == [rows[0]] + rows[1..];
      (if rows[0].userId == user then [rows[0]] else []) + OwnedBy(rows[1..], user)
  }

  /** Newest first: a later entry never has a later date. */
  ghost predicate SortedByDateDesc(s: seq<DailyRecord>) {
    forall i, j :: 0 <= i < j < |s| ==> LexLe(s[j].date, s[i].date)
  }

  function InsertByDateDesc(x: DailyRecord, s: seq<DailyRecord>): (r: seq<DailyRecord>)
    requires SortedByDateDesc(s)
    ensures SortedByDateDesc(r)
    ensures multiset(r) == multiset(s) + multiset{x}
  {
    if s == [] then [x]
    else if LexLe(s[0].date, x.date) then
      InsertFirstSorted(x, s);
      [x] + s
    else
      var rest := InsertByDateDesc(x, s[1..]);
      InsertLaterSorted(x, s, rest);
      [s[0]] + rest
  }

  lemma InsertFirstSorted(x: DailyRecord, s: seq<DailyRecord>)
    requires SortedByDateDesc(s) && s != []
    requires LexLe(s[0].date, x.date)
    ensures SortedByDateDesc([x] + s)
  {
    var r := [x] + s;
    forall i, j | 0 <= i < j < |r| ensures LexLe(r[j].date, r[i].date) {
      if i == 0 {
        if j == 1 { } else { LexLeTransitive(s[j - 1].date, s[0].date, x.date); }
      } else {
        assert r[i] == s[i - 1] && r[j] == s[j - 1];
      }
    }
  }

  lemma InsertLaterSorted(x: DailyRecord, s: seq<DailyRecord>, rest: seq<DailyRecord>)
    requires SortedByDateDesc(s) && s != []
    requires !LexLe(s[0].date, x.date)
    requires SortedByDateDesc(rest)
    requires multiset(rest) == multiset(s[1..]) + multiset{x}
    ensures SortedByDateDesc([s[0]] + rest)
    ensures multiset([s[0]] + rest) == multiset(s) + multiset{x}
  {
    LexLeTotal(s[0].date, x.date);
    assert s == [s[0]] + s[1..];
    var r := [s[0]] + rest;
    forall j | 1 <= j < |r| ensures LexLe(r[j].date, r[0].date) {
      var y := r[j];
      assert y in multiset(rest) by { assert y == rest[j - 1]; }
      if y != x {
        assert y in multiset(s[1..]);
        var k :| 0 <= k < |s[1..]| && s[1..][k] == y;
        assert s[k + 1] == y;
      }
    }
    forall i, j | 0 <= i < j < |r| ensures LexLe(r[j].date, r[i].date) {
      if i > 0 { assert r[i] == rest[i - 1] && r[j] == rest[j - 1]; }
    }
  }

  /** `orderBy(desc(date))`, by insertion. */
  function SortByDateDesc(s: seq<DailyRecord>): (r: seq<DailyRecord>)
    ensures SortedByDateDesc(r)
    ensures multiset(r) == multiset(s)
  {
    if s == [] then []
    else
      assert s == [s[0]] + s[1..];
      InsertByDateDesc(s[0], SortByDateDesc(s[1..]))
  }

  /** The rows `getRecords` returns for `user`. */
  function ListFor(rows: seq<DailyRecord>, user: UserId): seq<DailyRecord> {
    SortByDateDesc(OwnedBy(rows, user))
  }

  // ---------------------------------------------------------------------------
  // The writes

  /** `update … set … where id = id and userId = user`, row by row. */
  function SetWhere(rows: seq<DailyRecord>, id: RecordId, user: UserId, day: Day, v: FormValues): (r: seq<DailyRecord>)
    ensures |r| == |rows|
    ensures forall i :: 0 <= i < |rows| && Targets(rows[i], id, user) ==> r[i] == WithValues(rows[i], day, v)
    ensures forall i :: 0 <= i < |rows| && !Targets(rows[i], id, user) ==> r[i] == rows[i]
    ensures forall i :: 0 <= i < |rows| ==> r[i].id == rows[i].id && r[i].userId == rows[i].userId
  {
    if rows == [] then []
    else
      var head := if Targets(rows[0], id, user) then WithValues(rows[0], day, v) else rows[0];
      var r := [head] + SetWhere(rows[1..], id, user, day, v);
      assert forall i :: 1 <= i < |rows| ==> r[i] == SetWhere(rows[1..], id, user, day, v)[i - 1] && rows[i] == rows[1..][i - 1];
      r
  }

  /** `delete … where id = id and userId = user`. */
  function DeleteWhere(rows: seq<DailyRecord>, id: RecordId, user: UserId): (r: seq<DailyRecord>)
    ensures forall x :: multiset(r)[x] == if Targets(x, id, user) then 0 else multiset(rows)[x]
    ensures forall x :: x in r <==> x in rows && !Targets(x, id, user)
  {
    if rows == [] then []
    else
      assert rows == [rows[0]] + rows[1..];
      (if Targets(rows[0], id, user) then [] else [rows[0]]) + DeleteWhere(rows[1..], id, user)
  }

  /** The first row the filter matches: `record[0]` of `.returning()`. */
  function FirstMatch(rows: seq<DailyRecord>, id: RecordId, user: UserId): (r: Option<DailyRecord>)
    ensures r.Some? ==> r.value in rows && Targets(r.value, id, user)
    ensures r.None? <==> forall x :: x in rows ==> !Targets(x, id, user)
  {
    if rows == [] then None
    else if Targets(rows[0], id, user) then Some(rows[0])
    else
      assert forall x :: x in rows ==> x == rows[0] || x in rows[1..];
      FirstMatch(rows[1..], id, user)
  }

  // ---------------------------------------------------------------------------
  // The store

  class RecordStore {
    var rows: seq<DailyRecord>

    ghost predicate Valid()
      reads this
    {
      WellFormed(rows)
    }

    constructor ()
      ensures Valid() && rows == []
    {
      rows := [];
    }

    /** `getRecords`: the signed-in user's rows, newest first. */
    function GetRecords(session: Option<UserId>): (r: Result<seq<DailyRecord>, Failure>)
      reads this
      ensures session.None? ==> r == Failure(Unauthorized)
      ensures session.Some? ==> r.Success?
      ensures r.Success? ==> forall x :: x in r.value <==> x in rows && x.userId == session.value
      ensures r.Success? ==> multiset(r.value) == multiset(OwnedBy(rows, session.value))
      ensures r.Success? ==> SortedByDateDesc(r.value)
    {
      match Authenticate(session)
      case Failure(e) => Failure(e)
      case Success(user) =>
        assert multiset(ListFor(rows, user)) == multiset(OwnedBy(rows, user));
        assert forall x :: x in ListFor(rows, user) <==> x in multiset(OwnedBy(rows, user));
        Success(ListFor(rows, user))
    }

    /**
     * `createRecord`: authenticate, validate, then insert one row with the
     * fresh id `newId` (the model of `crypto.randomUUID()`) owned by the user.
     * `fault` is the message of a database or transport error at the insert, if one happens.
     */
    method CreateRecord(session: Option<UserId>, input: FormValues, newId: RecordId, fault: Option<string>)
      returns (r: Result<DailyRecord, Failure>)
      requires Valid()
      requires !HasId(rows, newId)
      modifies this
      ensures Valid()
      ensures session.None? ==> r == Failure(Unauthorized) && rows == old(rows)
      ensures session.Some? && !Accepts(input) ==> r == Failure(Rejected(Issues(input))) && rows == old(rows)
      ensures session.Some? && Accepts(input) && fault.Some? ==> r == Failure(StoreError(fault.value)) && rows == old(rows)
      ensures session.Some? && Accepts(input) && fault.None? && DayTaken(old(rows), session.value, input.date.value, newId) ==>
                r == Failure(UniqueViolation) && rows == old(rows)
      ensures session.Some? && Accepts(input) && fault.None? && !DayTaken(old(rows), session.value, input.date.value, newId) ==>
                r == Success(NewRow(newId, session.value, input.date.value, input)) && rows == old(rows) + [r.value]
    {
      match Authenticate(session) {
        case Failure(e) =>
          return Failure(e);
        case Success(user) =>
          match Parse(input) {
            case Failure(issues) =>
              return Failure(Rejected(issues));
            case Success(v) =>
              if fault.Some? {
                return Failure(StoreError(fault.value));
              }
              var day := v.date.value;
              if DayTaken(rows, user, day, newId) {
                return Failure(UniqueViolation);
              }
              var row := NewRow(newId, user, day, v);
              AppendPreservesWellFormed(rows, row);
              rows := rows + [row];
              return Success(row);
          }
      }
    }

    /**
     * `updateRecord`: authenticate, validate, then set the date and the four
     * amounts of the row matching both `id` and the user. No matching row is
     * not an error: the result is then empty. `fault` is the message of a
     * database or transport error at the update, if one happens.
     */
    method UpdateRecord(session: Option<UserId>, input: UpdateInput, fault: Option<string>)
      returns (r: Result<Option<DailyRecord>, Failure>)
      requires Valid()
      modifies this
      ensures Valid()
      ensures session.None? ==> r == Failure(Unauthorized) && rows == old(rows)
      ensures session.Some? && !Accepts(input.values) ==> r == Failure(Rejected(Issues(input.values))) && rows == old(rows)
      ensures session.Some? && Accepts(input.values) && fault.Some? ==> r == Failure(StoreError(fault.value)) && rows == old(rows)
      ensures session.Some? && Accepts(input.values) && fault.None? && FirstMatch(old(rows), input.id, session.value).Some?
                && DayTaken(old(rows), session.value, input.values.date.value, input.id) ==>
                r == Failure(UniqueViolation) && rows == old(rows)
      ensures session.Some? && Accepts(input.values) && fault.None?
                && !(FirstMatch(old(rows), input.id, session.value).Some?
                     && DayTaken(old(rows), session.value, input.values.date.value, input.id)) ==>
                && rows == SetWhere(old(rows), input.id, session.value, input.values.date.value, input.values)
                && r == Success(FirstMatch(rows, input.id, session.value))
    {
      match Authenticate(session) {
        case Failure(e) =>
          return Failure(e);
        case Success(user) =>
          match Parse(input.values) {
            case Failure(issues) =>
              return Failure(Rejected(issues));
            case Success(v) =>
              if fault.Some? {
                return Failure(StoreError(fault.value));
              }
              var day := v.date.value;
              if FirstMatch(rows, input.id, user).Some? && DayTaken(rows, user, day, input.id) {
                return Failure(UniqueViolation);
              }
              SetWherePreservesWellFormed(rows, input.id, user, day, v);
              rows := SetWhere(rows, input.id, user, day, v);
              return Success(FirstMatch(rows, input.id, user));
          }
      }
    }

    /**
     * `deleteRecord`: authenticate, then remove the rows matching both `id` and
     * the user; `{ success: true }` unless the database or the transport throws
     * `fault` at the delete.
     */
    method DeleteRecord(session: Option<UserId>, input: DeleteInput, fault: Option<string>) returns (r: Result<bool, Failure>)
      requires Valid()
      modifies this
      ensures Valid()
      ensures session.None? ==> r == Failure(Unauthorized) && rows == old(rows)
      ensures session.Some? && fault.Some? ==> r == Failure(StoreError(fault.value)) && rows == old(rows)
      ensures session.Some? && fault.None? ==> r == Success(true) && rows == DeleteWhere(old(rows), input.id, session.value)
    {
      match Authenticate(session) {
        case Failure(e) =>
          return Failure(e);
        case Success(user) =>
          if fault.Some? {
            return Failure(StoreError(fault.value));
          }
          DeleteWherePreservesWellFormed(rows, input.id, user);
          rows := DeleteWhere(rows, input.id, user);
          return Success(true);
      }
    }
  }

  // ---------------------------------------------------------------------------
  // The table invariant is kept by every write

  lemma AppendPreservesWellFormed(rows: seq<DailyRecord>, row: DailyRecord)
    requires WellFormed(rows)
    requires !HasId(rows, row.id)
    requires !DayTaken(rows, row.userId, row.date, row.id)
    requires AmountsNonNegative(row)
    ensures WellFormed(rows + [row])
  {
    var r := rows + [row];
    forall i, j | 0 <= i < j < |r|
      ensures r[i].id != r[j].id
      ensures r[i].userId != r[j].userId || r[i].date != r[j].date
    {
      if j == |rows| {
        assert r[i] == rows[i];
      }
    }
  }

  lemma SetWherePreservesWellFormed(rows: seq<DailyRecord>, id: RecordId, user: UserId, day: Day, v: FormValues)
    requires WellFormed(rows)
    requires Accepts(v)
    requires !(FirstMatch(rows, id, user).Some? && DayTaken(rows, user, day, id))
    ensures WellFormed(SetWhere(rows, id, user, day, v))
  {
    var r := SetWhere(rows, id, user, day, v);
    forall i, j | 0 <= i < j < |r|
      ensures r[i].id != r[j].id
    {
      assert r[i].id == rows[i].id && r[j].id == rows[j].id;
    }
    forall i, j | 0 <= i < j < |r|
      ensures r[i].userId != r[j].userId || r[i].date != r[j].date
    {
      SetWherePair(rows, id, user, day, v, i, j);
    }
    forall i | 0 <= i < |r|
      ensures AmountsNonNegative(r[i])
    {
      assert r[i] == rows[i] || r[i] == WithValues(rows[i], day, v);
    }
  }

  /** One pair of rows of `SetWhere`: two rows that did not clash before do not clash after. */
  lemma SetWherePair(rows: seq<DailyRecord>, id: RecordId, user: UserId, day: Day, v: FormValues, i: int, j: int)
    requires 0 <= i < |rows| && 0 <= j < |rows|
    requires rows[i].id != rows[j].id
    requires rows[i].userId != rows[j].userId || rows[i].date != rows[j].date
    requires !(FirstMatch(rows, id, user).Some? && DayTaken(rows, user, day, id))
    ensures SetWhere(rows, id, user, day, v)[i].userId != SetWhere(rows, id, user, day, v)[j].userId
         || SetWhere(rows, id, user, day, v)[i].date != SetWhere(rows, id, user, day, v)[j].date
  {
    if Targets(rows[i], id, user) || Targets(rows[j], id, user) {
      var k := if Targets(rows[i], id, user) then i else j;
      var m := if k == i then j else i;
      var other := rows[m];
      assert rows[k] in rows;
      assert !(other.userId == user && other.date == day && other.id != id);
    }
  }

  /** The table without its first row is still well formed, and no later row clashes with the first. */
  lemma WellFormedTail(rows: seq<DailyRecord>)
    requires WellFormed(rows) && rows != []
    ensures WellFormed(rows[1..])
    ensures forall y :: y in rows[1..] ==> y.id != rows[0].id && (y.userId != rows[0].userId || y.date != rows[0].date)
  {
    var tail := rows[1..];
    forall i, j | 0 <= i < j < |tail|
      ensures tail[i].id != tail[j].id
      ensures tail[i].userId != tail[j].userId || tail[i].date != tail[j].date
    {
      assert tail[i] == rows[i + 1] && tail[j] == rows[j + 1];
    }
    forall y | y in tail
      ensures y.id != rows[0].id && (y.userId != rows[0].userId || y.date != rows[0].date)
    {
      var k :| 0 <= k < |tail| && tail[k] == y;
      assert rows[k + 1] == y;
    }
  }

  /** A row that clashes with none of a well-formed table can head it. */
  lemma ConsWellFormed(h: DailyRecord, rest: seq<DailyRecord>)
    requires WellFormed(rest) && AmountsNonNegative(h)
    requires forall y :: y in rest ==> y.id != h.id && (y.userId != h.userId || y.date != h.date)
    ensures WellFormed([h] + rest)
  {
    var r := [h] + rest;
    forall i, j | 0 <= i < j < |r|
      ensures r[i].id != r[j].id
      ensures r[i].userId != r[j].userId || r[i].date != r[j].date
    {
      assert r[j] == rest[j - 1];
      if i > 0 { assert r[i] == rest[i - 1]; }
    }
  }

  lemma {:induction false} DeleteWherePreservesWellFormed(rows: seq<DailyRecord>, id: RecordId, user: UserId)
    requires WellFormed(rows)
    ensures WellFormed(DeleteWhere(rows, id, user))
    decreases |rows|
  {
    if rows != [] {
      WellFormedTail(rows);
      DeleteWherePreservesWellFormed(rows[1..], id, user);
      if !Targets(rows[0], id, user) {
        assert rows[0] in rows;
        ConsWellFormed(rows[0], DeleteWhere(rows[1..], id, user));
      }
    }
  }

  /** Distinct ids: no row is stored twice. */
  lemma {:induction false} StoredOnce(rows: seq<DailyRecord>)
    requires WellFormed(rows)
    ensures forall x :: multiset(rows)[x] <= 1
    decreases |rows|
  {
    if rows != [] {
      WellFormedTail(rows);
      StoredOnce(rows[1..]);
      assert rows == [rows[0]] + rows[1..];
      assert rows[0] !in rows[1..];
    }
  }

  // ---------------------------------------------------------------------------
  // The listing is determined by the table

  /** At most one row per date, and each row at most once. */
  ghost predicate OnePerDate(m: multiset<DailyRecord>) {
    && (forall x :: m[x] <= 1)
    && (forall x, y :: x in m && y in m && x.date == y.date ==> x == y)
  }

  /** Two rows of one owner on one date are the same position of the table. */
  lemma OwnerDateIsKey(rows: seq<DailyRecord>, i: int, j: int)
    requires WellFormed(rows)
    requires 0 <= i < |rows| && 0 <= j < |rows|
    requires rows[i].userId == rows[j].userId && rows[i].date == rows[j].date
    ensures i == j
  {
  }

  /** A user's rows are each stored once and fall on distinct dates. */
  lemma OwnedRowsOnePerDate(rows: seq<DailyRecord>, user: UserId)
    requires WellFormed(rows)
    ensures OnePerDate(multiset(OwnedBy(rows, user)))
  {
    StoredOnce(rows);
    var m := multiset(OwnedBy(rows, user));
    forall x ensures m[x] <= 1 {
      assert m[x] <= multiset(rows)[x];
    }
    forall x, y | x in m && y in m && x.date == y.date ensures x == y {
      assert x in OwnedBy(rows, user) && y in OwnedBy(rows, user);
      var i :| 0 <= i < |rows| && rows[i] == x;
      var j :| 0 <= j < |rows| && rows[j] == y;
      OwnerDateIsKey(rows, i, j);
    }
  }

  lemma OnePerDateSub(a: multiset<DailyRecord>, b: multiset<DailyRecord>)
    requires a <= b && OnePerDate(b)
    ensures OnePerDate(a)
  {
    forall x ensures a[x] <= 1 {
      assert a[x] <= b[x];
    }
  }

  /** Two arrangements of the same rows that start alike continue with the same rows. */
  lemma SameHeadTails(s: seq<DailyRecord>, t: seq<DailyRecord>)
    requires s != [] && t != [] && s[0] == t[0]
    requires multiset(s) == multiset(t)
    ensures multiset(s[1..]) == multiset(t[1..])
    ensures multiset(s[1..]) <= multiset(s)
  {
    assert s == [s[0]] + s[1..] && t == [t[0]] + t[1..];
    assert multiset(s) == multiset{s[0]} + multiset(s[1..]);
    assert multiset(t) == multiset{t[0]} + multiset(t[1..]);
    assert multiset(s[1..]) == multiset(s) - multiset{s[0]};
    assert multiset(t[1..]) == multiset(t) - multiset{t[0]};
  }

  /** A newest-first list without its first entry is still newest first. */
  lemma SortedDescTail(s: seq<DailyRecord>)
    requires SortedByDateDesc(s) && s != []
    ensures SortedByDateDesc(s[1..])
  {
    forall i, j | 0 <= i < j < |s| - 1
      ensures LexLe(s[1..][j].date, s[1..][i].date)
    {
      assert s[1..][i] == s[i + 1] && s[1..][j] == s[j + 1];
    }
  }

  /** The first entries of two newest-first orderings of the same rows, one per date, agree. */
  lemma SortedDescSameHead(s: seq<DailyRecord>, t: seq<DailyRecord>)
    requires SortedByDateDesc(s) && SortedByDateDesc(t)
    requires multiset(s) == multiset(t)
    requires OnePerDate(multiset(s))
    requires s != []
    ensures t != [] && s[0] == t[0]
  {
    assert s[0] in multiset(s);
    assert s[0] in multiset(t);
    var k :| 0 <= k < |t| && t[k] == s[0];
    assert t[0] in multiset(t);
    var m :| 0 <= m < |s| && s[m] == t[0];
    assert LexLe(t[0].date, s[0].date) by {
      if m == 0 { LexLeReflexive(s[0].date); }
    }
    assert LexLe(s[0].date, t[0].date) by {
      if k == 0 { LexLeReflexive(t[0].date); }
    }
    LexLeAntisymmetric(s[0].date, t[0].date);
  }

  /**
   * Two newest-first orderings of the same rows, with at most one row per
   * date, are the same sequence.
   */
  lemma {:induction false} SortedDescIsUnique(s: seq<DailyRecord>, t: seq<DailyRecord>)
    requires SortedByDateDesc(s) && SortedByDateDesc(t)
    requires multiset(s) == multiset(t)
    requires OnePerDate(multiset(s))
    ensures s == t
    decreases |s|
  {
    if s == [] {
      assert |t| == |multiset(t)| == 0;
    } else {
      SortedDescSameHead(s, t);
      SameHeadTails(s, t);
      SortedDescTail(s);
      SortedDescTail(t);
      OnePerDateSub(multiset(s[1..]), multiset(s));
      SortedDescIsUnique(s[1..], t[1..]);
      assert s == [s[0]] + s[1..] && t == [t[0]] + t[1..];
    }
  }

  /**
   * The table fixes the listing: any newest-first arrangement of the user's
   * rows (whatever sort the database runs) is `ListFor(rows, user)`.
   */
  lemma ListingIsDetermined(rows: seq<DailyRecord>, user: UserId, s: seq<DailyRecord>)
    requires WellFormed(rows)
    requires SortedByDateDesc(s)
    requires multiset(s) == multiset(OwnedBy(rows, user))
    ensures s == ListFor(rows, user)
  {
    OwnedRowsOnePerDate(rows, user);
    SortedDescIsUnique(s, ListFor(rows, user));
  }

  // ---------------------------------------------------------------------------
  // Observable effects of the writes on the listing

  /** After an insert, the listing holds the new row once, and it is the user's only row on that date. */
  lemma CreatedRecordListedOnce(rows: seq<DailyRecord>, row: DailyRecord)
    requires WellFormed(rows + [row])
    ensures multiset(ListFor(rows + [row], row.userId))[row] == 1
    ensures forall x :: x in ListFor(rows + [row], row.userId) && x.date == row.date ==> x == row
  {
    var all := rows + [row];
    OwnedRowsOnePerDate(all, row.userId);
    assert row in all by { assert all[|rows|] == row; }
    var m := multiset(OwnedBy(all, row.userId));
    assert multiset(ListFor(all, row.userId)) == m;
    assert m[row] >= 1 by { assert multiset(all)[row] >= 1; }
    forall x | x in ListFor(all, row.userId) && x.date == row.date ensures x == row {
      assert x in m;
    }
  }

  /** After a delete, no listed row of the user has the deleted id. */
  lemma DeletedRecordNotListed(rows: seq<DailyRecord>, id: RecordId, user: UserId)
    ensures forall x :: x in ListFor(DeleteWhere(rows, id, user), user) ==> x.id != id
  {
    var r := DeleteWhere(rows, id, user);
    forall x | x in ListFor(r, user) ensures x.id != id {
      assert x in multiset(ListFor(r, user));
      assert x in OwnedBy(r, user);
    }
  }

  /** An id the user does not own: update and delete change no row and the update returns nothing. */
  lemma ForeignIdUntouched(rows: seq<DailyRecord>, id: RecordId, user: UserId, day: Day, v: FormValues)
    requires forall x :: x in rows ==> !Targets(x, id, user)
    ensures SetWhere(rows, id, user, day, v) == rows
    ensures DeleteWhere(rows, id, user) == rows
    ensures FirstMatch(SetWhere(rows, id, user, day, v), id, user) == None
  {
    var r := SetWhere(rows, id, user, day, v);
    assert forall i :: 0 <= i < |rows| ==> !Targets(rows[i], id, user);
    assert r == rows;
    DeleteNothing(rows, id, user);
  }

  lemma {:induction false} DeleteNothing(rows: seq<DailyRecord>, id: RecordId, user: UserId)
    requires forall x :: x in rows ==> !Targets(x, id, user)
    ensures DeleteWhere(rows, id, user) == rows
    decreases |rows|
  {
    if rows != [] {
      assert forall x :: x in rows[1..] ==> x in rows;
      DeleteNothing(rows[1..], id, user);
      assert rows == [rows[0]] + rows[1..];
    }
  }

  /** The row `updateRecord` returns is the first matching row with the new date and amounts; id and owner stay. */
  lemma {:induction false} UpdatedRowReturned(rows: seq<DailyRecord>, id: RecordId, user: UserId, day: Day, v: FormValues)
    ensures FirstMatch(SetWhere(rows, id, user, day, v), id, user) ==
              if FirstMatch(rows, id, user).Some? then Some(WithValues(FirstMatch(rows, id, user).value, day, v)) else None
    decreases |rows|
  {
    if rows != [] && !Targets(rows[0], id, user) {
      UpdatedRowReturned(rows[1..], id, user, day, v);
    }
  }
}
