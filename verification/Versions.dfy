/** Rows written by compare-and-set on a version, under any interleaving of writers. */
module VersionedRows {
  import opened Basics

  datatype Row<T> = Row(value: T, version: int)

  /** A write that went through: the version it named and what it did to the columns. */
  datatype Write<!T> = Write(submitted: int, change: T -> T)

  /** A bank request on its way: it read the row, compared and set, and read the row again. `position`, `wonAt` and
      `doneAt` count the row's successful writes at each of the three moments. */
  datatype Request<!T> =
    | Reading(id: string, seen: int, position: nat)
    | Writing(id: string, seen: int, position: nat, submitted: int, change: T -> T, won: bool, wonAt: nat)
    | Done(id: string, seen: int, position: nat, submitted: int, change: T -> T, wonAt: nat, returned: Option<Row<T>>, doneAt: nat)

  /** `start` and `log` remember each row as created and its successful writes; ids are never used twice. */
  datatype State<!T> = State(
    rows: map<string, Row<T>>, requests: map<nat, Request<T>>,
    start: map<string, Row<T>>, log: map<string, seq<Write<T>>>)

  datatype Event<!T> =
    | Create(newId: string, row: Row<T>)
    | CompareAndSet(id: string, submitted: int, change: T -> T)
    | ReadRow(request: nat, id: string)
    | WriteRow(request: nat, submitted: int, change: T -> T)
    | RereadRow(request: nat)
    | Delete(id: string)

  ghost predicate Wins<T>(s: State<T>, id: string,
                          submitted: int) { id in s.rows && id in s.log && s.rows[id].version == submitted }

  /** `update ... where id and version`, one statement. */
  ghost function Written<T>(s: State<T>, id: string, submitted: int, change: T -> T): State<T> {
    if !Wins(s, id, submitted) then s
    else s.(rows := s.rows[id := Row(change(s.rows[id].value), submitted + 1)],
            log := s.log[id := s.log[id] + [Write(submitted, change)]])
  }

  /** The protocol's view of a table on its own. */
  ghost function Alone<T>(rows: map<string, Row<T>>): State<T> {
    State(rows, map[], rows, map id | id in rows :: [])
  }

  /** A compare-and-set does to the rows, and answers, what the rows alone decide, whoever else is at work. */
  lemma WrittenAlone<T>(s: State<T>, id: string, submitted: int, change: T -> T)
    requires s.rows.Keys <= s.log.Keys
    ensures Wins(s, id, submitted) <==> Wins(Alone(s.rows), id, submitted)
    ensures Written(s, id, submitted, change).rows == Written(Alone(s.rows), id, submitted, change).rows
  {
  }

  ghost function Step<T>(s: State<T>, e: Event<T>): State<T> {
    match e
    case Create(id, row) =>
      if id in s.log then s else s.(rows := s.rows[id := row], start := s.start[id := row], log := s.log[id := []])
    case CompareAndSet(id, submitted, change) => Written(s, id, submitted, change)
    case ReadRow(request, id) =>
      if request in s.requests || id !in s.rows || id !in s.log then s
      else s.(requests := s.requests[request := Reading(id, s.rows[id].version, |s.log[id]|)])
    case WriteRow(request, submitted, change) =>
      if request !in s.requests || !s.requests[request].Reading? then s
      else
        var r := s.requests[request];
        var position := if r.id in s.log then |s.log[r.id]| else 0;
        Written(s, r.id, submitted, change).(requests :=
          s.requests[request := Writing(r.id, r.seen, r.position, submitted, change, Wins(s, r.id, submitted), position)])
    case RereadRow(request) =>
      if request !in s.requests || !s.requests[request].Writing? || !s.requests[request].won then s
      else
        var r := s.requests[request];
        s.(requests := s.requests[request :=
          Done(r.id, r.seen, r.position, r.submitted, r.change, r.wonAt,
               if r.id in s.rows then Some(s.rows[r.id]) else None, if r.id in s.log then |s.log[r.id]| else 0)])
    case Delete(id) => s.(rows := s.rows - {id})
  }

  ghost function Run<T>(s: State<T>, events: seq<Event<T>>): State<T>
    decreases |events|
  {
    if events == [] then s else Run(Step(s, events[0]), events[1..])
  }

  // ---- The invariant ----------------------------------------------------------------------------------------------

  /** A row after its first writes, one by one. */
  ghost function After<T>(start: Row<T>, writes: seq<Write<T>>): Row<T> {
    if writes == [] then start
    else
      var before := After(start, writes[..|writes| - 1]);
      Row(writes[|writes| - 1].change(before.value), before.version + 1)
  }

  ghost predicate Consecutive<T>(start: Row<T>, writes: seq<Write<T>>) {
    forall k | 0 <= k < |writes| :: writes[k].submitted == start.version + k
  }

  ghost predicate RowsFollowLogs<T>(s: State<T>) {
    && s.start.Keys == s.log.Keys && s.rows.Keys <= s.log.Keys
    && (forall id | id in s.rows :: s.rows[id] == After(s.start[id], s.log[id]))
    && (forall id | id in s.log :: Consecutive(s.start[id], s.log[id]))
  }

  ghost predicate RequestFollows<T>(s: State<T>, r: Request<T>) {
    && r.id in s.log && r.id in s.start && r.position <= |s.log[r.id]| && r.seen == s.start[r.id].version + r.position
    && (r.Writing? && r.won ==> r.position <= r.wonAt < |s.log[r.id]| && s.log[r.id][r.wonAt] == Write(r.submitted, r.change))
    && (r.Done? ==> r.position <= r.wonAt < r.doneAt <= |s.log[r.id]| && s.log[r.id][r.wonAt] == Write(r.submitted, r.change))
    && (r.Done? && r.returned.Some? ==> r.returned.value == After(s.start[r.id], s.log[r.id][..r.doneAt]))
    && (r.Done? && r.returned.None? ==> r.id !in s.rows)
  }

  ghost predicate Inv<T>(s: State<T>) {
    RowsFollowLogs(s) && forall q | q in s.requests :: RequestFollows(s, s.requests[q])
  }

  lemma {:induction false} AfterVersion<T>(start: Row<T>, writes: seq<Write<T>>)
    ensures After(start, writes).version == start.version + |writes|
  {
    if writes != [] { AfterVersion(start, writes[..|writes| - 1]); }
  }

  lemma WrittenFollowsLogs<T>(s: State<T>, id: string, submitted: int, change: T -> T)
    requires RowsFollowLogs(s)
    ensures RowsFollowLogs(Written(s, id, submitted, change))
  {
    if Wins(s, id, submitted) {
      AfterVersion(s.start[id], s.log[id]);
      OneWriteMore(s.start[id], s.log[id], Write(submitted, change));
      var t := Written(s, id, submitted, change);
      hide After, Consecutive, Written, Wins;
      OthersUnwritten(s, id, submitted, change);
      forall i | i in t.rows ensures t.rows[i] == After(t.start[i], t.log[i]) {
        if i != id { assert s.rows[i] == After(s.start[i], s.log[i]); }
      }
      forall i | i in t.log ensures Consecutive(t.start[i], t.log[i]) {
        if i != id { assert Consecutive(s.start[i], s.log[i]); }
      }
    }
  }

  lemma OthersUnwritten<T>(s: State<T>, id: string, submitted: int, change: T -> T)
    requires Wins(s, id, submitted)
    ensures var t := Written(s, id, submitted, change);
      && t.start == s.start && t.rows.Keys == s.rows.Keys && t.log.Keys == s.log.Keys
      && t.rows[id] == Row(change(s.rows[id].value), s.rows[id].version + 1) && t.log[id] == s.log[id] + [Write(submitted, change)]
      && s.rows[id].version == submitted
      && (forall i | i in s.rows && i != id :: t.rows[i] == s.rows[i])
      && (forall i | i in s.log && i != id :: t.log[i] == s.log[i])
  {
  }

  lemma OneWriteMore<T>(start: Row<T>, writes: seq<Write<T>>, w: Write<T>)
    ensures After(start, writes + [w]) == Row(w.change(After(start, writes).value), After(start, writes).version + 1)
    ensures Consecutive(start, writes) && w.submitted == start.version + |writes| ==> Consecutive(start, writes + [w])
  {
    assert (writes + [w])[..|writes|] == writes;
  }

  lemma WrittenKeepsRequest<T>(s: State<T>, id: string, submitted: int, change: T -> T, r: Request<T>)
    requires RequestFollows(s, r)
    ensures RequestFollows(Written(s, id, submitted, change), r)
  {
    hide After;
    if Wins(s, id, submitted) && r.id == id && r.Done? {
      assert (s.log[id] + [Write(submitted, change)])[..r.doneAt] == s.log[id][..r.doneAt];
    }
  }

  lemma WriteKeepsInv<T>(s: State<T>, id: string, submitted: int, change: T -> T)
    requires Inv(s)
    ensures Inv(Written(s, id, submitted, change))
  {
    WrittenFollowsLogs(s, id, submitted, change);
    forall q | q in s.requests ensures RequestFollows(Written(s, id, submitted, change), s.requests[q]) {
      WrittenKeepsRequest(s, id, submitted, change, s.requests[q]);
    }
    hide RequestFollows, RowsFollowLogs;
  }

  lemma CreateFollowsLogs<T>(s: State<T>, id: string, row: Row<T>)
    requires RowsFollowLogs(s) && id !in s.log
    ensures RowsFollowLogs(Step(s, Create(id, row)))
  {
    assert Consecutive(row, []) && After(row, []) == row;
    hide Consecutive, After;
  }

  lemma CreateKeepsInv<T>(s: State<T>, id: string, row: Row<T>)
    requires Inv(s)
    ensures Inv(Step(s, Create(id, row)))
  {
    if id !in s.log {
      CreateFollowsLogs(s, id, row);
      forall q | q in s.requests ensures RequestFollows(Step(s, Create(id, row)), s.requests[q]) {
        assert RequestFollows(s, s.requests[q]);
        hide After, RowsFollowLogs;
      }
      hide RequestFollows, RowsFollowLogs;
    }
  }

  lemma ReadKeepsInv<T>(s: State<T>, request: nat, id: string)
    requires Inv(s)
    ensures Inv(Step(s, ReadRow(request, id)))
  {
    if request !in s.requests && id in s.rows && id in s.log {
      var t := Step(s, ReadRow(request, id));
      AfterVersion(s.start[id], s.log[id]);
      hide After, Consecutive;
      assert RequestFollows(t, t.requests[request]);
      forall q | q in s.requests ensures RequestFollows(t, s.requests[q]) { assert RequestFollows(s, s.requests[q]); }
    }
  }

  lemma RereadKeepsInv<T>(s: State<T>, request: nat)
    requires Inv(s)
    ensures Inv(Step(s, RereadRow(request)))
  {
    if request in s.requests && s.requests[request].Writing? && s.requests[request].won {
      var t, r := Step(s, RereadRow(request)), s.requests[request];
      assert RequestFollows(s, r);
      assert s.log[r.id][..|s.log[r.id]|] == s.log[r.id];
      hide After, Consecutive;
      assert RequestFollows(t, t.requests[request]);
      forall q | q in s.requests && q != request ensures RequestFollows(t, s.requests[q]) { assert RequestFollows(s, s.requests[q]); }
    }
  }

  lemma DeleteKeepsInv<T>(s: State<T>, id: string)
    requires Inv(s)
    ensures Inv(Step(s, Delete(id)))
  {
    var t := Step(s, Delete(id));
    forall q | q in s.requests ensures RequestFollows(t, s.requests[q]) {
      assert RequestFollows(s, s.requests[q]);
      hide After, Consecutive, RowsFollowLogs;
    }
    hide RequestFollows, After, Consecutive;
  }

  /** Requests other than the one writing see only the log grow; the writer remembers whether it won. */
  lemma WriteRowKeepsInv<T>(s: State<T>, request: nat, submitted: int, change: T -> T)
    requires Inv(s)
    ensures Inv(Step(s, WriteRow(request, submitted, change)))
  {
    if request in s.requests && s.requests[request].Reading? {
      var r, t := s.requests[request], Step(s, WriteRow(request, submitted, change));
      var w := Written(s, r.id, submitted, change);
      WriteKeepsInv(s, r.id, submitted, change);
      WriterFollows(s, r, submitted, change);
      hide Written, Wins;
      forall q | q in t.requests ensures RequestFollows(t, t.requests[q]) {
        if q == request { SameLogs(w, t, t.requests[q]); } else { SameLogs(w, t, s.requests[q]); }
        hide RequestFollows, RowsFollowLogs;
      }
      hide RequestFollows, After, Consecutive;
    }
  }

  lemma WriterFollows<T>(s: State<T>, r: Request<T>, submitted: int, change: T -> T)
    requires RequestFollows(s, r) && r.Reading?
    ensures RequestFollows(Written(s, r.id, submitted, change),
                           Writing(r.id, r.seen, r.position, submitted, change, Wins(s, r.id, submitted), |s.log[r.id]|))
  {
    hide After;
  }

  lemma SameLogs<T>(s: State<T>, t: State<T>, r: Request<T>)
    requires RequestFollows(s, r) && t.rows == s.rows && t.log == s.log && t.start == s.start
    ensures RequestFollows(t, r)
  {
  }

  lemma StepKeepsInv<T>(s: State<T>, e: Event<T>)
    requires Inv(s)
    ensures Inv(Step(s, e))
  {
    match e
    case Create(id, row) => CreateKeepsInv(s, id, row);
    case CompareAndSet(id, submitted, change) => WriteKeepsInv(s, id, submitted, change);
    case WriteRow(request, submitted, change) => WriteRowKeepsInv(s, request, submitted, change);
    case ReadRow(request, id) => ReadKeepsInv(s, request, id);
    case RereadRow(request) => RereadKeepsInv(s, request);
    case Delete(id) => DeleteKeepsInv(s, id);
  }

  lemma {:induction false} RunKeepsInv<T>(s: State<T>, events: seq<Event<T>>)
    requires Inv(s)
    ensures Inv(Run(s, events))
    decreases |events|
  {
    hide Inv, Step;
    if events != [] {
      StepKeepsInv(s, events[0]);
      RunKeepsInv(Step(s, events[0]), events[1..]);
    }
  }

  ghost function Empty<T>(): State<T> { State(map[], map[], map[], map[]) }

  lemma InitialInv<T>()
    ensures Inv(Empty<T>())
  {
  }

  // ---- What follows ------------------------------------------------------------------------------------------------

  /** A stored version is the initial one plus the successful writes. */
  lemma VersionCountsWrites<T>(s: State<T>, id: string)
    requires Inv(s) && id in s.rows
    ensures s.rows[id].version == s.start[id].version + |s.log[id]|
  {
    AfterVersion(s.start[id], s.log[id]);
  }

  /** Every successful write applied to exactly the row its version names and left the next version: no write is
      lost and no two successful ones named the same version. */
  lemma NoUpdateIsLost<T>(s: State<T>, id: string, k: nat)
    requires Inv(s) && id in s.log && k < |s.log[id]|
    ensures var before, after, w := After(s.start[id], s.log[id][..k]), After(s.start[id], s.log[id][..k + 1]), s.log[id][k];
      && before.version == w.submitted && after == Row(w.change(before.value), w.submitted + 1)
    ensures forall j | 0 <= j < |s.log[id]| && s.log[id][j].submitted == s.log[id][k].submitted :: j == k
    ensures id in s.rows ==> s.rows[id] == After(s.start[id], s.log[id])
  {
    AfterVersion(s.start[id], s.log[id][..k]);
    assert s.log[id][..k + 1][..k] == s.log[id][..k];
    hide After;
  }

  ghost predicate LogGrows<T>(s: State<T>, t: State<T>) {
    forall id | id in s.log && id in s.start :: id in t.log && id in t.start && t.start[id] == s.start[id] && s.log[id] <= t.log[id]
  }

  lemma StepGrowsLog<T>(s: State<T>, e: Event<T>)
    ensures LogGrows(s, Step(s, e))
  {
  }

  lemma {:induction false} RunGrowsLog<T>(s: State<T>, events: seq<Event<T>>)
    ensures LogGrows(s, Run(s, events))
    decreases |events|
  {
    hide Step;
    if events != [] {
      StepGrowsLog(s, events[0]);
      RunGrowsLog(Step(s, events[0]), events[1..]);
    }
  }

  /** Once a write naming a version succeeded, no write naming it succeeds in any later state. */
  lemma NoSecondWinner<T>(s: State<T>, events: seq<Event<T>>, id: string, k: nat)
    requires Inv(s) && id in s.log && k < |s.log[id]|
    ensures !Wins(Run(s, events), id, s.log[id][k].submitted)
  {
    RunGrowsLog(s, events);
    RunKeepsInv(s, events);
    var t := Run(s, events);
    hide Run;
    if id in t.rows {
      AfterVersion(t.start[id], t.log[id]);
      assert t.log[id][k] == s.log[id][k];
    }
  }

  /** What a bank update answers after its write went through: some state of the row at or after its own, its own
      exactly when no other write came between; nothing, which the service reports as a conflict, only when the
      row was deleted in between. */
  lemma AnswerOfAWinner<T>(s: State<T>, request: nat)
    requires Inv(s) && request in s.requests && s.requests[request].Done?
    ensures var r := s.requests[request];
      && (r.returned.None? ==> r.id !in s.rows)
      && (r.returned.Some? ==>
            && r.returned.value.version == r.submitted + (r.doneAt - r.wonAt)
            && (r.returned.value.version == r.submitted + 1 <==> r.doneAt == r.wonAt + 1)
            && (r.doneAt == r.wonAt + 1 ==>
                  r.returned.value == Row(r.change(After(s.start[r.id], s.log[r.id][..r.wonAt]).value), r.submitted + 1)))
  {
    var r := s.requests[request];
    assert RequestFollows(s, r);
    AfterVersion(s.start[r.id], s.log[r.id][..r.doneAt]);
    assert s.log[r.id][r.wonAt].submitted == s.start[r.id].version + r.wonAt;
    if r.doneAt == r.wonAt + 1 { NoUpdateIsLost(s, r.id, r.wonAt); }
    hide After;
  }

  /** A write can go through and still be answered with nothing: whatever the row and the change, a deletion between
      the write and the read back takes the row away. */
  lemma WinnerMayFindNothing<T>(id: string, row: Row<T>, change: T -> T, request: nat)
    ensures var s := Run(Empty<T>(), [Create(id, row), ReadRow(request, id), WriteRow(request, row.version, change),
                                      Delete(id), RereadRow(request)]);
      && request in s.requests && s.requests[request].Done? && s.requests[request].returned.None?
      && id in s.log && s.log[id] == [Write(row.version, change)]
  {
    var e1, e2, e3 := Create(id, row), ReadRow(request, id), WriteRow(request, row.version, change);
    var e4, e5: Event<T> := Delete(id), RereadRow(request);
    var s1 := Step(Empty<T>(), e1);
    var s2 := Step(s1, e2);
    var s3 := Step(s2, e3);
    var s4 := Step(s3, e4);
    assert [e1, e2, e3, e4, e5] == [e1] + [e2, e3, e4, e5] && [e2, e3, e4, e5] == [e2] + [e3, e4, e5];
    assert [e3, e4, e5] == [e3] + [e4, e5] && [e4, e5] == [e4] + [e5] && [e5] == [e5] + [];
    RunCons(Empty<T>(), e1, [e2, e3, e4, e5]);
    RunCons(s1, e2, [e3, e4, e5]);
    RunCons(s2, e3, [e4, e5]);
    RunCons(s3, e4, [e5]);
    RunCons(s4, e5, []);
  }

  lemma RunCons<T>(s: State<T>, e: Event<T>, rest: seq<Event<T>>)
    ensures Run(s, [e] + rest) == Run(Step(s, e), rest)
  {
    assert ([e] + rest)[1..] == rest;
  }

  /** The version a winner's audit event calls `before` is the one it overwrote exactly when nobody wrote between its
      first read and its write; it is never a later one. */
  lemma AuditedBefore<T>(s: State<T>, request: nat)
    requires Inv(s) && request in s.requests && (s.requests[request].Done? || (s.requests[request].Writing? && s.requests[request].won))
    ensures var r := s.requests[request];
      r.seen <= r.submitted && (r.seen == r.submitted <==> r.wonAt == r.position)
  {
    var r := s.requests[request];
    assert RequestFollows(s, r);
    assert s.log[r.id][r.wonAt].submitted == s.start[r.id].version + r.wonAt;
    hide After;
  }

  /** A logo confirmation writes against the version it read itself: it goes through exactly when the row is still
      there and nobody wrote since. */
  lemma OwnVersionWinsExactly<T>(s: State<T>, request: nat, change: T -> T)
    requires Inv(s) && request in s.requests && s.requests[request].Reading?
    ensures var r := s.requests[request];
            var t := Step(s, WriteRow(request, r.seen, change));
      t.requests[request].won <==> r.id in s.rows && |s.log[r.id]| == r.position
  {
    var r := s.requests[request];
    assert RequestFollows(s, r);
    if r.id in s.rows { VersionCountsWrites(s, r.id); }
    hide After, Consecutive;
  }
}

/** The repositories and the banks service, one call at a time; `VersionedRows` interleaves their statements. */
module VersionedRepositories {
  import opened Basics
  import opened VersionedRows

  // ---- Bank programs ----------------------------------------------------------------------------------------------

  /** A program's columns by name; values stand for whatever the column holds. */
  type Columns = map<string, string>

  /** The columns an update may carry, in the order the source looks at them. */
  function Updatable(): seq<string> {
    ["bankName", "bankId", "friendlyName", "friendlyNameAr", "programNameKey", "programType", "productCategory",
     "active", "isShariaCompliant", "plansSource", "operatorNotes", "operatorTips", "requiredDocuments", "tenor",
     "loanLimits", "pricing", "eligibility", "performanceCriteria", "incomeAssumption", "fees", "valueSources"]
  }

  function Submitted(data: Columns): Columns { map c | c in data && c in Updatable() :: data[c] }

  /** The columns after an update: a submitted updatable column takes its new value, any other keeps its own. */
  function Patched(columns: Columns, data: Columns, updatedBy: string): Columns {
    columns + Submitted(data) + map["updatedBy" := updatedBy]
  }

  class BankProgramRepository {
    var rows: map<string, Row<Columns>>

    constructor (rows: map<string, Row<Columns>>)
      ensures this.rows == rows
    {
      this.rows := rows;
    }

    /** Nothing on a version mismatch or a missing row; else the row as it now is. */
    method UpdateWithVersion(id: string, submittedVersion: int, data: Columns,
                             updatedBy: string) returns (r: Option<Row<Columns>>)
      modifies this
      ensures r.Some? <==> Wins(Alone(old(rows)), id, submittedVersion)
      ensures rows == Written(Alone(old(rows)), id, submittedVersion, (c: Columns) => Patched(c, data, updatedBy)).rows
      ensures r.Some? <==> id in old(rows) && old(rows)[id].version == submittedVersion
      ensures r.None? ==> rows == old(rows)
      ensures r.Some? ==>
        && r.value == Row(Patched(old(rows)[id].value, data, updatedBy), submittedVersion + 1)
        && rows == old(rows)[id := r.value]
    {
      var update := BuildUpdate(data, updatedBy);
      if id !in rows || rows[id].version != submittedVersion {
        return None;
      }
      hide Submitted, Updatable;
      assert rows[id].value + update == Patched(rows[id].value, data, updatedBy);
      rows := rows[id := Row(rows[id].value + update, rows[id].version + 1)];
      r := Some(rows[id]);
    }

    /** The update object, built column by column. */
    method BuildUpdate(data: Columns, updatedBy: string) returns (update: Columns)
      ensures update == Submitted(data) + map["updatedBy" := updatedBy]
    {
      NoWriterColumn();
      hide Updatable;
      var columns := Updatable();
      update := map["updatedBy" := updatedBy];
      for i := 0 to |columns|
        invariant update == (map c | c in data && c in columns[..i] :: data[c]) + map["updatedBy" := updatedBy]
      {
        var c := columns[i];
        assert columns[..i + 1] == columns[..i] + [c];
        if c in data {
          assert c != "updatedBy";
          update := update[c := data[c]];
        }
      }
      assert columns[..|columns|] == columns;
    }

    method ToggleWithVersion(id: string, submittedVersion: int, active: string,
                             updatedBy: string) returns (r: Option<Row<Columns>>)
      modifies this
      ensures r.Some? <==> Wins(Alone(old(rows)), id, submittedVersion)
      ensures rows == Written(Alone(old(rows)), id, submittedVersion, (c: Columns) => c["active" := active]["updatedBy" := updatedBy]).rows
      ensures r.Some? <==> id in old(rows) && old(rows)[id].version == submittedVersion
      ensures r.None? ==> rows == old(rows)
      ensures r.Some? ==>
        && r.value == Row(old(rows)[id].value["active" := active]["updatedBy" := updatedBy], submittedVersion + 1)
        && rows == old(rows)[id := r.value]
    {
      if id !in rows || rows[id].version != submittedVersion {
        return None;
      }
      rows := rows[id := Row(rows[id].value["active" := active]["updatedBy" := updatedBy], rows[id].version + 1)];
      r := Some(rows[id]);
    }
  }

  /** Column by column: a submitted one of those an operator may set is the new value, any other keeps its own. */
  lemma PatchedExactly(columns: Columns, data: Columns, updatedBy: string, c: string)
    ensures var now := Patched(columns, data, updatedBy);
      if c == "updatedBy" then c in now && now[c] == updatedBy
      else if c in data
           && c in ["bankName", "bankId", "friendlyName", "friendlyNameAr", "programNameKey", "programType", "productCategory",
                    "active", "isShariaCompliant", "plansSource", "operatorNotes", "operatorTips", "requiredDocuments", "tenor",
                    "loanLimits", "pricing", "eligibility", "performanceCriteria", "incomeAssumption", "fees", "valueSources"]
      then c in now && now[c] == data[c]
      else (c in now <==> c in columns) && (c in now ==> now[c] == columns[c])
  {
    assert Updatable() ==
      ["bankName", "bankId", "friendlyName", "friendlyNameAr", "programNameKey", "programType", "productCategory",
       "active", "isShariaCompliant", "plansSource", "operatorNotes", "operatorTips", "requiredDocuments", "tenor",
       "loanLimits", "pricing", "eligibility", "performanceCriteria", "incomeAssumption", "fees", "valueSources"];
    hide Updatable;
  }

  lemma NoWriterColumn()
    ensures "updatedBy" !in Updatable()
  {
    var columns := Updatable();
    assert forall i | 0 <= i < |columns| :: columns[i] != "updatedBy";
  }

  // ---- Banks ------------------------------------------------------------------------------------------------------

  datatype Bank = Bank(nameArabic: string, nameEnglish: string, websiteUrl: string, notes: string, displayOrder: int,
                       isActive: bool, isFeatured: bool, logoS3Key: Option<string>, updatedBy: string)

  /** Fields of a request; an absent one is left alone. */
  datatype UpdateBankDto = UpdateBankDto(
    nameArabic: Option<string>, nameEnglish: Option<string>, websiteUrl: Option<string>, notes: Option<string>,
    displayOrder: Option<int>, isActive: Option<bool>, isFeatured: Option<bool>, version: int)

  function Or<T>(o: Option<T>, current: T): T { if o.Some? then o.value else current }

  function Merged(b: Bank, dto: UpdateBankDto, actor: string): Bank {
    Bank(Or(dto.nameArabic, b.nameArabic), Or(dto.nameEnglish, b.nameEnglish), Or(dto.websiteUrl, b.websiteUrl),
         Or(dto.notes, b.notes), Or(dto.displayOrder, b.displayOrder), Or(dto.isActive, b.isActive),
         Or(dto.isFeatured, b.isFeatured), b.logoS3Key, actor)
  }

  datatype AuditEvent =
    | BankUpdated(id: string, before: int, after: int)
    | BankToggled(id: string, isActive: bool)
    | BankLogoUploaded(id: string, key: string)

  datatype Outcome = Saved(row: Row<Bank>) | NotFound | ConflictStaleData(submittedVersion: int, currentVersion: int)

  class BanksRepository {
    var rows: map<string, Row<Bank>>

    constructor (rows: map<string, Row<Bank>>)
      ensures this.rows == rows
    {
      this.rows := rows;
    }

    method FindById(id: string) returns (r: Option<Row<Bank>>)
      ensures r == if id in rows then Some(rows[id]) else None
    {
      r := if id in rows then Some(rows[id]) else None;
    }

    /** A guarded `updateMany`, then a separate read. */
    method Update(id: string, version: int, change: Bank -> Bank) returns (r: Option<Row<Bank>>)
      modifies this
      ensures r.Some? <==> Wins(Alone(old(rows)), id, version)
      ensures rows == Written(Alone(old(rows)), id, version, change).rows
      ensures r.Some? <==> id in old(rows) && old(rows)[id].version == version
      ensures r.None? ==> rows == old(rows)
      ensures r.Some? ==> r.value == Row(change(old(rows)[id].value), version + 1) && rows == old(rows)[id := r.value]
    {
      var count := 0;
      if id in rows && rows[id].version == version {
        rows := rows[id := Row(change(rows[id].value), rows[id].version + 1)];
        count := 1;
      }
      if count == 0 {
        return None;
      }
      r := FindById(id);
    }
  }

  class BanksService {
    const repo: BanksRepository
    var audit: seq<AuditEvent>

    constructor (repo: BanksRepository)
      ensures this.repo == repo && audit == []
    {
      this.repo, audit := repo, [];
    }

    /** What every guarded bank write answers: the row it left and one event, or why nothing changed. */
    twostate predicate Guarded(id: string, submitted: int, next: Bank, event: AuditEvent, r: Outcome)
      requires id in old(repo.rows)
      reads this, repo
    {
      if old(repo.rows)[id].version != submitted then
        r == ConflictStaleData(submitted, old(repo.rows)[id].version) && repo.rows == old(repo.rows) && audit == old(audit)
      else
        r == Saved(Row(next, submitted + 1)) && repo.rows == old(repo.rows)[id := Row(next, submitted + 1)] && audit == old(audit) + [event]
    }

    method Update(id: string, dto: UpdateBankDto, actor: string) returns (r: Outcome)
      modifies this`audit, repo
      ensures id in old(repo.rows) ==>
        Guarded(id, dto.version, Merged(old(repo.rows)[id].value, dto, actor), BankUpdated(id, dto.version, dto.version + 1), r)
      ensures id !in old(repo.rows) ==> r == NotFound && repo.rows == old(repo.rows) && audit == old(audit)
      ensures r.Saved? <==> id in old(repo.rows) && old(repo.rows)[id].version == dto.version
      ensures r.Saved? ==> var was, now := old(repo.rows)[id].value, r.row.value;
        && now.nameArabic == (if dto.nameArabic.Some? then dto.nameArabic.value else was.nameArabic)
        && now.nameEnglish == (if dto.nameEnglish.Some? then dto.nameEnglish.value else was.nameEnglish)
        && now.websiteUrl == (if dto.websiteUrl.Some? then dto.websiteUrl.value else was.websiteUrl)
        && now.notes == (if dto.notes.Some? then dto.notes.value else was.notes)
        && now.displayOrder == (if dto.displayOrder.Some? then dto.displayOrder.value else was.displayOrder)
        && now.isActive == (if dto.isActive.Some? then dto.isActive.value else was.isActive)
        && now.isFeatured == (if dto.isFeatured.Some? then dto.isFeatured.value else was.isFeatured)
        && now.logoS3Key == was.logoS3Key && now.updatedBy == actor
        && r.row.version == dto.version + 1 && repo.rows == old(repo.rows)[id := r.row]
        && audit == old(audit) + [BankUpdated(id, dto.version, dto.version + 1)]
      ensures id in old(repo.rows) && !r.Saved? ==>
        r == ConflictStaleData(dto.version, old(repo.rows)[id].version) && repo.rows == old(repo.rows) && audit == old(audit)
    {
      var existing := repo.FindById(id);
      if existing.None? {
        return NotFound;
      }
      var updated := repo.Update(id, dto.version, b => Merged(b, dto, actor));
      if updated.None? {
        var current := repo.FindById(id);
        return ConflictStaleData(dto.version, if current.Some? then current.value.version else 0);
      }
      audit := audit + [BankUpdated(id, existing.value.version, updated.value.version)];
      return Saved(updated.value);
    }

    method Toggle(id: string, isActive: bool, version: int, actor: string) returns (r: Outcome)
      modifies this`audit, repo
      ensures id in old(repo.rows) ==>
        Guarded(id, version, old(repo.rows)[id].value.(isActive := isActive, updatedBy := actor), BankToggled(id, isActive), r)
      ensures id !in old(repo.rows) ==> r == NotFound && repo.rows == old(repo.rows) && audit == old(audit)
      ensures r.Saved? <==> id in old(repo.rows) && old(repo.rows)[id].version == version
      ensures r.Saved? ==>
        && r.row == Row(old(repo.rows)[id].value.(isActive := isActive, updatedBy := actor), version + 1)
        && repo.rows == old(repo.rows)[id := r.row] && audit == old(audit) + [BankToggled(id, isActive)]
    {
      var existing := repo.FindById(id);
      if existing.None? {
        return NotFound;
      }
      var updated := repo.Update(id, version, (b: Bank) => b.(isActive := isActive, updatedBy := actor));
      if updated.None? {
        var current := repo.FindById(id);
        return ConflictStaleData(version, if current.Some? then current.value.version else 0);
      }
      audit := audit + [BankToggled(id, isActive)];
      return Saved(updated.value);
    }

    /** `seen` is the row as read before the storage was asked for the upload; the write compares against its version,
        whatever happened to the row since. */
    method ConfirmLogoUpload(id: string, seen: Option<Row<Bank>>, key: string, uploaded: bool,
                             actor: string) returns (r: Outcome)
      modifies this`audit, repo
      ensures r == NotFound <==> seen.None? || !uploaded
      ensures r.Saved? <==> seen.Some? && uploaded && id in old(repo.rows) && old(repo.rows)[id].version == seen.value.version
      ensures r.Saved? ==>
        && r.row == Row(old(repo.rows)[id].value.(logoS3Key := Some(key), updatedBy := actor), seen.value.version + 1)
        && repo.rows == old(repo.rows)[id := r.row] && audit == old(audit) + [BankLogoUploaded(id, key)]
      ensures !r.Saved? ==> repo.rows == old(repo.rows) && audit == old(audit)
      ensures r.ConflictStaleData? ==> r == ConflictStaleData(seen.value.version, if id in old(repo.rows) then old(repo.rows)[id].version else 0)
    {
      if seen.None? || !uploaded {
        return NotFound;
      }
      var updated := repo.Update(id, seen.value.version, (b: Bank) => b.(logoS3Key := Some(key), updatedBy := actor));
      if updated.None? {
        var current := repo.FindById(id);
        return ConflictStaleData(seen.value.version, if current.Some? then current.value.version else 0);
      }
      audit := audit + [BankLogoUploaded(id, key)];
      return Saved(updated.value);
    }
  }
}
