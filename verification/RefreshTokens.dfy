/** Refresh-token rotation. The repository and service change one table; the protocol lets any number of
    requests interleave between the steps that the database makes atomic. */
module RefreshTokens {
  import opened Basics

  type Id = string

  datatype Row = Row(userId: string, tokenHash: string, expiresAt: int, revokedAt: Option<int>, rotatedFromId: Option<Id>)

  type Table = map<Id, Row>

  datatype Failure = UniqueViolation | AlreadyRotated | RefreshInvalid

  datatype Result<+T> = Ok(value: T) | Err(error: Failure)

  // ---- One transaction at a time: the table after each repository call ---------------------------

  ghost predicate UniqueHashes(rows: Table) {
    forall i, j | i in rows && j in rows && rows[i].tokenHash == rows[j].tokenHash :: i == j
  }

  ghost predicate CanInsert(rows: Table, id: Id, row: Row) {
    id !in rows && forall i | i in rows :: rows[i].tokenHash != row.tokenHash
  }

  predicate Active(rows: Table, id: Id) { id in rows && rows[id].revokedAt == None }

  /** `updateMany` on active rows: those that match get the time, all others keep theirs. */
  function Revoked(rows: Table, id: Id, now: int): Table {
    if Active(rows, id) then rows[id := rows[id].(revokedAt := Some(now))] else rows
  }

  function RevokedForUser(rows: Table, userId: string, now: int): Table {
    map id | id in rows ::
      if rows[id].userId == userId && rows[id].revokedAt == None then rows[id].(revokedAt := Some(now)) else rows[id]
  }

  /** No row comes or goes, and those outside `touched` are as they were. */
  ghost predicate OthersKept(before: Table, after: Table, touched: set<Id>) {
    after.Keys == before.Keys && forall id | id in before && id !in touched :: after[id] == before[id]
  }

  /** The row is revoked: at its own earlier time if it had one, else now; nothing else of it changes. */
  ghost predicate RevokedOnce(before: Table, after: Table, id: Id, now: int)
    requires id in before && id in after
  {
    && after[id].revokedAt == (if before[id].revokedAt.Some? then before[id].revokedAt else Some(now))
    && after[id].userId == before[id].userId && after[id].tokenHash == before[id].tokenHash
    && after[id].expiresAt == before[id].expiresAt && after[id].rotatedFromId == before[id].rotatedFromId
  }

  lemma RevokedForUserExactly(rows: Table, userId: string, now: int)
    requires UniqueHashes(rows)
    ensures var after := RevokedForUser(rows, userId, now);
      && UniqueHashes(after)
      && OthersKept(rows, after, set id | id in rows && rows[id].userId == userId)
      && forall id | id in rows && rows[id].userId == userId :: RevokedOnce(rows, after, id, now)
  {
  }

  /** The rotation committed only when the new row can be stored and the old one is still active. */
  ghost predicate RotationCommits(rows: Table, oldId: Id, newId: Id, row: Row) {
    CanInsert(rows, newId, row) && Active(rows, oldId)
  }

  ghost function Rotated(rows: Table, oldId: Id, newId: Id, row: Row, now: int): Table {
    Revoked(rows, oldId, now)[newId := row]
  }

  lemma RotatedExactly(rows: Table, oldId: Id, newId: Id, row: Row, now: int)
    requires UniqueHashes(rows) && RotationCommits(rows, oldId, newId, row) && oldId != newId
    ensures var after := Rotated(rows, oldId, newId, row, now);
      && UniqueHashes(after)
      && after.Keys == rows.Keys + {newId} && after[newId] == row
      && oldId in rows && after[oldId] == rows[oldId].(revokedAt := Some(now))
      && forall id | id in rows && id != oldId :: id in after && after[id] == rows[id]
  {
  }

  ghost function FindByHash(rows: Table, tokenHash: string): (r: Option<Id>)
    ensures r.Some? ==> r.value in rows && rows[r.value].tokenHash == tokenHash
    ensures r.None? ==> forall i | i in rows :: rows[i].tokenHash != tokenHash
  {
    if exists i | i in rows :: rows[i].tokenHash == tokenHash then
      var i :| i in rows && rows[i].tokenHash == tokenHash;
      Some(i)
    else None
  }

  class RefreshTokenRepository {
    var rows: Table

    ghost predicate Valid() reads this { UniqueHashes(rows) }

    constructor ()
      ensures Valid() && rows == map[]
    {
      rows := map[];
    }

    method Create(id: Id, row: Row) returns (ok: bool)
      requires Valid()
      modifies this
      ensures Valid()
      ensures ok <==> CanInsert(old(rows), id, row)
      ensures rows == if ok then old(rows)[id := row] else old(rows)
    {
      if id in rows || exists i | i in rows :: rows[i].tokenHash == row.tokenHash {
        return false;
      }
      rows := rows[id := row];
      return true;
    }

    method Issue(id: Id, userId: string, tokenHash: string, expiresAt: int,
                 rotatedFromId: Option<Id>) returns (r: Result<Id>)
      requires Valid()
      modifies this
      ensures Valid()
      ensures var row := Row(userId, tokenHash, expiresAt, None, rotatedFromId);
              if CanInsert(old(rows), id, row) then r == Ok(id) && rows == old(rows)[id := row]
              else r == Err(UniqueViolation) && rows == old(rows)
    {
      var ok := Create(id, Row(userId, tokenHash, expiresAt, None, rotatedFromId));
      return if ok then Ok(id) else Err(UniqueViolation);
    }

    method LookupByHash(tokenHash: string) returns (r: Option<Id>)
      requires Valid()
      ensures r == FindByHash(rows, tokenHash)
    {
      if exists i | i in rows :: rows[i].tokenHash == tokenHash {
        var i :| i in rows && rows[i].tokenHash == tokenHash;
        return Some(i);
      }
      return None;
    }

    /** The guarded update on one id: how many rows it changed. */
    method RevokeIfActive(id: Id, now: int) returns (count: nat)
      requires Valid()
      modifies this
      ensures Valid() && rows == Revoked(old(rows), id, now)
      ensures count == if Active(old(rows), id) then 1 else 0
      ensures OthersKept(old(rows), rows, {id}) && (id in rows ==> RevokedOnce(old(rows), rows, id, now))
    {
      if id in rows && rows[id].revokedAt == None {
        rows := rows[id := rows[id].(revokedAt := Some(now))];
        return 1;
      }
      return 0;
    }

    /** Insert first, then revoke the old row if it is still active; undo the insert when it is not. The
        database draws the new id, so it is never the id the caller names. */
    method Rotate(oldId: Id, newId: Id, userId: string, tokenHash: string, expiresAt: int,
                  now: int) returns (r: Result<Id>)
      requires Valid() && oldId != newId
      modifies this
      ensures Valid()
      ensures var row := Row(userId, tokenHash, expiresAt, None, Some(oldId));
              if RotationCommits(old(rows), oldId, newId, row)
              then r == Ok(newId) && rows == Rotated(old(rows), oldId, newId, row, now)
              else r == Err(if CanInsert(old(rows), newId, row) then AlreadyRotated else UniqueViolation) && rows == old(rows)
      ensures r.Ok? ==>
        && rows.Keys == old(rows).Keys + {newId} && rows[newId] == Row(userId, tokenHash, expiresAt, None, Some(oldId))
        && oldId in old(rows) && rows[oldId] == old(rows)[oldId].(revokedAt := Some(now))
        && forall id | id in old(rows) && id != oldId :: id in rows && rows[id] == old(rows)[id]
    {
      var before := rows;
      var inserted := Create(newId, Row(userId, tokenHash, expiresAt, None, Some(oldId)));
      if !inserted {
        return Err(UniqueViolation);
      }
      var count := RevokeIfActive(oldId, now);
      if count != 1 {
        rows := before;
        return Err(AlreadyRotated);
      }
      RotatedExactly(before, oldId, newId, Row(userId, tokenHash, expiresAt, None, Some(oldId)), now);
      hide UniqueHashes, CanInsert, OthersKept, RevokedOnce;
      return Ok(newId);
    }

    method Revoke(id: Id, now: int)
      requires Valid()
      modifies this
      ensures Valid() && rows == Revoked(old(rows), id, now)
      ensures OthersKept(old(rows), rows, {id}) && (id in rows ==> RevokedOnce(old(rows), rows, id, now))
    {
      var _ := RevokeIfActive(id, now);
    }

    /** Every active session of the user ends; nobody else's does. */
    method RevokeAllForUser(userId: string, now: int)
      requires Valid()
      modifies this
      ensures Valid() && rows == RevokedForUser(old(rows), userId, now)
      ensures OthersKept(old(rows), rows, set id | id in old(rows) && old(rows)[id].userId == userId)
      ensures forall id | id in rows && old(rows)[id].userId == userId :: RevokedOnce(old(rows), rows, id, now)
    {
      RevokedForUserExactly(rows, userId, now);
      hide OthersKept, RevokedOnce, UniqueHashes;
      rows := map id | id in rows ::
        if rows[id].userId == userId && rows[id].revokedAt == None then rows[id].(revokedAt := Some(now)) else rows[id];
    }
  }

  // ---- The service: several calls, one request ------------------------------------------------------

  /** The row a refresh may rotate: known, unrevoked, unexpired. */
  ghost predicate Refreshable(rows: Table, tokenHash: string, now: int) {
    var found := FindByHash(rows, tokenHash);
    found.Some? && rows[found.value].revokedAt == None && now < rows[found.value].expiresAt
  }

  class RefreshTokenService {
    const repo: RefreshTokenRepository

    constructor (repo: RefreshTokenRepository)
      ensures this.repo == repo
    {
      this.repo := repo;
    }

    /** `verifyAndRotate` when nothing else touches the table meanwhile: it succeeds exactly for a
        refreshable token, and then the new row is active, the old one is not, and the user is the same. */
    method VerifyAndRotate(tokenHash: string, newId: Id, nextHash: string, expiresAt: int,
                           now: int) returns (r: Result<(Id, string)>)
      requires repo.Valid() && newId !in repo.rows
      modifies repo
      ensures repo.Valid()
      ensures r.Ok? <==>
        && (exists i :: i in old(repo.rows) && old(repo.rows)[i].tokenHash == tokenHash
              && old(repo.rows)[i].revokedAt == None && old(repo.rows)[i].expiresAt > now)
        && (forall i | i in old(repo.rows) :: old(repo.rows)[i].tokenHash != nextHash)
      ensures r.Err? ==> repo.rows == old(repo.rows)
      ensures r == Err(RefreshInvalid) <==> !exists i :: i in old(repo.rows) && old(repo.rows)[i].tokenHash == tokenHash
                                                && old(repo.rows)[i].revokedAt == None && old(repo.rows)[i].expiresAt > now
      ensures forall i | r.Ok? && i in old(repo.rows) ::
        if old(repo.rows)[i].tokenHash != tokenHash then i in repo.rows && repo.rows[i] == old(repo.rows)[i]
        else i in repo.rows && repo.rows[i] == old(repo.rows)[i].(revokedAt := Some(now))
             && newId in repo.rows && repo.rows[newId] == Row(old(repo.rows)[i].userId, nextHash, expiresAt, None, Some(i))
      ensures r.Ok? ==>
        var oldId := FindByHash(old(repo.rows), tokenHash).value;
        var userId := old(repo.rows)[oldId].userId;
        && r.value == (newId, userId)
        && repo.rows == Rotated(old(repo.rows), oldId, newId, Row(userId, nextHash, expiresAt, None, Some(oldId)), now)
        && Active(repo.rows, newId) && !Active(repo.rows, oldId)
    {
      var existing := repo.LookupByHash(tokenHash);
      if existing == None {
        return Err(RefreshInvalid);
      }
      var row := repo.rows[existing.value];
      if row.revokedAt != None || row.expiresAt <= now {
        return Err(RefreshInvalid);
      }
      var rotated := repo.Rotate(existing.value, newId, row.userId, nextHash, expiresAt, now);
      match rotated
      case Ok(id) => return Ok((id, row.userId));
      case Err(AlreadyRotated) => return Err(RefreshInvalid);
      case Err(e) => return Err(e);
    }

    method RevokeByRawCookie(tokenHash: string, now: int)
      requires repo.Valid()
      modifies repo
      ensures repo.Valid()
      ensures var found := FindByHash(old(repo.rows), tokenHash);
              repo.rows == if found.Some? then Revoked(old(repo.rows), found.value, now) else old(repo.rows)
      ensures repo.rows.Keys == old(repo.rows).Keys
      ensures forall i | i in repo.rows :: if old(repo.rows)[i].tokenHash == tokenHash then RevokedOnce(old(repo.rows), repo.rows, i, now)
                                           else repo.rows[i] == old(repo.rows)[i]
    {
      var row := repo.LookupByHash(tokenHash);
      if row.Some? && repo.rows[row.value].revokedAt == None {
        repo.Revoke(row.value, now);
      }
    }
  }
}

/** Interleavings of refresh-token requests, and what every reachable table satisfies. */
module RefreshProtocol {
  import opened Basics
  import opened RefreshTokens

  /** What a request remembers between its lookup and its transaction. */
  datatype Pending = ToRotate(oldId: Id, userId: string) | ToRevoke(id: Id)

  datatype State = State(rows: Table, pending: map<nat, Pending>)

  /** One atomic step; `p` names the request taking it. */
  datatype Event =
    | IssueTx(id: Id, userId: string, tokenHash: string, expiresAt: int, rotatedFromId: Option<Id>)
    | LookupToRotate(p: nat, tokenHash: string, now: int)
    | RotateTx(p: nat, newId: Id, tokenHash: string, expiresAt: int, now: int)
    | LookupToRevoke(p: nat, tokenHash: string)
    | RevokeTx(p: nat, now: int)
    | RevokeAllTx(userId: string, now: int)

  ghost function Step(s: State, e: Event): State {
    match e
    case IssueTx(id, userId, tokenHash, expiresAt, from) =>
      var row := Row(userId, tokenHash, expiresAt, None, from);
      if CanInsert(s.rows, id, row) then s.(rows := s.rows[id := row]) else s
    case LookupToRotate(p, tokenHash, now) =>
      if Refreshable(s.rows, tokenHash, now) then
        var id := FindByHash(s.rows, tokenHash).value;
        s.(pending := s.pending[p := ToRotate(id, s.rows[id].userId)])
      else s.(pending := s.pending - {p})
    case RotateTx(p, newId, tokenHash, expiresAt, now) =>
      if p in s.pending && s.pending[p].ToRotate? then
        var req := s.pending[p];
        var row := Row(req.userId, tokenHash, expiresAt, None, Some(req.oldId));
        State(if RotationCommits(s.rows, req.oldId, newId, row) then Rotated(s.rows, req.oldId, newId, row, now) else s.rows,
              s.pending - {p})
      else s
    case LookupToRevoke(p, tokenHash) =>
      var found := FindByHash(s.rows, tokenHash);
      if found.Some? && s.rows[found.value].revokedAt == None then s.(pending := s.pending[p := ToRevoke(found.value)])
      else s.(pending := s.pending - {p})
    case RevokeTx(p, now) =>
      if p in s.pending && s.pending[p].ToRevoke? then State(Revoked(s.rows, s.pending[p].id, now), s.pending - {p}) else s
    case RevokeAllTx(userId, now) => s.(rows := RevokedForUser(s.rows, userId, now))
  }

  ghost function Run(s: State, events: seq<Event>): State
    decreases |events|
  {
    if events == [] then s else Run(Step(s, events[0]), events[1..])
  }

  const START := State(map[], map[])

  /** Both callers of `issueForUser` leave the predecessor out. */
  predicate IssuesStartChains(events: seq<Event>) {
    forall e | e in events && e.IssueTx? :: e.rotatedFromId == None
  }

  // ---- The table invariant -----------------------------------------------------------------------

  ghost predicate Succeeds(rows: Table, a: Id, b: Id) {
    b in rows && rows[b].rotatedFromId == Some(a)
  }

  ghost predicate LinksSound(rows: Table) {
    forall a, b | Succeeds(rows, a, b) :: a in rows && rows[a].revokedAt != None && rows[a].userId == rows[b].userId
  }

  ghost predicate OneSuccessor(rows: Table) {
    forall a, b, c | Succeeds(rows, a, b) && Succeeds(rows, a, c) :: b == c
  }

  ghost predicate TableInv(rows: Table) { UniqueHashes(rows) && LinksSound(rows) && OneSuccessor(rows) }

  ghost predicate PendingSound(s: State) {
    forall p | p in s.pending && s.pending[p].ToRotate? ::
      s.pending[p].oldId in s.rows && s.rows[s.pending[p].oldId].userId == s.pending[p].userId
  }

  ghost predicate Inv(s: State) { TableInv(s.rows) && PendingSound(s) }

  /** The same rows, some of them now revoked. */
  ghost predicate OnlyRevoked(before: Table, after: Table) {
    && after.Keys == before.Keys
    && forall id | id in before ::
         after[id] == before[id] || (before[id].revokedAt == None && after[id] == before[id].(revokedAt := after[id].revokedAt))
  }

  lemma RevokeKeepsTable(before: Table, after: Table)
    requires TableInv(before) && OnlyRevoked(before, after)
    ensures TableInv(after)
  {
    assert forall a, b :: Succeeds(after, a, b) ==> Succeeds(before, a, b);
  }

  /** A new row is sound exactly when it starts a chain or continues a revoked, unsucceeded one of the
      same user; `issue` itself checks none of that. */
  lemma InsertKeepsTableExactly(rows: Table, id: Id, row: Row)
    requires TableInv(rows) && CanInsert(rows, id, row)
    ensures TableInv(rows[id := row]) <==>
      match row.rotatedFromId
      case None => true
      case Some(a) => if a == id then row.revokedAt != None && !exists b :: Succeeds(rows, a, b)
                      else a in rows && rows[a].revokedAt != None && rows[a].userId == row.userId && !exists b :: Succeeds(rows, a, b)
  {
    var after := rows[id := row];
    assert forall a, b :: Succeeds(after, a, b) <==> (b != id && Succeeds(rows, a, b)) || (b == id && row.rotatedFromId == Some(a));
    if row.rotatedFromId.Some? {
      var a := row.rotatedFromId.value;
      assert Succeeds(after, a, id);
      if b :| Succeeds(rows, a, b) {
        assert Succeeds(after, a, b) && b != id;
        assert !OneSuccessor(after);
      }
    }
  }

  lemma RotationKeepsTable(rows: Table, oldId: Id, newId: Id, row: Row, now: int)
    requires TableInv(rows) && RotationCommits(rows, oldId, newId, row)
    requires row.rotatedFromId == Some(oldId) && row.userId == rows[oldId].userId
    ensures TableInv(Rotated(rows, oldId, newId, row, now))
  {
    var between := Revoked(rows, oldId, now);
    RevokeKeepsTable(rows, between);
    assert forall b :: Succeeds(between, oldId, b) ==> Succeeds(rows, oldId, b);
    InsertKeepsTableExactly(between, newId, row);
  }

  lemma StepKeepsInv(s: State, e: Event)
    requires Inv(s) && (e.IssueTx? ==> e.rotatedFromId == None)
    ensures Inv(Step(s, e))
  {
    match e
    case IssueTx(id, userId, tokenHash, expiresAt, from) =>
      var row := Row(userId, tokenHash, expiresAt, None, from);
      if CanInsert(s.rows, id, row) { InsertKeepsTableExactly(s.rows, id, row); }
    case RotateTx(p, newId, tokenHash, expiresAt, now) =>
      if p in s.pending && s.pending[p].ToRotate? {
        var req := s.pending[p];
        var row := Row(req.userId, tokenHash, expiresAt, None, Some(req.oldId));
        if RotationCommits(s.rows, req.oldId, newId, row) { RotationKeepsTable(s.rows, req.oldId, newId, row, now); }
      }
    case RevokeTx(p, now) =>
      if p in s.pending && s.pending[p].ToRevoke? {
        RevokeKeepsTable(s.rows, Revoked(s.rows, s.pending[p].id, now));
      }
    case RevokeAllTx(userId, now) =>
      RevokeKeepsTable(s.rows, RevokedForUser(s.rows, userId, now));
    case LookupToRotate(_, _, _) =>
    case LookupToRevoke(_, _) =>
  }

  lemma {:induction false} RunKeepsInv(s: State, events: seq<Event>)
    requires Inv(s) && IssuesStartChains(events)
    ensures Inv(Run(s, events))
    decreases |events|
  {
    if events != [] {
      StepKeepsInv(s, events[0]);
      RunKeepsInv(Step(s, events[0]), events[1..]);
    }
  }

  /** Every reachable table: one successor at most, successors only of revoked tokens, one user a chain. */
  lemma ReachableTables(events: seq<Event>)
    requires IssuesStartChains(events)
    ensures TableInv(Run(START, events).rows)
  {
    RunKeepsInv(START, events);
  }

  // ---- What a lookup lets through -------------------------------------------------------------------

  /** After its lookup a request is about to rotate exactly when some token with that hash is neither revoked nor
      expired then, and what it is about to rotate is that token, for that token's user. */
  lemma LookupDecides(s: State, p: nat, tokenHash: string, now: int)
    requires UniqueHashes(s.rows)
    ensures var t := Step(s, LookupToRotate(p, tokenHash, now));
      && t.rows == s.rows && t.pending - {p} == s.pending - {p}
      && (p in t.pending <==> exists i :: i in s.rows && s.rows[i].tokenHash == tokenHash && s.rows[i].revokedAt == None
                                          && s.rows[i].expiresAt > now)
      && forall i | i in s.rows && s.rows[i].tokenHash == tokenHash && p in t.pending :: t.pending[p] == ToRotate(i, s.rows[i].userId)
  {
  }

  lemma {:induction false} RunNext(s: State, events: seq<Event>, e: Event)
    ensures Run(s, events + [e]) == Step(Run(s, events), e)
    decreases |events|
  {
    hide Step;
    if events == [] {
      assert [e][1..] == [] && [] + [e] == [e];
      assert Run(Step(s, e), []) == Step(s, e);
    } else {
      assert (events + [e])[0] == events[0] && (events + [e])[1..] == events[1..] + [e];
      RunNext(Step(s, events[0]), events[1..], e);
    }
  }

  /** A lookup of the run by request `p` that found the token before it expired. */
  ghost predicate FoundLive(events: seq<Event>, p: nat, token: Row) {
    exists i :: 0 <= i < |events| && events[i].LookupToRotate? && events[i].p == p
                && events[i].tokenHash == token.tokenHash && events[i].now < token.expiresAt
  }

  ghost predicate RotationsFoundLive(s: State, events: seq<Event>) {
    forall p | p in s.pending && s.pending[p].ToRotate? ::
      s.pending[p].oldId in s.rows && FoundLive(events, p, s.rows[s.pending[p].oldId])
  }

  lemma StepKeepsFound(s: State, events: seq<Event>, e: Event)
    requires RotationsFoundLive(s, events)
    ensures RotationsFoundLive(Step(s, e), events + [e])
  {
    var t, longer := Step(s, e), events + [e];
    StepExtends(s, e);
    forall p | p in t.pending && t.pending[p].ToRotate?
      ensures t.pending[p].oldId in t.rows && FoundLive(longer, p, t.rows[t.pending[p].oldId])
    {
      if e.LookupToRotate? && e.p == p {
        assert longer[|events|] == e;
      } else {
        assert p in s.pending && t.pending[p] == s.pending[p];
        var i :| 0 <= i < |events| && events[i].LookupToRotate? && events[i].p == p
                 && events[i].tokenHash == s.rows[s.pending[p].oldId].tokenHash && events[i].now < s.rows[s.pending[p].oldId].expiresAt;
        assert longer[i] == events[i];
      }
    }
  }

  lemma {:induction false} RunKeepsFound(events: seq<Event>)
    ensures RotationsFoundLive(Run(START, events), events)
  {
    if events != [] {
      var front, last := events[..|events| - 1], events[|events| - 1];
      RunKeepsFound(front);
      StepKeepsFound(Run(START, front), front, last);
      RunNext(START, front, last);
      assert events == front + [last];
      hide Step, Run, RotationsFoundLive;
    }
  }

  /** Whatever else is at work, a rotation that changes anything was let through by a lookup of the same request that
      found its token before it expired, and the token is still unrevoked when it commits. */
  lemma NoExpiredTokenIsRotated(events: seq<Event>, p: nat, newId: Id, tokenHash: string, expiresAt: int, now: int)
    requires IssuesStartChains(events)
    ensures var s := Run(START, events);
            var t := Step(s, RotateTx(p, newId, tokenHash, expiresAt, now));
      t.rows != s.rows ==>
        && p in s.pending && s.pending[p].ToRotate? && s.pending[p].oldId in s.rows
        && var token := s.rows[s.pending[p].oldId];
        && token.revokedAt == None
        && t.rows == s.rows[s.pending[p].oldId := token.(revokedAt := Some(now))]
                           [newId := Row(token.userId, tokenHash, expiresAt, None, Some(s.pending[p].oldId))]
        && exists i :: 0 <= i < |events| && events[i].LookupToRotate? && events[i].p == p
                       && events[i].tokenHash == token.tokenHash && events[i].now < token.expiresAt
  {
    var s := Run(START, events);
    var t := Step(s, RotateTx(p, newId, tokenHash, expiresAt, now));
    RunKeepsInv(START, events);
    RunKeepsFound(events);
    hide Run, TableInv, CanInsert;
    if t.rows != s.rows { assert FoundLive(events, p, s.rows[s.pending[p].oldId]); }
  }

  /** A refresh or a logout whose two steps nothing comes between does to the table what the service does. */
  lemma AloneIsTheService(s: State, p: nat, tokenHash: string, newId: Id, nextHash: string, expiresAt: int, now: int)
    requires UniqueHashes(s.rows) && newId !in s.rows && forall i | i in s.rows :: s.rows[i].tokenHash != nextHash
    ensures var t := Step(Step(s, LookupToRotate(p, tokenHash, now)), RotateTx(p, newId, nextHash, expiresAt, now));
            var u := Step(Step(s, LookupToRevoke(p, tokenHash)), RevokeTx(p, now));
      && (forall i | i in s.rows && s.rows[i].tokenHash == tokenHash ::
            && t.rows == (if s.rows[i].revokedAt == None && s.rows[i].expiresAt > now
                          then s.rows[i := s.rows[i].(revokedAt := Some(now))][newId := Row(s.rows[i].userId, nextHash, expiresAt, None, Some(i))]
                          else s.rows)
            && u.rows == (if s.rows[i].revokedAt == None then s.rows[i := s.rows[i].(revokedAt := Some(now))] else s.rows))
      && ((forall i | i in s.rows :: s.rows[i].tokenHash != tokenHash) ==> t.rows == s.rows && u.rows == s.rows)
  {
  }

  /** A revoke-all ends the sessions of its user and of nobody else. */
  lemma RevokeAllSparesOthers(s: State, userId: string, now: int, id: Id)
    requires id in s.rows
    ensures var t := Step(s, RevokeAllTx(userId, now));
      && t.rows.Keys == s.rows.Keys && t.pending == s.pending
      && t.rows[id] == if s.rows[id].userId == userId && s.rows[id].revokedAt == None then s.rows[id].(revokedAt := Some(now)) else s.rows[id]
  {
  }

  // ---- Chains ---------------------------------------------------------------------------------------

  /** Tokens each rotated from the one before it. */
  ghost predicate Chain(rows: Table, path: seq<Id>) {
    && path != []
    && path[0] in rows
    && forall k :: 0 < k < |path| ==> Succeeds(rows, path[k - 1], path[k])
  }

  ghost predicate Descends(rows: Table, root: Id, id: Id) {
    exists path :: Chain(rows, path) && path[0] == root && path[|path| - 1] == id
  }

  lemma {:induction false} ChainKeepsUser(rows: Table, path: seq<Id>)
    requires TableInv(rows) && Chain(rows, path)
    ensures forall k :: 0 <= k < |path| ==> path[k] in rows && rows[path[k]].userId == rows[path[0]].userId
    ensures forall k :: 0 <= k < |path| - 1 ==> !Active(rows, path[k])
  {
    if |path| > 1 {
      var shorter := path[..|path| - 1];
      ChainKeepsUser(rows, shorter);
      assert Succeeds(rows, path[|path| - 2], path[|path| - 1]);
      assert forall k :: 0 <= k < |shorter| ==> shorter[k] == path[k];
    }
  }

  /** No chain forks: two chains from one token never part. */
  lemma {:induction false} ChainsAreLinear(rows: Table, p: seq<Id>, q: seq<Id>)
    requires TableInv(rows) && Chain(rows, p) && Chain(rows, q) && p[0] == q[0] && |p| <= |q|
    ensures p <= q
  {
    if |p| > 1 {
      var p', q' := p[..|p| - 1], q[..|q| - 1];
      var last := |p| - 1;
      ChainsAreLinear(rows, p', q[..last]);
      assert Succeeds(rows, p[last - 1], p[last]) && Succeeds(rows, q[last - 1], q[last]);
      assert p[last - 1] == p'[last - 1] == q[last - 1];
    }
  }

  /** Every chain of every reachable table has at most one active token, and only its tip can be it. */
  lemma OneActivePerChain(events: seq<Event>, root: Id, a: Id, b: Id)
    requires IssuesStartChains(events)
    ensures var rows := Run(START, events).rows;
            Descends(rows, root, a) && Descends(rows, root, b) && Active(rows, a) && Active(rows, b)
            ==> a == b && rows[a].userId == rows[root].userId && !exists c :: Succeeds(rows, a, c)
  {
    RunKeepsInv(START, events);
    var rows := Run(START, events).rows;
    if Descends(rows, root, a) && Descends(rows, root, b) && Active(rows, a) && Active(rows, b) {
      var p :| Chain(rows, p) && p[0] == root && p[|p| - 1] == a;
      var q :| Chain(rows, q) && q[0] == root && q[|q| - 1] == b;
      ChainKeepsUser(rows, p);
      ChainKeepsUser(rows, q);
      if |p| <= |q| { ChainsAreLinear(rows, p, q); } else { ChainsAreLinear(rows, q, p); }
    }
  }

  // ---- Revocation is final -----------------------------------------------------------------------------

  /** Everything stored stays stored, and a revocation time once written stays as written. */
  ghost predicate Extends(before: Table, after: Table) {
    forall id | id in before ::
      && id in after
      && after[id] == before[id].(revokedAt := after[id].revokedAt)
      && (before[id].revokedAt != None ==> after[id] == before[id])
  }

  lemma StepExtends(s: State, e: Event)
    ensures Extends(s.rows, Step(s, e).rows)
  {}

  lemma {:induction false} RunExtends(s: State, events: seq<Event>)
    ensures Extends(s.rows, Run(s, events).rows)
    decreases |events|
  {
    if events != [] {
      var next := Step(s, events[0]);
      StepExtends(s, events[0]);
      hide Step;
      RunExtends(next, events[1..]);
    }
  }

  /** A set of revoked tokens that no stored token outside it was rotated from. */
  ghost predicate Buried(rows: Table, dead: set<Id>) {
    && (forall id | id in dead :: id in rows && rows[id].revokedAt != None)
    && (forall a, b | a in dead && Succeeds(rows, a, b) :: b in dead)
  }

  lemma {:induction false} BuriedForever(s: State, events: seq<Event>, dead: set<Id>)
    requires Buried(s.rows, dead) && IssuesStartChains(events)
    ensures Buried(Run(s, events).rows, dead)
    decreases |events|
  {
    if events != [] {
      var next := Step(s, events[0]);
      assert forall a, b | a in dead && Succeeds(next.rows, a, b) :: Succeeds(s.rows, a, b);
      BuriedForever(next, events[1..], dead);
    }
  }

  lemma {:induction false} BuriedDescendants(rows: Table, dead: set<Id>, path: seq<Id>)
    requires Buried(rows, dead) && Chain(rows, path) && path[0] in dead
    ensures path[|path| - 1] in dead
  {
    if |path| > 1 {
      BuriedDescendants(rows, dead, path[..|path| - 1]);
      assert Succeeds(rows, path[|path| - 2], path[|path| - 1]);
    }
  }

  lemma NoLivingDescendant(rows: Table, dead: set<Id>, root: Id, id: Id)
    requires Buried(rows, dead) && root in dead
    ensures Descends(rows, root, id) ==> !Active(rows, id)
  {
    if Descends(rows, root, id) {
      var path :| Chain(rows, path) && path[0] == root && path[|path| - 1] == id;
      BuriedDescendants(rows, dead, path);
    }
  }

  /** A revoke-all ends every session the user had, for good: rotations that were already past their
      lookup come to nothing, and only a later issue can start a new chain. */
  lemma RevokeAllIsFinal(before: seq<Event>, userId: string, now: int, later: seq<Event>, root: Id, id: Id)
    requires IssuesStartChains(before) && IssuesStartChains(later)
    requires var rows := Run(START, before).rows; root in rows && rows[root].userId == userId
    ensures var rows := Run(Step(Run(START, before), RevokeAllTx(userId, now)), later).rows;
            Descends(rows, root, id) ==> !Active(rows, id)
  {
    var s := Run(START, before);
    RunKeepsInv(START, before);
    var dead := RevokeAllBuries(s, userId, now);
    var t := Step(s, RevokeAllTx(userId, now));
    hide Step;
    BuriedForever(t, later, dead);
    NoLivingDescendant(Run(t, later).rows, dead, root, id);
  }

  lemma RevokeAllBuries(s: State, userId: string, now: int) returns (dead: set<Id>)
    requires Inv(s)
    ensures dead == set i | i in s.rows && s.rows[i].userId == userId
    ensures Buried(Step(s, RevokeAllTx(userId, now)).rows, dead)
  {
    dead := set i | i in s.rows && s.rows[i].userId == userId;
    var after := Step(s, RevokeAllTx(userId, now)).rows;
    assert forall a, b :: Succeeds(after, a, b) ==> Succeeds(s.rows, a, b);
  }

  lemma RevokeBuries(s: State, p: nat, now: int)
    requires Inv(s) && p in s.pending && s.pending[p].ToRevoke? && Active(s.rows, s.pending[p].id)
    ensures Buried(Step(s, RevokeTx(p, now)).rows, {s.pending[p].id})
  {
    var after := Step(s, RevokeTx(p, now)).rows;
    assert forall a, b :: Succeeds(after, a, b) ==> Succeeds(s.rows, a, b);
  }

  lemma LateRevokeChangesNothing(s: State, p: nat, now: int)
    requires p in s.pending && s.pending[p].ToRevoke? && !Active(s.rows, s.pending[p].id)
    ensures Step(s, RevokeTx(p, now)).rows == s.rows
  {}

  /** A logout that still finds its token active at commit ends that chain for good; one that finds it revoked
      leaves every row as it is. */
  lemma RevokeIsFinalIfActive(before: seq<Event>, p: nat, now: int, later: seq<Event>, id: Id)
    requires IssuesStartChains(before) && IssuesStartChains(later)
    requires var s := Run(START, before); p in s.pending && s.pending[p].ToRevoke?
    ensures var s := Run(START, before);
            var target := s.pending[p].id;
            var t := Step(s, RevokeTx(p, now));
            var rows := Run(t, later).rows;
            if Active(s.rows, target) then Descends(rows, target, id) ==> !Active(rows, id) else t.rows == s.rows
  {
    var s := Run(START, before);
    RunKeepsInv(START, before);
    var target := s.pending[p].id;
    var t := Step(s, RevokeTx(p, now));
    if Active(s.rows, target) {
      RevokeBuries(s, p, now);
      hide Step;
      BuriedForever(t, later, {target});
      NoLivingDescendant(Run(t, later).rows, {target}, target, id);
    } else {
      LateRevokeChangesNothing(s, p, now);
    }
  }

  /** A rotation and a logout that both found the token active: when the rotation commits first, the logout changes
      nothing and the session goes on in the new token. */
  lemma RotationOutrunsLogout(s: State, p: nat, q: nat, newId: Id, tokenHash: string, expiresAt: int, now: int, later: int)
    requires p != q && p in s.pending && q in s.pending && s.pending[p].ToRotate? && s.pending[q].ToRevoke?
    requires s.pending[p].oldId == s.pending[q].id && Active(s.rows, s.pending[p].oldId)
    requires CanInsert(s.rows, newId, Row(s.pending[p].userId, tokenHash, expiresAt, None, Some(s.pending[p].oldId)))
    ensures var rotated := Step(s, RotateTx(p, newId, tokenHash, expiresAt, now));
            var after := Step(rotated, RevokeTx(q, later));
      && after.rows == rotated.rows
      && Active(after.rows, newId) && Descends(after.rows, s.pending[q].id, newId)
  {
    var first := s.pending[q].id;
    var rotated := Step(s, RotateTx(p, newId, tokenHash, expiresAt, now));
    var after := Step(rotated, RevokeTx(q, later));
    LateRevokeChangesNothing(rotated, q, later);
    var path := [first, newId];
    assert Succeeds(after.rows, first, newId);
    assert Chain(after.rows, path);
  }

  lemma RunCons(s: State, e: Event, rest: seq<Event>)
    ensures Run(s, [e] + rest) == Run(Step(s, e), rest)
  {
    assert ([e] + rest)[1..] == rest;
  }

  /** An issue and two lookups from an empty table reach that race. */
  lemma LogoutCanComeTooLate(userId: string, a: Id, b: Id, hashA: string, hashB: string, expiresAt: int, now: int)
    requires a != b && hashA != hashB && now < expiresAt
    ensures var events := [IssueTx(a, userId, hashA, expiresAt, None), LookupToRotate(0, hashA, now), LookupToRevoke(1, hashA)];
            var s := Run(START, events);
            var rotated := Step(s, RotateTx(0, b, hashB, expiresAt, now));
            var after := Step(rotated, RevokeTx(1, now));
      && IssuesStartChains(events)
      && 1 in s.pending && s.pending[1] == ToRevoke(a)
      && Active(after.rows, b) && Descends(after.rows, a, b)
  {
    var issue, rotate, revoke := IssueTx(a, userId, hashA, expiresAt, None), LookupToRotate(0, hashA, now), LookupToRevoke(1, hashA);
    var s1 := Step(START, issue);
    assert s1.rows == map[a := Row(userId, hashA, expiresAt, None, None)];
    assert FindByHash(s1.rows, hashA) == Some(a);
    var s2 := Step(s1, rotate);
    var s3 := Step(s2, revoke);
    assert [issue, rotate, revoke] == [issue] + [rotate, revoke] && [rotate, revoke] == [rotate] + [revoke] && [revoke] == [revoke] + [];
    RunCons(START, issue, [rotate, revoke]);
    RunCons(s1, rotate, [revoke]);
    RunCons(s2, revoke, []);
    RotationOutrunsLogout(s3, 0, 1, b, hashB, expiresAt, now, now);
  }
}
