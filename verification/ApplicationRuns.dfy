/** Runs of applies, selections and erasures in any interleaving, and what every run keeps. */
module ApplicationRuns {
  import opened Basics
  import opened Ordering
  import opened ApplicationTables

  /** A request that passed its key lookup and has not persisted yet. */
  datatype Pending = Pending(customer: string, key: Option<string>)

  /** `order` remembers the engine's offers of each application, as the request that stored them saw them. */
  datatype State = State(db: Db, pending: map<nat, Pending>, order: map<string, seq<string>>)

  datatype Event =
    | Lookup(request: nat, customer: string, key: Option<string>)
    | Persist(request: nat, m: MatchInput, fault: bool)
    | Select(applicationId: string, bankOfferId: string, customer: string, documentsComplete: bool, at: int)
    | EraseOffer(bankOfferId: string)
    | EraseApplication(applicationId: string)

  predicate Persists(s: State, e: Event) {
    && e.Persist? && e.request in s.pending && s.pending[e.request] == Pending(e.m.customer, e.m.key)
    && FreshIds(s.db, e.m) && e.m.applicationId !in s.order && !e.fault && !KeyTaken(s.db.apps, e.m.customer, e.m.key)
  }

  predicate Selects(s: State, e: Event) {
    e.Select? && SelectOutcomeOf(s.db, e.applicationId, e.bankOfferId, e.customer, e.documentsComplete) == Proceeded
  }

  /** One atomic step; a step that is refused or rolled back leaves the tables as they were. */
  function Step(s: State, e: Event): State {
    match e
    case Lookup(request, customer, key) =>
      if Truthy(key) && KeyTaken(s.db.apps, customer, key) then s
      else s.(pending := s.pending[request := Pending(customer, key)])
    case Persist(request, m, _) =>
      if Persists(s, e) then State(Persisted(s.db, m), s.pending - {request}, s.order[m.applicationId := m.offerIds])
      else s.(pending := s.pending - {request})
    case Select(applicationId, bankOfferId, _, _, at) =>
      if Selects(s, e) then s.(db := Selected(s.db, applicationId, bankOfferId, at)) else s
    case EraseOffer(o) =>
      if o in s.db.offers then s.(db := s.db.(offers := s.db.offers[o := s.db.offers[o].(erased := true)])) else s
    case EraseApplication(a) =>
      if a in s.db.apps then s.(db := s.db.(apps := s.db.apps[a := s.db.apps[a].(status := Erased)])) else s
  }

  function Run(s: State, events: seq<Event>): State
    decreases |events|
  {
    if events == [] then s else Run(Step(s, events[0]), events[1..])
  }

  const INITIAL := State(Db(map[], map[], map[], map[], []), map[], map[])

  // ---- What holds of every reachable state ------------------------------------------------------------------------------

  predicate KeysUnique(apps: Apps) {
    forall a, b | a in apps && b in apps && apps[a].key.Some? && apps[a].customer == apps[b].customer && apps[a].key == apps[b].key :: a == b
  }

  /** The offers of one application: exactly those of the engine, ranked 0 to n-1 in its order. */
  ghost predicate RankedAs(offers: Offers, a: string, ids: seq<string>) {
    && Distinct(ids)
    && (forall i | 0 <= i < |ids| :: ids[i] in offers && offers[ids[i]].applicationId == a && offers[ids[i]].rankIndex == i)
    && (forall o | o in offers && offers[o].applicationId == a :: o in ids)
  }

  ghost predicate AllRanked(offers: Offers, order: map<string, seq<string>>) {
    && (forall a | a in order :: RankedAs(offers, a, order[a]))
    && (forall o | o in offers :: offers[o].applicationId in order)
  }

  /** The proceed events of an application. */
  function ProceedEvents(audit: seq<AuditEvent>, a: string): seq<AuditEvent> {
    if audit == [] then []
    else
      var e := audit[|audit| - 1];
      ProceedEvents(audit[..|audit| - 1], a) + (if e.UserProceeded? && e.applicationId == a then [e] else [])
  }

  /** An application proceeded with holds an offer of its own and has exactly the one event that says so; any other has none. */
  predicate ProceedRecorded(db: Db, a: string) {
    if a in db.apps && db.apps[a].selectedOffer.Some? then
      && db.apps[a].proceededAt.Some?
      && db.apps[a].selectedOffer.value in db.offers
      && db.offers[db.apps[a].selectedOffer.value].applicationId == a
      && ProceedEvents(db.audit, a) == [UserProceeded(a, db.apps[a].selectedOffer.value, db.apps[a].proceededAt.value)]
    else (a in db.apps ==> db.apps[a].proceededAt.None?) && ProceedEvents(db.audit, a) == []
  }

  ghost predicate AllRecorded(db: Db) { forall a :: ProceedRecorded(db, a) }

  ghost predicate Inv(s: State) {
    s.order.Keys == s.db.apps.Keys && KeysUnique(s.db.apps) && AllRanked(s.db.offers, s.order) && AllRecorded(s.db)
  }

  // ---- Persisting ---------------------------------------------------------------------------------------------------------

  lemma PersistKeepsRanks(s: State, m: MatchInput)
    requires FreshIds(s.db, m) && AllRanked(s.db.offers, s.order) && m.applicationId !in s.order
    ensures AllRanked(OffersTo(s.db.offers, m, |m.offerIds|), s.order[m.applicationId := m.offerIds])
  {
    var after, order := OffersTo(s.db.offers, m, |m.offerIds|), s.order[m.applicationId := m.offerIds];
    forall o ensures
      && (o in after <==> o in s.db.offers || o in m.offerIds)
      && (o in s.db.offers ==> after[o] == s.db.offers[o])
      && (o in m.offerIds ==> after[o].applicationId == m.applicationId)
    {
      OfferAfterPersist(s.db, m, o);
    }
    forall i | 0 <= i < |m.offerIds| ensures m.offerIds[i] in after && after[m.offerIds[i]].rankIndex == i {
      NewOffer(s.db.offers, m, |m.offerIds|, i);
    }
    hide OffersTo;
    assert RankedAs(after, m.applicationId, m.offerIds);
    forall a | a in s.order ensures RankedAs(after, a, s.order[a]) {
      assert RankedAs(s.db.offers, a, s.order[a]);
    }
  }

  lemma EventsOf(audit: seq<AuditEvent>, e: AuditEvent, a: string)
    ensures ProceedEvents(audit + [e], a) == ProceedEvents(audit, a) + if e.UserProceeded? && e.applicationId == a then [e] else []
  {
    assert (audit + [e])[..|audit|] == audit;
  }

  lemma ApplyEventsAreNoProceed(audit: seq<AuditEvent>, m: MatchInput, a: string)
    ensures ProceedEvents(audit + ApplyEvents(m), a) == ProceedEvents(audit, a)
  {
    var es := ApplyEvents(m);
    EventsOf(audit, es[0], a);
    EventsOf(audit + [es[0]], es[1], a);
    EventsOf(audit + [es[0]] + [es[1]], es[2], a);
    assert audit + es == audit + [es[0]] + [es[1]] + [es[2]];
  }

  lemma PersistKeepsRecords(db: Db, m: MatchInput)
    requires FreshIds(db, m) && AllRecorded(db)
    ensures AllRecorded(Persisted(db, m))
  {
    forall a ensures ProceedRecorded(Persisted(db, m), a) {
      assert ProceedRecorded(db, a);
      ApplyEventsAreNoProceed(db.audit, m, a);
      if a in db.apps && db.apps[a].selectedOffer.Some? {
        OfferAfterPersist(db, m, db.apps[a].selectedOffer.value);
      }
      hide OffersTo, ProceedEvents, Distinct;
    }
  }

  lemma PersistKeepsKeys(apps: Apps, id: string, app: Application)
    requires KeysUnique(apps) && id !in apps && !KeyTaken(apps, app.customer, app.key)
    ensures KeysUnique(apps[id := app])
  {
  }

  // ---- Steps ----------------------------------------------------------------------------------------------------------------

  lemma SelectKeepsRecords(db: Db, a: string, o: string, at: int)
    requires AllRecorded(db) && a in db.apps && db.apps[a].selectedOffer.None?
    requires o in db.offers && db.offers[o].applicationId == a
    ensures AllRecorded(Selected(db, a, o, at))
  {
    forall b ensures ProceedRecorded(Selected(db, a, o, at), b) {
      assert ProceedRecorded(db, b);
      EventsOf(db.audit, UserProceeded(a, o, at), b);
      hide ProceedEvents;
    }
  }

  lemma SelectKeepsInv(s: State, e: Event)
    requires Inv(s) && Selects(s, e)
    ensures Inv(Step(s, e))
  {
    assert ProceedRecorded(s.db, e.applicationId);
    SelectKeepsRecords(s.db, e.applicationId, e.bankOfferId, e.at);
    hide ProceedRecorded, RankedAs, ProceedEvents;
  }

  lemma ErasedOfferKeepsRecords(db: Db, o: string)
    requires AllRecorded(db) && o in db.offers
    ensures AllRecorded(db.(offers := db.offers[o := db.offers[o].(erased := true)]))
  {
    hide ProceedEvents;
    var after := db.(offers := db.offers[o := db.offers[o].(erased := true)]);
    forall a ensures ProceedRecorded(after, a) {
      assert ProceedRecorded(db, a);
    }
  }

  lemma ErasedOfferKeepsRanks(offers: Offers, order: map<string, seq<string>>, o: string)
    requires AllRanked(offers, order) && o in offers
    ensures AllRanked(offers[o := offers[o].(erased := true)], order)
  {
    var after := offers[o := offers[o].(erased := true)];
    forall a | a in order ensures RankedAs(after, a, order[a]) { assert RankedAs(offers, a, order[a]); }
    hide RankedAs;
  }

  lemma ErasedApplicationKeeps(db: Db, a: string)
    requires AllRecorded(db) && KeysUnique(db.apps) && a in db.apps
    ensures AllRecorded(db.(apps := db.apps[a := db.apps[a].(status := Erased)]))
    ensures KeysUnique(db.apps[a := db.apps[a].(status := Erased)])
  {
    hide ProceedEvents;
    var after := db.(apps := db.apps[a := db.apps[a].(status := Erased)]);
    forall b ensures ProceedRecorded(after, b) {
      assert ProceedRecorded(db, b);
    }
    hide ProceedRecorded;
  }

  lemma EraseKeepsInv(s: State, e: Event)
    requires Inv(s) && (e.EraseOffer? || e.EraseApplication?)
    ensures Inv(Step(s, e))
  {
    hide AllRanked, AllRecorded, KeysUnique, Selects, Persists;
    if e.EraseOffer? && e.bankOfferId in s.db.offers {
      ErasedOfferKeepsRecords(s.db, e.bankOfferId);
      ErasedOfferKeepsRanks(s.db.offers, s.order, e.bankOfferId);
    } else if e.EraseApplication? && e.applicationId in s.db.apps {
      ErasedApplicationKeeps(s.db, e.applicationId);
    }
  }

  lemma StepKeepsInv(s: State, e: Event)
    requires Inv(s)
    ensures Inv(Step(s, e))
  {
    if Persists(s, e) {
      PersistKeepsRanks(s, e.m);
      PersistKeepsRecords(s.db, e.m);
      PersistKeepsKeys(s.db.apps, e.m.applicationId, NewApplication(e.m));
      hide AllRanked, AllRecorded, KeysUnique, OffersTo, KeyTaken, Selected;
    } else if Selects(s, e) {
      SelectKeepsInv(s, e);
    } else if e.EraseOffer? || e.EraseApplication? {
      EraseKeepsInv(s, e);
    } else {
      hide AllRanked, AllRecorded, KeysUnique, Persists, Selects, KeyTaken;
    }
  }

  /** In every reachable state: at most one application per customer and key, dense ranks in the engine's order, and
      for each application proceeded with one event saying what it holds. */
  lemma {:induction false} RunKeepsInv(s: State, events: seq<Event>)
    requires Inv(s)
    ensures Inv(Run(s, events))
    decreases |events|
  {
    hide Inv, Step;
    if events != [] {
      StepKeepsInv(s, events[0]);
      RunKeepsInv(Step(s, events[0]), events[1..]);
    }
  }

  lemma InitialInv()
    ensures Inv(INITIAL)
  {
  }

  // ---- What a run never changes -------------------------------------------------------------------------------------------------

  /** From `p` on an application keeps who it belongs to and what it holds once it holds something; its status only
      becomes erased. */
  predicate KeepsApplication(p: Application, q: Application) {
    && q.customer == p.customer && q.key == p.key && q.payloadHash == p.payloadHash && q.summary == p.summary
    && (q.status == p.status || q.status == Erased)
    && (p.selectedOffer.Some? && p.proceededAt.Some? ==> q.selectedOffer == p.selectedOffer && q.proceededAt == p.proceededAt)
  }

  predicate KeepsOffer(p: OfferRow, q: OfferRow) { q == p || q == p.(erased := true) }

  predicate Later(s: State, t: State) {
    && (forall a | a in s.db.apps :: a in t.db.apps && KeepsApplication(s.db.apps[a], t.db.apps[a]))
    && (forall o | o in s.db.offers :: o in t.db.offers && KeepsOffer(s.db.offers[o], t.db.offers[o]))
    && (forall a | a in s.order :: a in t.order && t.order[a] == s.order[a])
    && s.db.audit <= t.db.audit
  }

  lemma PersistIsLater(s: State, e: Event)
    requires Persists(s, e)
    ensures Later(s, Step(s, e))
  {
    var after := OffersTo(s.db.offers, e.m, |e.m.offerIds|);
    forall o | o in s.db.offers ensures o in after && after[o] == s.db.offers[o] {
      OfferAfterPersist(s.db, e.m, o);
    }
    hide OffersTo, KeyTaken, Distinct, Selects;
  }

  lemma SelectIsLater(s: State, e: Event)
    requires Selects(s, e)
    ensures Later(s, Step(s, e))
  {
  }

  lemma StepIsLater(s: State, e: Event)
    ensures Later(s, Step(s, e))
  {
    if Persists(s, e) {
      PersistIsLater(s, e);
    } else if Selects(s, e) {
      SelectIsLater(s, e);
    } else if e.EraseOffer? || e.EraseApplication? {
      hide KeyTaken, Persists, Selects;
    } else {
      hide KeyTaken, Persists, Selects, KeepsApplication, KeepsOffer;
      EverythingKept(s);
    }
  }

  lemma EverythingKept(s: State)
    ensures forall a | a in s.db.apps :: KeepsApplication(s.db.apps[a], s.db.apps[a])
    ensures forall o | o in s.db.offers :: KeepsOffer(s.db.offers[o], s.db.offers[o])
  {
  }

  lemma LaterIsTransitive(s: State, t: State, u: State)
    requires Later(s, t) && Later(t, u)
    ensures Later(s, u)
  {
  }

  lemma {:induction false} RunIsLater(s: State, events: seq<Event>)
    ensures Later(s, Run(s, events))
    decreases |events|
  {
    if events != [] {
      StepIsLater(s, events[0]);
      RunIsLater(Step(s, events[0]), events[1..]);
      hide Later, Step;
      LaterIsTransitive(s, Step(s, events[0]), Run(Step(s, events[0]), events[1..]));
    } else {
      hide Run;
      assert Later(s, s);
    }
  }

  /** Once proceeded with, always with the same offer at the same time, and the audit trail says it exactly once. */
  lemma ProceededIsFinal(s: State, events: seq<Event>, a: string)
    requires Inv(s) && a in s.db.apps && s.db.apps[a].selectedOffer.Some?
    ensures var t := Run(s, events);
      && a in t.db.apps
      && t.db.apps[a].selectedOffer == s.db.apps[a].selectedOffer && t.db.apps[a].proceededAt == s.db.apps[a].proceededAt
      && t.db.apps[a].proceededAt.Some?
      && ProceedEvents(t.db.audit, a) == [UserProceeded(a, t.db.apps[a].selectedOffer.value, t.db.apps[a].proceededAt.value)]
  {
    RunIsLater(s, events);
    RunKeepsInv(s, events);
    assert ProceedRecorded(s.db, a) && ProceedRecorded(Run(s, events).db, a);
    hide Run, ProceedEvents;
  }

  /** The step that sets a selection: the caller owns the application, it was matched, the offer is its own and was
      not erased; and no other kind of step ever sets one. */
  lemma SelectionIsValid(s: State, e: Event, a: string)
    requires Inv(s) && a in s.db.apps && s.db.apps[a].selectedOffer.None? && Step(s, e).db.apps[a].selectedOffer.Some?
    ensures e.Select? && e.applicationId == a && e.customer == s.db.apps[a].customer && e.documentsComplete
    ensures s.db.apps[a].status == Matched
    ensures e.bankOfferId in s.db.offers && s.db.offers[e.bankOfferId].applicationId == a && !s.db.offers[e.bankOfferId].erased
    ensures Step(s, e).db.apps[a].selectedOffer == Some(e.bankOfferId) && Step(s, e).db.apps[a].proceededAt == Some(e.at)
  {
    hide OffersTo, KeyTaken;
  }

  /** And such a step always sets it: a complete request of the owner for an offer of its own that was not erased goes
      through exactly when the application is matched and nothing was chosen before. */
  lemma SelectionGoesThroughExactly(s: State, e: Event)
    requires Inv(s) && e.Select?
    ensures var a, o := e.applicationId, e.bankOfferId;
      if e.documentsComplete && a in s.db.apps && s.db.apps[a].customer == e.customer && s.db.apps[a].status == Matched
         && s.db.apps[a].selectedOffer.None? && o in s.db.offers && s.db.offers[o].applicationId == a && !s.db.offers[o].erased
      then Step(s, e) == s.(db := s.db.(
             apps := s.db.apps[a := s.db.apps[a].(selectedOffer := Some(o), proceededAt := Some(e.at))],
             audit := s.db.audit + [UserProceeded(a, o, e.at)]))
      else Step(s, e) == s
  {
    assert ProceedRecorded(s.db, e.applicationId);
    hide ProceedEvents, AllRanked, KeysUnique;
  }

  // ---- Replay ---------------------------------------------------------------------------------------------------

  lemma LiveOfNext(offers: Offers, front: seq<string>, o: string)
    ensures LiveOf(offers, front + [o]) == LiveOf(offers, front) + if o in offers && !offers[o].erased then [o] else []
  {
    assert (front + [o])[..|front|] == front;
  }

  predicate RankedFrom(offers: Offers, ids: seq<string>) {
    Distinct(ids) && forall i | 0 <= i < |ids| :: ids[i] in offers && offers[ids[i]].rankIndex == i
  }

  /** The live ones among the engine's offers, as a set and in its order. */
  ghost function LiveAmong(offers: Offers, ids: seq<string>): set<string> {
    set o | o in ids && o in offers && !offers[o].erased
  }

  lemma {:induction false} LiveOfInOrder(offers: Offers, ids: seq<string>)
    requires RankedFrom(offers, ids)
    ensures InOrder(LiveOf(offers, ids), LiveAmong(offers, ids), Ranks(offers))
  {
    if ids == [] {
      assert LiveOf(offers, ids) == [] && LiveAmong(offers, ids) == {};
    } else {
      var front, last := ids[..|ids| - 1], ids[|ids| - 1];
      assert ids == front + [last];
      assert RankedFrom(offers, front);
      LiveOfInOrder(offers, front);
      LiveOfNext(offers, front, last);
      hide LiveOf;
      LastInOrder(offers, front, last, LiveOf(offers, front));
    }
  }

  lemma LastInOrder(offers: Offers, front: seq<string>, last: string, live: seq<string>)
    requires RankedFrom(offers, front + [last]) && InOrder(live, LiveAmong(offers, front), Ranks(offers))
    ensures last in offers
    ensures InOrder(if offers[last].erased then live else live + [last], LiveAmong(offers, front + [last]), Ranks(offers))
  {
    var ids := front + [last];
    assert ids[|front|] == last;
    assert forall o :: o in ids <==> o in front || o == last;
    if offers[last].erased {
      assert LiveAmong(offers, ids) == LiveAmong(offers, front);
    } else {
      assert LiveAmong(offers, ids) == LiveAmong(offers, front) + {last};
      forall i | 0 <= i < |live|
        ensures live[i] != last && live[i] in offers && offers[live[i]].rankIndex <= offers[last].rankIndex
      {
        assert live[i] in live;
        var k :| 0 <= k < |front| && front[k] == live[i];
        assert ids[k] == live[i];
      }
    }
  }

  lemma LiveAreTheEngines(offers: Offers, a: string, ids: seq<string>)
    requires RankedAs(offers, a, ids)
    ensures RankedFrom(offers, ids) && LiveAmong(offers, ids) == LiveOffers(offers, a)
    ensures forall x, y | x in LiveOffers(offers, a) && y in LiveOffers(offers, a) && Ranks(offers)[x] == Ranks(offers)[y] :: x == y
  {
  }

  /** Reading by rank returns the engine's order, less the offers erased since. */
  lemma ReadingIsEngineOrder(s: State, a: string, listed: seq<string>)
    requires Inv(s) && a in s.db.apps && Lists(s.db.offers, a, listed)
    ensures listed == LiveOf(s.db.offers, s.order[a])
  {
    var offers, ids := s.db.offers, s.order[a];
    assert RankedAs(offers, a, ids);
    LiveAreTheEngines(offers, a, ids);
    LiveOfInOrder(offers, ids);
    hide Inv, LiveOf, InOrder, RankedAs, RankedFrom, LiveAmong, LiveOffers, Ranks;
    InOrderIsUnique(listed, LiveOf(offers, ids), LiveOffers(offers, a), Ranks(offers));
  }

  /** Of a response's offers, those not in `gone`. */
  function Remaining(offers: seq<OfferDto>, gone: set<string>): seq<OfferDto> {
    if offers == [] then []
    else Remaining(offers[..|offers| - 1], gone) + (if offers[|offers| - 1].bankOfferId in gone then [] else [offers[|offers| - 1]])
  }

  ghost function ErasedOffers(offers: Offers): set<string> { set o | o in offers && offers[o].erased }

  predicate AllStored(offers: Offers, ids: seq<string>) { forall i | 0 <= i < |ids| :: ids[i] in offers }

  lemma DtosNext(offers: Offers, ids: seq<string>, o: string, saved: set<string>)
    requires AllStored(offers, ids) && o in offers
    ensures AllStored(offers, ids + [o])
    ensures ToOfferDtos(offers, ids + [o], saved) == ToOfferDtos(offers, ids, saved) + [OfferDto(o, o in saved, offers[o].quote)]
  {
  }

  lemma RemainingNext(offers: seq<OfferDto>, dto: OfferDto, gone: set<string>)
    ensures Remaining(offers + [dto], gone) == Remaining(offers, gone) + if dto.bankOfferId in gone then [] else [dto]
  {
    assert (offers + [dto])[..|offers|] == offers;
  }

  lemma {:induction false} LiveAreStored(offers: Offers, ids: seq<string>)
    ensures AllStored(offers, LiveOf(offers, ids))
  {
    if ids != [] { LiveAreStored(offers, ids[..|ids| - 1]); }
  }

  /** The offers a replay shows are the ones shown before, less those erased since. */
  lemma {:induction false} LaterListing(p: Offers, q: Offers, ids: seq<string>, saved: set<string>)
    requires forall i | 0 <= i < |ids| :: ids[i] in p && ids[i] in q && KeepsOffer(p[ids[i]], q[ids[i]])
    ensures AllStored(p, LiveOf(p, ids)) && AllStored(q, LiveOf(q, ids))
    ensures ToOfferDtos(q, LiveOf(q, ids), saved) == Remaining(ToOfferDtos(p, LiveOf(p, ids), saved), ErasedOffers(q))
  {
    LiveAreStored(p, ids);
    LiveAreStored(q, ids);
    if ids != [] {
      var front, last := ids[..|ids| - 1], ids[|ids| - 1];
      LaterListing(p, q, front, saved);
      DtosNext(p, LiveOf(p, front), last, saved);
      DtosNext(q, LiveOf(q, front), last, saved);
      RemainingNext(ToOfferDtos(p, LiveOf(p, front), saved), OfferDto(last, last in saved, p[last].quote), ErasedOffers(q));
      assert LiveOf(p, ids) == if p[last].erased then LiveOf(p, front) else LiveOf(p, front) + [last];
      assert LiveOf(q, ids) == if q[last].erased then LiveOf(q, front) else LiveOf(q, front) + [last];
      assert last in ErasedOffers(q) <==> q[last].erased;
      hide ToOfferDtos, Remaining, AllStored, LiveOf, ErasedOffers;
    } else {
      assert ToOfferDtos(p, [], saved) == [] && ToOfferDtos(q, [], saved) == [];
    }
  }

  /** Once an application is stored under a key, in every later state it is the customer's only one under that key,
      and looking the key up again changes nothing: neither replays nor requests that had passed their lookup
      before can store a second. */
  lemma ReplayWritesNothing(s: State, events: seq<Event>, a: string)
    requires Inv(s) && a in s.db.apps && Truthy(s.db.apps[a].key)
    ensures var t := Run(s, events);
      && a in t.db.apps && t.db.apps[a].customer == s.db.apps[a].customer && t.db.apps[a].key == s.db.apps[a].key
      && (forall b | b in t.db.apps && t.db.apps[b].customer == s.db.apps[a].customer && t.db.apps[b].key == s.db.apps[a].key :: b == a)
      && (forall request :: Step(t, Lookup(request, s.db.apps[a].customer, s.db.apps[a].key)) == t)
  {
    RunIsLater(s, events);
    RunKeepsInv(s, events);
    KeyStaysTaken(s, Run(s, events), a);
    hide Run, Inv, Step, KeepsOffer;
  }

  /** Two answers drawn from one stored summary: counts, unavailable programs and no-match details agree. */
  predicate SameSummary(r: Response, q: Response) {
    && r.applicationId == q.applicationId && r.unavailable == q.unavailable
    && (r.MatchedOffers? && q.MatchedOffers? ==> r.programsChecked == q.programsChecked && r.eligiblePrograms == q.eligiblePrograms)
    && (r.NoMatchingPrograms? && q.NoMatchingPrograms? ==> r.noMatch == q.noMatch)
  }

  lemma AnswersAgree(a: string, p: Application, q: Application, offers: Offers, offersLater: Offers, listed: seq<string>,
                     listedLater: seq<string>, first: string, later: string, saved: set<string>)
    requires q.summary == p.summary && AllStored(offers, listed) && AllStored(offersLater, listedLater)
    ensures var replay := ToResponse(a, q, offersLater, listedLater, later, saved);
      && SameSummary(ToResponse(a, p, offers, listed, first, saved), replay)
      && (replay.NoMatchingPrograms? <==> q.status != Matched || ToOfferDtos(offersLater, listedLater, saved) == [])
      && (replay.NoMatchingPrograms? ==> replay.noMatch == p.summary.noMatch)
  {
  }

  /** A replay at any later time shows the offers shown before, in the same order and with the same figures, less those
      erased since, with the same summary; it turns into a refusal exactly when none is left or the application is no
      longer matched, and then gives the details stored at the match. */
  lemma ReplayShowsTheSame(s: State, events: seq<Event>, a: string, listed: seq<string>, listedLater: seq<string>,
                           first: string, later: string, saved: set<string>)
    requires Inv(s) && a in s.db.apps && Lists(s.db.offers, a, listed) && Lists(Run(s, events).db.offers, a, listedLater)
    ensures var t := Run(s, events);
      && a in t.db.apps && AllStored(s.db.offers, listed) && AllStored(t.db.offers, listedLater)
      && ToOfferDtos(t.db.offers, listedLater, saved) == Remaining(ToOfferDtos(s.db.offers, listed, saved), ErasedOffers(t.db.offers))
      && SameSummary(ToResponse(a, s.db.apps[a], s.db.offers, listed, first, saved),
                     ToResponse(a, t.db.apps[a], t.db.offers, listedLater, later, saved))
      && (ToResponse(a, t.db.apps[a], t.db.offers, listedLater, later, saved).NoMatchingPrograms? ==>
          ToResponse(a, t.db.apps[a], t.db.offers, listedLater, later, saved).noMatch == s.db.apps[a].summary.noMatch)
      && (ToResponse(a, t.db.apps[a], t.db.offers, listedLater, later, saved).NoMatchingPrograms? <==>
          (t.db.apps[a].status != Matched || Remaining(ToOfferDtos(s.db.offers, listed, saved), ErasedOffers(t.db.offers)) == []))
  {
    var t := Run(s, events);
    RunIsLater(s, events);
    RunKeepsInv(s, events);
    assert a in t.db.apps && t.order[a] == s.order[a] && t.db.apps[a].summary == s.db.apps[a].summary;
    ReadingIsEngineOrder(s, a, listed);
    ReadingIsEngineOrder(t, a, listedLater);
    EngineOffersKept(s, t, a);
    hide Run, Inv, Later, LiveOf, Remaining, Lists, ToResponse, ToOfferDtos, SameSummary, AllStored;
    LaterListing(s.db.offers, t.db.offers, s.order[a], saved);
    AnswersAgree(a, s.db.apps[a], t.db.apps[a], s.db.offers, t.db.offers, listed, listedLater, first, later, saved);
  }

  lemma KeyStaysTaken(s: State, t: State, a: string)
    requires Inv(s) && Inv(t) && Later(s, t) && a in s.db.apps && Truthy(s.db.apps[a].key)
    ensures a in t.db.apps && t.order[a] == s.order[a]
    ensures forall b | b in t.db.apps && t.db.apps[b].customer == s.db.apps[a].customer && t.db.apps[b].key == s.db.apps[a].key :: b == a
    ensures forall request :: Step(t, Lookup(request, s.db.apps[a].customer, s.db.apps[a].key)) == t
  {
    hide AllRanked, AllRecorded;
    assert KeepsApplication(s.db.apps[a], t.db.apps[a]);
    assert KeyTaken(t.db.apps, s.db.apps[a].customer, s.db.apps[a].key);
    hide KeysUnique, KeyTaken, Truthy, KeepsApplication;
  }

  lemma EngineOffersKept(s: State, t: State, a: string)
    requires Inv(s) && Later(s, t) && a in s.order
    ensures forall i | 0 <= i < |s.order[a]| ::
      && s.order[a][i] in s.db.offers && s.order[a][i] in t.db.offers
      && KeepsOffer(s.db.offers[s.order[a][i]], t.db.offers[s.order[a][i]])
  {
    assert RankedAs(s.db.offers, a, s.order[a]);
    hide AllRanked, AllRecorded, KeysUnique;
  }

  /** What a first answer shows: every offer of the engine, in its order and with its figures. */
  lemma FreshAnswerShowsAll(s: State, e: Event, listed: seq<string>)
    requires Inv(s) && Persists(s, e) && Lists(Step(s, e).db.offers, e.m.applicationId, listed)
    ensures listed == e.m.offerIds
    ensures forall i | 0 <= i < |listed| :: listed[i] in Step(s, e).db.offers && Step(s, e).db.offers[listed[i]].quote == e.m.quotes[i]
  {
    assert NoOffersOf(s.db.offers, e.m.applicationId);
    FreshListing(s.db, e.m, listed);
    hide Inv, FreshIds, OffersTo, KeyTaken, Lists;
  }

  lemma {:induction false} NothingErased(offers: Offers, ids: seq<string>)
    requires forall i | 0 <= i < |ids| :: ids[i] in offers && !offers[ids[i]].erased
    ensures LiveOf(offers, ids) == ids
  {
    if ids != [] {
      var front, last := ids[..|ids| - 1], ids[|ids| - 1];
      assert ids == front + [last];
      NothingErased(offers, front);
      LiveOfNext(offers, front, last);
      hide LiveOf;
    }
  }

  lemma {:induction false} FirstLeft(offers: Offers, ids: seq<string>, i: nat)
    requires forall k | 0 <= k < |ids| :: ids[k] in offers
    requires i <= |ids| && (forall k | 0 <= k < i :: offers[ids[k]].erased) && (i < |ids| ==> !offers[ids[i]].erased)
    ensures i == |ids| <==> LiveOf(offers, ids) == []
    ensures i < |ids| ==> LiveOf(offers, ids)[0] == ids[i]
  {
    if ids != [] {
      var front := ids[..|ids| - 1];
      FirstLeft(offers, front, if i == |ids| then i - 1 else i);
    }
  }

  /** The engine's offers as a request brings them. */
  function RequestedDtos(m: MatchInput, saved: set<string>): seq<OfferDto>
    requires |m.offerIds| == |m.quotes|
  {
    seq(|m.quotes|, i requires 0 <= i < |m.quotes| => OfferDto(m.offerIds[i], m.offerIds[i] in saved, m.quotes[i]))
  }

  /** What any later answer shows, told from the request that was stored and from what was erased since: the engine's
      offers in its order less the erased ones, with the figures it gave, the best ones those of the first offer left;
      and a refusal exactly when the engine did not match, the application was erased or no offer is left. */
  lemma ReplayAnswersTheRequest(s: State, e: Event, events: seq<Event>, listed: seq<string>, correlationId: string, saved: set<string>)
    requires Inv(s) && Persists(s, e) && Lists(Run(Step(s, e), events).db.offers, e.m.applicationId, listed)
    ensures var t, m := Run(Step(s, e), events).db, e.m;
      && m.applicationId in t.apps && AllStored(t.offers, listed) && (forall i | 0 <= i < |m.offerIds| :: m.offerIds[i] in t.offers)
      && var r := ToResponse(m.applicationId, t.apps[m.applicationId], t.offers, listed, correlationId, saved);
      && r.applicationId == m.applicationId && r.unavailable == m.summary.unavailable
      && (r.MatchedOffers? <==>
            m.matched && t.apps[m.applicationId].status != Erased
            && exists i :: 0 <= i < |m.offerIds| && !t.offers[m.offerIds[i]].erased)
      && (r.NoMatchingPrograms? ==> r.noMatch == m.summary.noMatch)
      && (r.MatchedOffers? ==>
            && r.programsChecked == m.summary.programsChecked && r.eligiblePrograms == m.summary.eligiblePrograms
            && r.offers == Remaining(RequestedDtos(m, saved), ErasedOffers(t.offers))
            && forall i | 0 <= i < |m.offerIds| && !t.offers[m.offerIds[i]].erased
                          && (forall k | 0 <= k < i :: t.offers[m.offerIds[k]].erased) ::
                 r.bestInstallmentEGP == m.quotes[i].installmentEGP && r.bestRatePercent == m.quotes[i].ratePercent)
  {
    var t, m := Run(Step(s, e), events).db, e.m;
    StoredForGood(s, e, events);
    ReadingIsEngineOrder(Run(Step(s, e), events), m.applicationId, listed);
    hide Run, Step, Inv, Lists, Persists, FreshIds, ToResponse, Remaining, LiveOf, RequestedDtos, ErasedOffers;
    AnswerToRequest(m, t.apps[m.applicationId], t.offers, listed, correlationId, saved);
  }

  /** What every later state still holds of a stored request. */
  lemma StoredForGood(s: State, e: Event, events: seq<Event>)
    requires Inv(s) && Persists(s, e)
    ensures var t, m := Run(Step(s, e), events), e.m;
      && Inv(t) && m.applicationId in t.db.apps && m.applicationId in t.order && t.order[m.applicationId] == m.offerIds
      && |m.offerIds| == |m.quotes|
      && t.db.apps[m.applicationId].summary == m.summary
      && (t.db.apps[m.applicationId].status == Matched <==> m.matched && t.db.apps[m.applicationId].status != Erased)
      && (forall i | 0 <= i < |m.offerIds| :: m.offerIds[i] in t.db.offers && t.db.offers[m.offerIds[i]].quote == m.quotes[i])
  {
    var p := Step(s, e);
    StoredNow(s, e);
    StepKeepsInv(s, e);
    hide Step, Persists;
    RunIsLater(p, events);
    RunKeepsInv(p, events);
    KeptForGood(p, Run(p, events), e.m.applicationId, e.m.quotes);
    hide Run, Inv, Later;
  }

  lemma KeptForGood(p: State, t: State, a: string, quotes: seq<Quote>)
    requires Inv(p) && Later(p, t) && a in p.db.apps && a in p.order && |p.order[a]| == |quotes|
    requires forall i | 0 <= i < |quotes| :: p.order[a][i] in p.db.offers && p.db.offers[p.order[a][i]].quote == quotes[i]
    ensures a in t.db.apps && a in t.order && t.order[a] == p.order[a]
    ensures t.db.apps[a].summary == p.db.apps[a].summary
    ensures t.db.apps[a].status == p.db.apps[a].status || t.db.apps[a].status == Erased
    ensures forall i | 0 <= i < |quotes| :: t.order[a][i] in t.db.offers && t.db.offers[t.order[a][i]].quote == quotes[i]
  {
    EngineOffersKept(p, t, a);
    hide Inv;
  }

  lemma StoredNow(s: State, e: Event)
    requires Persists(s, e)
    ensures var p, m := Step(s, e), e.m;
      && m.applicationId in p.db.apps && m.applicationId in p.order && p.order[m.applicationId] == m.offerIds
      && |m.offerIds| == |m.quotes|
      && p.db.apps[m.applicationId].summary == m.summary
      && p.db.apps[m.applicationId].status == (if m.matched then Matched else NoMatch)
      && (forall i | 0 <= i < |m.offerIds| :: m.offerIds[i] in p.db.offers && p.db.offers[m.offerIds[i]].quote == m.quotes[i])
  {
    PersistedExactly(s.db, e.m);
    hide OffersTo, KeyTaken, Distinct;
  }

  /** The answer those facts lead to. */
  lemma AnswerToRequest(m: MatchInput, app: Application, offers: Offers, listed: seq<string>, correlationId: string, saved: set<string>)
    requires |m.offerIds| == |m.quotes| && listed == LiveOf(offers, m.offerIds)
    requires app.summary == m.summary && (app.status == Matched <==> m.matched && app.status != Erased)
    requires forall i | 0 <= i < |m.offerIds| :: m.offerIds[i] in offers && offers[m.offerIds[i]].quote == m.quotes[i]
    ensures AllStored(offers, listed)
    ensures var r := ToResponse(m.applicationId, app, offers, listed, correlationId, saved);
      && r.applicationId == m.applicationId && r.unavailable == m.summary.unavailable
      && (r.MatchedOffers? <==> m.matched && app.status != Erased && exists i :: 0 <= i < |m.offerIds| && !offers[m.offerIds[i]].erased)
      && (r.NoMatchingPrograms? ==> r.noMatch == m.summary.noMatch)
      && (r.MatchedOffers? ==>
            && r.programsChecked == m.summary.programsChecked && r.eligiblePrograms == m.summary.eligiblePrograms
            && r.offers == Remaining(RequestedDtos(m, saved), ErasedOffers(offers))
            && forall i | 0 <= i < |m.offerIds| && !offers[m.offerIds[i]].erased && (forall k | 0 <= k < i :: offers[m.offerIds[k]].erased) ::
                 r.bestInstallmentEGP == m.quotes[i].installmentEGP && r.bestRatePercent == m.quotes[i].ratePercent)
  {
    LeftDtos(m, offers, saved);
    FirstOf(offers, m.offerIds);
    LiveAreStored(offers, m.offerIds);
    forall i | 0 <= i < |m.offerIds| && !offers[m.offerIds[i]].erased && (forall k | 0 <= k < i :: offers[m.offerIds[k]].erased)
      ensures listed != [] && listed[0] == m.offerIds[i]
    {
      FirstLeft(offers, m.offerIds, i);
    }
    hide LiveOf, Remaining, RequestedDtos, ErasedOffers, ToOfferDtos;
  }

  lemma LeftDtos(m: MatchInput, offers: Offers, saved: set<string>)
    requires |m.offerIds| == |m.quotes|
    requires forall i | 0 <= i < |m.offerIds| :: m.offerIds[i] in offers && offers[m.offerIds[i]].quote == m.quotes[i]
    ensures AllStored(offers, LiveOf(offers, m.offerIds))
    ensures ToOfferDtos(offers, LiveOf(offers, m.offerIds), saved) == Remaining(RequestedDtos(m, saved), ErasedOffers(offers))
  {
    var unerased := Unerased(offers);
    UnerasedRows(m, offers);
    NothingErased(unerased, m.offerIds);
    RequestedAsListed(m, unerased, saved);
    hide LiveOf, Remaining, ToOfferDtos, RequestedDtos, ErasedOffers, Unerased, KeepsOffer, AllStored;
    LaterListing(unerased, offers, m.offerIds, saved);
  }

  lemma UnerasedRows(m: MatchInput, offers: Offers)
    requires |m.offerIds| == |m.quotes|
    requires forall i | 0 <= i < |m.offerIds| :: m.offerIds[i] in offers && offers[m.offerIds[i]].quote == m.quotes[i]
    ensures forall i | 0 <= i < |m.offerIds| ::
      && m.offerIds[i] in Unerased(offers)
      && !Unerased(offers)[m.offerIds[i]].erased && Unerased(offers)[m.offerIds[i]].quote == m.quotes[i]
      && KeepsOffer(Unerased(offers)[m.offerIds[i]], offers[m.offerIds[i]])
  {
  }

  lemma RequestedAsListed(m: MatchInput, offers: Offers, saved: set<string>)
    requires |m.offerIds| == |m.quotes|
    requires forall i | 0 <= i < |m.offerIds| :: m.offerIds[i] in offers && offers[m.offerIds[i]].quote == m.quotes[i]
    ensures AllStored(offers, m.offerIds) && ToOfferDtos(offers, m.offerIds, saved) == RequestedDtos(m, saved)
  {
  }

  function Unerased(offers: Offers): Offers { map o | o in offers :: offers[o].(erased := false) }

  lemma {:induction false} FirstOf(offers: Offers, ids: seq<string>)
    requires forall k | 0 <= k < |ids| :: ids[k] in offers
    ensures LiveOf(offers, ids) != [] <==> exists i :: 0 <= i < |ids| && !offers[ids[i]].erased
  {
    if ids != [] {
      var front := ids[..|ids| - 1];
      FirstOf(offers, front);
      assert forall i | 0 <= i < |front| :: front[i] == ids[i];
      assert !offers[ids[|ids| - 1]].erased ==> exists i :: 0 <= i < |ids| && !offers[ids[i]].erased;
    }
  }
}
