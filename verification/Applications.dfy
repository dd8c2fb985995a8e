/** Applications and their offers: what one apply, replay or selection does to the tables. */
module ApplicationTables {
  import opened Basics
  import opened Ordering

  /** A string a JavaScript condition takes for present. */
  predicate Truthy(s: Option<string>) { s.Some? && s.value != "" }

  datatype Status = Draft | Matched | NoMatch | Archived | Erased

  /** What an offer freezes of the engine's quote; figures are the fixed-point strings the response shows. */
  datatype Quote = Quote(programCode: string, ratePercent: string, installmentEGP: string, details: string)

  datatype OfferRow = OfferRow(applicationId: string, rankIndex: nat, quote: Quote, erased: bool)

  datatype Summary = Summary(programsChecked: nat, eligiblePrograms: nat, unavailable: string, noMatch: string)

  datatype Application = Application(
    customer: string, key: Option<string>, payloadHash: Option<string>, status: Status, summary: Summary,
    selectedOffer: Option<string>, proceededAt: Option<int>)

  datatype AuditEvent =
    | ApplicationCreated(applicationId: string)
    | MatchingEngineRun(applicationId: string)
    | ApplicationMatched(applicationId: string)
    | ApplicationNoMatch(applicationId: string)
    | UserProceeded(applicationId: string, bankOfferId: string, at: int)

  type Apps = map<string, Application>
  type Offers = map<string, OfferRow>

  datatype Db = Db(
    apps: Apps, offers: Offers,
    questionnaires: map<string, string>, answers: map<string, seq<string>>, audit: seq<AuditEvent>)

  // ---- Persisting a match -----------------------------------------------------------------------------------------

  datatype MatchInput = MatchInput(
    applicationId: string, customer: string, key: Option<string>, payloadHash: Option<string>,
    matched: bool, summary: Summary, offerIds: seq<string>, quotes: seq<Quote>, questionnaire: string, answers: seq<string>)

  /** Generated ids are new and different. */
  predicate FreshIds(db: Db, m: MatchInput) {
    && m.applicationId !in db.apps && m.applicationId !in db.questionnaires && m.applicationId !in db.answers
    && |m.offerIds| == |m.quotes| && Distinct(m.offerIds) && forall o | o in m.offerIds :: o !in db.offers
  }

  /** The unique index on (customer, key); rows without a key never clash. */
  predicate KeyTaken(apps: Apps, customer: string, key: Option<string>) {
    key.Some? && exists a :: a in apps && apps[a].customer == customer && apps[a].key == key
  }

  function NewApplication(m: MatchInput): Application {
    Application(m.customer, m.key, m.payloadHash, if m.matched then Matched else NoMatch, m.summary, None, None)
  }

  /** The offers in the engine's order, each with its position as its rank. */
  function OffersTo(offers: Offers, m: MatchInput, n: nat): Offers
    requires n <= |m.offerIds| == |m.quotes|
  {
    if n == 0 then offers
    else OffersTo(offers, m, n - 1)[m.offerIds[n - 1] := OfferRow(m.applicationId, n - 1, m.quotes[n - 1], false)]
  }

  function ApplyEvents(m: MatchInput): seq<AuditEvent> {
    [ApplicationCreated(m.applicationId), MatchingEngineRun(m.applicationId),
     if m.matched then ApplicationMatched(m.applicationId) else ApplicationNoMatch(m.applicationId)]
  }

  function Persisted(db: Db, m: MatchInput): Db
    requires |m.offerIds| == |m.quotes|
  {
    Db(db.apps[m.applicationId := NewApplication(m)],
       OffersTo(db.offers, m, |m.offerIds|),
       db.questionnaires[m.applicationId := m.questionnaire],
       if m.answers == [] then db.answers else db.answers[m.applicationId := m.answers],
       db.audit + ApplyEvents(m))
  }

  // ---- Reading offers back ------------------------------------------------------------------------------------------

  function Ranks(offers: Offers): map<string, nat> { map o | o in offers :: offers[o].rankIndex }

  function LiveOffers(offers: Offers, applicationId: string): set<string> {
    set o | o in offers && offers[o].applicationId == applicationId && !offers[o].erased
  }

  /** A listing of an application's offers that are not erased, ordered by rank. */
  ghost predicate Lists(offers: Offers, applicationId: string, s: seq<string>) {
    InOrder(s, LiveOffers(offers, applicationId), Ranks(offers))
  }

  /** Those of the engine's offers not erased since, in the engine's order. */
  function LiveOf(offers: Offers, ids: seq<string>): seq<string> {
    if ids == [] then []
    else
      var o := ids[|ids| - 1];
      LiveOf(offers, ids[..|ids| - 1]) + (if o in offers && !offers[o].erased then [o] else [])
  }

  // ---- What a persisted match leaves --------------------------------------------------------------------------------

  lemma {:induction false} OtherOffers(offers: Offers, m: MatchInput, n: nat, o: string)
    requires n <= |m.offerIds| == |m.quotes| && forall i | 0 <= i < n :: m.offerIds[i] != o
    ensures o in OffersTo(offers, m, n) <==> o in offers
    ensures o in offers ==> OffersTo(offers, m, n)[o] == offers[o]
  {
    if n > 0 { OtherOffers(offers, m, n - 1, o); }
  }

  lemma {:induction false} NewOffer(offers: Offers, m: MatchInput, n: nat, i: nat)
    requires i < n <= |m.offerIds| == |m.quotes| && Distinct(m.offerIds)
    ensures m.offerIds[i] in OffersTo(offers, m, n)
    ensures OffersTo(offers, m, n)[m.offerIds[i]] == OfferRow(m.applicationId, i, m.quotes[i], false)
  {
    if i < n - 1 { NewOffer(offers, m, n - 1, i); }
  }

  lemma OfferAfterPersist(db: Db, m: MatchInput, o: string)
    requires FreshIds(db, m)
    ensures var after := OffersTo(db.offers, m, |m.offerIds|);
      && (o in after <==> o in db.offers || o in m.offerIds)
      && (o in db.offers ==> after[o] == db.offers[o])
      && (o in m.offerIds ==> after[o].applicationId == m.applicationId)
  {
    if o in m.offerIds {
      var i :| 0 <= i < |m.offerIds| && m.offerIds[i] == o;
      NewOffer(db.offers, m, |m.offerIds|, i);
    } else {
      OtherOffers(db.offers, m, |m.offerIds|, o);
    }
  }

  /** What a match adds to the tables, row by row. */
  lemma PersistedExactly(db: Db, m: MatchInput)
    requires FreshIds(db, m)
    ensures var after := Persisted(db, m);
      && after.apps == db.apps[m.applicationId := Application(m.customer, m.key, m.payloadHash, if m.matched then Matched else NoMatch,
                                                              m.summary, None, None)]
      && after.questionnaires == db.questionnaires[m.applicationId := m.questionnaire]
      && after.answers == (if m.answers == [] then db.answers else db.answers[m.applicationId := m.answers])
      && after.audit == db.audit + [ApplicationCreated(m.applicationId), MatchingEngineRun(m.applicationId),
                                    if m.matched then ApplicationMatched(m.applicationId) else ApplicationNoMatch(m.applicationId)]
      && (forall i | 0 <= i < |m.quotes| ::
            m.offerIds[i] in after.offers && after.offers[m.offerIds[i]] == OfferRow(m.applicationId, i, m.quotes[i], false))
      && (forall o | o !in m.offerIds :: (o in after.offers <==> o in db.offers) && (o in db.offers ==> after.offers[o] == db.offers[o]))
  {
    var after := Persisted(db, m);
    forall i | 0 <= i < |m.quotes|
      ensures m.offerIds[i] in after.offers && after.offers[m.offerIds[i]] == OfferRow(m.applicationId, i, m.quotes[i], false)
    {
      NewOffer(db.offers, m, |m.offerIds|, i);
    }
    forall o | o !in m.offerIds
      ensures (o in after.offers <==> o in db.offers) && (o in db.offers ==> after.offers[o] == db.offers[o])
    {
      OtherOffers(db.offers, m, |m.offerIds|, o);
    }
  }

  /** No stored offer names the application, as none can before it is stored. */
  predicate NoOffersOf(offers: Offers, applicationId: string) {
    forall o | o in offers :: offers[o].applicationId != applicationId
  }

  /** A listing right after the match is the engine's list. */
  lemma FreshListing(db: Db, m: MatchInput, listed: seq<string>)
    requires FreshIds(db, m) && NoOffersOf(db.offers, m.applicationId)
    requires Lists(Persisted(db, m).offers, m.applicationId, listed)
    ensures listed == m.offerIds
    ensures forall i | 0 <= i < |listed| ::
      listed[i] in Persisted(db, m).offers && Persisted(db, m).offers[listed[i]] == OfferRow(m.applicationId, i, m.quotes[i], false)
  {
    var offers, ids := OffersTo(db.offers, m, |m.offerIds|), m.offerIds;
    forall i | 0 <= i < |ids| ensures ids[i] in offers && offers[ids[i]] == OfferRow(m.applicationId, i, m.quotes[i], false) {
      NewOffer(db.offers, m, |ids|, i);
    }
    forall o ensures o in ids <==> o in LiveOffers(offers, m.applicationId) { OfferAfterPersist(db, m, o); }
    hide OffersTo, FreshIds;
    assert Distinct(ids) by { assert FreshIds(db, m); }
    InOrderIsUnique(listed, ids, LiveOffers(offers, m.applicationId), Ranks(offers));
  }

  // ---- The response ---------------------------------------------------------------------------------------------------

  datatype OfferDto = OfferDto(bankOfferId: string, isSaved: bool, quote: Quote)

  datatype Response =
    | MatchedOffers(applicationId: string, correlationId: string, programsChecked: nat, eligiblePrograms: nat,
                    bestInstallmentEGP: string, bestRatePercent: string, unavailable: string, offers: seq<OfferDto>)
    | NoMatchingPrograms(applicationId: string, correlationId: string, noMatch: string, unavailable: string)

  function ToOfferDtos(offers: Offers, listed: seq<string>, saved: set<string>): seq<OfferDto>
    requires forall o | o in listed :: o in offers
  {
    seq(|listed|, i requires 0 <= i < |listed| => OfferDto(listed[i], listed[i] in saved, offers[listed[i]].quote))
  }

  function ToResponse(applicationId: string, app: Application, offers: Offers, listed: seq<string>,
                      correlationId: string, saved: set<string>): Response
    requires forall o | o in listed :: o in offers
  {
    if app.status == Matched && listed != [] then
      MatchedOffers(applicationId, correlationId, app.summary.programsChecked, app.summary.eligiblePrograms,
                    offers[listed[0]].quote.installmentEGP, offers[listed[0]].quote.ratePercent,
                    app.summary.unavailable, ToOfferDtos(offers, listed, saved))
    else
      NoMatchingPrograms(applicationId, correlationId, app.summary.noMatch, app.summary.unavailable)
  }

  /** An answer drawn from the tables: an offer each that is stored for the application and not erased, by rank, with
      the figures it froze; the best ones those of the least rank; counts, unavailable programs and no-match details as
      the match stored them; a refusal exactly when the application is not matched or no offer is left. */
  lemma AnswerFromTables(a: string, app: Application, offers: Offers, listed: seq<string>, correlationId: string, saved: set<string>)
    requires Lists(offers, a, listed) && forall o | o in listed :: o in offers
    ensures var r := ToResponse(a, app, offers, listed, correlationId, saved);
      && r.applicationId == a && r.correlationId == correlationId && r.unavailable == app.summary.unavailable
      && (r.MatchedOffers? <==> app.status == Matched && exists o :: o in offers && offers[o].applicationId == a && !offers[o].erased)
      && (r.NoMatchingPrograms? ==> r.noMatch == app.summary.noMatch)
      && (r.MatchedOffers? ==>
            && r.programsChecked == app.summary.programsChecked && r.eligiblePrograms == app.summary.eligiblePrograms
            && |r.offers| > 0
            && r.bestInstallmentEGP == r.offers[0].quote.installmentEGP && r.bestRatePercent == r.offers[0].quote.ratePercent
            && (forall i | 0 <= i < |r.offers| ::
                  && r.offers[i].bankOfferId in offers && offers[r.offers[i].bankOfferId].applicationId == a
                  && !offers[r.offers[i].bankOfferId].erased && r.offers[i].quote == offers[r.offers[i].bankOfferId].quote
                  && (r.offers[i].isSaved <==> r.offers[i].bankOfferId in saved))
            && (forall i, j | 0 <= i < j < |r.offers| ::
                  && r.offers[i].bankOfferId != r.offers[j].bankOfferId
                  && offers[r.offers[i].bankOfferId].rankIndex <= offers[r.offers[j].bankOfferId].rankIndex)
            && (forall o | o in offers && offers[o].applicationId == a && !offers[o].erased ::
                  exists i :: 0 <= i < |r.offers| && r.offers[i].bankOfferId == o))
  {
    var r := ToResponse(a, app, offers, listed, correlationId, saved);
    forall i | 0 <= i < |listed| ensures listed[i] in LiveOffers(offers, a) { assert listed[i] in listed; }
    forall o | o in offers && offers[o].applicationId == a && !offers[o].erased
      ensures exists i :: 0 <= i < |listed| && listed[i] == o
    {
      assert o in LiveOffers(offers, a) && o in listed;
    }
    if r.MatchedOffers? {
      assert |r.offers| == |listed| && forall i | 0 <= i < |listed| :: r.offers[i].bankOfferId == listed[i];
      assert r.offers[0].bankOfferId == listed[0];
    } else if app.status == Matched {
      assert listed == [];
    }
  }

  /** The answer right after a match, told from the request. */
  lemma FreshAnswer(db: Db, m: MatchInput, listed: seq<string>, correlationId: string, saved: set<string>)
    requires FreshIds(db, m) && NoOffersOf(db.offers, m.applicationId)
    requires Lists(Persisted(db, m).offers, m.applicationId, listed)
    ensures forall o | o in listed :: o in Persisted(db, m).offers
    ensures var r := ToResponse(m.applicationId, Persisted(db, m).apps[m.applicationId], Persisted(db, m).offers, listed, correlationId, saved);
      && r.applicationId == m.applicationId && r.correlationId == correlationId && r.unavailable == m.summary.unavailable
      && (r.MatchedOffers? <==> m.matched && m.quotes != [])
      && (r.NoMatchingPrograms? ==> r.noMatch == m.summary.noMatch)
      && (r.MatchedOffers? ==>
            && r.programsChecked == m.summary.programsChecked && r.eligiblePrograms == m.summary.eligiblePrograms
            && r.bestInstallmentEGP == m.quotes[0].installmentEGP && r.bestRatePercent == m.quotes[0].ratePercent
            && |r.offers| == |m.quotes|
            && forall i | 0 <= i < |m.quotes| :: r.offers[i] == OfferDto(m.offerIds[i], m.offerIds[i] in saved, m.quotes[i]))
  {
    FreshListing(db, m, listed);
    hide OffersTo, FreshIds, Lists, NoOffersOf;
  }

  // ---- Selecting an offer ---------------------------------------------------------------------------------------------

  datatype SelectOutcome =
    | DocumentsMissing
    | NotFound
    | Forbidden
    | ApplicationNotMatched
    | AlreadyProceeded(offer: string, at: int)
    | BankOfferNotFound
    | OfferNotForApplication
    | Proceeded

  function SelectOutcomeOf(db: Db, applicationId: string, bankOfferId: string, customer: string,
                           documentsComplete: bool): SelectOutcome {
    if !documentsComplete then DocumentsMissing
    else if applicationId !in db.apps then NotFound
    else
      var app := db.apps[applicationId];
      if app.customer != customer then Forbidden
      else if app.status != Matched then ApplicationNotMatched
      else if app.proceededAt.Some? && app.selectedOffer.Some? then AlreadyProceeded(app.selectedOffer.value, app.proceededAt.value)
      else if bankOfferId !in db.offers || db.offers[bankOfferId].erased then BankOfferNotFound
      else if db.offers[bankOfferId].applicationId != applicationId then OfferNotForApplication
      else Proceeded
  }

  function Selected(db: Db, applicationId: string, bankOfferId: string, at: int): Db
    requires applicationId in db.apps
  {
    db.(apps := db.apps[applicationId := db.apps[applicationId].(selectedOffer := Some(bankOfferId), proceededAt := Some(at))],
        audit := db.audit + [UserProceeded(applicationId, bankOfferId, at)])
  }
}

/** The repository and the service, writing the tables in place. */
module ApplicationsSource {
  import opened Basics
  import opened Ordering
  import opened ApplicationTables

  /** Where the database may refuse a statement of the transaction. */
  datatype Stage = CreateOffers | CreateQuestionnaire | CreateAnswers | WriteAudit

  datatype ApplyOutcome = Answered(response: Response) | KeyMismatch | Failed

  class Store {
    var apps: Apps
    var offers: Offers
    var questionnaires: map<string, string>
    var answers: map<string, seq<string>>
    var audit: seq<AuditEvent>

    ghost function Stored(): Db
      reads this
    {
      Db(apps, offers, questionnaires, answers, audit)
    }

    /** The foreign key of the offers. */
    ghost predicate Valid()
      reads this
    {
      forall o | o in offers :: offers[o].applicationId in apps
    }
  }

  class ApplicationRepository {
    const db: Store

    constructor (db: Store)
      ensures this.db == db
    {
      this.db := db;
    }

    /** One transaction: an error at any statement puts every table back. */
    method PersistMatch(m: MatchInput, fault: Option<Stage>) returns (id: Option<string>)
      requires FreshIds(db.Stored(), m) && |m.offerIds| == |m.quotes|
      modifies db
      ensures id.None? ==> db.Stored() == old(db.Stored())
      ensures id.Some? ==> id.value == m.applicationId && db.Stored() == Persisted(old(db.Stored()), m)
      ensures id.None? <==>
        || KeyTaken(old(db.apps), m.customer, m.key)
        || fault == Some(CreateQuestionnaire) || fault == Some(WriteAudit)
        || (fault == Some(CreateOffers) && m.quotes != []) || (fault == Some(CreateAnswers) && m.answers != [])
    {
      var apps, offers, questionnaires, answers := db.apps, db.offers, db.questionnaires, db.answers;
      hide FreshIds, Distinct;
      if m.key.Some? && exists a | a in db.apps :: db.apps[a].customer == m.customer && db.apps[a].key == m.key {
        return None;
      }
      db.apps := db.apps[m.applicationId := NewApplication(m)];
      if |m.quotes| > 0 {
        if fault == Some(CreateOffers) {
          db.apps := apps;
          return None;
        }
        InsertOffers(m);
      }
      if fault == Some(CreateQuestionnaire) {
        db.apps, db.offers := apps, offers;
        return None;
      }
      db.questionnaires := db.questionnaires[m.applicationId := m.questionnaire];
      if |m.answers| > 0 {
        if fault == Some(CreateAnswers) {
          db.apps, db.offers, db.questionnaires := apps, offers, questionnaires;
          return None;
        }
        db.answers := db.answers[m.applicationId := m.answers];
      }
      var written := WriteApplyEvents(m, fault);
      if !written {
        db.apps, db.offers, db.questionnaires, db.answers := apps, offers, questionnaires, answers;
        return None;
      }
      return Some(m.applicationId);
    }

    /** The audit writes of the transaction's callback. */
    method WriteApplyEvents(m: MatchInput, fault: Option<Stage>) returns (written: bool)
      modifies db`audit
      ensures written <==> fault != Some(WriteAudit)
      ensures db.audit == if written then old(db.audit) + ApplyEvents(m) else old(db.audit)
    {
      if fault == Some(WriteAudit) {
        return false;
      }
      db.audit := db.audit + [ApplicationCreated(m.applicationId)];
      db.audit := db.audit + [MatchingEngineRun(m.applicationId)];
      db.audit := db.audit + [if m.matched then ApplicationMatched(m.applicationId) else ApplicationNoMatch(m.applicationId)];
      return true;
    }

    method InsertOffers(m: MatchInput)
      requires |m.offerIds| == |m.quotes|
      modifies db`offers
      ensures db.offers == OffersTo(old(db.offers), m, |m.offerIds|)
    {
      for rankIndex := 0 to |m.quotes|
        invariant db.offers == OffersTo(old(db.offers), m, rankIndex)
      {
        db.offers := db.offers[m.offerIds[rankIndex] := OfferRow(m.applicationId, rankIndex, m.quotes[rankIndex], false)];
      }
    }

    /** `include: bankOffers where erasedAt null order by rankIndex`. */
    method ListOffers(applicationId: string) returns (s: seq<string>)
      ensures Lists(db.offers, applicationId, s)
      ensures forall o :: o in s <==> o in db.offers && db.offers[o].applicationId == applicationId && !db.offers[o].erased
      ensures forall i, j | 0 <= i < j < |s| ::
        s[i] != s[j] && s[i] in db.offers && s[j] in db.offers && db.offers[s[i]].rankIndex <= db.offers[s[j]].rankIndex
    {
      s := FindInOrder(LiveOffers(db.offers, applicationId), Ranks(db.offers));
    }

    /** First of the customer's applications under the key; the index leaves at most one. */
    method FindByIdempotencyKey(customer: string, key: string) returns (id: Option<string>)
      ensures id.None? <==> !KeyTaken(db.apps, customer, Some(key))
      ensures id.Some? ==> id.value in db.apps && db.apps[id.value].customer == customer && db.apps[id.value].key == Some(key)
    {
      if exists a | a in db.apps :: db.apps[a].customer == customer && db.apps[a].key == Some(key) {
        var a :| a in db.apps && db.apps[a].customer == customer && db.apps[a].key == Some(key);
        return Some(a);
      }
      return None;
    }

    method MarkOfferSelected(applicationId: string, bankOfferId: string, proceededAt: int)
      requires applicationId in db.apps
      modifies db`apps
      ensures db.apps.Keys == old(db.apps).Keys
      ensures forall a | a in db.apps && a != applicationId :: db.apps[a] == old(db.apps)[a]
      ensures var was, now := old(db.apps)[applicationId], db.apps[applicationId];
        && now.selectedOffer == Some(bankOfferId) && now.proceededAt == Some(proceededAt)
        && now.customer == was.customer && now.key == was.key && now.payloadHash == was.payloadHash
        && now.status == was.status && now.summary == was.summary
    {
      db.apps := db.apps[applicationId := db.apps[applicationId].(selectedOffer := Some(bankOfferId), proceededAt := Some(proceededAt))];
    }
  }

  class ApplicationsService {
    const repo: ApplicationRepository

    constructor (repo: ApplicationRepository)
      ensures this.repo == repo
    {
      this.repo := repo;
    }

    method SelectOffer(applicationId: string, bankOfferId: string, customer: string, documentsComplete: bool,
                       now: int) returns (r: SelectOutcome)
      modifies repo.db
      ensures r == SelectOutcomeOf(old(repo.db.Stored()), applicationId, bankOfferId, customer, documentsComplete)
      ensures repo.db.Stored() == if r == Proceeded then Selected(old(repo.db.Stored()), applicationId, bankOfferId, now) else old(repo.db.Stored())
      ensures r == DocumentsMissing <==> !documentsComplete
      ensures r == NotFound <==> documentsComplete && applicationId !in old(repo.db.apps)
      ensures documentsComplete && applicationId in old(repo.db.apps) ==>
        var app, offers := old(repo.db.apps)[applicationId], old(repo.db.offers);
        && (r == Forbidden <==> app.customer != customer)
        && (r == ApplicationNotMatched <==> app.customer == customer && app.status != Matched)
        && (app.customer == customer && app.status == Matched ==>
              var open := app.proceededAt.None? || app.selectedOffer.None?;
              && (!open ==> r == AlreadyProceeded(app.selectedOffer.value, app.proceededAt.value))
              && (r == BankOfferNotFound <==> open && (bankOfferId !in offers || offers[bankOfferId].erased))
              && (r == OfferNotForApplication <==> open && bankOfferId in offers && !offers[bankOfferId].erased
                                                   && offers[bankOfferId].applicationId != applicationId)
              && (r == Proceeded <==> open && bankOfferId in offers && !offers[bankOfferId].erased
                                      && offers[bankOfferId].applicationId == applicationId))
      ensures r == Proceeded ==>
        && applicationId in old(repo.db.apps)
        && repo.db.apps == old(repo.db.apps)[applicationId :=
             old(repo.db.apps)[applicationId].(selectedOffer := Some(bankOfferId), proceededAt := Some(now))]
        && repo.db.audit == old(repo.db.audit) + [UserProceeded(applicationId, bankOfferId, now)]
        && repo.db.offers == old(repo.db.offers)
    {
      if !documentsComplete {
        return DocumentsMissing;
      }
      if applicationId !in repo.db.apps {
        return NotFound;
      }
      var app := repo.db.apps[applicationId];
      if app.customer != customer {
        return Forbidden;
      }
      if app.status != Matched {
        return ApplicationNotMatched;
      }
      if app.proceededAt.Some? && app.selectedOffer.Some? {
        return AlreadyProceeded(app.selectedOffer.value, app.proceededAt.value);
      }
      if bankOfferId !in repo.db.offers || repo.db.offers[bankOfferId].erased {
        return BankOfferNotFound;
      }
      if repo.db.offers[bankOfferId].applicationId != applicationId {
        return OfferNotForApplication;
      }
      repo.MarkOfferSelected(applicationId, bankOfferId, now);
      repo.db.audit := repo.db.audit + [UserProceeded(applicationId, bankOfferId, now)];
      return Proceeded;
    }

    /** Apply from lookup to answer, `m` holding what the engine made of the request. A known key answers from the
        stored row and writes nothing. */
    method Apply(m: MatchInput, correlationId: string, saved: set<string>,
                 fault: Option<Stage>) returns (r: ApplyOutcome, ghost answeredFor: string, ghost listed: seq<string>)
      requires repo.db.Valid() && FreshIds(repo.db.Stored(), m)
      modifies repo.db
      ensures repo.db.Valid()
      ensures r.Answered? && answeredFor == m.applicationId ==>
        && r.response.applicationId == m.applicationId && r.response.correlationId == correlationId
        && r.response.unavailable == m.summary.unavailable
        && (r.response.MatchedOffers? <==> m.matched && m.quotes != [])
        && (r.response.NoMatchingPrograms? ==> r.response.noMatch == m.summary.noMatch)
        && (r.response.MatchedOffers? ==>
              && r.response.programsChecked == m.summary.programsChecked && r.response.eligiblePrograms == m.summary.eligiblePrograms
              && r.response.bestInstallmentEGP == m.quotes[0].installmentEGP && r.response.bestRatePercent == m.quotes[0].ratePercent
              && |r.response.offers| == |m.quotes|
              && forall i | 0 <= i < |m.quotes| ::
                   r.response.offers[i] == OfferDto(m.offerIds[i], m.offerIds[i] in saved, m.quotes[i]))
      ensures var before, after := old(repo.db.Stored()), repo.db.Stored();
        if m.key.Some? && m.key.value != ""
           && exists a :: a in before.apps && before.apps[a].customer == m.customer && before.apps[a].key == m.key
        then
          && after == before
          && answeredFor in before.apps && before.apps[answeredFor].customer == m.customer && before.apps[answeredFor].key == m.key
          && (r == KeyMismatch <==> var stored := before.apps[answeredFor].payloadHash;
                stored.Some? && m.payloadHash.Some? && stored.value != "" && m.payloadHash.value != "" && stored != m.payloadHash)
          && (r == KeyMismatch ||
                (r.Answered? && Lists(after.offers, answeredFor, listed)
                 && r.response == ToResponse(answeredFor, after.apps[answeredFor], after.offers, listed, correlationId, saved)))
        else if r == Failed then after == before && (fault.Some? || (m.key == Some("") && KeyTaken(before.apps, m.customer, m.key)))
        else
          && after == Persisted(before, m) && answeredFor == m.applicationId
          && r.Answered? && Lists(after.offers, answeredFor, listed)
          && r.response == ToResponse(answeredFor, after.apps[answeredFor], after.offers, listed, correlationId, saved)
    {
      answeredFor, listed := "", [];
      ghost var before := repo.db.Stored();
      assert |m.offerIds| == |m.quotes| && m.applicationId !in before.apps;
      hide FreshIds;
      if Truthy(m.key) {
        var existing := repo.FindByIdempotencyKey(m.customer, m.key.value);
        if existing.Some? {
          var app := repo.db.apps[existing.value];
          answeredFor := existing.value;
          if Truthy(app.payloadHash) && Truthy(m.payloadHash) && app.payloadHash != m.payloadHash {
            return KeyMismatch, answeredFor, listed;
          }
          var s := repo.ListOffers(existing.value);
          return Answered(ToResponse(existing.value, app, repo.db.offers, s, correlationId, saved)), answeredFor, s;
        }
      }
      var id := repo.PersistMatch(m, fault);
      if id.None? {
        return Failed, answeredFor, listed;
      }
      var s := repo.ListOffers(id.value);
      FreshAnswer(before, m, s, correlationId, saved);
      PersistedIsValid(before, m);
      hide FreshIds, Lists, ToResponse, NewApplication, ApplyEvents, OffersTo;
      return Answered(ToResponse(id.value, repo.db.apps[id.value], repo.db.offers, s, correlationId, saved)), id.value, s;
    }
  }

  lemma PersistedIsValid(db: Db, m: MatchInput)
    requires FreshIds(db, m) && forall o | o in db.offers :: db.offers[o].applicationId in db.apps
    ensures forall o | o in Persisted(db, m).offers :: Persisted(db, m).offers[o].applicationId in Persisted(db, m).apps
  {
    forall o | o in Persisted(db, m).offers ensures Persisted(db, m).offers[o].applicationId in Persisted(db, m).apps {
      OfferAfterPersist(db, m, o);
    }
  }
}
