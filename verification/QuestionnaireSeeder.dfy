/** The passes of the questionnaire seeder over the stored tables: upsert, sweep, revive, bind, publish.
    Rows are named by their unique codes; the seeder deletes no row and renames none. */
module SeederTables {
  import opened Basics
  import opened SeedPoolSpec

  /** The pool the builder hands over. */
  datatype Pool = Pool(
    groupOrder: seq<string>, groupByCode: map<string, SeedGroup>,
    questionOrder: seq<string>, questionByCode: ByCode)

  /** Every listed group and question is in its map. */
  ghost predicate Authored(p: Pool) {
    && (forall c | c in p.groupOrder :: c in p.groupByCode)
    && (forall c | c in p.questionOrder :: c in p.questionByCode)
  }

  /** What the builder promises of the pool. */
  ghost predicate WellFormedPool(p: Pool) {
    && Authored(p) && Distinct(p.groupOrder) && Distinct(p.questionOrder)
    && (forall c | c in p.questionOrder :: p.questionByCode[c].groupCode in p.groupOrder)
  }

  /** A fact is re-pointed at its question on every run, or only where nothing is bound. */
  datatype Binding =
    | Always(factKey: string, questionCode: string, systemOnly: bool)
    | WhenUnbound(factKey: string, questionCode: string)

  /** Fixed tables of the seeder: the admin's car questions, where first-run fixed questions are asked, the fact bindings. */
  datatype Config = Config(car: set<string>, firstRun: map<string, string>, bindings: seq<Binding>)

  datatype GroupRow = GroupRow(title: string, displayOrder: nat, isActive: bool)

  datatype QuestionRow = QuestionRow(
    groupCode: string, content: Content, enabledWhen: Option<Branch>, displayOrder: nat, isActive: bool, fixedServedOn: Option<string>)

  datatype OptionKey = OptionKey(questionCode: string, code: string)

  datatype OptionRow = OptionRow(labelEn: string, labelAr: string, displayOrder: nat, isActive: bool)

  datatype FactRow = FactRow(boundQuestion: Option<string>, active: bool, deprecated: bool, systemOnly: bool)

  datatype Ask = Ask(product: string, factKey: string, detached: bool)

  datatype Tick = Tick(programName: string, questionCode: string)

  type GroupTable = map<string, GroupRow>
  type QuestionTable = map<string, QuestionRow>
  type OptionTable = map<OptionKey, OptionRow>
  type FactTable = map<string, FactRow>

  function At<K, V>(m: map<K, V>, k: K): (r: Option<V>)
    ensures r.Some? <==> k in m
    ensures r.Some? ==> r.value == m[k]
  {
    if k in m then Some(m[k]) else None
  }

  lemma SameTable<K, V>(m: map<K, V>, n: map<K, V>)
    requires forall k :: At(m, k) == At(n, k)
    ensures m == n
  {
    forall k ensures k in m <==> k in n { assert At(m, k) == At(n, k); }
    forall k | k in m ensures m[k] == n[k] { assert At(m, k) == At(n, k); }
  }

  // ---- Groups -----------------------------------------------------------------------------------------

  ghost function GroupsTo(rows: GroupTable, p: Pool, n: nat): GroupTable
    requires n <= |p.groupOrder| && Authored(p)
  {
    if n == 0 then rows
    else GroupsTo(rows, p, n - 1)[p.groupOrder[n - 1] := GroupRow(p.groupByCode[p.groupOrder[n - 1]].title, n, true)]
  }

  function SweptGroups(rows: GroupTable, p: Pool): GroupTable {
    map c | c in rows :: if c in p.groupOrder then rows[c] else rows[c].(isActive := false)
  }

  // ---- Questions and their options ---------------------------------------------------------------------

  /** Rows the seeder may insert but never rewrites. */
  predicate Owned(row: QuestionRow, isCar: bool) { row.fixedServedOn.Some? || isCar }

  function AuthoredRow(q: MergedQuestion, displayOrder: nat, fixedServedOn: Option<string>): QuestionRow {
    QuestionRow(q.groupCode, q.content, q.enabledWhen, displayOrder, true, fixedServedOn)
  }

  function OptionsTo(options: OptionTable, q: string, listed: seq<SeedOption>, n: nat): OptionTable
    requires n <= |listed|
  {
    if n == 0 then options
    else OptionsTo(options, q, listed, n - 1)
           [OptionKey(q, listed[n - 1].code) := OptionRow(listed[n - 1].labelEn, listed[n - 1].labelAr, n, true)]
  }

  function Unlisted(options: OptionTable, q: string, codes: seq<string>): OptionTable {
    map k | k in options ::
      if k.questionCode == q && k.code !in codes then options[k].(isActive := false) else options[k]
  }

  function OptionsWritten(options: OptionTable, q: string, listed: seq<SeedOption>): OptionTable {
    Unlisted(OptionsTo(options, q, listed, |listed|), q, OptionCodes(listed))
  }

  datatype Tables = Tables(questions: QuestionTable, options: OptionTable, ticks: set<Tick>)

  function WriteQuestion(t: Tables, code: string, q: MergedQuestion, displayOrder: nat, cfg: Config,
                         carNames: set<string>): Tables {
    if code in t.questions && Owned(t.questions[code], code in cfg.car) then t
    else
      var fixedServedOn := if code in t.questions then t.questions[code].fixedServedOn else At(cfg.firstRun, code);
      var ticked := if code !in t.questions && code in cfg.car then set n | n in carNames :: Tick(n, code) else {};
      Tables(t.questions[code := AuthoredRow(q, displayOrder, fixedServedOn)],
             OptionsWritten(t.options, code, q.options),
             t.ticks + ticked)
  }

  ghost function QuestionsTo(t: Tables, p: Pool, n: nat, cfg: Config, carNames: set<string>): Tables
    requires n <= |p.questionOrder| && Authored(p)
  {
    if n == 0 then t
    else
      var code := p.questionOrder[n - 1];
      WriteQuestion(QuestionsTo(t, p, n - 1, cfg, carNames), code, p.questionByCode[code], n, cfg, carNames)
  }

  function Swept(rows: QuestionTable, p: Pool, cfg: Config): QuestionTable {
    map c | c in rows ::
      if c in p.questionOrder || c in cfg.car || rows[c].fixedServedOn.Some? then rows[c] else rows[c].(isActive := false)
  }

  // ---- Facts --------------------------------------------------------------------------------------------

  /** The questions bound to a fact some product still asks. */
  function LiveQuestions(facts: FactTable, asks: set<Ask>): set<string> {
    set a | a in asks && !a.detached && a.factKey in facts && facts[a.factKey].boundQuestion.Some? :: facts[a.factKey].boundQuestion.value
  }

  /** Told by the asks: one not yet detached, of a fact bound to the question. */
  lemma LiveExactly(facts: FactTable, asks: set<Ask>, c: string)
    ensures c in LiveQuestions(facts, asks)
       <==> exists a :: a in asks && !a.detached && a.factKey in facts && facts[a.factKey].boundQuestion == Some(c)
  {
  }

  function Revived(rows: QuestionTable, live: set<string>): QuestionTable {
    map c | c in rows ::
      if !rows[c].isActive && rows[c].fixedServedOn.None? && c in live then rows[c].(isActive := true) else rows[c]
  }

  function Bind(facts: FactTable, known: set<string>, b: Binding): FactTable {
    if b.questionCode !in known then facts
    else match b
      case Always(key, question, systemOnly) =>
        facts[key := FactRow(Some(question), true, false, systemOnly || (key in facts && facts[key].systemOnly))]
      case WhenUnbound(key, question) =>
        if key in facts && facts[key].boundQuestion.None? then facts[key := facts[key].(boundQuestion := Some(question))] else facts
  }

  function BoundTo(facts: FactTable, known: set<string>, bindings: seq<Binding>, n: nat): FactTable
    requires n <= |bindings|
  {
    if n == 0 then facts else Bind(BoundTo(facts, known, bindings, n - 1), known, bindings[n - 1])
  }

  // ---- One run ------------------------------------------------------------------------------------------

  /** Everything a run reads or writes but the pool and the fixed tables; asks and car names are only read. */
  datatype Db = Db(groups: GroupTable, questions: QuestionTable, options: OptionTable, ticks: set<Tick>,
                   facts: FactTable, asks: set<Ask>, carNames: set<string>)

  ghost function Written(db: Db, p: Pool, cfg: Config): Tables
    requires Authored(p)
  {
    QuestionsTo(Tables(db.questions, db.options, db.ticks), p, |p.questionOrder|, cfg, db.carNames)
  }

  ghost function Run(db: Db, p: Pool, cfg: Config): Db
    requires Authored(p)
  {
    var w := Written(db, p, cfg);
    db.(groups := SweptGroups(GroupsTo(db.groups, p, |p.groupOrder|), p),
        questions := Revived(Swept(w.questions, p, cfg), LiveQuestions(db.facts, db.asks)),
        options := w.options,
        ticks := w.ticks,
        facts := BoundTo(db.facts, w.questions.Keys, cfg.bindings, |cfg.bindings|))
  }

  /** The questions the revival pass switches on. */
  ghost function NewlyOn(db: Db, p: Pool, cfg: Config): set<string>
    requires Authored(p)
  {
    var swept := Swept(Written(db, p, cfg).questions, p, cfg);
    set c | c in swept && Revived(swept, LiveQuestions(db.facts, db.asks))[c] != swept[c]
  }

  /** The sweep, told row by row. */
  lemma SweptExactly(questions: QuestionTable, questionsAfter: QuestionTable, groups: GroupTable, groupsAfter: GroupTable,
                     p: Pool, cfg: Config)
    requires questionsAfter.Keys == questions.Keys && groupsAfter.Keys == groups.Keys
    requires forall c | c in questionsAfter ::
      if c in p.questionOrder || c in cfg.car || questions[c].fixedServedOn.Some? then questionsAfter[c] == questions[c]
      else !questionsAfter[c].isActive && questionsAfter[c].(isActive := questions[c].isActive) == questions[c]
    requires forall g | g in groupsAfter ::
      if g in p.groupOrder then groupsAfter[g] == groups[g]
      else !groupsAfter[g].isActive && groupsAfter[g].(isActive := groups[g].isActive) == groups[g]
    ensures questionsAfter == Swept(questions, p, cfg) && groupsAfter == SweptGroups(groups, p)
  {
  }

  lemma KeysKept(rows: QuestionTable, p: Pool, cfg: Config, live: set<string>)
    ensures Revived(Swept(rows, p, cfg), live).Keys == rows.Keys
  {
  }
}

/** The seeder itself, writing the tables in place. */
module QuestionnaireSeeding {
  import opened Basics
  import opened QuestionnaireSnapshots
  import opened SeedPoolSpec
  import opened SeederTables

  class QuestionnaireSeeder {
    const cfg: Config
    var groups: GroupTable
    var questions: QuestionTable
    var options: OptionTable
    var ticks: set<Tick>
    var facts: FactTable
    var asks: set<Ask>
    var carNames: set<string>
    var versions: map<nat, Version>

    constructor (cfg: Config, db: Db)
      ensures this.cfg == cfg && Stored() == db && versions == map[]
    {
      this.cfg := cfg;
      groups, questions, options, ticks, facts := db.groups, db.questions, db.options, db.ticks, db.facts;
      asks, carNames, versions := db.asks, db.carNames, map[];
    }

    ghost function Stored(): Db
      reads this
    {
      Db(groups, questions, options, ticks, facts, asks, carNames)
    }

    ghost function QuestionTables(): Tables
      reads this
    {
      Tables(questions, options, ticks)
    }

    method UpsertGroups(p: Pool)
      requires WellFormedPool(p)
      modifies this`groups
      ensures groups == GroupsTo(old(groups), p, |p.groupOrder|)
    {
      for i := 0 to |p.groupOrder|
        invariant groups == GroupsTo(old(groups), p, i)
      {
        var code := p.groupOrder[i];
        groups := groups[code := GroupRow(p.groupByCode[code].title, i + 1, true)];
      }
    }

    method WriteOptions(code: string, listed: seq<SeedOption>)
      modifies this`options
      ensures options == OptionsWritten(old(options), code, listed)
    {
      var optionCodes: seq<string> := [];
      for i := 0 to |listed|
        invariant optionCodes == OptionCodes(listed)[..i]
        invariant options == OptionsTo(old(options), code, listed, i)
      {
        var o := listed[i];
        optionCodes := optionCodes + [o.code];
        options := options[OptionKey(code, o.code) := OptionRow(o.labelEn, o.labelAr, i + 1, true)];
      }
      options := Unlisted(options, code, optionCodes);
    }

    /** One question of the pool: left alone when the admin owns it, else written with its options; a car question
        that was not stored is ticked on every car name. */
    method UpsertQuestion(code: string, q: MergedQuestion, displayOrder: nat)
      modifies this`questions, this`options, this`ticks
      ensures QuestionTables() == WriteQuestion(old(QuestionTables()), code, q, displayOrder, cfg, carNames)
    {
      hide OptionsWritten;
      var owned := At(questions, code);
      if owned.Some? && (owned.value.fixedServedOn.Some? || code in cfg.car) {
        return;
      }
      if owned.Some? {
        questions := questions[code := AuthoredRow(q, displayOrder, owned.value.fixedServedOn)];
      } else {
        questions := questions[code := AuthoredRow(q, displayOrder, At(cfg.firstRun, code))];
        if code in cfg.car {
          ticks := ticks + set n | n in carNames :: Tick(n, code);
        }
      }
      WriteOptions(code, q.options);
    }

    method UpsertQuestions(p: Pool)
      requires WellFormedPool(p)
      modifies this`questions, this`options, this`ticks
      ensures QuestionTables() == QuestionsTo(old(QuestionTables()), p, |p.questionOrder|, cfg, carNames)
    {
      hide WriteQuestion;
      for i := 0 to |p.questionOrder|
        invariant QuestionTables() == QuestionsTo(old(QuestionTables()), p, i, cfg, carNames)
      {
        var code := p.questionOrder[i];
        UpsertQuestion(code, p.questionByCode[code], i + 1);
      }
    }

    method BindFacts()
      modifies this`facts
      ensures facts == BoundTo(old(facts), questions.Keys, cfg.bindings, |cfg.bindings|)
    {
      for i := 0 to |cfg.bindings|
        invariant facts == BoundTo(old(facts), questions.Keys, cfg.bindings, i)
      {
        var b := cfg.bindings[i];
        if b.questionCode !in questions {
          continue;
        }
        match b
        case Always(key, question, systemOnly) =>
          if key in facts {
            facts := facts[key := facts[key].(boundQuestion := Some(question), active := true, deprecated := false)];
            if systemOnly {
              facts := facts[key := facts[key].(systemOnly := true)];
            }
          } else {
            facts := facts[key := FactRow(Some(question), true, false, systemOnly)];
          }
        case WhenUnbound(key, question) =>
          if key in facts && facts[key].boundQuestion.None? {
            facts := facts[key := facts[key].(boundQuestion := Some(question))];
          }
      }
    }

    /** The sweep of what the pool no longer names. */
    method Sweep(p: Pool)
      modifies this`questions, this`groups
      ensures questions.Keys == old(questions).Keys && groups.Keys == old(groups).Keys
      ensures forall c | c in questions ::
        if c in p.questionOrder || c in cfg.car || old(questions)[c].fixedServedOn.Some? then questions[c] == old(questions)[c]
        else !questions[c].isActive && questions[c].(isActive := old(questions)[c].isActive) == old(questions)[c]
      ensures forall g | g in groups ::
        if g in p.groupOrder then groups[g] == old(groups)[g]
        else !groups[g].isActive && groups[g].(isActive := old(groups)[g].isActive) == old(groups)[g]
    {
      questions := Swept(questions, p, cfg);
      groups := SweptGroups(groups, p);
    }

    /** Back on: the swept questions a live product still reads. Returns how many that was. */
    method Revive() returns (count: nat)
      modifies this`questions
      ensures questions == Revived(old(questions), LiveQuestions(facts, asks))
      ensures count == |set c | c in old(questions) && questions[c] != old(questions)[c]|
      ensures questions.Keys == old(questions).Keys
      ensures forall c | c in questions ::
        && questions[c] == old(questions)[c].(isActive := questions[c].isActive)
        && (questions[c].isActive <==>
              old(questions)[c].isActive
              || (old(questions)[c].fixedServedOn.None?
                  && exists a :: a in asks && !a.detached && a.factKey in facts && facts[a.factKey].boundQuestion == Some(c)))
    {
      forall c ensures c in LiveQuestions(facts, asks)
                  <==> exists a :: a in asks && !a.detached && a.factKey in facts && facts[a.factKey].boundQuestion == Some(c)
      {
        LiveExactly(facts, asks, c);
      }
      hide LiveQuestions;
      var live := LiveQuestions(facts, asks);
      var toRevive := set c | c in questions && !questions[c].isActive && questions[c].fixedServedOn.None? && c in live;
      count := |toRevive|;
      questions := Revived(questions, live);
      assert toRevive == set c | c in old(questions) && questions[c] != old(questions)[c];
    }

    /** One new version, numbered one past the highest and the only one active. */
    method PublishVersion()
      modifies this`versions
      ensures Published(old(versions), versions, groups, questions, options)
    {
      var snapshot := BuildSnapshot(groups, questions, options);
      hide ServesAll;
      var last := 0;
      var left := versions.Keys;
      while left != {}
        invariant left <= versions.Keys
        invariant forall k | k in versions && k !in left :: k <= last
        invariant if left == versions.Keys then last == 0 else last in versions
      {
        var k :| k in left;
        if left == versions.Keys || k > last { last := k; }
        left := left - {k};
      }
      versions := map k | k in versions :: versions[k].(isActive := false);
      versions := versions[last + 1 := Version(true, snapshot)];
      assert IsNext(old(versions), versions, last + 1, groups, questions, options);
    }

    method SeedQuestionnaire(p: Pool) returns (revived: nat)
      requires WellFormedPool(p)
      modifies this
      ensures Stored() == Run(old(Stored()), p, cfg)
      ensures revived == |NewlyOn(old(Stored()), p, cfg)|
      ensures Published(old(versions), versions, groups, questions, options)
    {
      hide GroupsTo, QuestionsTo, Swept, SweptGroups, LiveQuestions, Revived, BoundTo, Published;
      UpsertGroups(p);
      UpsertQuestions(p);
      label upserted:
      Sweep(p);
      SweptExactly(old@upserted(questions), questions, old@upserted(groups), groups, p, cfg);
      revived := Revive();
      assert questions.Keys == Written(old(Stored()), p, cfg).questions.Keys by {
        KeysKept(Written(old(Stored()), p, cfg).questions, p, cfg, LiveQuestions(facts, asks));
      }
      BindFacts();
      PublishVersion();
    }
  }
}
