/** What a run of the questionnaire seeder leaves, row by row, and when a second run changes nothing. */
module QuestionnaireConvergence {
  import opened Basics
  import opened SeedPoolSpec
  import opened SeederTables
  import Builder = SeedPoolBuilder
  import Snapshots = QuestionnaireSnapshots
  import Properties = SeedPoolProperties

  /** The pool as the builder leaves it. */
  ghost function BuiltPool(d: Builder.SeedData): Pool {
    Pool(DropAll(GroupsOf(d.configs).order, d.merges), Retitled(GroupsOf(d.configs).byCode, d.titles) - Froms(d.merges),
         Builder.PoolOrder(d), Remapped(d.merges, Builder.AllRows(d)))
  }

  /** A pool whose orders list exactly its tables, every question in a group it has. */
  lemma CompletePoolIsWellFormed(p: Pool)
    requires Distinct(p.groupOrder) && Elements(p.groupOrder) == p.groupByCode.Keys
    requires Distinct(p.questionOrder) && Elements(p.questionOrder) == p.questionByCode.Keys
    requires forall c | c in p.questionByCode :: p.questionByCode[c].groupCode in p.groupByCode
    ensures WellFormedPool(p)
  {
    hide Distinct;
    forall c | c in p.groupOrder ensures c in p.groupByCode { assert c in Elements(p.groupOrder); }
    forall c | c in p.questionOrder ensures c in p.questionByCode && p.questionByCode[c].groupCode in p.groupOrder {
      assert c in Elements(p.questionOrder);
      assert p.questionByCode[c].groupCode in Elements(p.groupOrder);
    }
  }

  /** What the builder leaves is what the seeder needs: no question or group twice, every question in a live group. */
  lemma BuiltPoolIsWellFormed(d: Builder.SeedData)
    requires Properties.WellFormed(d) && Builder.NamesKnownGroups(d)
    requires forall m | m in d.merges :: m.to !in Froms(d.merges)
    ensures WellFormedPool(BuiltPool(d))
  {
    hide GroupsOf, DropAll, Retitled, Froms, Distinct, Elements, Regrouped, Authored, WellFormedPool;
    hide Builder.PoolOrder, Builder.AllRows, Builder.NamesKnownGroups, Properties.WellFormed, Properties.Ready, Properties.SeatedAfterMoney;
    var pre, post := Properties.PoolIsOrdered(d);
    Properties.PoolGroupsAreLive(d);
    CompletePoolIsWellFormed(BuiltPool(d));
  }

  // ---- Each row depends on itself alone -----------------------------------------------------------------

  predicate Skipped(t: Tables, code: string, cfg: Config) {
    code in t.questions && Owned(t.questions[code], code in cfg.car)
  }

  /** The row left for the `k`-th question of the pool: its own when the seeder may not rewrite it. */
  ghost function WrittenAt(t: Tables, p: Pool, cfg: Config, k: nat): Option<QuestionRow>
    requires WellFormedPool(p) && k < |p.questionOrder|
  {
    var c := p.questionOrder[k];
    if Skipped(t, c, cfg) then At(t.questions, c)
    else Some(AuthoredRow(p.questionByCode[c], k + 1, if c in t.questions then t.questions[c].fixedServedOn else At(cfg.firstRun, c)))
  }

  /** The row of a question after a run, from that row before it and whether a live product reads it. */
  ghost function RowAfter(row: Option<QuestionRow>, code: string, p: Pool, cfg: Config, live: bool): Option<QuestionRow>
    requires Authored(p)
  {
    var at := IndexOf(p.questionOrder, code);
    var written :=
      if at < 0 || (row.Some? && Owned(row.value, code in cfg.car)) then row
      else Some(AuthoredRow(p.questionByCode[code], at + 1, if row.Some? then row.value.fixedServedOn else At(cfg.firstRun, code)));
    Settled(written, at >= 0 || code in cfg.car, live)
  }

  /** The sweep, then the revival, of one row. */
  function Settled(written: Option<QuestionRow>, kept: bool, live: bool): Option<QuestionRow> {
    if written.None? then None
    else
      var swept := if kept || written.value.fixedServedOn.Some? then written.value else written.value.(isActive := false);
      Some(if swept.fixedServedOn.None? && live then swept.(isActive := true) else swept)
  }

  lemma SettledAt(rows: QuestionTable, p: Pool, cfg: Config, live: set<string>, c: string)
    ensures At(Revived(Swept(rows, p, cfg), live), c) == Settled(At(rows, c), c in p.questionOrder || c in cfg.car, c in live)
  {
  }

  lemma RowStep(t: Tables, code: string, q: MergedQuestion, displayOrder: nat, cfg: Config, carNames: set<string>,
                c: string)
    ensures At(WriteQuestion(t, code, q, displayOrder, cfg, carNames).questions, c)
         == (if c != code || Skipped(t, code, cfg) then At(t.questions, c)
             else Some(AuthoredRow(q, displayOrder, if c in t.questions then t.questions[c].fixedServedOn else At(cfg.firstRun, c))))
  {
    hide OptionsWritten, AuthoredRow;
  }

  lemma {:induction false} UnreachedRow(t: Tables, p: Pool, n: nat, cfg: Config, carNames: set<string>, c: string)
    requires Authored(p) && n <= |p.questionOrder|
    requires forall k | 0 <= k < n :: p.questionOrder[k] != c
    ensures At(QuestionsTo(t, p, n, cfg, carNames).questions, c) == At(t.questions, c)
  {
    if n == 0 {
      assert QuestionsTo(t, p, n, cfg, carNames) == t;
    } else {
      UnreachedRow(t, p, n - 1, cfg, carNames, c);
      QuestionsNext(t, p, n, cfg, carNames);
      var code := p.questionOrder[n - 1];
      RowStep(QuestionsTo(t, p, n - 1, cfg, carNames), code, p.questionByCode[code], n, cfg, carNames, c);
    }
    hide QuestionsTo, WriteQuestion, AuthoredRow, At, Skipped, Authored;
  }

  /** The last question written so far. */
  lemma JustWritten(t: Tables, p: Pool, n: nat, cfg: Config, carNames: set<string>)
    requires WellFormedPool(p) && 0 < n <= |p.questionOrder|
    ensures At(QuestionsTo(t, p, n, cfg, carNames).questions, p.questionOrder[n - 1]) == WrittenAt(t, p, cfg, n - 1)
  {
    var code := p.questionOrder[n - 1];
    QuestionsNext(t, p, n, cfg, carNames);
    RowStep(QuestionsTo(t, p, n - 1, cfg, carNames), code, p.questionByCode[code], n, cfg, carNames, code);
    UnreachedRow(t, p, n - 1, cfg, carNames, code);
    hide QuestionsTo, WriteQuestion, AuthoredRow, Owned;
  }

  lemma {:induction false} WrittenRow(t: Tables, p: Pool, n: nat, cfg: Config, carNames: set<string>, k: nat)
    requires WellFormedPool(p) && k < n <= |p.questionOrder|
    ensures At(QuestionsTo(t, p, n, cfg, carNames).questions, p.questionOrder[k]) == WrittenAt(t, p, cfg, k)
  {
    if k < n - 1 {
      var code := p.questionOrder[n - 1];
      QuestionsNext(t, p, n, cfg, carNames);
      assert p.questionOrder[k] != code;
      hide QuestionsTo, WriteQuestion, AuthoredRow, WrittenAt, WellFormedPool;
      RowStep(QuestionsTo(t, p, n - 1, cfg, carNames), code, p.questionByCode[code], n, cfg, carNames, p.questionOrder[k]);
      WrittenRow(t, p, n - 1, cfg, carNames, k);
    } else {
      JustWritten(t, p, n, cfg, carNames);
    }
  }

  lemma WrittenRowOf(t: Tables, p: Pool, cfg: Config, carNames: set<string>, c: string)
    requires WellFormedPool(p)
    ensures At(QuestionsTo(t, p, |p.questionOrder|, cfg, carNames).questions, c)
         == (if c in p.questionOrder then WrittenAt(t, p, cfg, IndexOf(p.questionOrder, c)) else At(t.questions, c))
  {
    var at := IndexOf(p.questionOrder, c);
    if at < 0 {
      UnreachedRow(t, p, |p.questionOrder|, cfg, carNames, c);
    } else {
      WrittenRow(t, p, |p.questionOrder|, cfg, carNames, at);
    }
    hide QuestionsTo, WrittenAt, Distinct, At;
  }

  lemma RowAfterRun(db: Db, p: Pool, cfg: Config, c: string)
    requires WellFormedPool(p)
    ensures At(Run(db, p, cfg).questions, c) == RowAfter(At(db.questions, c), c, p, cfg, c in LiveQuestions(db.facts, db.asks))
  {
    WrittenRowOf(Tables(db.questions, db.options, db.ticks), p, cfg, db.carNames, c);
    SettledAt(Written(db, p, cfg).questions, p, cfg, LiveQuestions(db.facts, db.asks), c);
    hide QuestionsTo, LiveQuestions, Swept, Revived, SweptGroups, Settled, IndexOf, Distinct, GroupsTo, BoundTo;
  }

  // ---- Options --------------------------------------------------------------------------------------------

  /** The row an authored list gives an option code; its last mention counts. */
  function Listed(listed: seq<SeedOption>, n: nat, code: string): Option<OptionRow>
    requires n <= |listed|
  {
    if n == 0 then None
    else if listed[n - 1].code == code then Some(OptionRow(listed[n - 1].labelEn, listed[n - 1].labelAr, n, true))
    else Listed(listed, n - 1, code)
  }

  function OptionAfter(row: Option<OptionRow>, listed: seq<SeedOption>, code: string): Option<OptionRow> {
    var authored := Listed(listed, |listed|, code);
    if authored.Some? then authored
    else if row.Some? then Some(row.value.(isActive := false))
    else None
  }

  lemma {:induction false} ListedIffCode(listed: seq<SeedOption>, n: nat, code: string)
    requires n <= |listed|
    ensures Listed(listed, n, code).Some? <==> exists i :: 0 <= i < n && listed[i].code == code
  {
    if n > 0 {
      ListedIffCode(listed, n - 1, code);
      if listed[n - 1].code == code { assert listed[n - 1].code == code; }
    }
  }

  lemma {:induction false} OptionsToAt(options: OptionTable, q: string, listed: seq<SeedOption>, n: nat, key: OptionKey)
    requires n <= |listed|
    ensures At(OptionsTo(options, q, listed, n), key)
         == (if key.questionCode == q && Listed(listed, n, key.code).Some? then Listed(listed, n, key.code) else At(options, key))
  {
    if n > 0 { OptionsToAt(options, q, listed, n - 1, key); }
  }

  lemma OptionsWrittenAt(options: OptionTable, q: string, listed: seq<SeedOption>, key: OptionKey)
    ensures At(OptionsWritten(options, q, listed), key)
         == (if key.questionCode == q then OptionAfter(At(options, key), listed, key.code) else At(options, key))
  {
    OptionsToAt(options, q, listed, |listed|, key);
    ListedIffCode(listed, |listed|, key.code);
    var codes := OptionCodes(listed);
    assert key.code in codes <==> exists i :: 0 <= i < |listed| && listed[i].code == key.code by {
      if i :| 0 <= i < |listed| && listed[i].code == key.code { assert codes[i] in codes; }
    }
  }

  /** One question written: only its own options change. */
  lemma OptionStep(t: Tables, code: string, q: MergedQuestion, displayOrder: nat, cfg: Config, carNames: set<string>,
                   key: OptionKey)
    ensures At(WriteQuestion(t, code, q, displayOrder, cfg, carNames).options, key)
         == (if key.questionCode != code || Skipped(t, code, cfg) then At(t.options, key)
             else OptionAfter(At(t.options, key), q.options, key.code))
  {
    OptionsWrittenAt(t.options, code, q.options, key);
    hide OptionsWritten, OptionAfter, At;
  }

  lemma QuestionsNext(t: Tables, p: Pool, n: nat, cfg: Config, carNames: set<string>)
    requires Authored(p) && 0 < n <= |p.questionOrder|
    ensures var code := p.questionOrder[n - 1];
      && code in p.questionByCode
      && QuestionsTo(t, p, n, cfg, carNames)
         == WriteQuestion(QuestionsTo(t, p, n - 1, cfg, carNames), code, p.questionByCode[code], n, cfg, carNames)
  {
    hide WriteQuestion;
  }

  lemma {:induction false} UnreachedOption(t: Tables, p: Pool, n: nat, cfg: Config, carNames: set<string>,
                                           key: OptionKey)
    requires Authored(p) && n <= |p.questionOrder|
    requires forall k | 0 <= k < n :: p.questionOrder[k] != key.questionCode
    ensures At(QuestionsTo(t, p, n, cfg, carNames).options, key) == At(t.options, key)
  {
    if n == 0 {
      assert QuestionsTo(t, p, n, cfg, carNames) == t;
    } else {
      UnreachedOption(t, p, n - 1, cfg, carNames, key);
      QuestionsNext(t, p, n, cfg, carNames);
      var code := p.questionOrder[n - 1];
      OptionStep(QuestionsTo(t, p, n - 1, cfg, carNames), code, p.questionByCode[code], n, cfg, carNames, key);
    }
    hide QuestionsTo, WriteQuestion, OptionAfter, At, Skipped, Authored;
  }

  lemma {:induction false} WrittenOption(t: Tables, p: Pool, n: nat, cfg: Config, carNames: set<string>, k: nat,
                                         key: OptionKey)
    requires Authored(p) && Distinct(p.questionOrder) && k < n <= |p.questionOrder| && key.questionCode == p.questionOrder[k]
    ensures key.questionCode in p.questionByCode
    ensures At(QuestionsTo(t, p, n, cfg, carNames).options, key)
         == (if Skipped(t, key.questionCode, cfg) then At(t.options, key)
             else OptionAfter(At(t.options, key), p.questionByCode[key.questionCode].options, key.code))
  {
    var code := p.questionOrder[n - 1];
    QuestionsNext(t, p, n, cfg, carNames);
    OptionStep(QuestionsTo(t, p, n - 1, cfg, carNames), code, p.questionByCode[code], n, cfg, carNames, key);
    if k < n - 1 {
      WrittenOption(t, p, n - 1, cfg, carNames, k, key);
    } else {
      UnreachedOption(t, p, n - 1, cfg, carNames, key);
      StillSkipped(t, p, n - 1, cfg, carNames);
    }
    hide QuestionsTo, WriteQuestion, OptionAfter, Skipped, At, Authored;
  }

  /** Whether a question is skipped is settled before the loop reaches it. */
  lemma StillSkipped(t: Tables, p: Pool, n: nat, cfg: Config, carNames: set<string>)
    requires Authored(p) && Distinct(p.questionOrder) && n < |p.questionOrder|
    ensures Skipped(QuestionsTo(t, p, n, cfg, carNames), p.questionOrder[n], cfg) <==> Skipped(t, p.questionOrder[n], cfg)
  {
    UnreachedRow(t, p, n, cfg, carNames, p.questionOrder[n]);
    hide QuestionsTo, Authored, Owned;
  }

  /** Options after a run: those of a question the seeder may rewrite are the authored list, the rest off. */
  lemma OptionAfterRun(db: Db, p: Pool, cfg: Config, key: OptionKey)
    requires WellFormedPool(p)
    ensures At(Run(db, p, cfg).options, key)
         == (if key.questionCode !in p.questionOrder
                || (key.questionCode in db.questions && Owned(db.questions[key.questionCode], key.questionCode in cfg.car))
             then At(db.options, key)
             else OptionAfter(At(db.options, key), p.questionByCode[key.questionCode].options, key.code))
  {
    var t := Tables(db.questions, db.options, db.ticks);
    var at := IndexOf(p.questionOrder, key.questionCode);
    if at < 0 {
      UnreachedOption(t, p, |p.questionOrder|, cfg, db.carNames, key);
    } else {
      WrittenOption(t, p, |p.questionOrder|, cfg, db.carNames, at, key);
    }
    hide QuestionsTo, LiveQuestions, WellFormedPool, GroupsTo, BoundTo, OptionAfter, Revived, Swept, SweptGroups;
  }

  // ---- Groups ---------------------------------------------------------------------------------------------

  ghost function GroupAfter(row: Option<GroupRow>, code: string, p: Pool): Option<GroupRow>
    requires Authored(p)
  {
    var at := IndexOf(p.groupOrder, code);
    if at >= 0 then Some(GroupRow(p.groupByCode[code].title, at + 1, true))
    else if row.Some? then Some(row.value.(isActive := false))
    else None
  }

  lemma {:induction false} UnreachedGroup(rows: GroupTable, p: Pool, n: nat, code: string)
    requires WellFormedPool(p) && n <= |p.groupOrder|
    requires forall k | 0 <= k < n :: p.groupOrder[k] != code
    ensures At(GroupsTo(rows, p, n), code) == At(rows, code)
  {
    if n > 0 { UnreachedGroup(rows, p, n - 1, code); }
  }

  lemma {:induction false} WrittenGroup(rows: GroupTable, p: Pool, n: nat, k: nat)
    requires WellFormedPool(p) && k < n <= |p.groupOrder|
    ensures At(GroupsTo(rows, p, n), p.groupOrder[k]) == Some(GroupRow(p.groupByCode[p.groupOrder[k]].title, k + 1, true))
  {
    if k < n - 1 { WrittenGroup(rows, p, n - 1, k); }
  }

  lemma GroupAfterRun(db: Db, p: Pool, cfg: Config, code: string)
    requires WellFormedPool(p)
    ensures At(Run(db, p, cfg).groups, code) == GroupAfter(At(db.groups, code), code, p)
  {
    var at := IndexOf(p.groupOrder, code);
    if at < 0 {
      UnreachedGroup(db.groups, p, |p.groupOrder|, code);
    } else {
      WrittenGroup(db.groups, p, |p.groupOrder|, at);
    }
    hide GroupsTo, Written, BoundTo, LiveQuestions, Revived, Swept;
  }

  // ---- Ticks ----------------------------------------------------------------------------------------------

  /** A tick the run adds: on a car question of the pool that was not stored, for every name offered under car. */
  predicate NewTick(questions: QuestionTable, p: Pool, cfg: Config, carNames: set<string>, tick: Tick) {
    && tick.questionCode in p.questionOrder && tick.questionCode in cfg.car && tick.questionCode !in questions
    && tick.programName in carNames
  }

  lemma {:induction false} UnreachedTick(t: Tables, p: Pool, n: nat, cfg: Config, carNames: set<string>, tick: Tick)
    requires WellFormedPool(p) && n <= |p.questionOrder|
    requires forall k | 0 <= k < n :: p.questionOrder[k] != tick.questionCode
    ensures tick in QuestionsTo(t, p, n, cfg, carNames).ticks <==> tick in t.ticks
  {
    hide OptionsWritten;
    if n > 0 { UnreachedTick(t, p, n - 1, cfg, carNames, tick); }
  }

  lemma {:induction false} WrittenTick(t: Tables, p: Pool, n: nat, cfg: Config, carNames: set<string>, k: nat,
                                       tick: Tick)
    requires WellFormedPool(p) && k < n <= |p.questionOrder| && tick.questionCode == p.questionOrder[k]
    ensures tick in QuestionsTo(t, p, n, cfg, carNames).ticks <==> tick in t.ticks || NewTick(t.questions, p, cfg, carNames, tick)
  {
    hide OptionsWritten;
    if k < n - 1 {
      WrittenTick(t, p, n - 1, cfg, carNames, k, tick);
    } else {
      UnreachedTick(t, p, n - 1, cfg, carNames, tick);
      UnreachedRow(t, p, n - 1, cfg, carNames, tick.questionCode);
    }
  }

  lemma TicksAfterRun(db: Db, p: Pool, cfg: Config, tick: Tick)
    requires WellFormedPool(p)
    ensures tick in Run(db, p, cfg).ticks <==> tick in db.ticks || NewTick(db.questions, p, cfg, db.carNames, tick)
  {
    var t := Tables(db.questions, db.options, db.ticks);
    var at := IndexOf(p.questionOrder, tick.questionCode);
    if at < 0 {
      UnreachedTick(t, p, |p.questionOrder|, cfg, db.carNames, tick);
    } else {
      WrittenTick(t, p, |p.questionOrder|, cfg, db.carNames, at, tick);
    }
    hide QuestionsTo, LiveQuestions, Swept, Revived, SweptGroups, IndexOf, Distinct, GroupsTo, BoundTo;
  }

  // ---- Facts ----------------------------------------------------------------------------------------------

  /** The question the last applicable unconditional binding gives a fact. */
  function LastAlways(key: string, known: set<string>, bindings: seq<Binding>, n: nat): Option<string>
    requires n <= |bindings|
  {
    if n == 0 then None
    else
      var b := bindings[n - 1];
      if b.Always? && b.factKey == key && b.questionCode in known then Some(b.questionCode) else LastAlways(key, known, bindings, n - 1)
  }

  function FirstWhenUnbound(key: string, known: set<string>, bindings: seq<Binding>, n: nat): Option<string>
    requires n <= |bindings|
  {
    if n == 0 then None
    else
      var first := FirstWhenUnbound(key, known, bindings, n - 1);
      var b := bindings[n - 1];
      if first.None? && b.WhenUnbound? && b.factKey == key && b.questionCode in known then Some(b.questionCode) else first
  }

  predicate MadeSystemOnly(key: string, known: set<string>, bindings: seq<Binding>, n: nat)
    requires n <= |bindings|
  {
    exists i :: 0 <= i < n && bindings[i].Always? && bindings[i].factKey == key && bindings[i].questionCode in known && bindings[i].systemOnly
  }

  function FactAfter(row: Option<FactRow>, key: string, known: set<string>, bindings: seq<Binding>,
                     n: nat): Option<FactRow>
    requires n <= |bindings|
  {
    var always := LastAlways(key, known, bindings, n);
    if always.Some? then
      Some(FactRow(always, true, false, (row.Some? && row.value.systemOnly) || MadeSystemOnly(key, known, bindings, n)))
    else if row.Some? && row.value.boundQuestion.None? then
      Some(row.value.(boundQuestion := FirstWhenUnbound(key, known, bindings, n)))
    else row
  }

  lemma {:induction false} BoundToAt(facts: FactTable, known: set<string>, bindings: seq<Binding>, n: nat, key: string)
    requires n <= |bindings|
    ensures At(BoundTo(facts, known, bindings, n), key) == FactAfter(At(facts, key), key, known, bindings, n)
  {
    if n > 0 {
      BoundToAt(facts, known, bindings, n - 1, key);
      if LastAlways(key, known, bindings, n - 1).None? { NoneMadeSystemOnly(key, known, bindings, n - 1); }
    }
  }

  lemma {:induction false} NoneMadeSystemOnly(key: string, known: set<string>, bindings: seq<Binding>, n: nat)
    requires n <= |bindings| && LastAlways(key, known, bindings, n).None?
    ensures !MadeSystemOnly(key, known, bindings, n)
  {
    if n > 0 { NoneMadeSystemOnly(key, known, bindings, n - 1); }
  }

  lemma BindingSettles(facts: FactTable, known: set<string>, bindings: seq<Binding>)
    ensures var once := BoundTo(facts, known, bindings, |bindings|);
            BoundTo(once, known, bindings, |bindings|) == once
  {
    var once := BoundTo(facts, known, bindings, |bindings|);
    var twice := BoundTo(once, known, bindings, |bindings|);
    forall key ensures At(twice, key) == At(once, key) {
      BoundToAt(facts, known, bindings, |bindings|, key);
      BoundToAt(once, known, bindings, |bindings|, key);
    }
    SameTable(twice, once);
  }

  // ---- One run, two runs ----------------------------------------------------------------------------------

  /** No run creates a question but those of the pool, and none removes one. */
  lemma QuestionsKnown(db: Db, p: Pool, cfg: Config)
    requires WellFormedPool(p)
    ensures Written(db, p, cfg).questions.Keys == db.questions.Keys + Elements(p.questionOrder)
    ensures Run(db, p, cfg).questions.Keys == db.questions.Keys + Elements(p.questionOrder)
  {
    forall c ensures c in Written(db, p, cfg).questions <==> c in db.questions || c in p.questionOrder {
      WrittenRowOf(Tables(db.questions, db.options, db.ticks), p, cfg, db.carNames, c);
      hide QuestionsTo, WellFormedPool, AuthoredRow, Run, GroupsTo, BoundTo, OptionAfter;
    }
    KeysKept(Written(db, p, cfg).questions, p, cfg, LiveQuestions(db.facts, db.asks));
    hide Written, LiveQuestions, Swept, Revived;
  }

  /** The bindings a run will leave, told from the tables before it. */
  ghost function FactsToBe(db: Db, p: Pool, cfg: Config): FactTable {
    BoundTo(db.facts, db.questions.Keys + Elements(p.questionOrder), cfg.bindings, |cfg.bindings|)
  }

  /** Whether a second run would leave a stored question as the first did: fixed ones always, car ones unless the
      first run's own bindings are what switches them on, the rest when the pool names them or the bindings agree. */
  predicate Repeats(row: QuestionRow, inPool: bool, isCar: bool, liveBefore: bool, liveAfter: bool) {
    || row.fixedServedOn.Some?
    || (if isCar then row.isActive || liveBefore || !liveAfter else inPool || liveBefore == liveAfter)
  }

  ghost predicate EveryRowRepeats(db: Db, p: Pool, cfg: Config) {
    var before := LiveQuestions(db.facts, db.asks);
    var after := LiveQuestions(FactsToBe(db, p, cfg), db.asks);
    forall c | c in db.questions ::
      Repeats(db.questions[c], c in p.questionOrder, c in cfg.car, c in before, c in after)
  }

  lemma RowRepeats(row: Option<QuestionRow>, c: string, p: Pool, cfg: Config, liveBefore: bool, liveAfter: bool)
    requires WellFormedPool(p)
    ensures RowAfter(RowAfter(row, c, p, cfg, liveBefore), c, p, cfg, liveAfter) == RowAfter(row, c, p, cfg, liveBefore)
       <==> row.None? || Repeats(row.value, c in p.questionOrder, c in cfg.car, liveBefore, liveAfter)
  {
    var at := IndexOf(p.questionOrder, c);
    hide IndexOf, Distinct;
  }

  lemma GroupsSettle(db: Db, p: Pool, cfg: Config)
    requires WellFormedPool(p)
    ensures Run(Run(db, p, cfg), p, cfg).groups == Run(db, p, cfg).groups
  {
    var once := Run(db, p, cfg);
    forall c ensures At(Run(once, p, cfg).groups, c) == At(once.groups, c) {
      GroupAfterRun(db, p, cfg, c);
      GroupAfterRun(once, p, cfg, c);
    }
    SameTable(Run(once, p, cfg).groups, once.groups);
  }

  lemma OptionSettles(db: Db, p: Pool, cfg: Config, key: OptionKey)
    requires WellFormedPool(p)
    ensures At(Run(Run(db, p, cfg), p, cfg).options, key) == At(Run(db, p, cfg).options, key)
  {
    var once := Run(db, p, cfg);
    OptionAfterRun(db, p, cfg, key);
    OptionAfterRun(once, p, cfg, key);
    RowAfterRun(db, p, cfg, key.questionCode);
    hide Run, Settled, IndexOf, Listed, Distinct;
  }

  lemma OptionsSettle(db: Db, p: Pool, cfg: Config)
    requires WellFormedPool(p)
    ensures Run(Run(db, p, cfg), p, cfg).options == Run(db, p, cfg).options
  {
    forall key ensures At(Run(Run(db, p, cfg), p, cfg).options, key) == At(Run(db, p, cfg).options, key) {
      OptionSettles(db, p, cfg, key);
    }
    hide Run, At;
    SameTable(Run(Run(db, p, cfg), p, cfg).options, Run(db, p, cfg).options);
  }

  lemma TicksSettle(db: Db, p: Pool, cfg: Config)
    requires WellFormedPool(p)
    ensures Run(Run(db, p, cfg), p, cfg).ticks == Run(db, p, cfg).ticks
  {
    var once := Run(db, p, cfg);
    QuestionsKnown(db, p, cfg);
    forall tick ensures tick in Run(once, p, cfg).ticks <==> tick in once.ticks {
      TicksAfterRun(once, p, cfg, tick);
      hide Run, Distinct;
    }
  }

  lemma FactsSettle(db: Db, p: Pool, cfg: Config)
    requires WellFormedPool(p)
    ensures Run(db, p, cfg).facts == FactsToBe(db, p, cfg)
    ensures Run(Run(db, p, cfg), p, cfg).facts == Run(db, p, cfg).facts
  {
    QuestionsKnown(db, p, cfg);
    QuestionsKnown(Run(db, p, cfg), p, cfg);
    var known := db.questions.Keys + Elements(p.questionOrder);
    assert known + Elements(p.questionOrder) == known;
    BindingSettles(db.facts, known, cfg.bindings);
    hide QuestionsTo, Swept, Revived, SweptGroups, LiveQuestions, BoundTo, GroupsTo, Distinct;
  }

  lemma QuestionsSettleExactly(db: Db, p: Pool, cfg: Config)
    requires WellFormedPool(p)
    ensures Run(Run(db, p, cfg), p, cfg).questions == Run(db, p, cfg).questions <==> EveryRowRepeats(db, p, cfg)
  {
    var once := Run(db, p, cfg);
    var twice := Run(once, p, cfg);
    var before := LiveQuestions(db.facts, db.asks);
    var after := LiveQuestions(FactsToBe(db, p, cfg), db.asks);
    FactsSettle(db, p, cfg);
    forall c
      ensures At(twice.questions, c) == At(once.questions, c)
         <==> c !in db.questions || Repeats(db.questions[c], c in p.questionOrder, c in cfg.car, c in before, c in after)
    {
      RowAfterRun(db, p, cfg, c);
      RowAfterRun(once, p, cfg, c);
      RowRepeats(At(db.questions, c), c, p, cfg, c in before, c in after);
      hide RowAfter, LiveQuestions, Repeats, FactsToBe, Written, BoundTo, Swept, Revived, GroupsTo, SweptGroups;
    }
    hide Run, LiveQuestions, Repeats, FactsToBe;
    if EveryRowRepeats(db, p, cfg) {
      SameTable(twice.questions, once.questions);
    }
  }

  /** Two runs leave the tables as one does exactly when every stored question repeats; all tables but the
      questions always do. */
  lemma TwoRunsAreOneExactly(db: Db, p: Pool, cfg: Config)
    requires WellFormedPool(p)
    ensures var once := Run(db, p, cfg);
      && Run(once, p, cfg) == once.(questions := Run(once, p, cfg).questions)
      && (Run(once, p, cfg) == once <==> EveryRowRepeats(db, p, cfg))
  {
    GroupsSettle(db, p, cfg);
    OptionsSettle(db, p, cfg);
    TicksSettle(db, p, cfg);
    FactsSettle(db, p, cfg);
    QuestionsSettleExactly(db, p, cfg);
    hide QuestionsTo, Swept, Revived, SweptGroups, LiveQuestions, BoundTo, GroupsTo, Distinct, Written, EveryRowRepeats;
  }

  /** Whatever the tables were, a third run changes nothing. */
  lemma ThirdRunChangesNothing(db: Db, p: Pool, cfg: Config)
    requires WellFormedPool(p)
    ensures var twice := Run(Run(db, p, cfg), p, cfg);
            Run(twice, p, cfg) == twice
  {
    var once := Run(db, p, cfg);
    assert EveryRowRepeats(once, p, cfg) by {
      FactsSettle(db, p, cfg);
      FactsSettle(once, p, cfg);
      hide Run, LiveQuestions, FactsToBe;
    }
    TwoRunsAreOneExactly(once, p, cfg);
  }

  predicate IsAsked(questions: QuestionTable, c: string) { c in questions && questions[c].isActive }

  // ---- What one run leaves --------------------------------------------------------------------------------

  /** A question already marked fixed keeps its row and all its options, whatever the pool says. */
  lemma FixedIsUntouched(db: Db, p: Pool, cfg: Config, c: string, code: string)
    requires WellFormedPool(p) && c in db.questions && db.questions[c].fixedServedOn.Some?
    ensures At(Run(db, p, cfg).questions, c) == At(db.questions, c)
    ensures At(Run(db, p, cfg).options, OptionKey(c, code)) == At(db.options, OptionKey(c, code))
  {
    RowAfterRun(db, p, cfg, c);
    OptionAfterRun(db, p, cfg, OptionKey(c, code));
    hide Run, IndexOf, Distinct, OptionAfter, LiveQuestions;
  }

  /** Afterwards a question that is neither fixed nor a car question is asked exactly when the pool names it or some
      ask that is not detached names a fact bound to it before the run. */
  lemma ActiveExactly(db: Db, p: Pool, cfg: Config, c: string)
    requires WellFormedPool(p) && c in Run(db, p, cfg).questions && c !in cfg.car
    requires Run(db, p, cfg).questions[c].fixedServedOn.None?
    ensures Run(db, p, cfg).questions[c].isActive
       <==> c in p.questionOrder
            || exists a :: a in db.asks && !a.detached && a.factKey in db.facts && db.facts[a.factKey].boundQuestion == Some(c)
  {
    RowAfterRun(db, p, cfg, c);
    LiveExactly(db.facts, db.asks, c);
    hide Run, IndexOf, Distinct, LiveQuestions;
  }

  /** A question outside the pool all of whose asks are detached is off afterwards. */
  lemma DetachedAsksReviveNothing(db: Db, p: Pool, cfg: Config, c: string)
    requires WellFormedPool(p) && c in db.questions && c !in p.questionOrder && c !in cfg.car && db.questions[c].fixedServedOn.None?
    requires forall a | a in db.asks && a.factKey in db.facts && db.facts[a.factKey].boundQuestion == Some(c) :: a.detached
    ensures c in Run(db, p, cfg).questions && Run(db, p, cfg).questions[c] == db.questions[c].(isActive := false)
  {
    RowAfterRun(db, p, cfg, c);
    LiveExactly(db.facts, db.asks, c);
    hide Run, IndexOf, Distinct, LiveQuestions;
  }

  /** A stored car question keeps its row and its ticks, but for one thing: a run switches it on exactly when it is
      not fixed and was bound, before the run, to a fact some product still asks. One the pool inserts starts active
      and ticked on every car name. */
  lemma CarQuestionsAreTheAdmins(db: Db, p: Pool, cfg: Config, c: string, name: string)
    requires WellFormedPool(p) && c in cfg.car
    ensures var after := Run(db, p, cfg);
      && (c in db.questions ==>
            && c in after.questions
            && after.questions[c] == db.questions[c].(isActive := after.questions[c].isActive)
            && (after.questions[c].isActive <==>
                  db.questions[c].isActive
                  || (db.questions[c].fixedServedOn.None?
                      && exists a :: a in db.asks && !a.detached && a.factKey in db.facts && db.facts[a.factKey].boundQuestion == Some(c)))
            && (Tick(name, c) in after.ticks <==> Tick(name, c) in db.ticks))
      && (c !in db.questions && c in p.questionOrder ==>
            && c in after.questions && after.questions[c].isActive
            && (Tick(name, c) in after.ticks <==> Tick(name, c) in db.ticks || name in db.carNames))
  {
    RowAfterRun(db, p, cfg, c);
    LiveExactly(db.facts, db.asks, c);
    TicksAfterRun(db, p, cfg, Tick(name, c));
    hide Run, LiveQuestions, Distinct, IndexOf;
  }

  /** The published snapshot serves a revived question outside the pool exactly when the pool keeps its group: the
      revival puts questions back, never the groups the same run sweeps. */
  lemma RevivedIsServedExactly(db: Db, p: Pool, cfg: Config, c: string, snapshot: seq<Snapshots.ServedGroup>)
    requires WellFormedPool(p) && c in db.questions && c !in p.questionOrder && c !in cfg.car
    requires db.questions[c].fixedServedOn.None?
    requires exists a :: a in db.asks && !a.detached && a.factKey in db.facts && db.facts[a.factKey].boundQuestion == Some(c)
    requires var after := Run(db, p, cfg); Snapshots.ServesAll(snapshot, after.groups, after.questions, after.options)
    ensures IsAsked(Run(db, p, cfg).questions, c)
    ensures Snapshots.Asks(snapshot, db.questions[c].groupCode, c) <==> db.questions[c].groupCode in p.groupOrder
  {
    var group := db.questions[c].groupCode;
    var after := Run(db, p, cfg);
    RowAfterRun(db, p, cfg, c);
    LiveExactly(db.facts, db.asks, c);
    GroupAfterRun(db, p, cfg, group);
    Snapshots.AsksExactly(snapshot, after.groups, after.questions, after.options, group, c);
    hide Run, IndexOf, Distinct, LiveQuestions, Snapshots.ServesAll, Snapshots.Asks;
  }

  /** Every option a written question lists is active in the listed place; any other stored one is off and otherwise kept. */
  lemma OptionsFollowTheList(db: Db, p: Pool, cfg: Config, c: string, k: nat, code: string)
    requires WellFormedPool(p) && c in p.questionOrder && !(c in db.questions && (db.questions[c].fixedServedOn.Some? || c in cfg.car))
    requires Distinct(OptionCodes(p.questionByCode[c].options)) && k < |p.questionByCode[c].options|
    ensures var listed := p.questionByCode[c].options;
      && At(Run(db, p, cfg).options, OptionKey(c, listed[k].code)) == Some(OptionRow(listed[k].labelEn, listed[k].labelAr, k + 1, true))
      && (code !in OptionCodes(listed) ==>
            At(Run(db, p, cfg).options, OptionKey(c, code))
            == if OptionKey(c, code) in db.options then Some(db.options[OptionKey(c, code)].(isActive := false)) else None)
  {
    var listed := p.questionByCode[c].options;
    OptionAfterRun(db, p, cfg, OptionKey(c, listed[k].code));
    OptionAfterRun(db, p, cfg, OptionKey(c, code));
    ListedAtIndex(listed, |listed|, k);
    ListedIffCode(listed, |listed|, code);
    hide Run, Distinct, IndexOf, Listed;
    if i :| 0 <= i < |listed| && listed[i].code == code { assert OptionCodes(listed)[i] == code; }
  }

  lemma {:induction false} ListedAtIndex(listed: seq<SeedOption>, n: nat, k: nat)
    requires k < n <= |listed| && Distinct(OptionCodes(listed))
    ensures Listed(listed, n, listed[k].code) == Some(OptionRow(listed[k].labelEn, listed[k].labelAr, k + 1, true))
  {
    if k < n - 1 {
      assert OptionCodes(listed)[k] != OptionCodes(listed)[n - 1];
      ListedAtIndex(listed, n - 1, k);
    }
  }

  /** Options of a question outside the pool, or of one the seeder may not rewrite, stay as they were. */
  lemma OtherOptionsStay(db: Db, p: Pool, cfg: Config, key: OptionKey)
    requires WellFormedPool(p)
    requires key.questionCode !in p.questionOrder
      || (key.questionCode in db.questions && (db.questions[key.questionCode].fixedServedOn.Some? || key.questionCode in cfg.car))
    ensures At(Run(db, p, cfg).options, key) == At(db.options, key)
  {
    OptionAfterRun(db, p, cfg, key);
    hide Run, OptionAfter;
  }

  /** The `k`-th question of the pool, unless the seeder may not rewrite it, is stored as the pool has it, in its
      place and active; only a new one can be marked fixed, where the first-run table says so. */
  lemma QuestionsFollowThePool(db: Db, p: Pool, cfg: Config, k: nat)
    requires WellFormedPool(p) && k < |p.questionOrder|
    requires var c := p.questionOrder[k]; !(c in db.questions && (db.questions[c].fixedServedOn.Some? || c in cfg.car))
    ensures var c, after := p.questionOrder[k], Run(db, p, cfg).questions;
      && c in after && c in p.questionByCode
      && after[c].groupCode == p.questionByCode[c].groupCode && after[c].content == p.questionByCode[c].content
      && after[c].enabledWhen == p.questionByCode[c].enabledWhen && after[c].displayOrder == k + 1 && after[c].isActive
      && after[c].fixedServedOn == if c !in db.questions && c in cfg.firstRun then Some(cfg.firstRun[c]) else None
  {
    var c := p.questionOrder[k];
    RowAfterRun(db, p, cfg, c);
    assert IndexOf(p.questionOrder, c) == k;
    hide Run, IndexOf, Distinct, LiveQuestions;
  }

  /** A stored question outside the pool keeps everything but whether it is active, and no other question appears. */
  lemma OtherQuestionsKeepTheirRows(db: Db, p: Pool, cfg: Config, c: string)
    requires WellFormedPool(p) && c !in p.questionOrder
    ensures var after := Run(db, p, cfg).questions;
      && (c in after <==> c in db.questions)
      && (c in after ==> after[c] == db.questions[c].(isActive := after[c].isActive))
  {
    RowAfterRun(db, p, cfg, c);
    hide Run, IndexOf, Distinct, LiveQuestions;
  }

  /** The groups of the pool are stored in their places and active; every other stored group is off and otherwise kept. */
  lemma GroupsFollowThePool(db: Db, p: Pool, cfg: Config, k: nat, g: string)
    requires WellFormedPool(p)
    ensures var after := Run(db, p, cfg).groups;
      && (k < |p.groupOrder| ==>
            && p.groupOrder[k] in p.groupByCode && p.groupOrder[k] in after
            && after[p.groupOrder[k]] == GroupRow(p.groupByCode[p.groupOrder[k]].title, k + 1, true))
      && (g in after <==> g in db.groups || g in p.groupOrder)
      && (g in after && g !in p.groupOrder ==> after[g] == db.groups[g].(isActive := false))
  {
    GroupAfterRun(db, p, cfg, g);
    if k < |p.groupOrder| {
      GroupAfterRun(db, p, cfg, p.groupOrder[k]);
      assert IndexOf(p.groupOrder, p.groupOrder[k]) == k;
    }
    hide Run, IndexOf, Distinct;
  }

  /** Ticks are only added: on a car question that was not stored, for every name offered under car. */
  lemma TicksFollowTheNewCarQuestions(db: Db, p: Pool, cfg: Config, name: string, c: string)
    requires WellFormedPool(p)
    ensures Tick(name, c) in Run(db, p, cfg).ticks
       <==> Tick(name, c) in db.ticks || (c in p.questionOrder && c in cfg.car && c !in db.questions && name in db.carNames)
  {
    TicksAfterRun(db, p, cfg, Tick(name, c));
    hide Run;
  }

  // ---- The facts, binding by binding ------------------------------------------------------------------------

  /** A binding of the fact at a question that is stored or in the pool. */
  ghost predicate Applies(b: Binding, key: string, db: Db, p: Pool) {
    b.factKey == key && (b.questionCode in db.questions || b.questionCode in p.questionOrder)
  }

  predicate Concerns(b: Binding, key: string, known: set<string>) { b.factKey == key && b.questionCode in known }

  lemma {:induction false} LastAlwaysExactly(key: string, known: set<string>, bindings: seq<Binding>, n: nat, i: nat)
    requires i < n <= |bindings| && bindings[i].Always? && Concerns(bindings[i], key, known)
    requires forall j | i < j < n && bindings[j].Always? :: !Concerns(bindings[j], key, known)
    ensures LastAlways(key, known, bindings, n) == Some(bindings[i].questionCode)
  {
    if i < n - 1 { LastAlwaysExactly(key, known, bindings, n - 1, i); }
  }

  lemma {:induction false} NoAlways(key: string, known: set<string>, bindings: seq<Binding>, n: nat)
    requires n <= |bindings| && forall j | 0 <= j < n && bindings[j].Always? :: !Concerns(bindings[j], key, known)
    ensures LastAlways(key, known, bindings, n).None?
  {
    if n > 0 { NoAlways(key, known, bindings, n - 1); }
  }

  /** The first of the conditional bindings among the first `n`, `i` being its place, or `n` when there is none. */
  lemma {:induction false} FirstWhenUnboundExactly(key: string, known: set<string>, bindings: seq<Binding>, n: nat, i: nat)
    requires n <= |bindings|
    requires forall j | 0 <= j < i && j < n && bindings[j].WhenUnbound? :: !Concerns(bindings[j], key, known)
    requires i < n ==> bindings[i].WhenUnbound? && Concerns(bindings[i], key, known)
    ensures FirstWhenUnbound(key, known, bindings, n) == if i < n then Some(bindings[i].questionCode) else None
  {
    if n > 0 { FirstWhenUnboundExactly(key, known, bindings, n - 1, i); }
  }

  /** The last unconditional binding of a fact that applies decides it, and makes it active; the fact is for the system
      alone when it was or any such binding says so. */
  lemma LastBindingDecides(db: Db, p: Pool, cfg: Config, key: string, i: nat)
    requires WellFormedPool(p) && i < |cfg.bindings| && cfg.bindings[i].Always? && Applies(cfg.bindings[i], key, db, p)
    requires forall j | i < j < |cfg.bindings| && cfg.bindings[j].Always? :: !Applies(cfg.bindings[j], key, db, p)
    ensures var after := Run(db, p, cfg).facts;
      && key in after && after[key].boundQuestion == Some(cfg.bindings[i].questionCode) && after[key].active && !after[key].deprecated
      && (after[key].systemOnly <==>
            (key in db.facts && db.facts[key].systemOnly)
            || exists j :: 0 <= j < |cfg.bindings| && cfg.bindings[j].Always? && Applies(cfg.bindings[j], key, db, p) && cfg.bindings[j].systemOnly)
  {
    var known := db.questions.Keys + Elements(p.questionOrder);
    FactsSettle(db, p, cfg);
    BoundToAt(db.facts, known, cfg.bindings, |cfg.bindings|, key);
    LastAlwaysExactly(key, known, cfg.bindings, |cfg.bindings|, i);
    hide Run, BoundTo, LastAlways, FirstWhenUnbound, WellFormedPool;
  }

  /** Without one, a fact is never created and a bound one is left alone; an unbound one is given to the first
      conditional binding that applies, if any. */
  lemma UnboundFactsAreBoundOnce(db: Db, p: Pool, cfg: Config, key: string, i: nat)
    requires WellFormedPool(p) && forall j | 0 <= j < |cfg.bindings| && cfg.bindings[j].Always? :: !Applies(cfg.bindings[j], key, db, p)
    ensures var after := Run(db, p, cfg).facts;
      && (key in after <==> key in db.facts)
      && (key in db.facts && db.facts[key].boundQuestion.Some? ==> after[key] == db.facts[key])
      && (key in db.facts && db.facts[key].boundQuestion.None? ==>
            && (i < |cfg.bindings| && cfg.bindings[i].WhenUnbound? && Applies(cfg.bindings[i], key, db, p)
                && (forall j | 0 <= j < i && cfg.bindings[j].WhenUnbound? :: !Applies(cfg.bindings[j], key, db, p)) ==>
                  after[key] == db.facts[key].(boundQuestion := Some(cfg.bindings[i].questionCode)))
            && ((forall j | 0 <= j < |cfg.bindings| && cfg.bindings[j].WhenUnbound? :: !Applies(cfg.bindings[j], key, db, p)) ==>
                  after[key] == db.facts[key]))
  {
    var known := db.questions.Keys + Elements(p.questionOrder);
    FactsSettle(db, p, cfg);
    BoundToAt(db.facts, known, cfg.bindings, |cfg.bindings|, key);
    NoAlways(key, known, cfg.bindings, |cfg.bindings|);
    hide Run, BoundTo, LastAlways, FirstWhenUnbound, WellFormedPool;
    if forall j | 0 <= j < |cfg.bindings| && cfg.bindings[j].WhenUnbound? :: !Applies(cfg.bindings[j], key, db, p) {
      FirstWhenUnboundExactly(key, known, cfg.bindings, |cfg.bindings|, |cfg.bindings|);
    }
    if i < |cfg.bindings| && cfg.bindings[i].WhenUnbound? && Applies(cfg.bindings[i], key, db, p)
       && forall j | 0 <= j < i && cfg.bindings[j].WhenUnbound? :: !Applies(cfg.bindings[j], key, db, p)
    {
      FirstWhenUnboundExactly(key, known, cfg.bindings, |cfg.bindings|, i);
    }
  }

  /** What the revival pass counts: questions a live ask reads that the sweep had left off, namely car questions that
      were off before and other questions outside the pool. */
  lemma CountedAsRevived(db: Db, p: Pool, cfg: Config, c: string)
    requires WellFormedPool(p)
    ensures c in NewlyOn(db, p, cfg) <==>
      && c in db.questions && db.questions[c].fixedServedOn.None?
      && (if c in cfg.car then !db.questions[c].isActive else c !in p.questionOrder)
      && exists a :: a in db.asks && !a.detached && a.factKey in db.facts && db.facts[a.factKey].boundQuestion == Some(c)
  {
    WrittenRowOf(Tables(db.questions, db.options, db.ticks), p, cfg, db.carNames, c);
    LiveExactly(db.facts, db.asks, c);
    hide QuestionsTo, LiveQuestions, IndexOf, Distinct;
  }

  // ---- Where one run is not enough ------------------------------------------------------------------------

  const ANY := Content("SINGLE_SELECT", "", "", true)

  function Stored(active: bool): QuestionRow { QuestionRow("g", ANY, None, 1, active, None) }

  /** Tables with one ordinary question and one fact that one product asks. */
  function OneQuestion(c: string, active: bool, key: string, bound: Option<string>, product: string): Db {
    Db(map[], map[c := Stored(active)], map[], {}, map[key := FactRow(bound, true, false, false)], {Ask(product, key, false)}, {})
  }

  /** Where the seeder's bindings leave a fact when these questions and those of the pool are stored. */
  ghost function Rebound(key: string, stored: set<string>, p: Pool, cfg: Config): Option<string> {
    LastAlways(key, stored + Elements(p.questionOrder), cfg.bindings, |cfg.bindings|)
  }

  lemma OneLiveQuestion(facts: FactTable, key: string, product: string)
    requires key in facts
    ensures var asked := facts[key].boundQuestion;
            LiveQuestions(facts, {Ask(product, key, false)}) == if asked.Some? then {asked.value} else {}
  {
    var asks := {Ask(product, key, false)};
    assert Ask(product, key, false) in asks;
    assert forall a | a in asks :: a == Ask(product, key, false);
  }

  lemma ReboundAfterRun(db: Db, p: Pool, cfg: Config, key: string)
    requires WellFormedPool(p) && Rebound(key, db.questions.Keys, p, cfg).Some?
    ensures var once := Run(db, p, cfg);
            key in once.facts && once.facts[key].boundQuestion == Rebound(key, db.questions.Keys, p, cfg)
  {
    FactsSettle(db, p, cfg);
    BoundToAt(db.facts, db.questions.Keys + Elements(p.questionOrder), cfg.bindings, |cfg.bindings|, key);
    hide Run, BoundTo, LastAlways, Distinct;
  }

  /** The seeder does revive a car question: with any pool and any bindings, one that is stored switched off and
      read by a live ask is on after the run. */
  lemma CarQuestionComesBack(p: Pool, cfg: Config, c: string, key: string, product: string)
    requires WellFormedPool(p) && c in cfg.car
    ensures var db := OneQuestion(c, false, key, Some(c), product);
            !IsAsked(db.questions, c) && IsAsked(Run(db, p, cfg).questions, c)
  {
    var db := OneQuestion(c, false, key, Some(c), product);
    OneLiveQuestion(db.facts, key, product);
    CarQuestionsAreTheAdmins(db, p, cfg, c, "");
    hide Run, LiveQuestions, Distinct;
  }

  /** A switched-off car question that the seeder's own bindings point a fact at, with a product asking the fact and
      nothing bound to it yet: whatever the pool and the other bindings, the first run binds the fact after its
      revival pass, so the question comes back only on the second. */
  lemma BindingComesTooLate(p: Pool, cfg: Config, c: string, key: string, product: string)
    requires WellFormedPool(p) && c in cfg.car && Rebound(key, {c}, p, cfg) == Some(c)
    ensures var db := OneQuestion(c, false, key, None, product);
            !IsAsked(Run(db, p, cfg).questions, c) && IsAsked(Run(Run(db, p, cfg), p, cfg).questions, c)
  {
    var db := OneQuestion(c, false, key, None, product);
    var once := Run(db, p, cfg);
    assert db.questions.Keys == {c};
    OneLiveQuestion(db.facts, key, product);
    CarQuestionsAreTheAdmins(db, p, cfg, c, "");
    ReboundAfterRun(db, p, cfg, key);
    assert once.asks == db.asks;
    hide Run, LiveQuestions, Rebound, Distinct;
    OneLiveQuestion(once.facts, key, product);
    CarQuestionsAreTheAdmins(once, p, cfg, c, "");
  }

  /** A question outside the pool bound to a fact the seeder points elsewhere: whatever the pool and the other
      bindings, the first run keeps it for the product that asks, and the second switches it off. */
  lemma BindingMovesAway(p: Pool, cfg: Config, theirs: string, key: string, product: string)
    requires WellFormedPool(p) && theirs !in p.questionOrder && theirs !in cfg.car
    requires Rebound(key, {theirs}, p, cfg).Some? && Rebound(key, {theirs}, p, cfg) != Some(theirs)
    ensures var db := OneQuestion(theirs, true, key, Some(theirs), product);
            IsAsked(Run(db, p, cfg).questions, theirs) && !IsAsked(Run(Run(db, p, cfg), p, cfg).questions, theirs)
  {
    var db := OneQuestion(theirs, true, key, Some(theirs), product);
    var once := Run(db, p, cfg);
    assert db.questions.Keys == {theirs};
    OneLiveQuestion(db.facts, key, product);
    ReboundAfterRun(db, p, cfg, key);
    OneLiveQuestion(once.facts, key, product);
    assert once.asks == db.asks;
    RowAfterRun(db, p, cfg, theirs);
    RowAfterRun(once, p, cfg, theirs);
    hide Run, LiveQuestions, Rebound, Distinct, IndexOf;
  }
}
