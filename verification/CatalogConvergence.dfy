/** What a run of the catalog seed leaves on each axis, and why a second run writes nothing. */
module CatalogConvergence {
  import opened Basics
  import opened StableJson
  import opened CatalogTables
  import opened CategoryLists

  // ---- Axis 1, pair by pair ---------------------------------------------------------------------------------

  predicate SamePair(a: map<Pair, Flags>, b: map<Pair, Flags>, p: Pair) {
    (p in a <==> p in b) && (p in a ==> a[p] == b[p])
  }

  lemma ReassignedPair(cat: Catalog, m: Matrix, key: string, hadCar: bool, p: Pair)
    requires key in m.offers
    ensures var after := Reassigned(cat, m, key, hadCar).pairs;
      if p.name == key then (p in after <==> p.category in Next(m, key)) && (p in after ==> after[p] == CuratedFlags(m, p))
      else SamePair(after, cat.pairs, p)
  {
    hide Next, CatalogIncomeBasis, FlagsOf;
    assert p.name == key && p.category in Next(m, key) ==> p in (set c | c in Next(m, key) :: Pair(key, c)) by {
      assert p == Pair(p.name, p.category);
    }
  }

  lemma AxisStep(cat: Catalog, m: Matrix, n: nat)
    requires Covered(m) && 0 < n <= |m.keys|
    ensures var key, before := m.keys[n - 1], Axis1To(cat, m, n - 1);
      && key in m.offers
      && Axis1To(cat, m, n) == if Changed(cat, m, key) then Reassigned(before, m, key, "car" in Offered(cat.pairs, key)) else before
  {
    hide Changed, Reassigned, Offered;
  }

  lemma {:induction false} OtherPair(cat: Catalog, m: Matrix, n: nat, p: Pair)
    requires Covered(m) && n <= |m.keys|
    requires forall k | 0 <= k < n && m.keys[k] == p.name :: !Changed(cat, m, m.keys[k])
    ensures SamePair(Axis1To(cat, m, n).pairs, cat.pairs, p)
  {
    if n > 0 {
      OtherPair(cat, m, n - 1, p);
      var key := m.keys[n - 1];
      AxisStep(cat, m, n);
      ReassignedPair(Axis1To(cat, m, n - 1), m, key, "car" in Offered(cat.pairs, key), p);
      hide Changed, Reassigned, Next, Offered;
    }
  }

  lemma {:induction false} RewrittenPair(cat: Catalog, m: Matrix, n: nat, k: nat, p: Pair)
    requires Covered(m) && Distinct(m.keys) && k < n <= |m.keys| && m.keys[k] == p.name && Changed(cat, m, p.name)
    ensures var after := Axis1To(cat, m, n).pairs;
      (p in after <==> p.category in Next(m, p.name)) && (p in after ==> after[p] == CuratedFlags(m, p))
  {
    var key := m.keys[n - 1];
    AxisStep(cat, m, n);
    ReassignedPair(Axis1To(cat, m, n - 1), m, key, "car" in Offered(cat.pairs, key), p);
    if k < n - 1 {
      RewrittenPair(cat, m, n - 1, k, p);
    }
    hide Changed, Reassigned, Next, Offered, CuratedFlags, Axis1To;
  }

  /** Where the first axis leaves a pair: as it was, or, for a name whose list changed, just as decided. */
  lemma PairAfterAxis1(cat: Catalog, m: Matrix, p: Pair)
    requires Covered(m) && Distinct(m.keys)
    ensures var after := Axis1To(cat, m, |m.keys|).pairs;
      if p.name in m.keys && Changed(cat, m, p.name) then
        (p in after <==> p.category in Next(m, p.name)) && (p in after ==> after[p] == CuratedFlags(m, p))
      else SamePair(after, cat.pairs, p)
  {
    hide Changed, Next, Axis1To, CuratedFlags;
    if p.name in m.keys && Changed(cat, m, p.name) {
      var k :| 0 <= k < |m.keys| && m.keys[k] == p.name;
      RewrittenPair(cat, m, |m.keys|, k, p);
    } else {
      OtherPair(cat, m, |m.keys|, p);
    }
  }

  lemma {:induction false} OfferedAlike(a: map<Pair, Flags>, b: map<Pair, Flags>, key: string, n: nat)
    requires n <= |CATEGORY_ORDER| && forall c :: Pair(key, c) in a <==> Pair(key, c) in b
    ensures OfferedTo(a, key, n) == OfferedTo(b, key, n)
  {
    if n > 0 { OfferedAlike(a, b, key, n - 1); }
  }

  lemma NextIsSorted(m: Matrix, key: string)
    requires key in m.offers
    ensures Ranked(Next(m, key)) && Distinct(Next(m, key))
  {
    var all := Dedup(m.offers[key] + LiveCategories(m.live, key));
    DedupIsDistinct(all);
    SortByRankSorts(Dedup(all));
  }

  /** A name already offered under exactly the decided categories reads as unchanged. */
  lemma DecidedIsUnchanged(cat: Catalog, m: Matrix, key: string)
    requires key in m.offers && Storable(m, key)
    requires forall c :: Pair(key, c) in cat.pairs && IsLoanCategory(c) <==> c in Next(m, key)
    ensures !Changed(cat, m, key)
  {
    NextIsSorted(m, key);
    OfferedIsSorted(cat.pairs, key);
    assert Elements(Offered(cat.pairs, key)) == Elements(Next(m, key)) by {
      hide Offered, Next, Ranked, Distinct;
    }
    hide Offered, Next, Joined, Ranked, Distinct;
    RankedIsUnique(Offered(cat.pairs, key), Next(m, key));
  }

  /** A pair with live programs, once stored, survives every stage of every run, even one that fails. */
  lemma {:induction false} LivePairIsNeverUnassigned(cat: Catalog, m: Matrix, n: nat, key: string, c: string)
    requires Covered(m) && Distinct(m.keys) && n <= |m.keys|
    requires key != "" && LiveGroup(key, c) in m.live && Pair(key, c) in cat.pairs
    ensures Pair(key, c) in Axis1To(cat, m, n).pairs
  {
    hide Changed, Reassigned, Next, Offered, Distinct;
    if n > 0 {
      LivePairIsNeverUnassigned(cat, m, n - 1, key, c);
      ReassignedKeepsLive(Axis1To(cat, m, n - 1), m, m.keys[n - 1], "car" in Offered(cat.pairs, m.keys[n - 1]), key, c);
    }
  }

  lemma ReassignedKeepsLive(cat: Catalog, m: Matrix, k: string, hadCar: bool, key: string, c: string)
    requires k in m.offers && key != "" && LiveGroup(key, c) in m.live && Pair(key, c) in cat.pairs
    ensures Pair(key, c) in Reassigned(cat, m, k, hadCar).pairs
  {
    ReassignedPair(cat, m, k, hadCar, Pair(key, c));
    if k == key { NextHas(m, key, c); }
    hide Reassigned, Next;
  }

  // ---- After a whole run --------------------------------------------------------------------------------------

  lemma SeededPair(cat: Catalog, m: Matrix, violates: Js -> bool, store: Js -> Js, p: Pair)
    requires ValidCatalog(cat) && ValidMatrix(m)
    ensures var based, once := Axis1To(cat, m, |m.keys|).pairs, Seeded(cat, m, violates, store).pairs;
      && (p in once <==> p in based)
      && (p in once ==> once[p] == if p.name in cat.names && p.name in m.keys && p.category in m.offers[p.name] then CuratedFlags(m, p) else based[p])
  {
    Axis1KeepsNames(cat, m, |m.keys|);
    AllFirsts(m.keys);
    hide Axis1To, RuledTo, CuratedFlags, Firsts, ValidNames, Distinct, ValidRules, OffersLoanCategories;
  }

  lemma {:induction false} Axis1KeepsNames(cat: Catalog, m: Matrix, n: nat)
    requires Covered(m) && n <= |m.keys|
    ensures Axis1To(cat, m, n).names == cat.names
  {
    hide Next, Changed;
    if n > 0 { Axis1KeepsNames(cat, m, n - 1); }
  }

  /** After a run every curated category, and every live one the column can hold, is offered under its name. */
  lemma DecidedPairsAreOffered(cat: Catalog, m: Matrix, violates: Js -> bool, store: Js -> Js, key: string, c: string)
    requires ValidCatalog(cat) && ValidMatrix(m) && key in m.keys && key in cat.names && IsLoanCategory(c)
    requires c in m.offers[key] || (key != "" && LiveGroup(key, c) in m.live)
    ensures Pair(key, c) in Seeded(cat, m, violates, store).pairs
  {
    NextHas(m, key, c);
    SeededPair(cat, m, violates, store, Pair(key, c));
    PairAfterAxis1(cat, m, Pair(key, c));
    OfferedIsSorted(cat.pairs, key);
    LoanCategoryIsAWord(c);
    if !Changed(cat, m, key) {
      hide Offered, Next, Joined, Seeded, Axis1To;
      JoinedAlike(Offered(cat.pairs, key), Next(m, key), c);
    }
  }

  /** Every curated pair ends on its one basis. A pair kept only for its live programs states one basis exactly
      when the first axis rewrote its name or it already did. */
  lemma OneBasisExactly(cat: Catalog, m: Matrix, violates: Js -> bool, store: Js -> Js, p: Pair)
    requires ValidCatalog(cat) && ValidMatrix(m) && p.name in m.keys && p.name in cat.names
    requires p in Seeded(cat, m, violates, store).pairs
    ensures var flags := Seeded(cat, m, violates, store).pairs[p];
      && (p.category in m.offers[p.name] ==> flags == CuratedFlags(m, p) && StatesOneBasis(flags))
      && (p.category !in m.offers[p.name] ==>
            (StatesOneBasis(flags) <==> Changed(cat, m, p.name) || (p in cat.pairs && StatesOneBasis(cat.pairs[p]))))
  {
    SeededPair(cat, m, violates, store, p);
    PairAfterAxis1(cat, m, p);
    hide Seeded, Axis1To, Changed, Next, CatalogIncomeBasis;
  }

  /** The curated basis itself, on every curated pair of a name the catalog has: without a payslip exactly for business
      loans, for names of the self-employed, and for personal loans of names with a fact that stands in for one. */
  lemma CuratedBasisExactly(cat: Catalog, m: Matrix, violates: Js -> bool, store: Js -> Js, p: Pair)
    requires ValidCatalog(cat) && ValidMatrix(m) && p.name in m.keys && p.name in cat.names && p.category in m.offers[p.name]
    ensures var once := Seeded(cat, m, violates, store).pairs;
      && p in once
      && (once[p].noPayslip <==>
            p.category == "business" || p.name in m.selfEmployed || (p.name in m.noPayslipFact && p.category == "personal"))
      && (once[p].payslip <==>
            p.category != "business" && p.name !in m.selfEmployed && (p.name !in m.noPayslipFact || p.category != "personal"))
  {
    assert IsLoanCategory(p.category);
    assert p == Pair(p.name, p.category);
    DecidedPairsAreOffered(cat, m, violates, store, p.name, p.category);
    SeededPair(cat, m, violates, store, p);
    hide Seeded, Axis1To, ValidNames, Rank;
  }

  /** And of every pair a rewritten name is left with, curated or live. */
  lemma RewrittenBasisExactly(cat: Catalog, m: Matrix, key: string, hadCar: bool, p: Pair)
    requires key in m.offers && p.name == key && p in Reassigned(cat, m, key, hadCar).pairs
    ensures var flags := Reassigned(cat, m, key, hadCar).pairs[p];
      && (flags.noPayslip <==>
            p.category == "business" || key in m.selfEmployed || (key in m.noPayslipFact && p.category == "personal"))
      && (flags.payslip <==> !flags.noPayslip)
  {
    ReassignedPair(cat, m, key, hadCar, p);
    hide Reassigned, Next;
  }

  // ---- What a run leaves, told from the matrix and the tables before -----------------------------------------

  /** A name is to be offered under the curated categories and under those of its live programs. */
  predicate Decided(m: Matrix, key: string, c: string) {
    (key in m.offers && c in m.offers[key]) || (key != "" && LiveGroup(key, c) in m.live)
  }

  /** Every live program of the name has one of the four loan categories. */
  predicate LiveUnderLoans(m: Matrix, key: string) {
    forall g | g in m.live && g.nameKey == key && key != "" :: IsLoanCategory(g.category)
  }

  lemma NextOfLoans(m: Matrix, key: string)
    requires key in m.offers && OffersLoanCategories(m) && LiveUnderLoans(m, key)
    ensures LoanCategories(Next(m, key)) && Elements(Next(m, key)) == set c | c in Next(m, key) && Decided(m, key, c)
    ensures forall c :: c in Next(m, key) <==> Decided(m, key, c)
  {
    forall c ensures c in Next(m, key) <==> Decided(m, key, c) { NextHas(m, key, c); }
    hide Next, Rank;
  }

  /** A name's categories are rewritten exactly when some loan category is stored and not decided, or the reverse. */
  lemma ChangedExactly(cat: Catalog, m: Matrix, key: string)
    requires ValidMatrix(m) && key in m.keys && LiveUnderLoans(m, key)
    ensures Changed(cat, m, key) <==>
      key in cat.names && exists c: string :: IsLoanCategory(c) && (Pair(key, c) in cat.pairs) != Decided(m, key, c)
  {
    NextOfLoans(m, key);
    OfferedIsSorted(cat.pairs, key);
    NextIsSorted(m, key);
    hide Offered, Next, Joined, Rank, Ranked, Distinct, ValidMatrix, Decided;
    if forall c: string | IsLoanCategory(c) :: (Pair(key, c) in cat.pairs) == Decided(m, key, c) {
      RankedIsUnique(Offered(cat.pairs, key), Next(m, key));
    } else {
      var c: string :| IsLoanCategory(c) && (Pair(key, c) in cat.pairs) != Decided(m, key, c);
      LoanCategoryIsAWord(c);
      if Joined(Offered(cat.pairs, key)) == Joined(Next(m, key)) {
        if c in Next(m, key) {
          JoinedAlike(Offered(cat.pairs, key), Next(m, key), c);
        } else {
          JoinedAlike(Next(m, key), Offered(cat.pairs, key), c);
        }
      }
    }
  }

  /** After a run a matrix name is offered under exactly the decided categories. */
  lemma OfferedExactly(cat: Catalog, m: Matrix, violates: Js -> bool, store: Js -> Js, key: string, c: string)
    requires ValidCatalog(cat) && ValidMatrix(m) && key in m.keys && key in cat.names && LiveUnderLoans(m, key)
    ensures Pair(key, c) in Seeded(cat, m, violates, store).pairs <==> Decided(m, key, c)
  {
    SeededPair(cat, m, violates, store, Pair(key, c));
    PairAfterAxis1(cat, m, Pair(key, c));
    ChangedExactly(cat, m, key);
    NextOfLoans(m, key);
    hide Seeded, Axis1To, Changed, Next, Rank, ValidNames, Distinct, ValidRules;
  }

  /** The ticks and orders of one rewritten name. */
  lemma ReassignedHanging(cat: Catalog, m: Matrix, key: string, hadCar: bool, t: Tick, o: Pair)
    requires key in m.offers
    ensures var after := Reassigned(cat, m, key, hadCar);
      && (t in after.ticks <==>
            if t.name != key then t in cat.ticks
            else (t in cat.ticks && Decided(m, key, t.category))
                 || (t.category == "car" && Decided(m, key, "car") && !hadCar && t.question in m.carQuestions))
      && (o in after.orders <==> o in cat.orders && (o.name != key || Decided(m, key, o.category)))
  {
    NextHas(m, key, t.category);
    NextHas(m, key, "car");
    NextHas(m, key, o.category);
    hide Next, CatalogIncomeBasis;
  }

  lemma {:induction false} OtherHanging(cat: Catalog, m: Matrix, n: nat, t: Tick, o: Pair)
    requires Covered(m) && n <= |m.keys| && t.name == o.name
    requires forall k | 0 <= k < n && m.keys[k] == t.name :: !Changed(cat, m, m.keys[k])
    ensures var after := Axis1To(cat, m, n);
      (t in after.ticks <==> t in cat.ticks) && (o in after.orders <==> o in cat.orders)
  {
    if n > 0 {
      OtherHanging(cat, m, n - 1, t, o);
      var key := m.keys[n - 1];
      ReassignedHanging(Axis1To(cat, m, n - 1), m, key, "car" in Offered(cat.pairs, key), t, o);
      hide Changed, Reassigned, Next, Offered, Decided;
    }
  }

  lemma {:induction false} RewrittenHanging(cat: Catalog, m: Matrix, n: nat, k: nat, t: Tick, o: Pair)
    requires Covered(m) && Distinct(m.keys) && k < n <= |m.keys| && m.keys[k] == t.name == o.name && Changed(cat, m, t.name)
    ensures var after := Axis1To(cat, m, n);
      && (t in after.ticks <==>
            (t in cat.ticks && Decided(m, t.name, t.category))
            || (t.category == "car" && Decided(m, t.name, "car") && "car" !in Offered(cat.pairs, t.name) && t.question in m.carQuestions))
      && (o in after.orders <==> o in cat.orders && Decided(m, o.name, o.category))
  {
    var key := m.keys[n - 1];
    AxisStep(cat, m, n);
    ReassignedHanging(Axis1To(cat, m, n - 1), m, key, "car" in Offered(cat.pairs, key), t, o);
    if k < n - 1 {
      RewrittenHanging(cat, m, n - 1, k, t, o);
    } else {
      OtherHanging(cat, m, n - 1, t, o);
    }
    hide Changed, Reassigned, Next, Offered, Decided, Axis1To;
  }

  /** Question ticks and question orders, which name a loan category of their own: of a name whose categories are
      rewritten those under a category no longer decided go, and a name newly offered under car is ticked for every
      active car question; those of any other name all stay. */
  lemma HangingExactly(cat: Catalog, m: Matrix, violates: Js -> bool, store: Js -> Js, t: Tick, o: Pair)
    requires ValidCatalog(cat) && ValidMatrix(m) && t.name == o.name && LiveUnderLoans(m, t.name)
    ensures var once := Seeded(cat, m, violates, store);
      if t.name in m.keys && t.name in cat.names
         && exists c: string :: IsLoanCategory(c) && (Pair(t.name, c) in cat.pairs) != Decided(m, t.name, c)
      then
        && (t in once.ticks <==>
              (t in cat.ticks && Decided(m, t.name, t.category))
              || (t.category == "car" && Decided(m, t.name, "car") && Pair(t.name, "car") !in cat.pairs && t.question in m.carQuestions))
        && (o in once.orders <==> o in cat.orders && Decided(m, o.name, o.category))
      else (t in once.ticks <==> t in cat.ticks) && (o in once.orders <==> o in cat.orders)
  {
    var once, axis := Seeded(cat, m, violates, store), Axis1To(cat, m, |m.keys|);
    assert once.ticks == axis.ticks && once.orders == axis.orders;
    OfferedIsSorted(cat.pairs, t.name);
    assert "car" in Offered(cat.pairs, t.name) <==> Pair(t.name, "car") in cat.pairs;
    hide Seeded, Axis1To, Offered, Next, Ranked, Distinct, Decided;
    if t.name in m.keys { ChangedExactly(cat, m, t.name); }
    if t.name in m.keys && Changed(cat, m, t.name) {
      var k :| 0 <= k < |m.keys| && m.keys[k] == t.name;
      RewrittenHanging(cat, m, |m.keys|, k, t, o);
    } else {
      OtherHanging(cat, m, |m.keys|, t, o);
    }
  }

  /** Where a run leaves a name: its rule is the curated one, as stored, exactly when it is not linked to a surrogate
      product, its own rule is another value and the curated one is valid; nothing else of a name changes. */
  lemma RuleAfterRun(cat: Catalog, m: Matrix, violates: Js -> bool, store: Js -> Js, key: string)
    requires ValidCatalog(cat) && ValidMatrix(m) && key in cat.names
    ensures var once := Seeded(cat, m, violates, store).names;
      && once.Keys == cat.names.Keys
      && once[key].surrogateProductKey == cat.names[key].surrogateProductKey
      && once[key].incomeRule ==
           if key in m.ruleKeys && cat.names[key].surrogateProductKey.None? && !Same(cat.names[key].incomeRule, m.rules[key])
              && !violates(m.rules[key])
           then store(m.rules[key]) else cat.names[key].incomeRule
  {
    AllFirsts(m.ruleKeys);
    hide Axis1To, RebasedTo, Firsts, Same, Distinct;
  }

  // ---- The counts -----------------------------------------------------------------------------------------------

  /** The first `n` curated rules that meet a fate. */
  ghost function WithFate(names: Names, m: Matrix, violates: Js -> bool, n: nat, step: RuleStep): set<string>
    requires ValidNames(names) && ValidRules(m) && n <= |m.ruleKeys|
  {
    set k | k in Firsts(m.ruleKeys, n) && k in m.rules && StepOf(names, m, violates, k) == step
  }

  lemma WithFateNext(names: Names, m: Matrix, violates: Js -> bool, n: nat, step: RuleStep)
    requires ValidNames(names) && ValidRules(m) && Distinct(m.ruleKeys) && n < |m.ruleKeys| && m.ruleKeys[n] in m.rules
    ensures var key, before := m.ruleKeys[n], WithFate(names, m, violates, n, step);
      && key !in before
      && WithFate(names, m, violates, n + 1, step) == if StepOf(names, m, violates, key) == step then before + {key} else before
  {
    FirstsNext(m.ruleKeys, n);
    hide Firsts, StepOf, ValidNames, ValidRules, Distinct;
  }

  lemma {:induction false} StepCountIsCardinal(names: Names, m: Matrix, violates: Js -> bool, n: nat, step: RuleStep)
    requires ValidNames(names) && ValidMatrix(m) && n <= |m.ruleKeys|
    ensures StepCount(names, m, violates, n, step) == |WithFate(names, m, violates, n, step)|
  {
    hide WithFate, StepOf, ValidNames, ValidRules, Distinct;
    if n == 0 {
      NoFate(names, m, violates, step);
    } else {
      StepCountIsCardinal(names, m, violates, n - 1, step);
      WithFateNext(names, m, violates, n - 1, step);
    }
  }

  lemma NoFate(names: Names, m: Matrix, violates: Js -> bool, step: RuleStep)
    requires ValidNames(names) && ValidRules(m)
    ensures WithFate(names, m, violates, 0, step) == {}
  {
    assert Firsts(m.ruleKeys, 0) == {};
  }

  lemma FateExactly(names: Names, m: Matrix, violates: Js -> bool, k: string)
    requires ValidNames(names) && ValidMatrix(m)
    ensures var n := |m.ruleKeys|;
      && (k in WithFate(names, m, violates, n, Written) <==>
            k in m.ruleKeys && k in names && names[k].surrogateProductKey.None? && !Same(names[k].incomeRule, m.rules[k]) && !violates(m.rules[k]))
      && (k in WithFate(names, m, violates, n, Refused) <==>
            k in m.ruleKeys && k in names && names[k].surrogateProductKey.None? && !Same(names[k].incomeRule, m.rules[k]) && violates(m.rules[k]))
      && (k in WithFate(names, m, violates, n, Linked) <==> k in m.ruleKeys && k in names && names[k].surrogateProductKey.Some?)
  {
    AllFirsts(m.ruleKeys);
    hide Firsts, Same, ValidNames, ValidRules, Distinct;
  }

  /** The three rule counts, as numbers of curated rules. */
  lemma RuleCountsExactly(names: Names, m: Matrix, violates: Js -> bool)
    requires ValidNames(names) && ValidMatrix(m)
    ensures StepCount(names, m, violates, |m.ruleKeys|, Written) ==
      |set k | k in m.ruleKeys && k in names && names[k].surrogateProductKey.None? && !Same(names[k].incomeRule, m.rules[k]) && !violates(m.rules[k])|
    ensures StepCount(names, m, violates, |m.ruleKeys|, Refused) ==
      |set k | k in m.ruleKeys && k in names && names[k].surrogateProductKey.None? && !Same(names[k].incomeRule, m.rules[k]) && violates(m.rules[k])|
    ensures StepCount(names, m, violates, |m.ruleKeys|, Linked) ==
      |set k | k in m.ruleKeys && k in names && names[k].surrogateProductKey.Some?|
  {
    var n := |m.ruleKeys|;
    StepCountIsCardinal(names, m, violates, n, Written);
    StepCountIsCardinal(names, m, violates, n, Refused);
    StepCountIsCardinal(names, m, violates, n, Linked);
    hide WithFate, StepCount, Same, ValidNames, ValidMatrix;
    assert WithFate(names, m, violates, n, Written) ==
      set k | k in m.ruleKeys && k in names && names[k].surrogateProductKey.None? && !Same(names[k].incomeRule, m.rules[k]) && !violates(m.rules[k])
    by {
      forall k { FateExactly(names, m, violates, k); }
    }
    assert WithFate(names, m, violates, n, Refused) ==
      set k | k in m.ruleKeys && k in names && names[k].surrogateProductKey.None? && !Same(names[k].incomeRule, m.rules[k]) && violates(m.rules[k])
    by {
      forall k { FateExactly(names, m, violates, k); }
    }
    assert WithFate(names, m, violates, n, Linked) == set k | k in m.ruleKeys && k in names && names[k].surrogateProductKey.Some? by {
      forall k { FateExactly(names, m, violates, k); }
    }
  }

  /** Those of the first `n` matrix names whose categories are rewritten. */
  ghost function RewrittenTo(cat: Catalog, m: Matrix, n: nat): set<string>
    requires n <= |m.keys|
  {
    set k | k in Firsts(m.keys, n) && k in m.offers && Changed(cat, m, k)
  }

  lemma RewrittenNext(cat: Catalog, m: Matrix, n: nat)
    requires Distinct(m.keys) && n < |m.keys| && m.keys[n] in m.offers
    ensures var key, before := m.keys[n], RewrittenTo(cat, m, n);
      key !in before && RewrittenTo(cat, m, n + 1) == if Changed(cat, m, key) then before + {key} else before
  {
    FirstsNext(m.keys, n);
    hide Firsts, Changed, Distinct;
  }

  /** The other two counts are of names whose categories are rewritten, and of curated pairs read with another basis. */
  lemma {:induction false} ChangedCountIsCardinal(cat: Catalog, m: Matrix, n: nat)
    requires ValidMatrix(m) && n <= |m.keys|
    ensures ChangedCount(cat, m, n) == |RewrittenTo(cat, m, n)|
  {
    hide RewrittenTo, Changed, ValidRules, Distinct;
    if n == 0 {
      NothingRewritten(cat, m);
    } else {
      ChangedCountIsCardinal(cat, m, n - 1);
      assert m.keys[n - 1] in m.keys;
      RewrittenNext(cat, m, n - 1);
    }
  }

  lemma NothingRewritten(cat: Catalog, m: Matrix)
    ensures RewrittenTo(cat, m, 0) == {}
  {
    assert Firsts(m.keys, 0) == {};
  }

  lemma CountsNamesRewritten(cat: Catalog, m: Matrix)
    requires ValidMatrix(m) && forall k | k in m.keys :: LiveUnderLoans(m, k)
    ensures var rewritten :=
        set k | k in m.keys && k in cat.names && exists c: string :: IsLoanCategory(c) && (Pair(k, c) in cat.pairs) != Decided(m, k, c);
      ChangedCount(cat, m, |m.keys|) == |rewritten|
  {
    ChangedCountIsCardinal(cat, m, |m.keys|);
    assert RewrittenTo(cat, m, |m.keys|) ==
      set k | k in m.keys && k in cat.names && exists c: string :: IsLoanCategory(c) && (Pair(k, c) in cat.pairs) != Decided(m, k, c)
    by {
      AllFirsts(m.keys);
      forall k | k in m.keys { ChangedExactly(cat, m, k); }
      hide Changed, Firsts, Rank, Decided, ValidRules, LiveUnderLoans;
    }
  }

  lemma WrongBasisExactly(cat: Catalog, m: Matrix, p: Pair)
    requires ValidMatrix(m)
    ensures p in WrongBasis(cat, m) <==>
      && p in cat.pairs && p.name in cat.names && p.name in m.keys && p.category in m.offers[p.name]
      && var noPayslip := p.category == "business" || p.name in m.selfEmployed || (p.name in m.noPayslipFact && p.category == "personal");
         cat.pairs[p] != Flags(!noPayslip, noPayslip)
  {
    AllFirsts(m.keys);
    hide Firsts;
  }

  /** A name the matrix does not list keeps every pair. */
  lemma OtherNamesKeepTheirPairs(cat: Catalog, m: Matrix, violates: Js -> bool, store: Js -> Js, p: Pair)
    requires ValidCatalog(cat) && ValidMatrix(m) && p.name !in m.keys
    ensures SamePair(Seeded(cat, m, violates, store).pairs, cat.pairs, p)
  {
    SeededPair(cat, m, violates, store, p);
    PairAfterAxis1(cat, m, p);
    hide Seeded, Axis1To, Changed, Next;
  }

  /** The corrections a run makes are among those its dry run announces. */
  lemma CorrectionsWereAnnounced(cat: Catalog, m: Matrix)
    requires ValidCatalog(cat) && ValidMatrix(m)
    ensures WrongBasis(Axis1To(cat, m, |m.keys|), m) <= WrongBasis(cat, m)
  {
    Axis1KeepsNames(cat, m, |m.keys|);
    forall p | p in WrongBasis(Axis1To(cat, m, |m.keys|), m) ensures p in WrongBasis(cat, m) {
      PairAfterAxis1(cat, m, p);
      hide Axis1To, Changed, Next, CuratedFlags, Firsts, ValidNames, ValidRules;
    }
  }

  // ---- The second run -----------------------------------------------------------------------------------------

  lemma NameIsSettled(cat: Catalog, m: Matrix, violates: Js -> bool, store: Js -> Js, key: string)
    requires ValidCatalog(cat) && ValidMatrix(m) && Completes(cat, m) && key in m.keys
    ensures !Changed(Seeded(cat, m, violates, store), m, key)
  {
    var once := Seeded(cat, m, violates, store);
    assert once.names.Keys == cat.names.Keys;
    forall c ensures if Changed(cat, m, key) then Pair(key, c) in once.pairs <==> c in Next(m, key)
                     else Pair(key, c) in once.pairs <==> Pair(key, c) in cat.pairs
    {
      SeededPair(cat, m, violates, store, Pair(key, c));
      PairAfterAxis1(cat, m, Pair(key, c));
      hide Seeded, Axis1To, Changed, Next;
    }
    if Changed(cat, m, key) {
      hide Seeded, Changed, Next, ValidNames;
      DecidedIsUnchanged(once, m, key);
    } else {
      hide Seeded, Next, Joined, ValidNames;
      OfferedAlike(once.pairs, cat.pairs, key, |CATEGORY_ORDER|);
    }
  }

  lemma {:induction false} UnchangedNames(cat: Catalog, m: Matrix, n: nat)
    requires Covered(m) && n <= |m.keys| && forall k | k in m.keys :: !Changed(cat, m, k)
    ensures Axis1To(cat, m, n) == cat && ChangedCount(cat, m, n) == 0
  {
    hide Changed, Reassigned;
    if n > 0 { UnchangedNames(cat, m, n - 1); }
  }

  lemma RuleIsSettled(cat: Catalog, m: Matrix, violates: Js -> bool, store: Js -> Js, key: string)
    requires ValidCatalog(cat) && ValidMatrix(m) && KeepsValue(store) && key in m.ruleKeys
    requires ValidNames(Seeded(cat, m, violates, store).names)
    ensures StepOf(Seeded(cat, m, violates, store).names, m, violates, key) != Written
    ensures StepOf(cat.names, m, violates, key) != Written ==> key !in cat.names || Seeded(cat, m, violates, store).names[key] == cat.names[key]
  {
    AllFirsts(m.ruleKeys);
    hide Axis1To, RebasedTo, Firsts, ValidNames, Same, Distinct;
  }

  lemma SeededNamesAreValid(cat: Catalog, m: Matrix, violates: Js -> bool, store: Js -> Js)
    requires ValidCatalog(cat) && ValidMatrix(m) && KeepsValue(store)
    ensures ValidNames(Seeded(cat, m, violates, store).names)
  {
    hide Axis1To, RebasedTo, Firsts, Same, StepOf, Distinct;
  }

  lemma {:induction false} SettledRules(names: Names, m: Matrix, violates: Js -> bool, store: Js -> Js, n: nat)
    requires ValidNames(names) && ValidMatrix(m) && n <= |m.ruleKeys|
    requires forall k | k in m.ruleKeys :: StepOf(names, m, violates, k) != Written
    ensures StepCount(names, m, violates, n, Written) == 0 && RuledTo(names, m, violates, store, n) == names
  {
    if n > 0 { SettledRules(names, m, violates, store, n - 1); }
    assert forall k | k in Firsts(m.ruleKeys, n) :: k in m.ruleKeys;
    hide StepOf, ValidNames, Firsts;
  }

  /** Once a run has gone through, the next one goes through too and writes nothing on any axis. */
  lemma SecondRunWritesNothing(cat: Catalog, m: Matrix, violates: Js -> bool, store: Js -> Js)
    requires ValidCatalog(cat) && ValidMatrix(m) && KeepsValue(store) && Completes(cat, m)
    ensures var once := Seeded(cat, m, violates, store);
      && ValidCatalog(once) && Completes(once, m)
      && ChangedCount(once, m, |m.keys|) == 0
      && WrongBasis(Axis1To(once, m, |m.keys|), m) == {}
      && StepCount(once.names, m, violates, |m.ruleKeys|, Written) == 0
      && Seeded(once, m, violates, store) == once
  {
    var once := Seeded(cat, m, violates, store);
    SeededNamesAreValid(cat, m, violates, store);
    SeededCategories(cat, m, violates, store);
    BasesAreSettled(cat, m, violates, store);
    forall k | k in m.keys ensures !Changed(once, m, k) { NameIsSettled(cat, m, violates, store, k); }
    forall k | k in m.ruleKeys ensures StepOf(once.names, m, violates, k) != Written { RuleIsSettled(cat, m, violates, store, k); }
    hide Seeded, Changed, StepOf, StepCount, ChangedCount, WrongBasis, Axis1To, ValidNames;
    SettledRunIsFixed(once, m, violates, store);
  }

  lemma SettledRunIsFixed(cat: Catalog, m: Matrix, violates: Js -> bool, store: Js -> Js)
    requires ValidCatalog(cat) && ValidMatrix(m)
    requires forall k | k in m.keys :: !Changed(cat, m, k)
    requires forall k | k in m.ruleKeys :: StepOf(cat.names, m, violates, k) != Written
    requires WrongBasis(cat, m) == {}
    ensures ChangedCount(cat, m, |m.keys|) == 0 && Axis1To(cat, m, |m.keys|) == cat
    ensures StepCount(cat.names, m, violates, |m.ruleKeys|, Written) == 0
    ensures Seeded(cat, m, violates, store) == cat
  {
    UnchangedNames(cat, m, |m.keys|);
    SettledRules(cat.names, m, violates, store, |m.ruleKeys|);
    CorrectedIsFixed(cat, m);
    hide Changed, StepOf, StepCount, ChangedCount, WrongBasis, Axis1To, ValidNames, Rebased, RuledTo, ValidMatrix;
  }

  lemma CorrectedIsFixed(cat: Catalog, m: Matrix)
    requires WrongBasis(cat, m) == {}
    ensures Rebased(cat, m) == cat
  {
    hide CuratedFlags, CuratedTo;
    forall p | p in cat.pairs && CuratedTo(cat.names.Keys, m, |m.keys|, p) ensures cat.pairs[p] == CuratedFlags(m, p) {
      assert p !in WrongBasis(cat, m);
    }
  }

  lemma SeededCategories(cat: Catalog, m: Matrix, violates: Js -> bool, store: Js -> Js)
    requires ValidCatalog(cat) && ValidMatrix(m) && Completes(cat, m)
    ensures forall p | p in Seeded(cat, m, violates, store).pairs :: IsLoanCategory(p.category)
  {
    forall p | p in Seeded(cat, m, violates, store).pairs ensures IsLoanCategory(p.category) {
      SeededPair(cat, m, violates, store, p);
      PairAfterAxis1(cat, m, p);
      hide Seeded, Axis1To, Changed, Next, ValidNames, IsLoanCategory;
    }
  }

  lemma BasesAreSettled(cat: Catalog, m: Matrix, violates: Js -> bool, store: Js -> Js)
    requires ValidCatalog(cat) && ValidMatrix(m)
    ensures WrongBasis(Seeded(cat, m, violates, store), m) == {}
  {
    var once := Seeded(cat, m, violates, store);
    assert once.names.Keys == cat.names.Keys;
    AllFirsts(m.keys);
    forall p | p in once.pairs && CuratedTo(once.names.Keys, m, |m.keys|, p) ensures once.pairs[p] == CuratedFlags(m, p) {
      SeededPair(cat, m, violates, store, p);
      hide Seeded, Axis1To, CuratedFlags, Firsts, ValidNames;
    }
    hide Seeded, CuratedTo, CuratedFlags;
  }

  // ---- Where a run stops or leaves a pair undecided ------------------------------------------------------------

  /** The free-text categories of live programs are single words. */
  predicate LiveWords(m: Matrix) { forall g | g in m.live :: g.category != "" && CommaFree(g.category) }

  ghost predicate NoForeignCategory(cat: Catalog, m: Matrix) {
    forall g | g in m.live && g.nameKey != "" && g.nameKey in m.keys && g.nameKey in cat.names :: IsLoanCategory(g.category)
  }

  /** The seed goes through exactly when every live program filed under a matrix name of the catalog has one of the
      four loan categories; the column that holds a program's category is free text, so it need not. Only an empty
      category or one with a comma in it can go unnoticed. */
  lemma CompletesExactly(cat: Catalog, m: Matrix)
    requires ValidCatalog(cat) && ValidMatrix(m)
    ensures NoForeignCategory(cat, m) ==> Completes(cat, m)
    ensures LiveWords(m) ==> (Completes(cat, m) <==> NoForeignCategory(cat, m))
  {
    forall k, c | k in m.keys && Changed(cat, m, k) && c in Next(m, k) && NoForeignCategory(cat, m) ensures IsLoanCategory(c) {
      NextHas(m, k, c);
      hide Changed, Next, Storable, ValidNames;
    }
    if LiveWords(m) && Completes(cat, m) {
      forall g | g in m.live && g.nameKey != "" && g.nameKey in m.keys && g.nameKey in cat.names ensures IsLoanCategory(g.category) {
        assert g == LiveGroup(g.nameKey, g.category);
        NextHas(m, g.nameKey, g.category);
        OfferedIsSorted(cat.pairs, g.nameKey);
        hide Next, Offered, Joined, ValidNames, CommaFree, IsLoanCategory;
        if !Changed(cat, m, g.nameKey) {
          JoinedAlike(Offered(cat.pairs, g.nameKey), Next(m, g.nameKey), g.category);
        }
      }
    }
  }

  /** One name of the catalog, offered under just what the matrix and its live programs decide: every pair on its
      curated basis but one. */
  ghost function OneName(m: Matrix, key: string, c: string, kept: Flags): Catalog
    requires key in m.offers
  {
    Catalog(map[key := NameRow(Null, None)],
            map p | p in (set d | d in Next(m, key) :: Pair(key, d)) :: if p.category == c then kept else CuratedFlags(m, p),
            {}, {})
  }

  /** Whatever the matrix: a pair of a matrix name kept only for its live programs can stay sold both ways, or
      neither, through a run that goes through. */
  lemma KeptPairMayStayUndecided(m: Matrix, key: string, c: string, kept: Flags, violates: Js -> bool, store: Js -> Js)
    requires ValidMatrix(m) && key in m.keys && key != "" && !StatesOneBasis(kept)
    requires LiveGroup(key, c) in m.live && c !in m.offers[key]
    requires forall g | g in m.live && g.nameKey == key :: IsLoanCategory(g.category)
    ensures var cat := OneName(m, key, c, kept);
      && ValidCatalog(cat) && Completes(cat, m)
      && Pair(key, c) in Seeded(cat, m, violates, store).pairs
      && Seeded(cat, m, violates, store).pairs[Pair(key, c)] == kept
  {
    var cat := OneName(m, key, c, kept);
    forall d ensures d in Next(m, key) ==> IsLoanCategory(d) { NextHas(m, key, d); }
    NextHas(m, key, c);
    OneNamePairs(m, key, c, kept);
    hide Next, OneName, CuratedFlags, Seeded, Axis1To;
    DecidedIsUnchanged(cat, m, key);
    SeededPair(cat, m, violates, store, Pair(key, c));
    PairAfterAxis1(cat, m, Pair(key, c));
    hide Changed;
  }

  lemma OneNamePairs(m: Matrix, key: string, c: string, kept: Flags)
    requires key in m.offers && c in Next(m, key) && forall d | d in Next(m, key) :: IsLoanCategory(d)
    ensures var cat := OneName(m, key, c, kept);
      && ValidCatalog(cat) && cat.names.Keys == {key}
      && (forall d :: Pair(key, d) in cat.pairs <==> d in Next(m, key))
      && cat.pairs[Pair(key, c)] == kept
  {
    hide Next, CuratedFlags;
    var cat := OneName(m, key, c, kept);
    forall d ensures Pair(key, d) in cat.pairs <==> d in Next(m, key) {
      if d in Next(m, key) { assert Pair(key, d) in set e | e in Next(m, key) :: Pair(key, e); }
    }
  }
}
