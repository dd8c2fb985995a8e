/** The program-name catalog and the curated matrix applied to it. */
module CatalogTables {
  import opened Basics
  import opened StableJson

  const CATEGORY_ORDER: seq<string> := ["personal", "car", "mortgage", "business"]

  /** `CATEGORY_ORDER.indexOf`. */
  function Rank(category: string): int {
    if category == "personal" then 0
    else if category == "car" then 1
    else if category == "mortgage" then 2
    else if category == "business" then 3
    else -1
  }

  predicate IsLoanCategory(category: string) { Rank(category) >= 0 }

  /** `[...new Set(s)]`: first sightings, in order. */
  function Dedup(s: seq<string>): seq<string> {
    if s == [] then []
    else
      var d := Dedup(s[..|s| - 1]);
      if s[|s| - 1] in d then d else d + [s[|s| - 1]]
  }

  lemma {:induction false} DedupIsDistinct(s: seq<string>)
    ensures Distinct(Dedup(s)) && forall x :: x in Dedup(s) <==> x in s
  {
    if s != [] {
      DedupIsDistinct(s[..|s| - 1]);
      assert s == s[..|s| - 1] + [s[|s| - 1]];
    }
  }

  /** The first `n` of a list, as a set. */
  ghost function Firsts(s: seq<string>, n: nat): set<string>
    requires n <= |s|
  {
    set j | 0 <= j < n :: s[j]
  }

  lemma FirstsNext(s: seq<string>, n: nat)
    requires Distinct(s) && n < |s|
    ensures Firsts(s, n + 1) == Firsts(s, n) + {s[n]} && s[n] !in Firsts(s, n)
  {
  }

  lemma AllFirsts(s: seq<string>)
    ensures forall x :: x in Firsts(s, |s|) <==> x in s
  {
  }

  predicate Ranked(s: seq<string>) { forall i, j :: 0 <= i < j < |s| ==> Rank(s[i]) <= Rank(s[j]) }

  function InsertRanked(s: seq<string>, c: string): (r: seq<string>)
    ensures forall x :: x in r <==> x in s || x == c
  {
    if s == [] || Rank(c) < Rank(s[0]) then [c] + s
    else
      assert s == [s[0]] + s[1..];
      [s[0]] + InsertRanked(s[1..], c)
  }

  /** The stable sort by position in `CATEGORY_ORDER`. */
  function SortByRank(s: seq<string>): seq<string> {
    if s == [] then [] else InsertRanked(SortByRank(s[..|s| - 1]), s[|s| - 1])
  }

  function SortCategories(s: seq<string>): seq<string> { SortByRank(Dedup(s)) }

  /** `.join(',')` */
  function Joined(parts: seq<string>): string {
    if parts == [] then ""
    else if |parts| == 1 then parts[0]
    else parts[0] + "," + Joined(parts[1..])
  }

  // ---- The tables -----------------------------------------------------------------------------------------

  datatype Flags = Flags(payslip: bool, noPayslip: bool)

  datatype Basis = Payslip | NoPayslip

  function FlagsOf(basis: Basis): Flags { Flags(basis == Payslip, basis == NoPayslip) }

  predicate StatesOneBasis(f: Flags) { f.payslip != f.noPayslip }

  datatype Pair = Pair(name: string, category: string)

  datatype NameRow = NameRow(incomeRule: Js, surrogateProductKey: Option<string>)

  datatype Tick = Tick(name: string, category: string, question: string)

  /** Program names by their keys, the (name, category) pairs they are offered under, and the question ticks and orders
      kept by name and category. */
  datatype Catalog = Catalog(names: map<string, NameRow>, pairs: map<Pair, Flags>, ticks: set<Tick>, orders: set<Pair>)

  predicate ValidCatalog(cat: Catalog) {
    && ValidNames(cat.names)
    && (forall p | p in cat.pairs :: IsLoanCategory(p.category))
  }

  /** One group of stored bank programs: name (absent on legacy rows) and free-text category. */
  datatype LiveGroup = LiveGroup(nameKey: string, category: string)

  /** The curated data, with the groups of live programs and the active car questions it is applied against. */
  datatype Matrix = Matrix(
    keys: seq<string>, offers: map<string, seq<string>>,
    selfEmployed: set<string>, noPayslipFact: set<string>,
    ruleKeys: seq<string>, rules: map<string, Js>,
    live: seq<LiveGroup>, carQuestions: set<string>)

  predicate Covered(m: Matrix) { forall k | k in m.keys :: k in m.offers }

  predicate OffersLoanCategories(m: Matrix) { forall k, c | k in m.offers && c in m.offers[k] :: IsLoanCategory(c) }

  predicate ValidRules(m: Matrix) { forall k | k in m.rules :: Valid(m.rules[k]) }

  predicate ValidMatrix(m: Matrix) {
    && Distinct(m.keys) && Covered(m) && OffersLoanCategories(m)
    && Distinct(m.ruleKeys) && (forall k | k in m.ruleKeys :: k in m.rules) && ValidRules(m)
  }

  /** The one basis a pair is sold on. */
  function CatalogIncomeBasis(m: Matrix, key: string, category: string): Basis {
    if category == "business" || key in m.selfEmployed then NoPayslip
    else if key in m.noPayslipFact && category == "personal" then NoPayslip
    else Payslip
  }

  // ---- Axis 1: categories ---------------------------------------------------------------------------------

  /** Categories of the live programs of a name; a row without a name counts for none. */
  function LiveCategories(live: seq<LiveGroup>, key: string): seq<string> {
    if live == [] then []
    else
      var rest := LiveCategories(live[..|live| - 1], key);
      var g := live[|live| - 1];
      if g.nameKey == key && key != "" && g.category !in rest then rest + [g.category] else rest
  }

  lemma {:induction false} LiveCategoriesHas(live: seq<LiveGroup>, key: string, c: string)
    ensures c in LiveCategories(live, key) <==> key != "" && LiveGroup(key, c) in live
  {
    if live != [] {
      LiveCategoriesHas(live[..|live| - 1], key, c);
      var g := live[|live| - 1];
      assert live == live[..|live| - 1] + [g];
      assert g.nameKey == key && g.category == c <==> g == LiveGroup(key, c);
    }
  }

  function Next(m: Matrix, key: string): seq<string>
    requires key in m.offers
  {
    SortCategories(Dedup(m.offers[key] + LiveCategories(m.live, key)))
  }

  /** The stored categories of a name among the first `n` of `CATEGORY_ORDER`. */
  function OfferedTo(pairs: map<Pair, Flags>, key: string, n: nat): seq<string>
    requires n <= |CATEGORY_ORDER|
  {
    if n == 0 then []
    else
      var c := CATEGORY_ORDER[n - 1];
      OfferedTo(pairs, key, n - 1) + (if Pair(key, c) in pairs then [c] else [])
  }

  function Offered(pairs: map<Pair, Flags>, key: string): seq<string> { OfferedTo(pairs, key, |CATEGORY_ORDER|) }

  predicate Changed(cat: Catalog, m: Matrix, key: string)
    requires key in m.offers
  {
    key in cat.names && Joined(Offered(cat.pairs, key)) != Joined(Next(m, key))
  }

  /** Whether the rewritten pairs can be stored: the column takes loan categories only. */
  predicate Storable(m: Matrix, key: string)
    requires key in m.offers
  {
    forall c | c in Next(m, key) :: IsLoanCategory(c)
  }

  /** One name's pairs deleted and inserted anew, its ticks and orders under the categories it leaves gone, and the car ticks it gains. */
  function Reassigned(cat: Catalog, m: Matrix, key: string, hadCar: bool): Catalog
    requires key in m.offers
  {
    var next := Next(m, key);
    var gainsCar := "car" in next && !hadCar;
    cat.(pairs := (map p | p in cat.pairs && p.name != key :: cat.pairs[p])
                  + (map p | p in (set c | c in next :: Pair(key, c)) :: FlagsOf(CatalogIncomeBasis(m, key, p.category))),
         ticks := (set t | t in cat.ticks && (t.name != key || t.category in next))
                  + (if gainsCar then set q | q in m.carQuestions :: Tick(key, "car", q) else {}),
         orders := set o | o in cat.orders && (o.name != key || o.category in next))
  }

  function Axis1To(cat: Catalog, m: Matrix, n: nat): Catalog
    requires n <= |m.keys| && Covered(m)
  {
    if n == 0 then cat
    else
      var before := Axis1To(cat, m, n - 1);
      var key := m.keys[n - 1];
      if Changed(cat, m, key) then Reassigned(before, m, key, "car" in Offered(cat.pairs, key)) else before
  }

  /** How many of the first `n` matrix names have their categories rewritten. */
  ghost function ChangedCount(cat: Catalog, m: Matrix, n: nat): nat
    requires n <= |m.keys| && Covered(m)
  {
    if n == 0 then 0 else ChangedCount(cat, m, n - 1) + if Changed(cat, m, m.keys[n - 1]) then 1 else 0
  }

  /** The whole seed goes through exactly when no name it must rewrite is sold under a category the column cannot hold. */
  ghost predicate Completes(cat: Catalog, m: Matrix)
    requires Covered(m)
  {
    forall k | k in m.keys && Changed(cat, m, k) :: Storable(m, k)
  }

  // ---- Axis 2: the basis ------------------------------------------------------------------------------------

  /** A pair whose basis the matrix curates, among its first `n` names. */
  ghost predicate CuratedTo(names: set<string>, m: Matrix, n: nat, p: Pair)
    requires n <= |m.keys|
  {
    p.name in names && p.name in Firsts(m.keys, n) && p.name in m.offers && p.category in m.offers[p.name]
  }

  function CuratedFlags(m: Matrix, p: Pair): Flags { FlagsOf(CatalogIncomeBasis(m, p.name, p.category)) }

  ghost function WrongBasisTo(names: set<string>, pairs: map<Pair, Flags>, m: Matrix, n: nat): set<Pair>
    requires n <= |m.keys|
  {
    set p | p in pairs && CuratedTo(names, m, n, p) && pairs[p] != CuratedFlags(m, p)
  }

  ghost function RebasedTo(names: set<string>, pairs: map<Pair, Flags>, m: Matrix, n: nat): map<Pair, Flags>
    requires n <= |m.keys|
  {
    map p | p in pairs :: if CuratedTo(names, m, n, p) then CuratedFlags(m, p) else pairs[p]
  }

  ghost function WrongBasis(cat: Catalog, m: Matrix): set<Pair> { WrongBasisTo(cat.names.Keys, cat.pairs, m, |m.keys|) }

  ghost function Rebased(cat: Catalog, m: Matrix): Catalog {
    cat.(pairs := RebasedTo(cat.names.Keys, cat.pairs, m, |m.keys|))
  }

  // ---- Axis 3: the income rule --------------------------------------------------------------------------------

  /** What a rule reads back as after being stored: the same value, its keys in whatever order the column keeps. */
  ghost predicate KeepsValue(store: Js -> Js) {
    forall j :: Valid(j) ==> Valid(store(j)) && Same(store(j), j)
  }

  type Names = map<string, NameRow>

  predicate ValidNames(names: Names) { forall k | k in names :: Valid(names[k].incomeRule) }

  /** What the third axis does about a curated rule: nothing for an absent or linked name or an equal rule, a
      refusal for an invalid one, else a write. */
  datatype RuleStep = Absent | Linked | Equal | Refused | Written

  ghost function StepOf(names: Names, m: Matrix, violates: Js -> bool, key: string): RuleStep
    requires ValidNames(names) && ValidRules(m) && key in m.rules
  {
    if key !in names then Absent
    else if names[key].surrogateProductKey.Some? then Linked
    else if Same(names[key].incomeRule, m.rules[key]) then Equal
    else if violates(m.rules[key]) then Refused
    else Written
  }

  /** How many of the first `n` curated rules meet a given fate. */
  ghost function StepCount(names: Names, m: Matrix, violates: Js -> bool, n: nat, step: RuleStep): nat
    requires ValidNames(names) && ValidMatrix(m) && n <= |m.ruleKeys|
  {
    if n == 0 then 0
    else StepCount(names, m, violates, n - 1, step) + if StepOf(names, m, violates, m.ruleKeys[n - 1]) == step then 1 else 0
  }

  ghost function RuledTo(names: Names, m: Matrix, violates: Js -> bool, store: Js -> Js, n: nat): Names
    requires ValidNames(names) && ValidRules(m) && n <= |m.ruleKeys|
  {
    map k | k in names ::
      if k in Firsts(m.ruleKeys, n) && k in m.rules && StepOf(names, m, violates, k) == Written
      then names[k].(incomeRule := store(m.rules[k])) else names[k]
  }

  /** All three axes, when the first goes through. */
  ghost function Seeded(cat: Catalog, m: Matrix, violates: Js -> bool, store: Js -> Js): Catalog
    requires ValidCatalog(cat) && ValidMatrix(m)
  {
    var based := Rebased(Axis1To(cat, m, |m.keys|), m);
    based.(names := RuledTo(cat.names, m, violates, store, |m.ruleKeys|))
  }
}

/** Sorting and joining category lists: what the text comparison of two lists decides. */
module CategoryLists {
  import opened Basics
  import opened Ordering
  import opened CatalogTables

  lemma {:induction false} InsertKeeps(s: seq<string>, c: string)
    requires Ranked(s) && Distinct(s) && c !in s
    ensures Ranked(InsertRanked(s, c)) && Distinct(InsertRanked(s, c))
  {
    if s != [] && Rank(s[0]) <= Rank(c) {
      assert s == [s[0]] + s[1..];
      InsertKeeps(s[1..], c);
      var r := InsertRanked(s[1..], c);
      forall i | 0 <= i < |r| ensures Rank(s[0]) <= Rank(r[i]) && r[i] != s[0] { assert r[i] in s[1..] || r[i] == c; }
    } else if s != [] {
      forall i | 0 <= i < |s| ensures Rank(c) <= Rank(s[i]) && s[i] != c { assert s[i] in s; }
    }
  }

  lemma {:induction false} SortByRankSorts(s: seq<string>)
    requires Distinct(s)
    ensures Ranked(SortByRank(s)) && Distinct(SortByRank(s)) && forall x :: x in SortByRank(s) <==> x in s
  {
    if s != [] {
      SortByRankSorts(s[..|s| - 1]);
      assert s == s[..|s| - 1] + [s[|s| - 1]];
      assert s[|s| - 1] !in s[..|s| - 1];
      InsertKeeps(SortByRank(s[..|s| - 1]), s[|s| - 1]);
    }
  }

  predicate LoanCategories(s: seq<string>) { forall c | c in s :: IsLoanCategory(c) }

  lemma RankIsInjective(x: string, y: string)
    requires IsLoanCategory(x) && Rank(x) == Rank(y)
    ensures x == y
  {
  }

  function Places(s: seq<string>): map<string, nat>
    requires LoanCategories(s)
  {
    map c | c in s :: Rank(c)
  }

  lemma RankedInOrder(s: seq<string>)
    requires Ranked(s) && Distinct(s) && LoanCategories(s)
    ensures InOrder(s, Elements(s), Places(s))
  {
    hide Rank;
  }

  lemma PlacesAreApart(s: seq<string>)
    requires LoanCategories(s)
    ensures var place := Places(s);
      && Elements(s) <= place.Keys
      && forall x, y | x in Elements(s) && y in Elements(s) && place[x] == place[y] :: x == y
  {
    var place := Places(s);
    forall x, y | x in Elements(s) && y in Elements(s) && place[x] == place[y] ensures x == y {
      RankIsInjective(x, y);
      hide Rank;
    }
    hide Rank;
  }

  lemma SamePlaces(a: seq<string>, b: seq<string>)
    requires LoanCategories(a) && LoanCategories(b) && Elements(a) == Elements(b)
    ensures Places(a) == Places(b)
  {
    hide Rank;
    forall c ensures c in a <==> c in b { assert c in Elements(a) <==> c in Elements(b); }
  }

  /** One order per set of loan categories. */
  lemma RankedIsUnique(a: seq<string>, b: seq<string>)
    requires Ranked(a) && Distinct(a) && Ranked(b) && Distinct(b) && LoanCategories(a) && LoanCategories(b)
    requires Elements(a) == Elements(b)
    ensures a == b
  {
    hide InOrder, Rank, Ranked, Distinct, Places, LoanCategories, Elements;
    RankedInOrder(a);
    RankedInOrder(b);
    SamePlaces(a, b);
    PlacesAreApart(a);
    InOrderIsUnique(a, b, Elements(a), Places(a));
  }

  lemma {:induction false} OfferedToIsSorted(pairs: map<Pair, Flags>, key: string, n: nat)
    requires n <= |CATEGORY_ORDER|
    ensures Ranked(OfferedTo(pairs, key, n)) && Distinct(OfferedTo(pairs, key, n))
    ensures forall c :: c in OfferedTo(pairs, key, n) <==> 0 <= Rank(c) < n && Pair(key, c) in pairs
  {
    if n > 0 {
      OfferedToIsSorted(pairs, key, n - 1);
      var c := CATEGORY_ORDER[n - 1];
      var r := OfferedTo(pairs, key, n - 1);
      assert Rank(c) == n - 1 && forall d :: Rank(d) == n - 1 ==> d == c;
      forall i | 0 <= i < |r| ensures Rank(r[i]) < n - 1 { assert r[i] in r; }
    }
  }

  lemma OfferedIsSorted(pairs: map<Pair, Flags>, key: string)
    ensures var r := Offered(pairs, key);
      && Ranked(r) && Distinct(r) && LoanCategories(r)
      && forall c :: c in r <==> IsLoanCategory(c) && Pair(key, c) in pairs
  {
    OfferedToIsSorted(pairs, key, |CATEGORY_ORDER|);
    hide OfferedTo, Ranked, Distinct;
    assert forall c :: IsLoanCategory(c) <==> 0 <= Rank(c) < 4;
  }

  lemma SortCategoriesHas(s: seq<string>)
    ensures forall x :: x in SortCategories(s) <==> x in s
  {
    DedupIsDistinct(s);
    SortByRankSorts(Dedup(s));
  }

  /** What a matrix name is to be offered under: the curated categories and the live ones. */
  lemma NextHas(m: Matrix, key: string, c: string)
    requires key in m.offers
    ensures c in Next(m, key) <==> c in m.offers[key] || (key != "" && LiveGroup(key, c) in m.live)
  {
    var all := m.offers[key] + LiveCategories(m.live, key);
    LiveCategoriesHas(m.live, key, c);
    DedupIsDistinct(all);
    SortCategoriesHas(Dedup(all));
  }

  /** Whatever order the rows of a name come back in, sorting gives the list in `CATEGORY_ORDER`. */
  lemma SortedRowsAreOffered(pairs: map<Pair, Flags>, key: string, rows: seq<string>)
    requires LoanCategories(rows) && forall c :: c in rows <==> IsLoanCategory(c) && Pair(key, c) in pairs
    ensures SortCategories(rows) == Offered(pairs, key)
  {
    DedupIsDistinct(rows);
    SortByRankSorts(Dedup(rows));
    OfferedIsSorted(pairs, key);
    hide Offered, SortByRank, Ranked, Distinct, Dedup;
    RankedIsUnique(SortCategories(rows), Offered(pairs, key));
  }

  // ---- Joined texts -----------------------------------------------------------------------------------------

  predicate CommaFree(s: string) { forall i :: 0 <= i < |s| ==> s[i] != ',' }

  function Split(s: string): (r: seq<string>)
    ensures |r| > 0
  {
    if s == "" then [""]
    else if s[0] == ',' then [""] + Split(s[1..])
    else
      var r := Split(s[1..]);
      [[s[0]] + r[0]] + r[1..]
  }

  lemma {:induction false} SplitConcat(a: string, rest: string)
    ensures Split(a + "," + rest) == Split(a) + Split(rest)
  {
    if a == "" {
      assert "" + "," + rest == "," + rest;
      assert ("," + rest)[1..] == rest;
    } else {
      assert (a + "," + rest)[1..] == a[1..] + "," + rest;
      SplitConcat(a[1..], rest);
    }
  }

  lemma {:induction false} SplitCommaFree(a: string)
    requires CommaFree(a)
    ensures Split(a) == [a]
  {
    if a != "" {
      SplitCommaFree(a[1..]);
      assert [a[0]] + a[1..] == a;
    }
  }

  lemma {:induction false} PartInSplit(parts: seq<string>, part: string)
    requires part in parts && CommaFree(part)
    ensures part in Split(Joined(parts))
  {
    SplitCommaFree(part);
    if |parts| > 1 {
      SplitConcat(parts[0], Joined(parts[1..]));
      if part != parts[0] { PartInSplit(parts[1..], part); }
    }
  }

  lemma {:induction false} SplitInvertsJoin(parts: seq<string>)
    requires parts != [] && forall p | p in parts :: CommaFree(p)
    ensures Split(Joined(parts)) == parts
  {
    SplitCommaFree(parts[0]);
    if |parts| > 1 {
      SplitConcat(parts[0], Joined(parts[1..]));
      SplitInvertsJoin(parts[1..]);
    }
  }

  lemma LoanCategoryIsAWord(c: string)
    requires IsLoanCategory(c)
    ensures c != "" && CommaFree(c)
  {
  }

  /** A word among the parts of a joined text is in every list of loan categories joined to the same text. */
  lemma JoinedAlike(offered: seq<string>, next: seq<string>, c: string)
    requires LoanCategories(offered) && c != "" && CommaFree(c) && c in next && Joined(offered) == Joined(next)
    ensures c in offered
  {
    PartInSplit(next, c);
    forall p | p in offered ensures CommaFree(p) { LoanCategoryIsAWord(p); }
    if offered == [] {
      assert Joined(offered) == "";
      assert c in [""];
    } else {
      SplitInvertsJoin(offered);
    }
  }
}

/** The seed script, writing the tables in place. */
module CatalogSeeding {
  import opened Basics
  import opened StableJson
  import opened CatalogTables
  import opened CategoryLists

  datatype Outcome =
    | Completed(categoriesChanged: nat, basisWritten: nat, rulesWritten: nat, rulesRejected: nat, rulesSkipped: nat)
    | Failed

  class ProgramCatalogSeeder {
    const m: Matrix
    const violates: Js -> bool
    const store: Js -> Js
    var names: map<string, NameRow>
    var pairs: map<Pair, Flags>
    var ticks: set<Tick>
    var orders: set<Pair>

    constructor (m: Matrix, violates: Js -> bool, store: Js -> Js, cat: Catalog)
      ensures this.m == m && this.violates == violates && this.store == store && Stored() == cat
    {
      this.m, this.violates, this.store := m, violates, store;
      names, pairs, ticks, orders := cat.names, cat.pairs, cat.ticks, cat.orders;
    }

    ghost function Stored(): Catalog
      reads this
    {
      Catalog(names, pairs, ticks, orders)
    }

    /** The categories stored for a name, in whatever order they come back. */
    method RowsOf(pairs: map<Pair, Flags>, key: string) returns (rows: seq<string>)
      requires forall p | p in pairs :: IsLoanCategory(p.category)
      ensures LoanCategories(rows) && forall c :: c in rows <==> IsLoanCategory(c) && Pair(key, c) in pairs
    {
      rows := [];
      var left := set p | p in pairs && p.name == key;
      ghost var all := left;
      while left != {}
        invariant left <= all
        invariant forall c :: c in rows <==> Pair(key, c) in all - left
      {
        var p :| p in left;
        left := left - {p};
        rows := rows + [p.category];
      }
    }

    /** The categories a name is offered under from now on: the curated ones, then every live one not among them. */
    method Desired(key: string) returns (desired: seq<string>)
      requires key in m.offers
      ensures desired == Dedup(m.offers[key] + LiveCategories(m.live, key))
    {
      var live := LiveCategories(m.live, key);
      desired := Dedup(m.offers[key]);
      DesiredEnds(m.offers[key], live);
      hide LiveCategories, Dedup, DesiredTo;
      for i := 0 to |live|
        invariant desired == DesiredTo(m.offers[key], live, i)
      {
        DesiredNext(m.offers[key], live, i);
        if live[i] !in desired {
          desired := desired + [live[i]];
        }
      }
    }

    /** One name: compared with what was stored at the start, and rewritten when the two lists read differently. */
    method AssignName(snapshot: map<Pair, Flags>, key: string, dry: bool) returns (next: seq<string>, changed: bool,
                      failed: bool)
      requires key in m.offers && forall p | p in snapshot :: IsLoanCategory(p.category)
      modifies this
      ensures next == Next(m, key)
      ensures changed <==> Joined(Offered(snapshot, key)) != Joined(next)
      ensures failed <==> changed && !dry && !Storable(m, key)
      ensures Stored() == if changed && !dry && !failed then Reassigned(old(Stored()), m, key, "car" in Offered(snapshot, key)) else old(Stored())
    {
      hide Offered, Joined, SortCategories, LoanCategories, LiveCategories, Dedup;
      var desired := Desired(key);
      next := SortCategories(desired);
      var rows := RowsOf(snapshot, key);
      SortedRowsAreOffered(snapshot, key, rows);
      var before := SortCategories(rows);
      changed, failed := Joined(before) != Joined(next), false;
      if !changed || dry {
        return;
      }
      if exists c | c in next :: !IsLoanCategory(c) {
        failed := true;
        return;
      }
      var written := Reassigned(Catalog(names, pairs, ticks, orders), m, key, "car" in before);
      names, pairs, ticks, orders := written.names, written.pairs, written.ticks, written.orders;
    }

    /** The next name of the matrix, when the catalog has it. */
    method AssignKnown(snapshot: map<Pair, Flags>, key: string, dry: bool, planned: map<string, set<string>>)
      returns (now: map<string, set<string>>, changed: bool, failed: bool)
      requires key in m.offers && forall p | p in snapshot :: IsLoanCategory(p.category)
      modifies this
      ensures now == if key in old(names) && !failed then planned[key := Elements(Next(m, key))] else planned
      ensures changed <==> key in old(names) && Joined(Offered(snapshot, key)) != Joined(Next(m, key))
      ensures failed <==> changed && !dry && !Storable(m, key)
      ensures Stored() == if changed && !dry && !failed then Reassigned(old(Stored()), m, key, "car" in Offered(snapshot, key))
                          else old(Stored())
    {
      hide Next, Offered, Joined, Storable, Reassigned, IsLoanCategory;
      now, changed, failed := planned, false, false;
      if key in names {
        var next;
        next, changed, failed := AssignName(snapshot, key, dry);
        if !failed {
          now := planned[key := set c | c in next];
        }
      }
    }

    method AssignCategories(dry: bool) returns (failed: bool, count: nat, planned: map<string, set<string>>)
      requires ValidCatalog(Stored()) && ValidMatrix(m)
      modifies this
      ensures failed <==> !dry && !Completes(old(Stored()), m)
      ensures failed ==> exists n: nat :: n < |m.keys| && Stored() == Axis1To(old(Stored()), m, n)
      ensures !failed ==> Stored() == if dry then old(Stored()) else Axis1To(old(Stored()), m, |m.keys|)
      ensures !failed ==> count == ChangedCount(old(Stored()), m, |m.keys|)
      ensures !failed ==> planned == Planned(old(Stored()), m)
    {
      var snapshot := pairs;
      ghost var cat := Stored();
      count, planned := 0, map[];
      AxisBegins(cat, m);
      AxisEnds(cat, m);
      ValidTables(cat, m);
      hide Next, Offered, Joined, Storable, Reassigned, StorableTo, Axis1To, ChangedCount, PlannedTo, Completes, Elements;
      hide Covered, ValidMatrix, ValidCatalog, IsLoanCategory;
      for i := 0 to |m.keys|
        invariant names == cat.names
        invariant Stored() == if dry then cat else Axis1To(cat, m, i)
        invariant count == ChangedCount(cat, m, i)
        invariant !dry ==> StorableTo(cat, m, i)
        invariant planned == PlannedTo(cat, m, i)
      {
        PlannedNext(cat, m, i);
        AxisNext(cat, m, i);
        ReassignedKeepsNames(Stored(), m, m.keys[i], "car" in Offered(snapshot, m.keys[i]));
        var changed, stop;
        planned, changed, stop := AssignKnown(snapshot, m.keys[i], dry, planned);
        if stop {
          return true, count, planned;
        }
        count := if changed then count + 1 else count;
      }
      return false, count, planned;
    }

    /** The basis of one name's curated pairs, compared with the rows read after the first axis. */
    method CorrectName(basisNow: map<Pair, Flags>, key: string, planned: map<string, set<string>>,
                       dry: bool) returns (count: nat)
      requires ValidMatrix(m) && key in m.keys && key in planned && forall c | c in m.offers[key] :: c in planned[key]
      requires AgreeOn(basisNow, pairs, key)
      modifies this`pairs
      ensures pairs == if dry then old(pairs) else CorrectedTo(old(pairs), m, key, |CATEGORY_ORDER|)
      ensures count == |WrongTo(old(pairs), m, key, |CATEGORY_ORDER|)|
    {
      ghost var before := pairs;
      count := 0;
      NothingCorrected(before, m, key);
      assert Covered(m) && key in m.offers;
      hide CorrectedTo, WrongTo, AgreeOn, ValidMatrix, Covered;
      for j := 0 to |CATEGORY_ORDER|
        invariant pairs == if dry then before else CorrectedTo(before, m, key, j)
        invariant count == |WrongTo(before, m, key, j)|
      {
        var wrong := CorrectCategory(basisNow, key, planned, dry, j, before);
        count := if wrong then count + 1 else count;
      }
    }

    /** The next category of the catalog order, when the name's basis there is curated. */
    method CorrectCategory(basisNow: map<Pair, Flags>, key: string, planned: map<string, set<string>>, dry: bool, j: nat,
                           ghost before: map<Pair, Flags>) returns (wrong: bool)
      requires key in m.offers && key in planned && forall c | c in m.offers[key] :: c in planned[key]
      requires j < |CATEGORY_ORDER| && AgreeOn(basisNow, before, key)
      requires pairs == if dry then before else CorrectedTo(before, m, key, j)
      modifies this`pairs
      ensures pairs == if dry then before else CorrectedTo(before, m, key, j + 1)
      ensures |WrongTo(before, m, key, j + 1)| == |WrongTo(before, m, key, j)| + if wrong then 1 else 0
    {
      var p := Pair(key, CATEGORY_ORDER[j]);
      CorrectedNext(before, m, key, j);
      AgreeAt(basisNow, before, key, p);
      hide CorrectedTo, WrongTo, AgreeOn, CuratedFlags;
      if p.category !in m.offers[key] || p.category !in planned[key] {
        return false;
      }
      wrong := CorrectPair(basisNow, p, dry);
    }

    /** One curated pair, written when it was read with another basis. */
    method CorrectPair(basisNow: map<Pair, Flags>, p: Pair, dry: bool) returns (wrong: bool)
      modifies this`pairs
      ensures wrong <==> p in basisNow && basisNow[p] != CuratedFlags(m, p)
      ensures pairs == if wrong && !dry then old(pairs)[p := CuratedFlags(m, p)] else old(pairs)
    {
      var want := FlagsOf(CatalogIncomeBasis(m, p.name, p.category));
      if p !in basisNow || basisNow[p] == want {
        return false;
      }
      if !dry {
        pairs := pairs[p := want];
      }
      return true;
    }

    /** The next name of the matrix, when the catalog has it. */
    method CorrectKnown(basisNow: map<Pair, Flags>, planned: map<string, set<string>>, dry: bool, i: nat,
                        ghost before: map<Pair, Flags>)
      returns (count: int)
      requires i < |m.keys| && CanCorrect(m, names.Keys, planned, basisNow, before)
      requires pairs == if dry then before else RebasedTo(names.Keys, before, m, i)
      modifies this`pairs
      ensures pairs == if dry then before else RebasedTo(names.Keys, before, m, i + 1)
      ensures count == |WrongBasisTo(names.Keys, before, m, i + 1)| - |WrongBasisTo(names.Keys, before, m, i)|
    {
      hide RebasedTo, WrongBasisTo, CorrectedTo, WrongTo, AgreeOn, IsLoanCategory, Rank, CuratedTo, CuratedFlags;
      var key := m.keys[i];
      RebasedNext(names.Keys, before, m, i);
      if key !in names {
        return 0;
      }
      AgreeVia(basisNow, before, RebasedTo(names.Keys, before, m, i), key);
      WrongAgree(before, RebasedTo(names.Keys, before, m, i), m, key);
      count := CorrectName(basisNow, key, planned, dry);
    }

    /** The rows of the matrix names as they now are. */
    method ReadBases() returns (basisNow: map<Pair, Flags>)
      ensures ReadFrom(basisNow, pairs, names.Keys, m)
    {
      basisNow := map p | p in pairs && p.name in names && p.name in m.keys :: pairs[p];
    }

    method CorrectBases(planned: map<string, set<string>>, dry: bool) returns (count: nat)
      requires ValidMatrix(m) && forall p | p in pairs :: IsLoanCategory(p.category)
      requires PlansAll(m, names.Keys, planned)
      modifies this`pairs
      ensures pairs == if dry then old(pairs) else RebasedTo(names.Keys, old(pairs), m, |m.keys|)
      ensures count == |WrongBasisTo(names.Keys, old(pairs), m, |m.keys|)|
    {
      var basisNow := ReadBases();
      ghost var before := pairs;
      count := 0;
      NothingRebased(names.Keys, before, m);
      assert CanCorrect(m, names.Keys, planned, basisNow, before);
      hide RebasedTo, WrongBasisTo, CanCorrect;
      for i := 0 to |m.keys|
        invariant pairs == if dry then before else RebasedTo(names.Keys, before, m, i)
        invariant count == |WrongBasisTo(names.Keys, before, m, i)|
      {
        var corrected := CorrectKnown(basisNow, planned, dry, i, before);
        count := count + corrected;
      }
    }

    /** One curated rule, weighed against the row read before the loop. */
    method WriteRule(ruleNow: Names, key: string, dry: bool) returns (step: RuleStep)
      requires ValidNames(ruleNow) && ValidRules(m) && key in m.rules
      requires key in ruleNow ==> key in names
      modifies this`names
      ensures step == StepOf(ruleNow, m, violates, key)
      ensures names == if step == Written && !dry then old(names)[key := old(names)[key].(incomeRule := store(m.rules[key]))] else old(names)
    {
      if key !in ruleNow {
        return Absent;
      }
      var row, want := ruleNow[key], m.rules[key];
      if row.surrogateProductKey.Some? {
        return Linked;
      }
      StableDecidesSame(row.incomeRule, want);
      if Stable(row.incomeRule) == Stable(want) {
        return Equal;
      }
      if violates(want) {
        return Refused;
      }
      if !dry {
        names := names[key := names[key].(incomeRule := store(want))];
      }
      return Written;
    }

    method WriteRules(dry: bool) returns (written: nat, rejected: nat, skipped: nat)
      requires ValidNames(names) && ValidMatrix(m)
      modifies this`names
      ensures names == if dry then old(names) else RuledTo(old(names), m, violates, store, |m.ruleKeys|)
      ensures written == StepCount(old(names), m, violates, |m.ruleKeys|, Written)
      ensures rejected == StepCount(old(names), m, violates, |m.ruleKeys|, Refused)
      ensures skipped == StepCount(old(names), m, violates, |m.ruleKeys|, Linked)
    {
      var ruleNow := names;
      written, rejected, skipped := 0, 0, 0;
      NothingRuled(ruleNow, m, violates, store);
      assert forall step :: StepCount(ruleNow, m, violates, 0, step) == 0;
      hide RuledTo, StepOf, StepCount, ValidNames, Distinct, Covered, OffersLoanCategories, ValidRules;
      for i := 0 to |m.ruleKeys|
        invariant names == if dry then ruleNow else RuledTo(ruleNow, m, violates, store, i)
        invariant written == StepCount(ruleNow, m, violates, i, Written)
        invariant rejected == StepCount(ruleNow, m, violates, i, Refused)
        invariant skipped == StepCount(ruleNow, m, violates, i, Linked)
      {
        RuledNext(ruleNow, m, violates, store, i);
        StepCounted(ruleNow, m, violates, i, Written);
        StepCounted(ruleNow, m, violates, i, Refused);
        StepCounted(ruleNow, m, violates, i, Linked);
        var step := WriteRule(ruleNow, m.ruleKeys[i], dry);
        match step
        case Written => written := written + 1;
        case Refused => rejected := rejected + 1;
        case Linked => skipped := skipped + 1;
        case _ =>
      }
    }

    /** The script. A dry run writes nothing; a real one leaves all three axes applied, unless the first throws. */
    method SeedProgramCatalog(dry: bool) returns (outcome: Outcome)
      requires ValidCatalog(Stored()) && ValidMatrix(m)
      modifies this
      ensures outcome == Failed <==> !dry && !Completes(old(Stored()), m)
      ensures outcome == Failed ==> exists n: nat :: n < |m.keys| && Stored() == Axis1To(old(Stored()), m, n)
      ensures outcome != Failed ==> Stored() == if dry then old(Stored()) else Seeded(old(Stored()), m, violates, store)
      ensures outcome.Completed? ==>
        && outcome.categoriesChanged == ChangedCount(old(Stored()), m, |m.keys|)
        && outcome.basisWritten == |WrongBasis(if dry then old(Stored()) else Axis1To(old(Stored()), m, |m.keys|), m)|
        && outcome.rulesWritten == StepCount(old(names), m, violates, |m.ruleKeys|, Written)
        && outcome.rulesRejected == StepCount(old(names), m, violates, |m.ruleKeys|, Refused)
        && outcome.rulesSkipped == StepCount(old(names), m, violates, |m.ruleKeys|, Linked)
    {
      ghost var cat := Stored();
      Axis1Keeps(cat, m, |m.keys|);
      hide Completes, Axis1To, RebasedTo, RuledTo, WrongBasisTo, StepCount, ChangedCount, Next, PlansAll, ValidRules, Distinct;
      var failed, changed, planned := AssignCategories(dry);
      if failed {
        return Failed;
      }
      PlannedCovers(cat, m);
      var corrected := CorrectBases(planned, dry);
      var written, rejected, skipped := WriteRules(dry);
      return Completed(changed, corrected, written, rejected, skipped);
    }
  }

  ghost function DesiredTo(curated: seq<string>, live: seq<string>, i: nat): seq<string>
    requires i <= |live|
  {
    Dedup(curated + live[..i])
  }

  lemma DesiredEnds(curated: seq<string>, live: seq<string>)
    ensures DesiredTo(curated, live, 0) == Dedup(curated) && DesiredTo(curated, live, |live|) == Dedup(curated + live)
  {
    assert curated + live[..0] == curated && live[..|live|] == live;
  }

  lemma DesiredNext(curated: seq<string>, live: seq<string>, i: nat)
    requires i < |live|
    ensures var before := DesiredTo(curated, live, i);
            DesiredTo(curated, live, i + 1) == if live[i] in before then before else before + [live[i]]
  {
    assert (curated + live[..i + 1])[..|curated| + i] == curated + live[..i];
  }

  /** The first axis decided on every curated category of every name the catalog has. */
  predicate PlansAll(m: Matrix, names: set<string>, planned: map<string, set<string>>)
    requires Covered(m)
  {
    forall k | k in m.keys && k in names :: k in planned && forall c | c in m.offers[k] :: c in planned[k]
  }

  ghost predicate ReadFrom(basisNow: map<Pair, Flags>, pairs: map<Pair, Flags>, names: set<string>, m: Matrix) {
    forall key | key in names && key in m.keys :: AgreeOn(basisNow, pairs, key)
  }

  /** What the second axis starts from: the rows as read, and every curated category among the decided ones. */
  ghost predicate CanCorrect(m: Matrix, names: set<string>, planned: map<string, set<string>>, basisNow: map<Pair, Flags>,
                             before: map<Pair, Flags>) {
    && ValidMatrix(m) && (forall p | p in before :: IsLoanCategory(p.category))
    && PlansAll(m, names, planned) && ReadFrom(basisNow, before, names, m)
  }

  lemma ValidTables(cat: Catalog, m: Matrix)
    requires ValidCatalog(cat) && ValidMatrix(m)
    ensures Covered(m) && forall p | p in cat.pairs :: IsLoanCategory(p.category)
  {
  }

  lemma ReassignedKeepsNames(cat: Catalog, m: Matrix, key: string, hadCar: bool)
    requires key in m.offers
    ensures Reassigned(cat, m, key, hadCar).names == cat.names
  {
  }

  ghost predicate StorableTo(cat: Catalog, m: Matrix, n: nat)
    requires n <= |m.keys| && Covered(m)
  {
    forall j | 0 <= j < n :: Changed(cat, m, m.keys[j]) ==> Storable(m, m.keys[j])
  }

  lemma AxisBegins(cat: Catalog, m: Matrix)
    requires Covered(m)
    ensures Axis1To(cat, m, 0) == cat && ChangedCount(cat, m, 0) == 0 && StorableTo(cat, m, 0) && PlannedTo(cat, m, 0) == map[]
  {
  }

  lemma AxisNext(cat: Catalog, m: Matrix, i: nat)
    requires Covered(m) && i < |m.keys|
    ensures var key := m.keys[i];
      && key in m.offers
      && ChangedCount(cat, m, i + 1) == ChangedCount(cat, m, i) + (if Changed(cat, m, key) then 1 else 0)
      && Axis1To(cat, m, i + 1)
         == (if Changed(cat, m, key) then Reassigned(Axis1To(cat, m, i), m, key, "car" in Offered(cat.pairs, key)) else Axis1To(cat, m, i))
      && (StorableTo(cat, m, i + 1) <==> StorableTo(cat, m, i) && (Changed(cat, m, key) ==> Storable(m, key)))
      && (Changed(cat, m, key) && !Storable(m, key) ==> !Completes(cat, m))
  {
    hide Changed, Storable, Reassigned, Offered;
    assert m.keys[i] in m.keys;
  }

  lemma AxisEnds(cat: Catalog, m: Matrix)
    requires Covered(m)
    ensures StorableTo(cat, m, |m.keys|) <==> Completes(cat, m)
  {
    hide Changed, Storable;
    if StorableTo(cat, m, |m.keys|) {
      forall k | k in m.keys && Changed(cat, m, k) ensures Storable(m, k) {
        var j :| 0 <= j < |m.keys| && m.keys[j] == k;
      }
    }
  }

  ghost function PlannedTo(cat: Catalog, m: Matrix, n: nat): map<string, set<string>>
    requires n <= |m.keys| && Covered(m)
  {
    map k | k in cat.names && k in Firsts(m.keys, n) && k in m.offers :: Elements(Next(m, k))
  }

  /** The categories decided for every matrix name the catalog knows. */
  ghost function Planned(cat: Catalog, m: Matrix): map<string, set<string>>
    requires Covered(m)
  {
    PlannedTo(cat, m, |m.keys|)
  }

  lemma PlannedNext(cat: Catalog, m: Matrix, i: nat)
    requires ValidMatrix(m) && i < |m.keys|
    ensures var k := m.keys[i];
      PlannedTo(cat, m, i + 1) == (if k in cat.names then PlannedTo(cat, m, i)[k := Elements(Next(m, k))] else PlannedTo(cat, m, i))
  {
    FirstsNext(m.keys, i);
    assert m.keys[i] in m.offers;
    hide Next, Changed, Firsts, Distinct, Covered, OffersLoanCategories, ValidRules;
  }

  /** The pairs of one name whose basis is curated, among the first `n` categories. */
  predicate CuratedAmong(m: Matrix, key: string, n: nat, p: Pair) {
    key in m.offers && p.name == key && p.category in m.offers[key] && 0 <= Rank(p.category) < n
  }

  function CorrectedTo(pairs: map<Pair, Flags>, m: Matrix, key: string, n: nat): map<Pair, Flags> {
    map p | p in pairs :: if CuratedAmong(m, key, n, p) then CuratedFlags(m, p) else pairs[p]
  }

  ghost function WrongTo(pairs: map<Pair, Flags>, m: Matrix, key: string, n: nat): set<Pair> {
    set p | p in pairs && CuratedAmong(m, key, n, p) && pairs[p] != CuratedFlags(m, p)
  }

  lemma NothingCorrected(pairs: map<Pair, Flags>, m: Matrix, key: string)
    ensures CorrectedTo(pairs, m, key, 0) == pairs && WrongTo(pairs, m, key, 0) == {}
  {
  }

  lemma NothingRebased(names: set<string>, pairs: map<Pair, Flags>, m: Matrix)
    ensures RebasedTo(names, pairs, m, 0) == pairs && WrongBasisTo(names, pairs, m, 0) == {}
  {
  }

  lemma CorrectedNext(pairs: map<Pair, Flags>, m: Matrix, key: string, j: nat)
    requires j < |CATEGORY_ORDER| && key in m.offers
    ensures var p := Pair(key, CATEGORY_ORDER[j]);
            var want := CuratedFlags(m, p);
      && p !in WrongTo(pairs, m, key, j)
      && (p in pairs ==> CorrectedTo(pairs, m, key, j)[p] == pairs[p])
      && (if p.category in m.offers[key] && p in pairs then
            && CorrectedTo(pairs, m, key, j + 1) == CorrectedTo(pairs, m, key, j)[p := want]
            && (pairs[p] == want ==> CorrectedTo(pairs, m, key, j + 1) == CorrectedTo(pairs, m, key, j))
            && WrongTo(pairs, m, key, j + 1) == (if pairs[p] != want then WrongTo(pairs, m, key, j) + {p} else WrongTo(pairs, m, key, j))
          else
            && CorrectedTo(pairs, m, key, j + 1) == CorrectedTo(pairs, m, key, j)
            && WrongTo(pairs, m, key, j + 1) == WrongTo(pairs, m, key, j))
  {
    var p := Pair(key, CATEGORY_ORDER[j]);
    forall q ensures CuratedAmong(m, key, j + 1, q) <==> CuratedAmong(m, key, j, q) || (q == p && p.category in m.offers[key]) {
      if CuratedAmong(m, key, j + 1, q) && Rank(q.category) == j { assert q == Pair(key, q.category); }
    }
    assert !CuratedAmong(m, key, j, p);
    hide Rank, CuratedFlags, CuratedAmong;
  }

  predicate AgreeOn(a: map<Pair, Flags>, b: map<Pair, Flags>, key: string) {
    (forall p | p in a && p.name == key :: p in b && a[p] == b[p]) && (forall p | p in b && p.name == key :: p in a)
  }

  lemma AgreeAt(a: map<Pair, Flags>, b: map<Pair, Flags>, key: string, p: Pair)
    requires AgreeOn(a, b, key) && p.name == key
    ensures p in a <==> p in b
    ensures p in a ==> a[p] == b[p]
  {
  }

  lemma AgreeVia(a: map<Pair, Flags>, b: map<Pair, Flags>, c: map<Pair, Flags>, key: string)
    requires AgreeOn(a, b, key) && AgreeOn(b, c, key)
    ensures AgreeOn(a, c, key)
  {
  }

  lemma WrongAgree(a: map<Pair, Flags>, b: map<Pair, Flags>, m: Matrix, key: string)
    requires AgreeOn(a, b, key)
    ensures WrongTo(a, m, key, |CATEGORY_ORDER|) == WrongTo(b, m, key, |CATEGORY_ORDER|)
  {
    hide CuratedFlags, Rank;
  }

  lemma CuratedNext(names: set<string>, m: Matrix, i: nat, p: Pair)
    requires ValidMatrix(m) && i < |m.keys| && IsLoanCategory(p.category)
    ensures CuratedTo(names, m, i + 1, p) <==> CuratedTo(names, m, i, p) || (m.keys[i] in names && CuratedAmong(m, m.keys[i], |CATEGORY_ORDER|, p))
    ensures CuratedTo(names, m, i, p) ==> p.name != m.keys[i]
  {
    FirstsNext(m.keys, i);
    assert Rank(p.category) < 4;
    hide Firsts;
  }

  /** One name more: its own pairs corrected, every other name's as before. */
  lemma RebasedNext(names: set<string>, pairs: map<Pair, Flags>, m: Matrix, i: nat)
    requires ValidMatrix(m) && i < |m.keys| && forall p | p in pairs :: IsLoanCategory(p.category)
    ensures var key, before := m.keys[i], RebasedTo(names, pairs, m, i);
      && AgreeOn(pairs, before, key)
      && (if key in names then
            && RebasedTo(names, pairs, m, i + 1) == CorrectedTo(before, m, key, |CATEGORY_ORDER|)
            && |WrongBasisTo(names, pairs, m, i + 1)| == |WrongBasisTo(names, pairs, m, i)| + |WrongTo(before, m, key, |CATEGORY_ORDER|)|
          else
            && RebasedTo(names, pairs, m, i + 1) == before
            && WrongBasisTo(names, pairs, m, i + 1) == WrongBasisTo(names, pairs, m, i))
  {
    var key, before := m.keys[i], RebasedTo(names, pairs, m, i);
    forall p | p in pairs
      ensures CuratedTo(names, m, i + 1, p) <==> CuratedTo(names, m, i, p) || (key in names && CuratedAmong(m, key, |CATEGORY_ORDER|, p))
      ensures CuratedTo(names, m, i, p) ==> p.name != key
    {
      CuratedNext(names, m, i, p);
    }
    hide CuratedTo, Rank, CuratedFlags, ValidMatrix, IsLoanCategory, Distinct;
    assert AgreeOn(pairs, before, key);
    if key in names {
      CorrectedDisjointly(names, pairs, m, i);
    } else {
      hide CuratedAmong;
    }
  }

  lemma CorrectedDisjointly(names: set<string>, pairs: map<Pair, Flags>, m: Matrix, i: nat)
    requires i < |m.keys| && m.keys[i] in names
    requires forall p | p in pairs :: CuratedTo(names, m, i + 1, p) <==> CuratedTo(names, m, i, p) || CuratedAmong(m, m.keys[i], |CATEGORY_ORDER|, p)
    requires forall p | p in pairs :: CuratedTo(names, m, i, p) ==> p.name != m.keys[i]
    ensures var key, before := m.keys[i], RebasedTo(names, pairs, m, i);
      && RebasedTo(names, pairs, m, i + 1) == CorrectedTo(before, m, key, |CATEGORY_ORDER|)
      && |WrongBasisTo(names, pairs, m, i + 1)| == |WrongBasisTo(names, pairs, m, i)| + |WrongTo(before, m, key, |CATEGORY_ORDER|)|
  {
    var key, before := m.keys[i], RebasedTo(names, pairs, m, i);
    assert forall p | p in pairs && CuratedAmong(m, key, |CATEGORY_ORDER|, p) :: p.name == key;
    hide CuratedTo, CuratedAmong, CuratedFlags;
    assert RebasedTo(names, pairs, m, i + 1) == CorrectedTo(before, m, key, |CATEGORY_ORDER|);
    WrongSplits(names, pairs, m, i);
    hide RebasedTo, CorrectedTo, WrongBasisTo, WrongTo;
  }

  lemma WrongSplits(names: set<string>, pairs: map<Pair, Flags>, m: Matrix, i: nat)
    requires i < |m.keys|
    requires forall p | p in pairs :: CuratedTo(names, m, i + 1, p) <==> CuratedTo(names, m, i, p) || CuratedAmong(m, m.keys[i], |CATEGORY_ORDER|, p)
    requires forall p | p in pairs && CuratedAmong(m, m.keys[i], |CATEGORY_ORDER|, p) :: p.name == m.keys[i]
    requires forall p | p in pairs :: CuratedTo(names, m, i, p) ==> p.name != m.keys[i]
    ensures |WrongBasisTo(names, pairs, m, i + 1)|
         == |WrongBasisTo(names, pairs, m, i)| + |WrongTo(RebasedTo(names, pairs, m, i), m, m.keys[i], |CATEGORY_ORDER|)|
  {
    hide CuratedTo, CuratedAmong, CuratedFlags;
    var earlier, own := WrongBasisTo(names, pairs, m, i), WrongTo(RebasedTo(names, pairs, m, i), m, m.keys[i], |CATEGORY_ORDER|);
    assert WrongBasisTo(names, pairs, m, i + 1) == earlier + own;
    assert earlier !! own;
  }

  lemma NothingRuled(names: Names, m: Matrix, violates: Js -> bool, store: Js -> Js)
    requires ValidNames(names) && ValidRules(m)
    ensures RuledTo(names, m, violates, store, 0) == names
  {
  }

  lemma StepCounted(names: Names, m: Matrix, violates: Js -> bool, i: nat, step: RuleStep)
    requires ValidNames(names) && ValidMatrix(m) && i < |m.ruleKeys|
    ensures StepCount(names, m, violates, 0, step) == 0
    ensures StepCount(names, m, violates, i + 1, step)
         == StepCount(names, m, violates, i, step) + if StepOf(names, m, violates, m.ruleKeys[i]) == step then 1 else 0
  {
  }

  lemma RuledNext(names: Names, m: Matrix, violates: Js -> bool, store: Js -> Js, i: nat)
    requires ValidNames(names) && ValidRules(m) && Distinct(m.ruleKeys) && i < |m.ruleKeys| && m.ruleKeys[i] in m.rules
    ensures var key, before := m.ruleKeys[i], RuledTo(names, m, violates, store, i);
      && before.Keys == names.Keys
      && (key in names ==> before[key] == names[key])
      && RuledTo(names, m, violates, store, i + 1)
         == (if StepOf(names, m, violates, key) == Written then before[key := names[key].(incomeRule := store(m.rules[key]))] else before)
  {
    var key := m.ruleKeys[i];
    FirstsNext(m.ruleKeys, i);
    assert StepOf(names, m, violates, key) == Written ==> key in names;
    hide StepOf, ValidNames, Firsts, Distinct;
  }

  /** The first axis leaves the names, and stores loan categories only. */
  lemma {:induction false} Axis1Keeps(cat: Catalog, m: Matrix, n: nat)
    requires ValidCatalog(cat) && ValidMatrix(m) && n <= |m.keys|
    ensures Axis1To(cat, m, n).names == cat.names
    ensures Completes(cat, m) ==> forall p | p in Axis1To(cat, m, n).pairs :: IsLoanCategory(p.category)
  {
    hide Next, Changed, ValidNames, Distinct;
    if n > 0 { Axis1Keeps(cat, m, n - 1); }
  }

  lemma PlannedCovers(cat: Catalog, m: Matrix)
    requires ValidMatrix(m)
    ensures PlansAll(m, cat.names.Keys, Planned(cat, m))
  {
    AllFirsts(m.keys);
    forall k, c | k in m.keys && k in cat.names && c in m.offers[k] ensures c in Elements(Next(m, k)) {
      NextHas(m, k, c);
    }
    hide Firsts, Next;
  }
}
