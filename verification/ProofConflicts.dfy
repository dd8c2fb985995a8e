/** The report that gates the one-proof-per-name rule: which names and programs break it. */
module ProofConflicts {
  import opened Basics

  /** A catalog name, or a surrogate product a name may link to. `incomeRule` is the stored rule, if any. */
  datatype NameRow = NameRow(key: string, incomeRule: Option<string>, surrogateProductKey: Option<string>)

  datatype ProductRow = ProductRow(key: string, incomeRule: Option<string>)

  /** A surrogate program and the rule it reads. */
  datatype Program = Program(programCode: string, programNameKey: Option<string>, incomeAssumption: string)

  // ---- What a name states -------------------------------------------------------------------------------------------

  /** The rule of a product; a key listed twice keeps its last rule. */
  function ProductRule(products: seq<ProductRow>, key: string): Option<string> {
    if products == [] then None
    else
      var p := products[|products| - 1];
      if p.key == key && p.incomeRule.Some? then p.incomeRule else ProductRule(products[..|products| - 1], key)
  }

  /** The linked product's rule when it has one, else the name's own. */
  function EffectiveRule(products: seq<ProductRow>, n: NameRow): Option<string> {
    var linked := if n.surrogateProductKey.Some? then ProductRule(products, n.surrogateProductKey.value) else None;
    if linked.Some? then linked else n.incomeRule
  }

  /** The proof a name states; `proofOf` reads the strategy of a normalized rule. */
  function StatedProof(names: seq<NameRow>, products: seq<ProductRow>, proofOf: string -> string,
                       key: string): Option<string> {
    if names == [] then None
    else
      var n := names[|names| - 1];
      if n.key != key then StatedProof(names[..|names| - 1], products, proofOf, key)
      else match EffectiveRule(products, n)
        case None => None
        case Some(rule) => Some(proofOf(rule))
  }

  lemma {:induction false} ProductRuleExactly(products: seq<ProductRow>, key: string, p: nat)
    requires p < |products| && products[p].key == key && products[p].incomeRule.Some?
    requires forall q | p < q < |products| && products[q].key == key :: products[q].incomeRule.None?
    ensures ProductRule(products, key) == products[p].incomeRule
  {
    if p < |products| - 1 { ProductRuleExactly(products[..|products| - 1], key, p); }
  }

  lemma {:induction false} NoProductRule(products: seq<ProductRow>, key: string)
    requires forall p | 0 <= p < |products| && products[p].key == key :: products[p].incomeRule.None?
    ensures ProductRule(products, key).None?
  {
    if products != [] { NoProductRule(products[..|products| - 1], key); }
  }

  lemma {:induction false} LastNameStates(names: seq<NameRow>, products: seq<ProductRow>, proofOf: string -> string, i: nat)
    requires i < |names| && forall j | i < j < |names| :: names[j].key != names[i].key
    ensures StatedProof(names, products, proofOf, names[i].key) == match EffectiveRule(products, names[i])
      case None => None
      case Some(rule) => Some(proofOf(rule))
  {
    if i < |names| - 1 { LastNameStates(names[..|names| - 1], products, proofOf, i); }
  }

  /** What a name of the catalog states, row by row: the proof of the last rule of the product it links to, when that
      product has one, else of its own rule; without either, nothing. */
  lemma StatedProofExactly(names: seq<NameRow>, products: seq<ProductRow>, proofOf: string -> string, i: nat, p: nat)
    requires i < |names| && forall j | i < j < |names| :: names[j].key != names[i].key
    ensures var n, stated := names[i], StatedProof(names, products, proofOf, names[i].key);
      && (p < |products| && n.surrogateProductKey == Some(products[p].key) && products[p].incomeRule.Some?
          && (forall q | p < q < |products| && products[q].key == products[p].key :: products[q].incomeRule.None?) ==>
            stated == Some(proofOf(products[p].incomeRule.value)))
      && ((forall q | 0 <= q < |products| && n.surrogateProductKey == Some(products[q].key) :: products[q].incomeRule.None?) ==>
            stated == if n.incomeRule.Some? then Some(proofOf(n.incomeRule.value)) else None)
  {
    var n := names[i];
    LastNameStates(names, products, proofOf, i);
    if p < |products| && n.surrogateProductKey == Some(products[p].key) && products[p].incomeRule.Some?
       && forall q | p < q < |products| && products[q].key == products[p].key :: products[q].incomeRule.None?
    {
      ProductRuleExactly(products, products[p].key, p);
    }
    if n.surrogateProductKey.Some?
       && forall q | 0 <= q < |products| && n.surrogateProductKey == Some(products[q].key) :: products[q].incomeRule.None?
    {
      NoProductRule(products, n.surrogateProductKey.value);
    }
    hide ProductRule, StatedProof;
  }

  lemma {:induction false} UnknownNameStatesNothing(names: seq<NameRow>, products: seq<ProductRow>, proofOf: string -> string, key: string)
    requires forall i | 0 <= i < |names| :: names[i].key != key
    ensures StatedProof(names, products, proofOf, key).None?
  {
    if names != [] { UnknownNameStatesNothing(names[..|names| - 1], products, proofOf, key); }
  }

  // ---- The rule and its breaches ----------------------------------------------------------------------------------------

  predicate Filed(p: Program, key: string) { p.programNameKey == Some(key) }

  ghost predicate IsFiled(programs: seq<Program>,
                          key: string) { exists i :: 0 <= i < |programs| && Filed(programs[i], key) }

  /** Some program filed under the name reads a proof the name does not state. */
  ghost predicate Offends(programs: seq<Program>, stated: Option<string>, proofOf: string -> string, key: string) {
    exists i :: 0 <= i < |programs| && Filed(programs[i], key) && stated != Some(proofOf(programs[i].incomeAssumption))
  }

  /** Two programs under one name read two different proofs. */
  ghost predicate IsSplit(programs: seq<Program>, proofOf: string -> string, key: string) {
    exists i, j :: 0 <= i < |programs| && 0 <= j < |programs| && Filed(programs[i], key) && Filed(programs[j], key)
                   && proofOf(programs[i].incomeAssumption) != proofOf(programs[j].incomeAssumption)
  }

  ghost predicate IsMissing(programs: seq<Program>, stated: Option<string>, proofOf: string -> string, key: string) {
    IsFiled(programs, key) && !IsSplit(programs, proofOf, key) && stated.None?
  }

  /** The programs agree on a proof and the name states another. */
  ghost predicate IsMismatch(programs: seq<Program>, stated: Option<string>, proofOf: string -> string, key: string) {
    && !IsSplit(programs, proofOf, key) && stated.Some?
    && exists i :: 0 <= i < |programs| && Filed(programs[i], key) && proofOf(programs[i].incomeAssumption) != stated.value
  }

  /** Every surrogate program is filed, under a name stating just the proof it reads. */
  ghost predicate Obeys(programs: seq<Program>, names: seq<NameRow>, products: seq<ProductRow>,
                        proofOf: string -> string) {
    forall i | 0 <= i < |programs| ::
      && programs[i].programNameKey.Some?
      && StatedProof(names, products, proofOf, programs[i].programNameKey.value) == Some(proofOf(programs[i].incomeAssumption))
  }

  /** Codes of the programs filed under no name, in order. */
  function Unfiled(programs: seq<Program>): seq<string> {
    if programs == [] then []
    else
      var p := programs[|programs| - 1];
      Unfiled(programs[..|programs| - 1]) + (if p.programNameKey.None? then [p.programCode] else [])
  }

  /** An unfiled program is listed after those before it, and no other is. */
  lemma {:induction false} UnfiledAt(programs: seq<Program>, i: nat)
    requires i < |programs|
    ensures var at := |Unfiled(programs[..i])|;
      && Unfiled(programs[..i]) <= Unfiled(programs)
      && (programs[i].programNameKey.None? ==> at < |Unfiled(programs)| && Unfiled(programs)[at] == programs[i].programCode)
      && |Unfiled(programs[..i + 1])| == at + if programs[i].programNameKey.None? then 1 else 0
  {
    assert programs[..i + 1][..i] == programs[..i];
    if i < |programs| - 1 {
      UnfiledAt(programs[..|programs| - 1], i);
      assert programs[..|programs| - 1][..i] == programs[..i] && programs[..|programs| - 1][..i + 1] == programs[..i + 1];
    } else {
      assert programs[..i + 1] == programs;
    }
  }

  /** Proofs read by the programs of a name, in order. */
  function Proofs(programs: seq<Program>, proofOf: string -> string, key: string): seq<string> {
    if programs == [] then []
    else
      var p := programs[|programs| - 1];
      Proofs(programs[..|programs| - 1], proofOf, key) + (if Filed(p, key) then [proofOf(p.incomeAssumption)] else [])
  }

  lemma {:induction false} ProofsOfPrograms(programs: seq<Program>, proofOf: string -> string, key: string,
                                            proof: string)
    ensures proof in Proofs(programs, proofOf, key)
       <==> exists i :: 0 <= i < |programs| && Filed(programs[i], key) && proofOf(programs[i].incomeAssumption) == proof
  {
    if programs != [] {
      var front, last := programs[..|programs| - 1], programs[|programs| - 1];
      ProofsOfPrograms(front, proofOf, key, proof);
      if i :| 0 <= i < |programs| && Filed(programs[i], key) && proofOf(programs[i].incomeAssumption) == proof {
        if i < |front| { assert front[i] == programs[i]; }
      }
      if i :| 0 <= i < |front| && Filed(front[i], key) && proofOf(front[i].incomeAssumption) == proof { assert programs[i] == front[i]; }
      assert programs[|programs| - 1] == last;
    }
  }

  /** What one name's bucket is reported as. */
  datatype Verdict = Clean | Split | Missing | Mismatch

  ghost function VerdictOf(programs: seq<Program>, stated: Option<string>, proofOf: string -> string,
                           key: string): Verdict {
    if IsSplit(programs, proofOf, key) then Split
    else if IsMissing(programs, stated, proofOf, key) then Missing
    else if IsMismatch(programs, stated, proofOf, key) then Mismatch
    else Clean
  }

  /** The decision on a bucket of proofs is the decision on the programs. */
  lemma BucketDecides(programs: seq<Program>, stated: Option<string>, proofOf: string -> string, key: string)
    ensures var proofs := Proofs(programs, proofOf, key);
            var distinct := set x | x in proofs;
      && (IsFiled(programs, key) <==> proofs != [])
      && (IsSplit(programs, proofOf, key) <==> |distinct| > 1)
      && (IsMissing(programs, stated, proofOf, key) <==> proofs != [] && |distinct| <= 1 && stated.None?)
      && (IsMismatch(programs, stated, proofOf, key) <==> proofs != [] && |distinct| <= 1 && stated.Some? && stated.value != proofs[0])
  {
    var proofs := Proofs(programs, proofOf, key);
    var distinct := set x | x in proofs;
    forall proof
      ensures (proof in proofs) == (exists i :: 0 <= i < |programs| && Filed(programs[i], key) && proofOf(programs[i].incomeAssumption) == proof)
    {
      ProofsOfPrograms(programs, proofOf, key, proof);
    }
    hide Proofs;
    assert IsFiled(programs, key) <==> proofs != [] by {
      if proofs != [] { assert proofs[0] in proofs; }
      if i :| 0 <= i < |programs| && Filed(programs[i], key) { assert proofOf(programs[i].incomeAssumption) in proofs; }
    }
    SplitMeansTwo(programs, proofOf, key, proofs);
    if proofs != [] && |distinct| <= 1 { OneProof(proofs); }
  }

  lemma SplitMeansTwo(programs: seq<Program>, proofOf: string -> string, key: string, proofs: seq<string>)
    requires forall proof ::
      (proof in proofs) == (exists i :: 0 <= i < |programs| && Filed(programs[i], key) && proofOf(programs[i].incomeAssumption) == proof)
    ensures IsSplit(programs, proofOf, key) <==> |set x | x in proofs| > 1
  {
    var distinct := set x | x in proofs;
    if |distinct| > 1 {
      var a :| a in distinct;
      assert |distinct - {a}| > 0;
      var b :| b in distinct - {a};
      var i :| 0 <= i < |programs| && Filed(programs[i], key) && proofOf(programs[i].incomeAssumption) == a;
      var j :| 0 <= j < |programs| && Filed(programs[j], key) && proofOf(programs[j].incomeAssumption) == b;
      assert IsSplit(programs, proofOf, key);
    }
    if IsSplit(programs, proofOf, key) {
      var i, j :| 0 <= i < |programs| && 0 <= j < |programs| && Filed(programs[i], key) && Filed(programs[j], key)
                  && proofOf(programs[i].incomeAssumption) != proofOf(programs[j].incomeAssumption);
      var a, b := proofOf(programs[i].incomeAssumption), proofOf(programs[j].incomeAssumption);
      assert {a, b} <= distinct;
      SubsetCount({a, b}, distinct);
    }
  }

  lemma OneProof(proofs: seq<string>)
    requires proofs != [] && |set x | x in proofs| <= 1
    ensures forall x | x in proofs :: x == proofs[0]
  {
    var distinct := set x | x in proofs;
    forall x | x in proofs ensures x == proofs[0] {
      if x != proofs[0] {
        assert {x, proofs[0]} <= distinct;
        SubsetCount({x, proofs[0]}, distinct);
      }
    }
  }

  // ---- The script -------------------------------------------------------------------------------------------------------

  datatype Report = Report(splits: seq<string>, mismatches: seq<string>, missing: seq<string>, unfiled: seq<string>)

  function Total(r: Report): nat { |r.splits| + |r.mismatches| + |r.missing| + |r.unfiled| }

  /** Each list names exactly the names of its kind, no name is listed twice or in two lists, and a name is listed
      exactly when one of its programs breaks the rule. */
  ghost predicate ReportsExactly(r: Report, programs: seq<Program>, names: seq<NameRow>, products: seq<ProductRow>,
                                 proofOf: string -> string) {
    && (forall key :: key in r.splits <==> IsSplit(programs, proofOf, key))
    && (forall key :: key in r.mismatches <==> IsMismatch(programs, StatedProof(names, products, proofOf, key), proofOf, key))
    && (forall key :: key in r.missing <==> IsMissing(programs, StatedProof(names, products, proofOf, key), proofOf, key))
    && (forall key :: Offends(programs, StatedProof(names, products, proofOf, key), proofOf, key)
                      <==> key in r.splits || key in r.mismatches || key in r.missing)
    && r.unfiled == Unfiled(programs)
    && Distinct(r.splits) && Distinct(r.mismatches) && Distinct(r.missing)
    && (forall key | key in r.splits :: key !in r.mismatches && key !in r.missing)
    && (forall key | key in r.mismatches :: key !in r.missing)
  }

  class IncomeProofConflicts {
    const proofOf: string -> string
    const names: seq<NameRow>
    const products: seq<ProductRow>
    const programs: seq<Program>

    constructor (proofOf: string -> string, names: seq<NameRow>, products: seq<ProductRow>, programs: seq<Program>)
      ensures this.proofOf == proofOf && this.names == names && this.products == products && this.programs == programs
    {
      this.proofOf, this.names, this.products, this.programs := proofOf, names, products, programs;
    }

    /** The catalog's proofs by name: a name absent from the map, or mapped to nothing, states none. */
    method CatalogProof() returns (catalogProof: map<string, Option<string>>)
      ensures forall key :: (if key in catalogProof then catalogProof[key] else None) == StatedProof(names, products, proofOf, key)
    {
      var productRules: map<string, string> := map[];
      for i := 0 to |products|
        invariant forall key :: ProductRule(products[..i], key) == if key in productRules then Some(productRules[key]) else None
      {
        assert products[..i + 1][..i] == products[..i];
        if products[i].incomeRule.Some? {
          productRules := productRules[products[i].key := products[i].incomeRule.value];
        }
      }
      assert products[..|products|] == products;
      catalogProof := map[];
      for i := 0 to |names|
        invariant forall key :: (if key in catalogProof then catalogProof[key] else None) == StatedProof(names[..i], products, proofOf, key)
      {
        assert names[..i + 1][..i] == names[..i];
        var n := names[i];
        var linked := n.surrogateProductKey.Some? && n.surrogateProductKey.value in productRules;
        var rule := if linked then Some(productRules[n.surrogateProductKey.value]) else n.incomeRule;
        catalogProof := catalogProof[n.key := if rule.None? then None else Some(proofOf(rule.value))];
      }
      assert names[..|names|] == names;
    }

    /** The programs' proofs bucketed by name, and the unfiled codes. */
    method Bucket() returns (byName: map<string, seq<string>>, unfiled: seq<string>)
      ensures unfiled == Unfiled(programs)
      ensures forall key :: Proofs(programs, proofOf, key) == if key in byName then byName[key] else []
      ensures forall key | key in byName :: byName[key] != []
    {
      byName, unfiled := map[], [];
      for i := 0 to |programs|
        invariant unfiled == Unfiled(programs[..i])
        invariant forall key :: Proofs(programs[..i], proofOf, key) == if key in byName then byName[key] else []
        invariant forall key | key in byName :: byName[key] != []
      {
        assert programs[..i + 1][..i] == programs[..i];
        var p := programs[i];
        if p.programNameKey.None? {
          unfiled := unfiled + [p.programCode];
          continue;
        }
        var key, proof := p.programNameKey.value, proofOf(p.incomeAssumption);
        byName := byName[key := if key in byName then byName[key] + [proof] else [proof]];
      }
      assert programs[..|programs|] == programs;
    }

    /** What one bucket is reported as. */
    method Judge(key: string, proofs: seq<string>, stated: Option<string>) returns (v: Verdict)
      requires proofs == Proofs(programs, proofOf, key) && proofs != []
      ensures v == VerdictOf(programs, stated, proofOf, key)
    {
      BucketDecides(programs, stated, proofOf, key);
      hide IsSplit, IsMissing, IsMismatch, IsFiled, Proofs;
      var distinct := set x | x in proofs;
      if |distinct| > 1 {
        return Split;
      }
      if stated.None? {
        return Missing;
      }
      if stated.value != proofs[0] {
        return Mismatch;
      }
      return Clean;
    }

    ghost function Verdicts(): string -> Verdict {
      key => VerdictOf(programs, StatedProof(names, products, proofOf, key), proofOf, key)
    }

    method Run() returns (r: Report, clean: bool)
      ensures ReportsExactly(r, programs, names, products, proofOf)
      ensures clean <==> Total(r) == 0
    {
      var catalogProof := CatalogProof();
      var byName, unfiled := Bucket();
      var splits: seq<string>, mismatches: seq<string>, missing: seq<string> := [], [], [];
      var left := byName.Keys;
      ghost var done: set<string> := {};
      ghost var verdicts := Verdicts();
      forall key | key !in byName ensures verdicts(key) == Clean {
        UnlistedIsClean(programs, proofOf, key, StatedProof(names, products, proofOf, key));
      }
      hide VerdictOf, StatedProof, Proofs, Unfiled, ListsKind;
      NothingListed(verdicts);
      while left != {}
        invariant left + done == byName.Keys && left !! done
        invariant ListsKind(splits, done, verdicts, Split)
        invariant ListsKind(mismatches, done, verdicts, Mismatch)
        invariant ListsKind(missing, done, verdicts, Missing)
      {
        var key :| key in left;
        var stated := if key in catalogProof then catalogProof[key] else None;
        var v := Judge(key, byName[key], stated);
        OneMoreListed(splits, done, verdicts, Split, key);
        OneMoreListed(mismatches, done, verdicts, Mismatch, key);
        OneMoreListed(missing, done, verdicts, Missing, key);
        match v {
          case Split => splits := splits + [key];
          case Missing => missing := missing + [key];
          case Mismatch => mismatches := mismatches + [key];
          case Clean =>
        }
        left, done := left - {key}, done + {key};
      }
      r := Report(splits, mismatches, missing, unfiled);
      clean := Total(r) == 0;
      assert done == byName.Keys;
      ListedExactly(r, programs, names, products, proofOf, done, verdicts);
    }
  }

  /** The names among `done` with one verdict, each once. */
  ghost predicate ListsKind(list: seq<string>, done: set<string>, verdicts: string -> Verdict, v: Verdict) {
    Distinct(list) && forall key :: key in list <==> key in done && verdicts(key) == v
  }

  lemma NothingListed(verdicts: string -> Verdict)
    ensures forall v :: ListsKind([], {}, verdicts, v)
  {
  }

  lemma OneMoreListed(list: seq<string>, done: set<string>, verdicts: string -> Verdict, v: Verdict, key: string)
    requires ListsKind(list, done, verdicts, v) && key !in done
    ensures ListsKind(if verdicts(key) == v then list + [key] else list, done + {key}, verdicts, v)
  {
  }

  lemma ListedExactly(r: Report, programs: seq<Program>, names: seq<NameRow>, products: seq<ProductRow>,
                      proofOf: string -> string,
                      done: set<string>, verdicts: string -> Verdict)
    requires ListsKind(r.splits, done, verdicts, Split) && ListsKind(r.mismatches, done, verdicts, Mismatch)
    requires ListsKind(r.missing, done, verdicts, Missing)
    requires forall key :: verdicts(key) == VerdictOf(programs, StatedProof(names, products, proofOf, key), proofOf, key)
    requires forall key | key !in done :: verdicts(key) == Clean
    requires r.unfiled == Unfiled(programs)
    ensures ReportsExactly(r, programs, names, products, proofOf)
  {
    forall key
      ensures key in r.splits <==> IsSplit(programs, proofOf, key)
      ensures key in r.mismatches <==> IsMismatch(programs, StatedProof(names, products, proofOf, key), proofOf, key)
      ensures key in r.missing <==> IsMissing(programs, StatedProof(names, products, proofOf, key), proofOf, key)
    {
      assert verdicts(key) == VerdictOf(programs, StatedProof(names, products, proofOf, key), proofOf, key);
      KindsAreExclusive(programs, StatedProof(names, products, proofOf, key), proofOf, key);
      hide IsSplit, IsMismatch, IsMissing, StatedProof, Distinct;
    }
    forall key
      ensures Offends(programs, StatedProof(names, products, proofOf, key), proofOf, key)
         <==> key in r.splits || key in r.mismatches || key in r.missing
    {
      OffenceIsOfAKind(programs, StatedProof(names, products, proofOf, key), proofOf, key);
    }
    hide IsSplit, IsMismatch, IsMissing, Offends, StatedProof, VerdictOf, Unfiled;
  }

  lemma OffenceIsOfAKind(programs: seq<Program>, stated: Option<string>, proofOf: string -> string, key: string)
    ensures Offends(programs, stated, proofOf, key)
       <==> IsSplit(programs, proofOf, key) || IsMismatch(programs, stated, proofOf, key) || IsMissing(programs, stated, proofOf, key)
  {
  }

  lemma UnlistedIsClean(programs: seq<Program>, proofOf: string -> string, key: string, stated: Option<string>)
    requires Proofs(programs, proofOf, key) == []
    ensures VerdictOf(programs, stated, proofOf, key) == Clean
  {
    BucketDecides(programs, stated, proofOf, key);
    hide IsSplit, IsMissing, IsMismatch;
  }

  lemma KindsAreExclusive(programs: seq<Program>, stated: Option<string>, proofOf: string -> string, key: string)
    ensures !(IsSplit(programs, proofOf, key) && (IsMismatch(programs, stated, proofOf, key) || IsMissing(programs, stated, proofOf, key)))
    ensures !(IsMismatch(programs, stated, proofOf, key) && IsMissing(programs, stated, proofOf, key))
  {
  }

  lemma {:induction false} NoneUnfiled(programs: seq<Program>)
    ensures Unfiled(programs) == [] <==> forall i | 0 <= i < |programs| :: programs[i].programNameKey.Some?
  {
    if programs != [] {
      var front := programs[..|programs| - 1];
      NoneUnfiled(front);
      assert forall i | 0 <= i < |front| :: front[i] == programs[i];
    }
  }

  /** The report is clean exactly when the stored book obeys the rule. */
  lemma CleanExactly(r: Report, programs: seq<Program>, names: seq<NameRow>, products: seq<ProductRow>,
                     proofOf: string -> string)
    requires ReportsExactly(r, programs, names, products, proofOf)
    ensures Total(r) == 0 <==> Obeys(programs, names, products, proofOf)
  {
    NoneUnfiled(programs);
    if Total(r) == 0 {
      forall i | 0 <= i < |programs| ensures
        StatedProof(names, products, proofOf, programs[i].programNameKey.value) == Some(proofOf(programs[i].incomeAssumption))
      {
        CleanProgram(r, programs, names, products, proofOf, i);
      }
    }
    if Obeys(programs, names, products, proofOf) {
      forall key ensures key !in r.splits && key !in r.missing && key !in r.mismatches {
        hide Unfiled, StatedProof;
      }
      EmptyIfNone(r.splits);
      EmptyIfNone(r.missing);
      EmptyIfNone(r.mismatches);
    }
  }

  lemma EmptyIfNone(s: seq<string>)
    requires forall x :: x !in s
    ensures s == []
  {
    forall x ensures x !in multiset(s) { assert x !in s; }
    assert multiset(s) == multiset{};
  }

  lemma CleanProgram(r: Report, programs: seq<Program>, names: seq<NameRow>, products: seq<ProductRow>,
                     proofOf: string -> string, i: nat)
    requires ReportsExactly(r, programs, names, products, proofOf) && Total(r) == 0
    requires i < |programs| && programs[i].programNameKey.Some?
    ensures StatedProof(names, products, proofOf, programs[i].programNameKey.value) == Some(proofOf(programs[i].incomeAssumption))
  {
    var key := programs[i].programNameKey.value;
    hide StatedProof, Unfiled;
    assert Filed(programs[i], key) && IsFiled(programs, key);
    assert key !in r.splits && key !in r.mismatches && key !in r.missing;
  }
}
