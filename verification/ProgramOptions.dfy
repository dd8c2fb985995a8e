/** The customer's picker of income types and program names, counted in one pass, against the filter that apply
    and preview use. */
module ProgramOptions {
  import opened Basics

  // ---- The filter ---------------------------------------------------------------------------------------------

  /** The three fields of an active program the scope reads. */
  datatype ScopeRow = ScopeRow(productCategory: string, programNameKey: Option<string>, programType: string)

  /** A null on the request narrows nothing; a null on the program never meets a request that names one. `lower` is
      the runtime's `toLowerCase`. */
  predicate MatchesRequestedScope(lower: string -> string, row: ScopeRow,
                                  category: Option<string>, programNameKey: Option<string>, programType: Option<string>)
  {
    if category.Some? && lower(row.productCategory) != lower(category.value) then false
    else if programNameKey.Some? && row.programNameKey != programNameKey then false
    else if programType.Some? && row.programType != programType.value then false
    else true
  }

  /** How many programs the filter accepts. */
  function Accepted(lower: string -> string, rows: seq<ScopeRow>, category: Option<string>, name: Option<string>,
                    programType: Option<string>): nat {
    if rows == [] then 0
    else Accepted(lower, rows[..|rows| - 1], category, name, programType)
         + if MatchesRequestedScope(lower, rows[|rows| - 1], category, name, programType) then 1 else 0
  }

  lemma {:induction false} AcceptedMeansSome(lower: string -> string, rows: seq<ScopeRow>, category: Option<string>,
                                             name: Option<string>, programType: Option<string>)
    ensures Accepted(lower, rows, category, name, programType) > 0
       <==> exists i :: 0 <= i < |rows| && MatchesRequestedScope(lower, rows[i], category, name, programType)
  {
    if rows != [] {
      var front := rows[..|rows| - 1];
      AcceptedMeansSome(lower, front, category, name, programType);
      assert forall i :: 0 <= i < |front| ==> front[i] == rows[i];
      assert MatchesRequestedScope(lower, rows[|rows| - 1], category, name, programType) ==>
        exists i :: 0 <= i < |rows| && MatchesRequestedScope(lower, rows[i], category, name, programType);
    }
  }

  /** What the filter asks of a program, field by field. */
  lemma MatchesExactly(lower: string -> string, row: ScopeRow, category: Option<string>, name: Option<string>, programType: Option<string>)
    ensures MatchesRequestedScope(lower, row, category, name, programType) <==>
      && (category.Some? ==> lower(row.productCategory) == lower(category.value))
      && (name.Some? ==> row.programNameKey == name)
      && (programType.Some? ==> row.programType == programType.value)
  {
  }

  /** The places of the accepted programs. */
  ghost function AcceptedAt(lower: string -> string, rows: seq<ScopeRow>, category: Option<string>, name: Option<string>,
                            programType: Option<string>): set<int> {
    set i | 0 <= i < |rows| && MatchesRequestedScope(lower, rows[i], category, name, programType)
  }

  lemma {:induction false} AcceptedIsCardinal(lower: string -> string, rows: seq<ScopeRow>, category: Option<string>,
                                              name: Option<string>, programType: Option<string>)
    ensures Accepted(lower, rows, category, name, programType) == |AcceptedAt(lower, rows, category, name, programType)|
  {
    hide MatchesRequestedScope, AcceptedAt;
    if rows == [] {
      NoneAccepted(lower, category, name, programType);
    } else {
      AcceptedIsCardinal(lower, rows[..|rows| - 1], category, name, programType);
      OneMoreRow(lower, rows, category, name, programType);
    }
  }

  lemma NoneAccepted(lower: string -> string, category: Option<string>, name: Option<string>, programType: Option<string>)
    ensures AcceptedAt(lower, [], category, name, programType) == {}
  {
  }

  lemma OneMoreRow(lower: string -> string, rows: seq<ScopeRow>, category: Option<string>, name: Option<string>, programType: Option<string>)
    requires rows != []
    ensures var before, last := AcceptedAt(lower, rows[..|rows| - 1], category, name, programType), |rows| - 1;
      && last !in before
      && AcceptedAt(lower, rows, category, name, programType)
         == if MatchesRequestedScope(lower, rows[last], category, name, programType) then before + {last} else before
  {
    hide MatchesRequestedScope;
  }

  // ---- The catalog --------------------------------------------------------------------------------------------

  datatype Member = Member(key: string, labelAr: string, labelEn: string, categories: seq<string>, surrogateProductKey: string)

  datatype Product = Product(key: string, labelAr: string, labelEn: string)

  datatype NameOption = NameOption(key: string, labelAr: string, labelEn: string, programCount: nat, surrogateProduct: Option<Product>)

  datatype IncomeTypeOption = IncomeTypeOption(programType: string, programCount: nat, programNames: seq<NameOption>)

  const INCOME_TYPES: seq<string> := ["income_proof", "income_surrogate"]

  predicate IsOffered(members: seq<Member>, category: string, key: string) {
    exists i :: 0 <= i < |members| && members[i].key == key && category in members[i].categories
  }

  /** Keys of the offered names, in catalog order; a repeated key keeps its first place. */
  function OfferedKeys(members: seq<Member>, category: string): seq<string> {
    if members == [] then []
    else
      var earlier, m := OfferedKeys(members[..|members| - 1], category), members[|members| - 1];
      if category in m.categories && m.key !in earlier then earlier + [m.key] else earlier
  }

  lemma {:induction false} OfferedKeysAreOffered(members: seq<Member>, category: string)
    ensures forall key :: key in OfferedKeys(members, category) <==> IsOffered(members, category, key)
    ensures forall i, j :: 0 <= i < j < |OfferedKeys(members, category)| ==> OfferedKeys(members, category)[i] != OfferedKeys(members, category)[j]
  {
    if members != [] {
      var front, m := members[..|members| - 1], members[|members| - 1];
      OfferedKeysAreOffered(front, category);
      forall key ensures IsOffered(members, category, key) <==> IsOffered(front, category, key) || (key == m.key && category in m.categories) {
        if i :| 0 <= i < |members| && members[i].key == key && category in members[i].categories {
          if i < |front| { assert front[i] == members[i]; }
        }
        if i :| 0 <= i < |front| && front[i].key == key && category in front[i].categories { assert members[i] == front[i]; }
      }
    }
  }

  /** The entry a repeated key ends with: its last offered mention. */
  function MemberOf(members: seq<Member>, category: string, key: string): (r: Option<Member>)
    ensures r.Some? ==> r.value.key == key
  {
    if members == [] then None
    else
      var m := members[|members| - 1];
      if m.key == key && category in m.categories then Some(m) else MemberOf(members[..|members| - 1], category, key)
  }

  function ProductOf(products: map<string, Product>, programType: string, m: Member): Option<Product> {
    if programType == "income_surrogate" && m.surrogateProductKey != "" && m.surrogateProductKey in products
    then Some(products[m.surrogateProductKey]) else None
  }

  // ---- What the picker must show --------------------------------------------------------------------------------

  /** The programs a pick of this name, under this income type, would be matched against. */
  function CountOf(lower: string -> string, rows: seq<ScopeRow>, category: string, programType: string,
                   key: string): nat {
    Accepted(lower, rows, Some(category), Some(key), Some(programType))
  }

  /** The names to list, in order: those with a program. */
  function ListedKeys(lower: string -> string, rows: seq<ScopeRow>, category: string, programType: string,
                      keys: seq<string>): seq<string> {
    if keys == [] then []
    else
      var earlier, key := ListedKeys(lower, rows, category, programType, keys[..|keys| - 1]), keys[|keys| - 1];
      if CountOf(lower, rows, category, programType, key) > 0 then earlier + [key] else earlier
  }

  function SumOver(lower: string -> string, rows: seq<ScopeRow>, category: string, programType: string,
                   keys: seq<string>): nat {
    if keys == [] then 0
    else SumOver(lower, rows, category, programType, keys[..|keys| - 1]) + CountOf(lower, rows, category, programType, keys[|keys| - 1])
  }

  function KeysOf(names: seq<NameOption>): seq<string> {
    seq(|names|, i requires 0 <= i < |names| => names[i].key)
  }

  ghost predicate ShowsName(lower: string -> string, rows: seq<ScopeRow>, members: seq<Member>,
                            products: map<string, Product>,
                            category: string, programType: string, o: NameOption)
  {
    var m := MemberOf(members, category, o.key);
    && m.Some? && o.labelAr == m.value.labelAr && o.labelEn == m.value.labelEn
    && o.programCount == CountOf(lower, rows, category, programType, o.key) > 0
    && o.surrogateProduct == ProductOf(products, programType, m.value)
  }

  /** One income type of the response. */
  ghost predicate ShowsType(lower: string -> string, rows: seq<ScopeRow>, members: seq<Member>,
                            products: map<string, Product>,
                            category: string, programType: string, t: IncomeTypeOption)
  {
    && t.programType == programType
    && KeysOf(t.programNames) == ListedKeys(lower, rows, category, programType, OfferedKeys(members, category))
    && (forall i | 0 <= i < |t.programNames| :: ShowsName(lower, rows, members, products, category, programType, t.programNames[i]))
    && t.programCount == SumOver(lower, rows, category, programType, OfferedKeys(members, category))
  }

  lemma {:induction false} ListedExactly(lower: string -> string, rows: seq<ScopeRow>, category: string,
                                         programType: string, keys: seq<string>, key: string)
    ensures key in ListedKeys(lower, rows, category, programType, keys) <==> key in keys && CountOf(lower, rows, category, programType, key) > 0
  {
    if keys != [] {
      ListedExactly(lower, rows, category, programType, keys[..|keys| - 1], key);
      assert keys == keys[..|keys| - 1] + [keys[|keys| - 1]];
    }
  }

  /** The picker lists a name under an income type exactly when the catalog offers it there and some active program
      answers to the full triple. */
  lemma PickerListsExactly(lower: string -> string, rows: seq<ScopeRow>, members: seq<Member>,
                           products: map<string, Product>,
                           category: string, programType: string, t: IncomeTypeOption, key: string)
    requires ShowsType(lower, rows, members, products, category, programType, t)
    ensures key in KeysOf(t.programNames)
       <==> (exists i :: 0 <= i < |members| && members[i].key == key && category in members[i].categories)
            && exists i :: 0 <= i < |rows| && lower(rows[i].productCategory) == lower(category)
                           && rows[i].programNameKey == Some(key) && rows[i].programType == programType
  {
    OfferedKeysAreOffered(members, category);
    ListedExactly(lower, rows, category, programType, OfferedKeys(members, category), key);
    AcceptedMeansSome(lower, rows, Some(category), Some(key), Some(programType));
  }

  /** A listed name, told from the catalog and the programs: the labels of its last offered entry, the number of
      programs of the category, name and basis, and the product it links to, under the surrogate basis alone. */
  lemma ListedNameExactly(lower: string -> string, rows: seq<ScopeRow>, members: seq<Member>, products: map<string, Product>,
                          category: string, programType: string, t: IncomeTypeOption, k: nat, i: nat)
    requires ShowsType(lower, rows, members, products, category, programType, t) && k < |t.programNames|
    requires i < |members| && members[i].key == t.programNames[k].key && category in members[i].categories
    requires forall j | i < j < |members| && members[j].key == members[i].key :: category !in members[j].categories
    ensures var o, m := t.programNames[k], members[i];
      && o.labelAr == m.labelAr && o.labelEn == m.labelEn
      && o.programCount == |set r | 0 <= r < |rows| && lower(rows[r].productCategory) == lower(category)
                                    && rows[r].programNameKey == Some(o.key) && rows[r].programType == programType|
      && o.programCount > 0
      && o.surrogateProduct ==
           if programType == "income_surrogate" && m.surrogateProductKey != "" && m.surrogateProductKey in products
           then Some(products[m.surrogateProductKey]) else None
  {
    var o := t.programNames[k];
    assert ShowsName(lower, rows, members, products, category, programType, o);
    LastEntry(members, category, i);
    AcceptedIsCardinal(lower, rows, Some(category), Some(o.key), Some(programType));
    assert AcceptedAt(lower, rows, Some(category), Some(o.key), Some(programType))
      == set r | 0 <= r < |rows| && lower(rows[r].productCategory) == lower(category)
                 && rows[r].programNameKey == Some(o.key) && rows[r].programType == programType;
    hide MemberOf, Accepted, OfferedKeys, ListedKeys;
  }

  lemma {:induction false} LastEntry(members: seq<Member>, category: string, i: nat)
    requires i < |members| && category in members[i].categories
    requires forall j | i < j < |members| && members[j].key == members[i].key :: category !in members[j].categories
    ensures MemberOf(members, category, members[i].key) == Some(members[i])
  {
    if i < |members| - 1 { LastEntry(members[..|members| - 1], category, i); }
  }

  /** The place of a key's first offered entry. */
  ghost predicate FirstOffer(members: seq<Member>, category: string, key: string, i: nat) {
    && i < |members| && members[i].key == key && category in members[i].categories
    && forall j | 0 <= j < i && members[j].key == key :: category !in members[j].categories
  }

  lemma {:induction false} OfferedInOrder(members: seq<Member>, category: string, x: nat, y: nat) returns (i: nat, j: nat)
    requires x < y < |OfferedKeys(members, category)|
    ensures i < j && FirstOffer(members, category, OfferedKeys(members, category)[x], i)
    ensures FirstOffer(members, category, OfferedKeys(members, category)[y], j)
  {
    var front, last := members[..|members| - 1], |members| - 1;
    var earlier := OfferedKeys(front, category);
    if y < |earlier| {
      i, j := OfferedInOrder(front, category, x, y);
    } else {
      OfferedKeysAreOffered(front, category);
      i := FirstOfferOf(front, category, earlier[x]);
      j := last;
      forall k | 0 <= k < last && members[k].key == members[last].key ensures category !in members[k].categories {
        assert front[k] == members[k] && !IsOffered(front, category, members[last].key);
      }
    }
  }

  lemma {:induction false} FirstOfferOf(members: seq<Member>, category: string, key: string) returns (i: nat)
    requires IsOffered(members, category, key)
    ensures FirstOffer(members, category, key, i)
  {
    var front := members[..|members| - 1];
    if IsOffered(front, category, key) {
      i := FirstOfferOf(front, category, key);
    } else {
      i :| i < |members| && members[i].key == key && category in members[i].categories;
      forall j | 0 <= j < i && members[j].key == key ensures category !in members[j].categories { assert front[j] == members[j]; }
    }
  }

  lemma {:induction false} ListedKeepOrder(lower: string -> string, rows: seq<ScopeRow>, category: string, programType: string,
                                           keys: seq<string>, x: nat, y: nat) returns (i: nat, j: nat)
    requires x < y < |ListedKeys(lower, rows, category, programType, keys)|
    ensures i < j < |keys|
    ensures keys[i] == ListedKeys(lower, rows, category, programType, keys)[x]
    ensures keys[j] == ListedKeys(lower, rows, category, programType, keys)[y]
  {
    var front, last := keys[..|keys| - 1], |keys| - 1;
    var earlier := ListedKeys(lower, rows, category, programType, front);
    if y < |earlier| {
      i, j := ListedKeepOrder(lower, rows, category, programType, front, x, y);
    } else {
      ListedExactly(lower, rows, category, programType, front, earlier[x]);
      assert earlier[x] in front;
      i :| i < |front| && front[i] == earlier[x];
      j := last;
    }
  }

  /** Names come in catalog order: by their first offered entries. */
  lemma NamesInCatalogOrder(lower: string -> string, rows: seq<ScopeRow>, members: seq<Member>, products: map<string, Product>,
                            category: string, programType: string, t: IncomeTypeOption, x: nat, y: nat) returns (i: nat, j: nat)
    requires ShowsType(lower, rows, members, products, category, programType, t) && x < y < |t.programNames|
    ensures i < j < |members|
    ensures members[i].key == t.programNames[x].key && category in members[i].categories
    ensures members[j].key == t.programNames[y].key && category in members[j].categories
    ensures forall k | 0 <= k < i && members[k].key == members[i].key :: category !in members[k].categories
    ensures forall k | 0 <= k < j && members[k].key == members[j].key :: category !in members[k].categories
  {
    assert KeysOf(t.programNames)[x] == t.programNames[x].key && KeysOf(t.programNames)[y] == t.programNames[y].key;
    var a, b := ListedKeepOrder(lower, rows, category, programType, OfferedKeys(members, category), x, y);
    i, j := OfferedInOrder(members, category, a, b);
    hide OfferedKeys, ListedKeys;
  }

  // ---- Conservation: the total of a basis -------------------------------------------------------------------------

  /** Active programs of the category and basis whose name is among `keys`. */
  function AcceptedAmong(lower: string -> string, rows: seq<ScopeRow>, category: string, programType: string,
                         keys: seq<string>): nat {
    if rows == [] then 0
    else
      var row := rows[|rows| - 1];
      AcceptedAmong(lower, rows[..|rows| - 1], category, programType, keys)
      + if MatchesRequestedScope(lower, row, Some(category), None, Some(programType)) && row.programNameKey.Some? && row.programNameKey.value in keys
        then 1 else 0
  }

  lemma {:induction false} OneMoreKey(lower: string -> string, rows: seq<ScopeRow>, category: string,
                                      programType: string, keys: seq<string>, key: string)
    requires key !in keys
    ensures AcceptedAmong(lower, rows, category, programType, keys + [key])
         == AcceptedAmong(lower, rows, category, programType, keys) + CountOf(lower, rows, category, programType, key)
  {
    if rows != [] {
      OneMoreKey(lower, rows[..|rows| - 1], category, programType, keys, key);
      var row := rows[|rows| - 1];
      assert MatchesRequestedScope(lower, row, Some(category), Some(key), Some(programType))
        <==> MatchesRequestedScope(lower, row, Some(category), None, Some(programType)) && row.programNameKey == Some(key);
      hide MatchesRequestedScope;
    }
  }

  lemma {:induction false} NoKeys(lower: string -> string, rows: seq<ScopeRow>, category: string, programType: string)
    ensures AcceptedAmong(lower, rows, category, programType, []) == 0
  {
    if rows != [] { NoKeys(lower, rows[..|rows| - 1], category, programType); }
  }

  lemma {:induction false} SumCountsEachRowOnce(lower: string -> string, rows: seq<ScopeRow>, category: string,
                                                programType: string, keys: seq<string>)
    requires Distinct(keys)
    ensures SumOver(lower, rows, category, programType, keys) == AcceptedAmong(lower, rows, category, programType, keys)
  {
    if keys == [] {
      NoKeys(lower, rows, category, programType);
    } else {
      var front, key := keys[..|keys| - 1], keys[|keys| - 1];
      SumCountsEachRowOnce(lower, rows, category, programType, front);
      OneMoreKey(lower, rows, category, programType, front, key);
      assert front + [key] == keys;
    }
  }

  /** The total of an income type counts each program of the category and basis under an offered name once, and no other. */
  lemma TotalCountsPrograms(lower: string -> string, rows: seq<ScopeRow>, members: seq<Member>,
                            products: map<string, Product>,
                            category: string, programType: string, t: IncomeTypeOption)
    requires ShowsType(lower, rows, members, products, category, programType, t)
    ensures t.programCount ==
      |set i | 0 <= i < |rows| && lower(rows[i].productCategory) == lower(category) && rows[i].programType == programType
               && rows[i].programNameKey.Some? && IsOffered(members, category, rows[i].programNameKey.value)|
    ensures t.programCount <= Accepted(lower, rows, Some(category), None, Some(programType))
  {
    OfferedKeysAreOffered(members, category);
    SumCountsEachRowOnce(lower, rows, category, programType, OfferedKeys(members, category));
    AmongAccepted(lower, rows, category, programType, OfferedKeys(members, category));
    AmongIsCardinal(lower, rows, category, programType, OfferedKeys(members, category));
    assert AmongAt(lower, rows, category, programType, OfferedKeys(members, category)) ==
      set i | 0 <= i < |rows| && lower(rows[i].productCategory) == lower(category) && rows[i].programType == programType
              && rows[i].programNameKey.Some? && IsOffered(members, category, rows[i].programNameKey.value);
    hide AcceptedAmong, Accepted, OfferedKeys, SumOver, IsOffered;
  }

  ghost function AmongAt(lower: string -> string, rows: seq<ScopeRow>, category: string, programType: string, keys: seq<string>): set<int> {
    set i | 0 <= i < |rows| && MatchesRequestedScope(lower, rows[i], Some(category), None, Some(programType))
            && rows[i].programNameKey.Some? && rows[i].programNameKey.value in keys
  }

  lemma {:induction false} AmongIsCardinal(lower: string -> string, rows: seq<ScopeRow>, category: string, programType: string,
                                           keys: seq<string>)
    ensures AcceptedAmong(lower, rows, category, programType, keys) == |AmongAt(lower, rows, category, programType, keys)|
  {
    hide MatchesRequestedScope, AmongAt;
    if rows == [] {
      NoneAmong(lower, category, programType, keys);
    } else {
      AmongIsCardinal(lower, rows[..|rows| - 1], category, programType, keys);
      OneMoreAmong(lower, rows, category, programType, keys);
    }
  }

  lemma NoneAmong(lower: string -> string, category: string, programType: string, keys: seq<string>)
    ensures AmongAt(lower, [], category, programType, keys) == {}
  {
  }

  lemma OneMoreAmong(lower: string -> string, rows: seq<ScopeRow>, category: string, programType: string, keys: seq<string>)
    requires rows != []
    ensures var before, last := AmongAt(lower, rows[..|rows| - 1], category, programType, keys), |rows| - 1;
      && last !in before
      && AmongAt(lower, rows, category, programType, keys)
         == if MatchesRequestedScope(lower, rows[last], Some(category), None, Some(programType))
               && rows[last].programNameKey.Some? && rows[last].programNameKey.value in keys
            then before + {last} else before
  {
    hide MatchesRequestedScope;
  }

  lemma {:induction false} AmongAccepted(lower: string -> string, rows: seq<ScopeRow>, category: string,
                                         programType: string, keys: seq<string>)
    ensures AcceptedAmong(lower, rows, category, programType, keys) <= Accepted(lower, rows, Some(category), None, Some(programType))
  {
    if rows != [] { AmongAccepted(lower, rows[..|rows| - 1], category, programType, keys); }
  }

  // ---- The service --------------------------------------------------------------------------------------------------

  class ProgramOptionsService {
    const lower: string -> string
    var rows: seq<ScopeRow>
    var members: seq<Member>
    var products: seq<Product>

    constructor (lower: string -> string, rows: seq<ScopeRow>, members: seq<Member>, products: seq<Product>)
      ensures this.lower == lower && this.rows == rows && this.members == members && this.products == products
    {
      this.lower, this.rows, this.members, this.products := lower, rows, members, products;
    }

    /** The names offered under the category, as a map that keeps insertion order. */
    method Offered(category: string) returns (order: seq<string>, offered: map<string, Member>)
      ensures order == OfferedKeys(members, category)
      ensures forall key :: key in offered <==> key in order
      ensures forall key | key in offered :: MemberOf(members, category, key) == Some(offered[key])
    {
      order, offered := [], map[];
      for i := 0 to |members|
        invariant order == OfferedKeys(members[..i], category)
        invariant forall key :: key in offered <==> key in order
        invariant forall key :: MemberOf(members[..i], category, key) == if key in offered then Some(offered[key]) else None
      {
        assert members[..i + 1][..i] == members[..i];
        var m := members[i];
        if category in m.categories {
          if m.key !in offered {
            order := order + [m.key];
          }
          offered := offered[m.key := m];
        }
      }
      assert members[..|members|] == members;
    }

    /** One pass over the programs, into a count per income type and name. */
    method Tally(category: string, offered: map<string, Member>) returns (counts: map<string, map<string, nat>>)
      ensures forall t :: t in counts <==> t in INCOME_TYPES
      ensures forall t, key | t in counts && key in offered ::
        (if key in counts[t] then counts[t][key] else 0) == CountOf(lower, rows, category, t, key)
    {
      counts := map t | t in INCOME_TYPES :: map[];
      for i := 0 to |rows|
        invariant forall t :: t in counts <==> t in INCOME_TYPES
        invariant forall t, key | t in counts && key in offered ::
          (if key in counts[t] then counts[t][key] else 0) == CountOf(lower, rows[..i], category, t, key)
      {
        assert rows[..i + 1][..i] == rows[..i];
        var row := rows[i];
        if !MatchesRequestedScope(lower, row, Some(category), None, None) {
          continue;
        }
        if row.programNameKey.None? || row.programNameKey.value !in offered || row.programType !in counts {
          continue;
        }
        var byName, key := counts[row.programType], row.programNameKey.value;
        counts := counts[row.programType := byName[key := (if key in byName then byName[key] else 0) + 1]];
      }
      assert rows[..|rows|] == rows;
    }

    /** The entry of one income type, its names in catalog order. */
    method TypeOption(category: string, programType: string, order: seq<string>, offered: map<string, Member>,
                      byName: map<string, nat>, productsByKey: map<string, Product>) returns (t: IncomeTypeOption)
      requires order == OfferedKeys(members, category)
      requires forall key :: key in offered <==> key in order
      requires forall key | key in offered :: MemberOf(members, category, key) == Some(offered[key])
      requires forall key | key in offered :: (if key in byName then byName[key] else 0) == CountOf(lower, rows, category, programType, key)
      ensures ShowsType(lower, rows, members, productsByKey, category, programType, t) && t.programType == programType
    {
      var names: seq<NameOption> := [];
      var total := 0;
      NothingListed(lower, rows, category, programType, order);
      hide CountOf, OfferedKeys, MemberOf, ProductOf, ListedKeys, SumOver;
      for i := 0 to |order|
        invariant KeysOf(names) == ListedKeys(lower, rows, category, programType, order[..i])
        invariant forall j | 0 <= j < |names| :: ShowsName(lower, rows, members, productsByKey, category, programType, names[j])
        invariant total == SumOver(lower, rows, category, programType, order[..i])
      {
        NextListed(lower, rows, category, programType, order, i);
        var key := order[i];
        if key !in byName || byName[key] == 0 {
          continue;
        }
        var m := offered[key];
        var o := NameOption(key, m.labelAr, m.labelEn, byName[key], ProductOf(productsByKey, programType, m));
        assert KeysOf(names + [o]) == KeysOf(names) + [key];
        names := names + [o];
        total := total + byName[key];
      }
      assert order[..|order|] == order;
      t := IncomeTypeOption(programType, total, names);
    }

    method ForCategory(category: string) returns (incomeTypes: seq<IncomeTypeOption>)
      ensures |incomeTypes| == |INCOME_TYPES| == 2
      ensures incomeTypes[0].programType == "income_proof" && incomeTypes[1].programType == "income_surrogate"
      ensures forall i | 0 <= i < |incomeTypes| ::
        ShowsType(lower, rows, members, ByKey(products), category, INCOME_TYPES[i], incomeTypes[i])
    {
      var order, offered := Offered(category);
      var counts := Tally(category, offered);
      hide ShowsType, OfferedKeys, MemberOf, CountOf;
      incomeTypes := [];
      for i := 0 to |INCOME_TYPES|
        invariant |incomeTypes| == i && forall j | 0 <= j < i :: incomeTypes[j].programType == INCOME_TYPES[j]
        invariant forall j | 0 <= j < i :: ShowsType(lower, rows, members, ByKey(products), category, INCOME_TYPES[j], incomeTypes[j])
      {
        var t := TypeOption(category, INCOME_TYPES[i], order, offered, counts[INCOME_TYPES[i]], ByKey(products));
        incomeTypes := incomeTypes + [t];
      }
    }
  }

  lemma NothingListed(lower: string -> string, rows: seq<ScopeRow>, category: string, programType: string, keys: seq<string>)
    ensures ListedKeys(lower, rows, category, programType, keys[..0]) == []
    ensures SumOver(lower, rows, category, programType, keys[..0]) == 0
  {
  }

  lemma NextListed(lower: string -> string, rows: seq<ScopeRow>, category: string, programType: string, keys: seq<string>,
                   i: nat)
    requires i < |keys|
    ensures var count := CountOf(lower, rows, category, programType, keys[i]);
      && ListedKeys(lower, rows, category, programType, keys[..i + 1])
         == ListedKeys(lower, rows, category, programType, keys[..i]) + (if count > 0 then [keys[i]] else [])
      && SumOver(lower, rows, category, programType, keys[..i + 1]) == SumOver(lower, rows, category, programType, keys[..i]) + count
  {
    hide CountOf;
    assert keys[..i + 1][..i] == keys[..i];
  }

  /** `new Map(products.map(p => [p.key, p]))`: the last of a repeated key. */
  function ByKey(products: seq<Product>): map<string, Product> {
    if products == [] then map[] else ByKey(products[..|products| - 1])[products[|products| - 1].key := products[|products| - 1]]
  }

  lemma {:induction false} ByKeyExactly(products: seq<Product>, key: string)
    ensures key in ByKey(products) <==> exists i :: 0 <= i < |products| && products[i].key == key
    ensures forall i | 0 <= i < |products| && products[i].key == key && (forall j | i < j < |products| :: products[j].key != key) ::
      key in ByKey(products) && ByKey(products)[key] == products[i]
  {
    if products != [] {
      var front := products[..|products| - 1];
      ByKeyExactly(front, key);
      assert forall i | 0 <= i < |front| :: front[i] == products[i];
    }
  }
}
