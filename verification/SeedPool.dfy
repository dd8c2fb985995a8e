/** The questionnaire pool as the seeder builds it: what each in-place step leaves, as functions of the
    order and the map. */
module SeedPoolSpec {
  import opened Basics

  datatype SeedOption = SeedOption(code: string, labelEn: string, labelAr: string)

  /** Branch rule: shown only after the source question was answered a certain way. */
  datatype Branch = Branch(questionCode: string, rule: string)

  datatype Content = Content(kind: string, questionEn: string, questionAr: string, isRequired: bool)

  datatype SeedQuestion = SeedQuestion(code: string, content: Content, enabledWhen: Option<Branch>, options: seq<SeedOption>)

  datatype SeedGroup = SeedGroup(code: string, title: string, questions: seq<SeedQuestion>)

  /** A question injected beside the four configs, with the group it belongs to. */
  datatype Injected = Injected(groupCode: string, question: SeedQuestion)

  datatype MergedQuestion =
    MergedQuestion(code: string, groupCode: string, content: Content, enabledWhen: Option<Branch>, options: seq<SeedOption>)

  type ByCode = map<string, MergedQuestion>

  lemma DistinctConcat(a: seq<string>, b: seq<string>)
    requires Distinct(a) && Distinct(b) && forall x | x in a :: x !in b
    ensures Distinct(a + b)
  {
    var c := a + b;
    forall i, j | 0 <= i < j < |c| ensures c[i] != c[j] {
      if i < |a| <= j { assert a[i] in a && b[j - |a|] in b; }
    }
  }

  lemma DistinctSplit(a: seq<string>, b: seq<string>)
    requires Distinct(a + b)
    ensures Distinct(a) && Distinct(b) && forall x | x in a :: x !in b
  {
    forall i, j | 0 <= i < j < |a| ensures a[i] != a[j] {
      assert (a + b)[i] == a[i] && (a + b)[j] == a[j];
    }
    forall i, j | 0 <= i < j < |b| ensures b[i] != b[j] {
      assert (a + b)[|a| + i] == b[i] && (a + b)[|a| + j] == b[j];
    }
    forall i, j | 0 <= i < |a| && 0 <= j < |b| ensures a[i] != b[j] {
      assert (a + b)[i] == a[i] && (a + b)[|a| + j] == b[j];
    }
  }

  // ---- 1. The merge of the configs ------------------------------------------------------------------

  function OptionCodes(options: seq<SeedOption>): (r: seq<string>)
    ensures |r| == |options| && forall i :: 0 <= i < |r| ==> r[i] == options[i].code
  {
    seq(|options|, i requires 0 <= i < |options| => options[i].code)
  }

  /** An option is added when its code is new. */
  function WithOption(options: seq<SeedOption>, o: SeedOption): seq<SeedOption> {
    if o.code in OptionCodes(options) then options else options + [o]
  }

  function WithOptions(options: seq<SeedOption>, more: seq<SeedOption>): seq<SeedOption> {
    if more == [] then options else WithOption(WithOptions(options, more[..|more| - 1]), more[|more| - 1])
  }

  datatype Questions = Questions(order: seq<string>, byCode: ByCode)

  function Registered(groupCode: string, q: SeedQuestion): MergedQuestion {
    MergedQuestion(q.code, groupCode, q.content, q.enabledWhen, [])
  }

  /** One authored question: its first sighting fixes everything but the options, which accumulate. */
  function WithQuestion(qs: Questions, item: Injected): Questions {
    var q := item.question;
    var known := q.code in qs.byCode;
    var mq := if known then qs.byCode[q.code] else Registered(item.groupCode, q);
    Questions(if known then qs.order else qs.order + [q.code],
              qs.byCode[q.code := mq.(options := WithOptions(mq.options, q.options))])
  }

  function Merged(items: seq<Injected>): Questions {
    if items == [] then Questions([], map[]) else WithQuestion(Merged(items[..|items| - 1]), items[|items| - 1])
  }

  /** The questions a group contributes: those no bound money question supersedes. */
  function ItemsOfGroup(groupCode: string, questions: seq<SeedQuestion>, superseded: set<string>): seq<Injected> {
    if questions == [] then []
    else
      var q := questions[|questions| - 1];
      ItemsOfGroup(groupCode, questions[..|questions| - 1], superseded)
        + (if q.code in superseded then [] else [Injected(groupCode, q)])
  }

  function ItemsOfConfig(groups: seq<SeedGroup>, superseded: set<string>): seq<Injected> {
    if groups == [] then []
    else
      var g := groups[|groups| - 1];
      ItemsOfConfig(groups[..|groups| - 1], superseded) + ItemsOfGroup(g.code, g.questions, superseded)
  }

  function Items(configs: seq<seq<SeedGroup>>, superseded: set<string>): seq<Injected> {
    if configs == [] then [] else Items(configs[..|configs| - 1], superseded) + ItemsOfConfig(configs[|configs| - 1], superseded)
  }

  lemma MergedNext(items: seq<Injected>, item: Injected)
    ensures Merged(items + [item]) == WithQuestion(Merged(items), item)
  {
    assert (items + [item])[..|items|] == items;
  }

  lemma ItemsOfGroupNext(groupCode: string, questions: seq<SeedQuestion>, superseded: set<string>, i: nat)
    requires i < |questions|
    ensures ItemsOfGroup(groupCode, questions[..i + 1], superseded)
         == ItemsOfGroup(groupCode, questions[..i], superseded)
            + (if questions[i].code in superseded then [] else [Injected(groupCode, questions[i])])
  {
    assert questions[..i + 1][..i] == questions[..i];
  }

  lemma ItemsOfConfigNext(groups: seq<SeedGroup>, superseded: set<string>, i: nat)
    requires i < |groups|
    ensures ItemsOfConfig(groups[..i + 1], superseded)
         == ItemsOfConfig(groups[..i], superseded) + ItemsOfGroup(groups[i].code, groups[i].questions, superseded)
  {
    assert groups[..i + 1][..i] == groups[..i];
  }

  lemma ItemsNext(configs: seq<seq<SeedGroup>>, superseded: set<string>, i: nat)
    requires i < |configs|
    ensures Items(configs[..i + 1], superseded) == Items(configs[..i], superseded) + ItemsOfConfig(configs[i], superseded)
  {
    assert configs[..i + 1][..i] == configs[..i];
  }

  datatype Groups = Groups(order: seq<string>, byCode: map<string, SeedGroup>)

  function WithGroup(gs: Groups, g: SeedGroup): Groups {
    if g.code in gs.byCode then gs else Groups(gs.order + [g.code], gs.byCode[g.code := g])
  }

  function GroupsOfConfig(gs: Groups, groups: seq<SeedGroup>): Groups {
    if groups == [] then gs else WithGroup(GroupsOfConfig(gs, groups[..|groups| - 1]), groups[|groups| - 1])
  }

  function GroupsOf(configs: seq<seq<SeedGroup>>): Groups {
    if configs == [] then Groups([], map[]) else GroupsOfConfig(GroupsOf(configs[..|configs| - 1]), configs[|configs| - 1])
  }

  // ---- 1b, 1c. The injected questions ---------------------------------------------------------------

  datatype Manner = Money | Bureau | Source | Obligation

  /** How an injected question is stored. The money and bureau ones are registered without their rule, the money
      questions and the sources of income without options, and a source is always an optional number. */
  function InjectedRow(i: Injected, manner: Manner): MergedQuestion {
    var q := i.question;
    match manner
    case Money => MergedQuestion(q.code, i.groupCode, q.content, None, [])
    case Bureau => MergedQuestion(q.code, i.groupCode, q.content, None, q.options)
    case Source => MergedQuestion(q.code, i.groupCode, q.content.(kind := "NUMERIC", isRequired := false), q.enabledWhen, [])
    case Obligation => MergedQuestion(q.code, i.groupCode, q.content, q.enabledWhen, q.options)
  }

  function WithRows(byCode: ByCode, injected: seq<Injected>, manner: Manner): ByCode {
    if injected == [] then byCode
    else
      var last := injected[|injected| - 1];
      WithRows(byCode, injected[..|injected| - 1], manner)[last.question.code := InjectedRow(last, manner)]
  }

  function Codes(injected: seq<Injected>): (r: seq<string>)
    ensures |r| == |injected| && forall i :: 0 <= i < |r| ==> r[i] == injected[i].question.code
  {
    seq(|injected|, i requires 0 <= i < |injected| => injected[i].question.code)
  }

  lemma WithRowsNext(byCode: ByCode, injected: seq<Injected>, i: nat, manner: Manner)
    requires i < |injected|
    ensures WithRows(byCode, injected[..i + 1], manner)
         == WithRows(byCode, injected[..i], manner)[injected[i].question.code := InjectedRow(injected[i], manner)]
  {
    assert injected[..i + 1][..i] == injected[..i];
  }

  lemma CodesNext(injected: seq<Injected>, i: nat)
    requires i < |injected|
    ensures Codes(injected[..i + 1]) == Codes(injected[..i]) + [injected[i].question.code]
  {}

  /** The first n injected questions all name a group the merge produced. */
  ghost predicate GroupsKnown(injected: seq<Injected>, n: nat, groups: set<string>)
    requires n <= |injected|
  {
    forall i :: 0 <= i < n ==> injected[i].groupCode in groups
  }

  function Reversed(s: seq<string>): (r: seq<string>)
    ensures |r| == |s| && forall x :: x in r <==> x in s
  {
    if s == [] then []
    else
      assert s == [s[0]] + s[1..];
      Reversed(s[1..]) + [s[0]]
  }

  /** What the backward splice leaves. */
  function Without(order: seq<string>, block: seq<string>): seq<string> {
    if order == [] then [] else (if order[0] in block then [] else [order[0]]) + Without(order[1..], block)
  }

  lemma {:induction false} WithoutElements(order: seq<string>, block: seq<string>)
    ensures forall x :: x in Without(order, block) <==> x in order && x !in block
  {
    if order != [] {
      assert order == [order[0]] + order[1..];
      WithoutElements(order[1..], block);
    }
  }

  /** `indexOf`: the first position, or -1. */
  function IndexOf(order: seq<string>, code: string): (r: int)
    ensures -1 <= r < |order|
    ensures r >= 0 ==> order[r] == code
    ensures r < 0 <==> code !in order
    ensures forall i :: 0 <= i < |order| && order[i] == code ==> 0 <= r <= i
  {
    if order == [] then -1
    else if order[0] == code then 0
    else
      var rest := IndexOf(order[1..], code);
      assert order == [order[0]] + order[1..];
      assert forall i :: 1 <= i < |order| ==> order[i] == order[1..][i - 1];
      if rest < 0 then -1 else rest + 1
  }

  function Max(a: int, b: int): int { if a < b then b else a }

  /** Position of the last bound money question outside the block, or -1. */
  function LastMoney(order: seq<string>, bindings: seq<string>, block: seq<string>): (r: int)
    ensures -1 <= r < |order|
    ensures r >= 0 ==> order[r] in bindings && order[r] !in block
    ensures forall code | code in bindings && code !in block :: IndexOf(order, code) <= r
  {
    if bindings == [] then -1
    else
      var code := bindings[|bindings| - 1];
      var earlier := LastMoney(order, bindings[..|bindings| - 1], block);
      assert bindings == bindings[..|bindings| - 1] + [code];
      if code in block then earlier else Max(earlier, IndexOf(order, code))
  }

  function Reseated(order: seq<string>, bindings: seq<string>, block: seq<string>): seq<string> {
    var rest := Without(order, block);
    var at := LastMoney(rest, bindings, block) + 1;
    rest[..at] + block + rest[at..]
  }

  // ---- mergeThinGroups --------------------------------------------------------------------------------

  datatype Merge = Merge(from: string, to: string)

  ghost predicate TargetsKnown(merges: seq<Merge>, n: nat, groups: set<string>)
    requires n <= |merges|
  {
    forall i :: 0 <= i < n ==> merges[i].to in groups
  }

  function Target(merges: seq<Merge>, groupCode: string): (r: Option<string>)
    ensures r.Some? ==> exists m | m in merges :: m.from == groupCode && m.to == r.value
    ensures r.None? <==> forall m | m in merges :: m.from != groupCode
  {
    if merges == [] then None
    else
      assert merges == [merges[0]] + merges[1..];
      if merges[0].from == groupCode then Some(merges[0].to) else Target(merges[1..], groupCode)
  }

  function Regrouped(merges: seq<Merge>, q: MergedQuestion): MergedQuestion {
    match Target(merges, q.groupCode)
    case Some(to) => q.(groupCode := to)
    case None => q
  }

  function Remapped(merges: seq<Merge>, byCode: ByCode): ByCode {
    map c | c in byCode :: Regrouped(merges, byCode[c])
  }

  function Froms(merges: seq<Merge>): set<string> { set m | m in merges :: m.from }

  function Retitled(groups: map<string, SeedGroup>, titles: map<string, string>): map<string, SeedGroup> {
    map c | c in groups :: if c in titles then groups[c].(title := titles[c]) else groups[c]
  }

  /** `indexOf` then `splice`: the first occurrence goes. */
  function DropFirst(order: seq<string>, code: string): seq<string> {
    var at := IndexOf(order, code);
    if at < 0 then order else order[..at] + order[at + 1..]
  }

  function DropAll(order: seq<string>, merges: seq<Merge>): seq<string> {
    if merges == [] then order else DropFirst(DropAll(order, merges[..|merges| - 1]), merges[|merges| - 1].from)
  }
}

/** The builder itself: four collections changed in place. */
module SeedPoolBuilder {
  import opened Basics
  import opened SeedPoolSpec

  class SeedPool {
    var groupOrder: seq<string>
    var groupByCode: map<string, SeedGroup>
    var questionOrder: seq<string>
    var questionByCode: ByCode

    ghost function Qs(): Questions reads this { Questions(questionOrder, questionByCode) }

    ghost function Gs(): Groups reads this { Groups(groupOrder, groupByCode) }

    constructor ()
      ensures Qs() == Questions([], map[]) && Gs() == Groups([], map[])
    {
      groupOrder, groupByCode, questionOrder, questionByCode := [], map[], [], map[];
    }

    method AddQuestion(groupCode: string, q: SeedQuestion)
      modifies this`questionOrder, this`questionByCode
      ensures Qs() == WithQuestion(old(Qs()), Injected(groupCode, q))
    {
      if q.code !in questionByCode {
        questionByCode := questionByCode[q.code := Registered(groupCode, q)];
        questionOrder := questionOrder + [q.code];
      }
      var mq := questionByCode[q.code];
      var options := mq.options;
      for i := 0 to |q.options|
        invariant options == WithOptions(mq.options, q.options[..i])
      {
        assert q.options[..i + 1][..i] == q.options[..i];
        if q.options[i].code !in OptionCodes(options) {
          options := options + [q.options[i]];
        }
      }
      assert q.options[..|q.options|] == q.options;
      questionByCode := questionByCode[q.code := mq.(options := options)];
    }

    method AddGroup(g: SeedGroup, superseded: set<string>, ghost done: seq<Injected>)
      requires Qs() == Merged(done)
      modifies this
      ensures Gs() == WithGroup(old(Gs()), g)
      ensures Qs() == Merged(done + ItemsOfGroup(g.code, g.questions, superseded))
    {
      if g.code !in groupByCode {
        groupByCode := groupByCode[g.code := g];
        groupOrder := groupOrder + [g.code];
      }
      ghost var groups := Gs();
      MergedNothing(done, g, superseded);
      hide MergedTo, WithQuestion, WithGroup;
      for i := 0 to |g.questions|
        invariant Gs() == groups
        invariant Qs() == MergedTo(done, g, superseded, i)
      {
        var q := g.questions[i];
        if q.code in superseded {
          SkippedQuestion(done, g, superseded, i);
        } else {
          AddedQuestion(done, g, superseded, i);
          AddQuestion(g.code, q);
        }
      }
      MergedAll(done, g, superseded);
    }

    method AddConfig(groups: seq<SeedGroup>, superseded: set<string>, ghost done: seq<Injected>)
      requires Qs() == Merged(done)
      modifies this
      ensures Gs() == GroupsOfConfig(old(Gs()), groups)
      ensures Qs() == Merged(done + ItemsOfConfig(groups, superseded))
    {
      assert groups[..0] == [] && done + ItemsOfConfig([], superseded) == done;
      for i := 0 to |groups|
        invariant Gs() == GroupsOfConfig(old(Gs()), groups[..i])
        invariant Qs() == Merged(done + ItemsOfConfig(groups[..i], superseded))
      {
        assert groups[..i + 1][..i] == groups[..i];
        ItemsOfConfigNext(groups, superseded, i);
        hide ItemsOfConfig, ItemsOfGroup, Merged, WithGroup;
        AddGroup(groups[i], superseded, done + ItemsOfConfig(groups[..i], superseded));
        Regroup(done, ItemsOfConfig(groups[..i], superseded), ItemsOfGroup(groups[i].code, groups[i].questions, superseded));
      }
      assert groups[..|groups|] == groups;
    }

    method MergeConfigs(configs: seq<seq<SeedGroup>>, superseded: set<string>)
      requires Qs() == Questions([], map[]) && Gs() == Groups([], map[])
      modifies this
      ensures Gs() == GroupsOf(configs)
      ensures Qs() == Merged(Items(configs, superseded))
    {
      for c := 0 to |configs|
        invariant Gs() == GroupsOf(configs[..c])
        invariant Qs() == Merged(Items(configs[..c], superseded))
      {
        assert configs[..c + 1][..c] == configs[..c];
        ItemsNext(configs, superseded, c);
        hide Items, Merged, GroupsOfConfig, ItemsOfConfig;
        AddConfig(configs[c], superseded, Items(configs[..c], superseded));
      }
      assert configs[..|configs|] == configs;
    }

    /** 1b: each to the very front, so the last listed comes first. */
    method InjectMoney(money: seq<Injected>) returns (missing: bool)
      modifies this`questionOrder, this`questionByCode
      ensures missing <==> !GroupsKnown(money, |money|, groupByCode.Keys)
      ensures !missing ==> questionOrder == Reversed(Codes(money)) + old(questionOrder)
      ensures !missing ==> forall i | 0 <= i < |money| :: questionOrder[i] == money[|money| - 1 - i].question.code
      ensures !missing ==> questionByCode == WithRows(old(questionByCode), money, Money)
    {
      assert money[..0] == [] && Reversed(Codes([])) + questionOrder == questionOrder;
      assert WithRows(questionByCode, money[..0], Money) == questionByCode;
      hide Codes, Reversed, WithRows;
      for i := 0 to |money|
        invariant GroupsKnown(money, i, groupByCode.Keys)
        invariant questionOrder == Reversed(Codes(money[..i])) + old(questionOrder)
        invariant questionByCode == WithRows(old(questionByCode), money[..i], Money)
      {
        if money[i].groupCode !in groupByCode {
          return true;
        }
        MoneyNext(old(questionByCode), money, i);
        Regroup([money[i].question.code], Reversed(Codes(money[..i])), old(questionOrder));
        questionByCode := questionByCode[money[i].question.code := InjectedRow(money[i], Money)];
        questionOrder := [money[i].question.code] + questionOrder;
      }
      assert money[..|money|] == money;
      ReversedAt(Codes(money));
      return false;
    }

    /** 1b-ii and 1b-iii: to the end, in order. */
    method InjectLast(injected: seq<Injected>, manner: Manner) returns (missing: bool)
      modifies this`questionOrder, this`questionByCode
      ensures missing <==> !GroupsKnown(injected, |injected|, groupByCode.Keys)
      ensures !missing ==> questionOrder == old(questionOrder) + Codes(injected)
      ensures !missing ==> questionByCode == WithRows(old(questionByCode), injected, manner)
    {
      for i := 0 to |injected|
        invariant GroupsKnown(injected, i, groupByCode.Keys)
        invariant questionOrder == old(questionOrder) + Codes(injected[..i])
        invariant questionByCode == WithRows(old(questionByCode), injected[..i], manner)
      {
        if injected[i].groupCode !in groupByCode {
          return true;
        }
        WithRowsNext(old(questionByCode), injected, i, manner);
        CodesNext(injected, i);
        questionByCode := questionByCode[injected[i].question.code := InjectedRow(injected[i], manner)];
        questionOrder := questionOrder + [injected[i].question.code];
      }
      assert injected[..|injected|] == injected;
      return false;
    }

    /** 1c: registered only; the block below gives them their places. */
    method RegisterObligations(obligations: seq<Injected>) returns (missing: bool)
      modifies this`questionByCode
      ensures missing <==> !GroupsKnown(obligations, |obligations|, groupByCode.Keys)
      ensures !missing ==> questionByCode == WithRows(old(questionByCode), obligations, Obligation)
    {
      for i := 0 to |obligations|
        invariant GroupsKnown(obligations, i, groupByCode.Keys)
        invariant questionByCode == WithRows(old(questionByCode), obligations[..i], Obligation)
      {
        if obligations[i].groupCode !in groupByCode {
          return true;
        }
        WithRowsNext(old(questionByCode), obligations, i, Obligation);
        questionByCode := questionByCode[obligations[i].question.code := InjectedRow(obligations[i], Obligation)];
      }
      assert obligations[..|obligations|] == obligations;
      return false;
    }

    /** The block's questions leave wherever they were, from the back. */
    method RemoveBlock(block: seq<string>)
      modifies this`questionOrder
      ensures questionOrder == Without(old(questionOrder), block)
    {
      ghost var all := questionOrder;
      var i := |questionOrder|;
      assert all[..i] + Without([], block) == all;
      while i > 0
        invariant 0 <= i <= |all|
        invariant questionOrder == all[..i] + Without(all[i..], block)
      {
        i := i - 1;
        assert all[i..][1..] == all[i + 1..] && questionOrder[i] == all[i];
        assert all[..i + 1] == all[..i] + [all[i]];
        if questionOrder[i] in block {
          questionOrder := questionOrder[..i] + questionOrder[i + 1..];
        }
      }
      assert all[0..] == all;
    }

    /** The block is spliced back in as one run, after the last bound money question. */
    method ReseatBlock(bindings: seq<string>, block: seq<string>)
      modifies this`questionOrder
      ensures questionOrder == Reseated(old(questionOrder), bindings, block)
    {
      RemoveBlock(block);
      var last := -1;
      for k := 0 to |bindings|
        invariant questionOrder == Without(old(questionOrder), block)
        invariant last == LastMoney(questionOrder, bindings[..k], block)
      {
        assert bindings[..k + 1][..k] == bindings[..k];
        if bindings[k] !in block {
          last := Max(last, IndexOf(questionOrder, bindings[k]));
        }
      }
      assert bindings[..|bindings|] == bindings;
      questionOrder := questionOrder[..last + 1] + block + questionOrder[last + 1..];
    }

    method MergeThinGroups(merges: seq<Merge>, titles: map<string, string>) returns (missing: bool)
      modifies this`groupOrder, this`groupByCode, this`questionByCode
      ensures missing <==> !TargetsKnown(merges, |merges|, old(groupByCode).Keys)
      ensures missing ==> Gs() == old(Gs()) && Qs() == old(Qs())
      ensures !missing ==>
        && questionByCode == Remapped(merges, old(questionByCode))
        && groupByCode == Retitled(old(groupByCode), titles) - Froms(merges)
        && groupOrder == DropAll(old(groupOrder), merges)
    {
      for i := 0 to |merges|
        invariant TargetsKnown(merges, i, groupByCode.Keys)
      {
        if merges[i].to !in groupByCode {
          return true;
        }
      }
      questionByCode := Remapped(merges, questionByCode);
      groupByCode := Retitled(groupByCode, titles);
      ghost var retitled := groupByCode;
      for i := 0 to |merges|
        invariant questionByCode == Remapped(merges, old(questionByCode))
        invariant groupByCode == retitled - Froms(merges[..i])
        invariant groupOrder == DropAll(old(groupOrder), merges[..i])
      {
        DropNext(retitled, old(groupOrder), merges, i);
        hide Froms, DropFirst, DropAll, Remapped, Retitled;
        groupByCode := groupByCode - {merges[i].from};
        groupOrder := DropFirst(groupOrder, merges[i].from);
      }
      assert merges[..|merges|] == merges;
      return false;
    }
  }

  /** The merge once the first `n` questions of a group have been looked at. */
  ghost function MergedTo(done: seq<Injected>, g: SeedGroup, superseded: set<string>, n: nat): Questions
    requires n <= |g.questions|
  {
    Merged(done + ItemsOfGroup(g.code, g.questions[..n], superseded))
  }

  lemma MergedNothing(done: seq<Injected>, g: SeedGroup, superseded: set<string>)
    ensures MergedTo(done, g, superseded, 0) == Merged(done)
  {
    assert done + ItemsOfGroup(g.code, [], superseded) == done;
  }

  lemma MergedAll(done: seq<Injected>, g: SeedGroup, superseded: set<string>)
    ensures MergedTo(done, g, superseded, |g.questions|) == Merged(done + ItemsOfGroup(g.code, g.questions, superseded))
  {
    assert g.questions[..|g.questions|] == g.questions;
  }

  /** A superseded question adds nothing. */
  lemma SkippedQuestion(done: seq<Injected>, g: SeedGroup, superseded: set<string>, i: nat)
    requires i < |g.questions| && g.questions[i].code in superseded
    ensures MergedTo(done, g, superseded, i + 1) == MergedTo(done, g, superseded, i)
  {
    ItemsOfGroupNext(g.code, g.questions, superseded, i);
    hide ItemsOfGroup, Merged;
    var soFar := ItemsOfGroup(g.code, g.questions[..i], superseded);
    assert soFar + [] == soFar;
  }

  /** Any other is one more item. */
  lemma AddedQuestion(done: seq<Injected>, g: SeedGroup, superseded: set<string>, i: nat)
    requires i < |g.questions| && g.questions[i].code !in superseded
    ensures MergedTo(done, g, superseded, i + 1)
         == WithQuestion(MergedTo(done, g, superseded, i), Injected(g.code, g.questions[i]))
  {
    var soFar, item := ItemsOfGroup(g.code, g.questions[..i], superseded), Injected(g.code, g.questions[i]);
    ItemsOfGroupNext(g.code, g.questions, superseded, i);
    Regroup(done, soFar, [item]);
    MergedNext(done + soFar, item);
    hide ItemsOfGroup, Merged, WithQuestion;
  }

  lemma MoneyNext(byCode: ByCode, money: seq<Injected>, i: nat)
    requires i < |money|
    ensures WithRows(byCode, money[..i + 1], Money)
         == WithRows(byCode, money[..i], Money)[money[i].question.code := InjectedRow(money[i], Money)]
    ensures Reversed(Codes(money[..i + 1])) == [money[i].question.code] + Reversed(Codes(money[..i]))
  {
    WithRowsNext(byCode, money, i, Money);
    CodesNext(money, i);
    ReversedAppend(Codes(money[..i]), money[i].question.code);
    hide WithRows, Codes, Reversed;
  }

  /** Everything the builder is given: authored configs, injected questions, and fixed code tables. */
  datatype SeedData = SeedData(
    configs: seq<seq<SeedGroup>>, superseded: set<string>,
    money: seq<Injected>, bureau: seq<Injected>, sources: seq<Injected>, obligations: seq<Injected>,
    bindings: seq<string>, block: seq<string>,
    merges: seq<Merge>, titles: map<string, string>)

  /** The order just before the block is re-seated. */
  function UnseatedOrder(d: SeedData): seq<string> {
    Reversed(Codes(d.money)) + Merged(Items(d.configs, d.superseded)).order + Codes(d.bureau) + Codes(d.sources)
  }

  function AllRows(d: SeedData): ByCode {
    WithRows(WithRows(WithRows(WithRows(Merged(Items(d.configs, d.superseded)).byCode, d.money, Money),
                               d.bureau, Bureau), d.sources, Source), d.obligations, Obligation)
  }

  function PoolOrder(d: SeedData): seq<string> { Reseated(UnseatedOrder(d), d.bindings, d.block) }

  /** Every injected question and every merge names a group the configs declare. */
  ghost predicate NamesKnownGroups(d: SeedData) {
    var groups := GroupsOf(d.configs).byCode.Keys;
    && GroupsKnown(d.money, |d.money|, groups)
    && GroupsKnown(d.bureau, |d.bureau|, groups)
    && GroupsKnown(d.sources, |d.sources|, groups)
    && GroupsKnown(d.obligations, |d.obligations|, groups)
    && TargetsKnown(d.merges, |d.merges|, groups)
  }

  /** `mergeSeedPool`, or nothing when some group is unknown, which the source reports by throwing. */
  method MergeSeedPool(d: SeedData) returns (pool: Option<SeedPool>)
    ensures pool.Some? <==> NamesKnownGroups(d)
    ensures pool.Some? ==>
      && fresh(pool.value)
      && pool.value.questionOrder == PoolOrder(d)
      && pool.value.questionByCode == Remapped(d.merges, AllRows(d))
      && pool.value.groupOrder == DropAll(GroupsOf(d.configs).order, d.merges)
      && pool.value.groupByCode == Retitled(GroupsOf(d.configs).byCode, d.titles) - Froms(d.merges)
  {
    hide GroupsKnown, TargetsKnown, Merged, GroupsOf, WithRows, Reseated, Codes, Reversed, Items, DropAll, Froms, Retitled, Remapped;
    var p := new SeedPool();
    p.MergeConfigs(d.configs, d.superseded);
    var missing := p.InjectMoney(d.money);
    if missing { return None; }
    missing := p.InjectLast(d.bureau, Bureau);
    if missing { return None; }
    missing := p.InjectLast(d.sources, Source);
    if missing { return None; }
    missing := p.RegisterObligations(d.obligations);
    if missing { return None; }
    p.ReseatBlock(d.bindings, d.block);
    missing := p.MergeThinGroups(d.merges, d.titles);
    if missing { return None; }
    return Some(p);
  }

  lemma DropNext(groups: map<string, SeedGroup>, order: seq<string>, merges: seq<Merge>, i: nat)
    requires i < |merges|
    ensures groups - Froms(merges[..i + 1]) == groups - Froms(merges[..i]) - {merges[i].from}
    ensures DropAll(order, merges[..i + 1]) == DropFirst(DropAll(order, merges[..i]), merges[i].from)
  {
    assert merges[..i + 1] == merges[..i] + [merges[i]];
  }

  lemma {:induction false} ReversedAt(s: seq<string>)
    ensures forall i | 0 <= i < |s| :: Reversed(s)[i] == s[|s| - 1 - i]
  {
    if s != [] { ReversedAt(s[1..]); }
  }

  lemma {:induction false} ReversedAppend(s: seq<string>, x: string)
    ensures Reversed(s + [x]) == [x] + Reversed(s)
  {
    if s != [] {
      assert (s + [x])[1..] == s[1..] + [x];
      ReversedAppend(s[1..], x);
    }
  }
}
