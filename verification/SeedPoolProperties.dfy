/** What `mergeSeedPool` promises about its pool, proved of the functions the builder computes. */
module SeedPoolProperties {
  import opened Basics
  import opened SeedPoolSpec
  import opened SeedPoolBuilder

  // ---- The merge keeps the first sighting and unites the options -------------------------------------

  lemma {:induction false} UnitedOptions(options: seq<SeedOption>, more: seq<SeedOption>)
    requires Distinct(OptionCodes(options))
    ensures options <= WithOptions(options, more)
    ensures Distinct(OptionCodes(WithOptions(options, more)))
    ensures forall c :: c in OptionCodes(WithOptions(options, more)) <==> c in OptionCodes(options) || c in OptionCodes(more)
  {
    if more != [] {
      var o, earlier := more[|more| - 1], WithOptions(options, more[..|more| - 1]);
      UnitedOptions(options, more[..|more| - 1]);
      assert OptionCodes(more) == OptionCodes(more[..|more| - 1]) + [o.code];
      if o.code !in OptionCodes(earlier) {
        assert OptionCodes(earlier + [o]) == OptionCodes(earlier) + [o.code];
        DistinctConcat(OptionCodes(earlier), [o.code]);
      }
    }
  }

  /** The first item that sights a code. */
  ghost predicate FirstSighting(items: seq<Injected>, i: nat, code: string) {
    i < |items| && items[i].question.code == code && forall j :: 0 <= j < i ==> items[j].question.code != code
  }

  ghost predicate Offered(items: seq<Injected>, code: string, option: string) {
    exists i :: 0 <= i < |items| && items[i].question.code == code && option in OptionCodes(items[i].question.options)
  }

  ghost predicate Sighted(items: seq<Injected>, code: string) {
    exists i :: 0 <= i < |items| && items[i].question.code == code
  }

  /** The first offer of an option code by a sighting of the question. */
  ghost predicate FirstOffer(items: seq<Injected>, code: string, o: SeedOption, i: nat, k: nat) {
    && i < |items| && items[i].question.code == code && k < |items[i].question.options| && items[i].question.options[k] == o
    && (forall k' | 0 <= k' < k :: items[i].question.options[k'].code != o.code)
    && (forall i' | 0 <= i' < i && items[i'].question.code == code :: o.code !in OptionCodes(items[i'].question.options))
  }

  /** One merged question: everything but the options as its first sighting has it, and the options of every sighting,
      once each and with the labels of their first offer. */
  ghost predicate FaithfulRow(items: seq<Injected>, code: string, mq: MergedQuestion) {
    && (exists i: nat :: FirstSighting(items, i, code)
          && mq.code == code && mq.groupCode == items[i].groupCode && mq.content == items[i].question.content
          && mq.enabledWhen == items[i].question.enabledWhen)
    && Distinct(OptionCodes(mq.options))
    && (forall option :: option in OptionCodes(mq.options) <==> Offered(items, code, option))
    && (forall o | o in mq.options :: exists i: nat, k: nat :: FirstOffer(items, code, o, i, k))
  }

  ghost predicate FaithfulMerge(items: seq<Injected>, qs: Questions) {
    && Distinct(qs.order)
    && Elements(qs.order) == qs.byCode.Keys
    && (forall c :: c in qs.byCode <==> Sighted(items, c))
    && (forall c | c in qs.byCode :: FaithfulRow(items, c, qs.byCode[c]))
  }

  lemma RowAfterOther(items: seq<Injected>, item: Injected, code: string, mq: MergedQuestion)
    requires FaithfulRow(items, code, mq) && item.question.code != code
    ensures FaithfulRow(items + [item], code, mq)
  {
    var longer := items + [item];
    var i: nat :| FirstSighting(items, i, code)
      && mq.code == code && mq.groupCode == items[i].groupCode && mq.content == items[i].question.content
      && mq.enabledWhen == items[i].question.enabledWhen;
    assert FirstSighting(longer, i, code) && longer[i] == items[i];
    OfferedAfter(items, item, code);
    OffersStayFirst(items, item, code, mq.options);
  }

  lemma OffersStayFirst(items: seq<Injected>, item: Injected, code: string, options: seq<SeedOption>)
    requires forall o | o in options :: exists i: nat, k: nat :: FirstOffer(items, code, o, i, k)
    ensures forall o | o in options :: exists i: nat, k: nat :: FirstOffer(items + [item], code, o, i, k)
  {
    var longer := items + [item];
    forall o | o in options ensures exists i: nat, k: nat :: FirstOffer(longer, code, o, i, k) {
      var i: nat, k: nat :| FirstOffer(items, code, o, i, k);
      assert longer[i] == items[i] && forall i' | 0 <= i' < i :: longer[i'] == items[i'];
      assert FirstOffer(longer, code, o, i, k);
    }
  }

  /** An option of the last item whose code no earlier sighting offered. */
  lemma NewOffersAreFirst(items: seq<Injected>, item: Injected, options: seq<SeedOption>)
    requires forall option :: option in OptionCodes(options) <==> Offered(items, item.question.code, option)
    ensures forall o | o in WithOptions(options, item.question.options) && o !in options ::
      exists k: nat :: FirstOffer(items + [item], item.question.code, o, |items|, k)
  {
    var longer, code, more := items + [item], item.question.code, item.question.options;
    forall o | o in WithOptions(options, more) && o !in options
      ensures exists k: nat :: FirstOffer(longer, code, o, |items|, k)
    {
      var k := AddedOption(options, more, o);
      assert longer[|items|] == item;
      forall i' | 0 <= i' < |items| && longer[i'].question.code == code
        ensures o.code !in OptionCodes(longer[i'].question.options)
      {
        assert longer[i'] == items[i'];
      }
      assert FirstOffer(longer, code, o, |items|, k);
    }
  }

  /** Where an added option comes from: the first of `more` with its code, which none of the old options has. */
  lemma {:induction false} AddedOption(options: seq<SeedOption>, more: seq<SeedOption>, o: SeedOption) returns (k: nat)
    requires o in WithOptions(options, more) && o !in options
    ensures k < |more| && more[k] == o && o.code !in OptionCodes(options)
    ensures forall k' | 0 <= k' < k :: more[k'].code != o.code
  {
    var front, last := more[..|more| - 1], |more| - 1;
    if o in WithOptions(options, front) {
      k := AddedOption(options, front, o);
    } else {
      k := last;
      OptionCodesKnown(options, front);
      forall k' | 0 <= k' < last ensures more[k'].code != o.code { assert OptionCodes(front)[k'] == more[k'].code; }
    }
  }

  /** Added options come after the old ones, in the order they are listed. */
  lemma {:induction false} AddedInOrder(options: seq<SeedOption>, more: seq<SeedOption>, x: nat, y: nat) returns (k: nat, l: nat)
    requires |options| <= x < y < |WithOptions(options, more)|
    ensures k < l < |more| && more[k] == WithOptions(options, more)[x] && more[l] == WithOptions(options, more)[y]
  {
    var front, last := more[..|more| - 1], |more| - 1;
    var earlier := WithOptions(options, front);
    if y < |earlier| {
      k, l := AddedInOrder(options, front, x, y);
    } else {
      k := AddedFrom(options, front, x);
      l := last;
    }
  }

  lemma {:induction false} AddedFrom(options: seq<SeedOption>, more: seq<SeedOption>, x: nat) returns (k: nat)
    requires |options| <= x < |WithOptions(options, more)|
    ensures k < |more| && more[k] == WithOptions(options, more)[x]
  {
    var front := more[..|more| - 1];
    if x < |WithOptions(options, front)| { k := AddedFrom(options, front, x); } else { k := |more| - 1; }
  }

  lemma {:induction false} OptionCodesKnown(options: seq<SeedOption>, more: seq<SeedOption>)
    ensures forall c :: c in OptionCodes(WithOptions(options, more)) <==> c in OptionCodes(options) || c in OptionCodes(more)
  {
    if more != [] {
      var o, earlier := more[|more| - 1], WithOptions(options, more[..|more| - 1]);
      OptionCodesKnown(options, more[..|more| - 1]);
      assert OptionCodes(more) == OptionCodes(more[..|more| - 1]) + [o.code];
      if o.code !in OptionCodes(earlier) { assert OptionCodes(earlier + [o]) == OptionCodes(earlier) + [o.code]; }
    }
  }

  lemma OfferedAfter(items: seq<Injected>, item: Injected, code: string)
    ensures forall option :: Offered(items + [item], code, option) <==>
      Offered(items, code, option) || (item.question.code == code && option in OptionCodes(item.question.options))
  {
    var longer := items + [item];
    forall option ensures Offered(longer, code, option) <==>
      Offered(items, code, option) || (item.question.code == code && option in OptionCodes(item.question.options))
    {
      if Offered(items, code, option) {
        var i :| 0 <= i < |items| && items[i].question.code == code && option in OptionCodes(items[i].question.options);
        assert longer[i] == items[i];
      }
      assert longer[|items|] == item;
    }
  }

  lemma RowAfterSame(items: seq<Injected>, item: Injected, mq: MergedQuestion)
    requires FaithfulRow(items, item.question.code, mq)
    ensures FaithfulRow(items + [item], item.question.code, mq.(options := WithOptions(mq.options, item.question.options)))
  {
    var longer, code := items + [item], item.question.code;
    var i: nat :| FirstSighting(items, i, code)
      && mq.code == code && mq.groupCode == items[i].groupCode && mq.content == items[i].question.content
      && mq.enabledWhen == items[i].question.enabledWhen;
    assert FirstSighting(longer, i, code) && longer[i] == items[i];
    UnitedOptions(mq.options, item.question.options);
    OfferedAfter(items, item, code);
    OffersStayFirst(items, item, code, mq.options);
    NewOffersAreFirst(items, item, mq.options);
    hide WithOptions, FirstOffer, Offered;
  }

  lemma RowAfterFirst(items: seq<Injected>, item: Injected)
    requires forall i :: 0 <= i < |items| ==> items[i].question.code != item.question.code
    ensures FaithfulRow(items + [item], item.question.code,
                        Registered(item.groupCode, item.question).(options := WithOptions([], item.question.options)))
  {
    var longer, code := items + [item], item.question.code;
    assert FirstSighting(longer, |items|, code) && longer[|items|] == item;
    UnitedOptions([], item.question.options);
    OfferedAfter(items, item, code);
    NewOffersAreFirst(items, item, []);
    hide WithOptions, FirstOffer;
  }

  lemma RowAfter(items: seq<Injected>, item: Injected, c: string)
    requires FaithfulMerge(items, Merged(items)) && c in WithQuestion(Merged(items), item).byCode
    ensures FaithfulRow(items + [item], c, WithQuestion(Merged(items), item).byCode[c])
  {
    var before, code := Merged(items), item.question.code;
    hide Merged;
    if c != code {
      hide WithOptions;
      RowAfterOther(items, item, c, before.byCode[c]);
    } else if code in before.byCode {
      RowAfterSame(items, item, before.byCode[code]);
    } else {
      forall i | 0 <= i < |items| ensures items[i].question.code != code {
        assert Sighted(items, items[i].question.code);
      }
      RowAfterFirst(items, item);
    }
  }

  lemma SightedAfter(items: seq<Injected>, item: Injected, c: string)
    ensures Sighted(items + [item], c) <==> c == item.question.code || Sighted(items, c)
  {
    var longer := items + [item];
    if Sighted(items, c) {
      var i :| 0 <= i < |items| && items[i].question.code == c;
      assert longer[i] == items[i];
    }
    assert longer[|items|] == item;
  }

  lemma OrderAfter(before: Questions, item: Injected)
    requires Distinct(before.order) && Elements(before.order) == before.byCode.Keys
    ensures var after := WithQuestion(before, item);
            && Distinct(after.order)
            && Elements(after.order) == after.byCode.Keys
            && after.byCode.Keys == before.byCode.Keys + {item.question.code}
  {
    var code := item.question.code;
    hide WithOptions;
    if code !in before.byCode {
      assert code !in Elements(before.order);
      DistinctConcat(before.order, [code]);
      assert Elements(before.order + [code]) == Elements(before.order) + {code};
    }
  }

  lemma MergeStaysFaithful(items: seq<Injected>, item: Injected)
    requires FaithfulMerge(items, Merged(items))
    ensures FaithfulMerge(items + [item], Merged(items + [item]))
  {
    hide FaithfulRow, Sighted, WithQuestion, Merged, Distinct;
    var before, after, longer := Merged(items), WithQuestion(Merged(items), item), items + [item];
    MergedNext(items, item);
    OrderAfter(before, item);
    forall c | c in after.byCode ensures FaithfulRow(longer, c, after.byCode[c]) { RowAfter(items, item, c); }
    forall c ensures c in after.byCode <==> Sighted(longer, c) { SightedAfter(items, item, c); }
  }

  lemma NothingMerged()
    ensures FaithfulMerge([], Merged([]))
  {
  }

  /** The merge, for any items: duplicate-free order over exactly the sighted codes, first sighting kept,
      options united. */
  lemma {:induction false} MergeIsFaithful(items: seq<Injected>)
    ensures FaithfulMerge(items, Merged(items))
  {
    NothingMerged();
    hide FaithfulMerge, Merged;
    if items != [] {
      MergeIsFaithful(items[..|items| - 1]);
      MergeStaysFaithful(items[..|items| - 1], items[|items| - 1]);
      assert items == items[..|items| - 1] + [items[|items| - 1]];
    }
  }

  // ---- Branch sources before what they gate -----------------------------------------------------------

  predicate Gated(byCode: ByCode, code: string) { code in byCode && byCode[code].enabledWhen.Some? }

  function SourceOf(byCode: ByCode, code: string): string
    requires Gated(byCode, code)
  {
    byCode[code].enabledWhen.value.questionCode
  }

  /** Each gated question comes after its source, counting what is already placed. */
  ghost predicate Ready(placed: set<string>, order: seq<string>, byCode: ByCode) {
    forall p :: 0 <= p < |order| && Gated(byCode, order[p]) ==>
      SourceOf(byCode, order[p]) in placed || SourceOf(byCode, order[p]) in order[..p]
  }

  lemma ReadyConcat(placed: set<string>, a: seq<string>, b: seq<string>, byCode: ByCode)
    ensures Ready(placed, a + b, byCode) <==> Ready(placed, a, byCode) && Ready(placed + Elements(a), b, byCode)
  {
    var c := a + b;
    assert forall p :: 0 <= p < |a| ==> c[p] == a[p] && c[..p] == a[..p];
    assert forall p :: 0 <= p < |b| ==> c[|a| + p] == b[p] && c[..|a| + p] == a + b[..p];
    if Ready(placed, c, byCode) {
      forall p | 0 <= p < |b| && Gated(byCode, b[p])
        ensures SourceOf(byCode, b[p]) in placed + Elements(a) || SourceOf(byCode, b[p]) in b[..p]
      {
        assert c[|a| + p] == b[p];
      }
      forall p | 0 <= p < |a| && Gated(byCode, a[p])
        ensures SourceOf(byCode, a[p]) in placed || SourceOf(byCode, a[p]) in a[..p]
      {
        assert c[p] == a[p];
      }
    }
  }

  lemma ReadyMore(placed: set<string>, more: set<string>, order: seq<string>, byCode: ByCode)
    requires Ready(placed, order, byCode) && placed <= more
    ensures Ready(more, order, byCode)
  {}

  lemma ReadySame(placed: set<string>, order: seq<string>, a: ByCode, b: ByCode)
    requires Ready(placed, order, a)
    requires forall c | c in order && Gated(b, c) :: Gated(a, c) && SourceOf(a, c) == SourceOf(b, c)
    ensures Ready(placed, order, b)
  {}

  lemma ReadyUngated(placed: set<string>, order: seq<string>, byCode: ByCode)
    requires forall c | c in order :: !Gated(byCode, c)
    ensures Ready(placed, order, byCode)
  {}

  /** Taking the block out costs the others only sources that are in the block. */
  lemma {:induction false} ReadyWithout(placed: set<string>, order: seq<string>, block: seq<string>, byCode: ByCode)
    requires Ready(placed, order, byCode) && Elements(block) <= placed
    ensures Ready(placed, Without(order, block), byCode)
    decreases |order|
  {
    if order != [] {
      var head, tail := [order[0]], order[1..];
      assert order == head + tail && Elements(head) == {order[0]};
      ReadyConcat(placed, head, tail, byCode);
      ReadyWithout(placed + Elements(head), tail, block, byCode);
      if order[0] in block {
        assert placed + Elements(head) == placed;
        assert [] + Without(tail, block) == Without(tail, block);
      } else {
        ReadyConcat(placed, head, Without(tail, block), byCode);
      }
    }
  }

  /** What stands in front of the re-seated block. */
  ghost function InFront(order: seq<string>, bindings: seq<string>, block: seq<string>): seq<string> {
    var rest := Without(order, block);
    rest[..LastMoney(rest, bindings, block) + 1]
  }

  /** Re-seating keeps every source before its targets exactly when what is seated before the block needs
      nothing from it, and the block needs nothing from what is seated after it. */
  lemma ReseatKeepsSourcesExactly(order: seq<string>, bindings: seq<string>, block: seq<string>, byCode: ByCode)
    requires Ready({}, order, byCode)
    ensures var pre := InFront(order, bindings, block);
            Ready({}, Reseated(order, bindings, block), byCode) <==>
              Ready({}, pre, byCode) && Ready(Elements(pre), block, byCode)
  {
    var rest := Without(order, block);
    var at := LastMoney(rest, bindings, block) + 1;
    var pre, post := rest[..at], rest[at..];
    hide Ready, Without;
    ReadyMore({}, Elements(block), order, byCode);
    ReadyWithout(Elements(block), order, block, byCode);
    assert rest == pre + post;
    ReadyConcat(Elements(block), pre, post, byCode);
    ReadyConcat({}, pre + block, post, byCode);
    ReadyConcat({}, pre, block, byCode);
    assert {} + Elements(pre) == Elements(pre);
    assert {} + Elements(pre + block) == Elements(block) + Elements(pre);
  }

  /** Every gated item is preceded by an item that sights its source. */
  ghost predicate SourcesFirst(items: seq<Injected>) {
    forall i :: 0 <= i < |items| && items[i].question.enabledWhen.Some? ==>
      exists j :: 0 <= j < i && items[j].question.code == items[i].question.enabledWhen.value.questionCode
  }

  /** One item more: a question seen again keeps its rule, a new one has its source placed. */
  lemma WithQuestionIsReady(before: Questions, item: Injected)
    requires Ready({}, before.order, before.byCode) && Elements(before.order) == before.byCode.Keys
    requires item.question.enabledWhen.Some? ==> item.question.enabledWhen.value.questionCode in before.byCode
    ensures Ready({}, WithQuestion(before, item).order, WithQuestion(before, item).byCode)
  {
    var after, code := WithQuestion(before, item), item.question.code;
    assert forall c | c in before.order :: c in Elements(before.order);
    ReadySame({}, before.order, before.byCode, after.byCode);
    if code !in before.byCode {
      assert item.question.enabledWhen.Some? ==> item.question.enabledWhen.value.questionCode in Elements(before.order);
      ReadyConcat({}, before.order, [code], after.byCode);
    }
  }

  lemma SourceWasSighted(items: seq<Injected>, n: nat)
    requires SourcesFirst(items) && n < |items| && items[n].question.enabledWhen.Some?
    ensures Sighted(items[..n], items[n].question.enabledWhen.value.questionCode)
  {
    var j :| 0 <= j < n && items[j].question.code == items[n].question.enabledWhen.value.questionCode;
    assert items[..n][j] == items[j];
  }

  lemma {:induction false} MergeKeepsSources(items: seq<Injected>)
    requires SourcesFirst(items)
    ensures Ready({}, Merged(items).order, Merged(items).byCode)
  {
    if items != [] {
      var earlier, item := items[..|items| - 1], items[|items| - 1];
      assert forall i :: 0 <= i < |earlier| ==> earlier[i] == items[i];
      MergeKeepsSources(earlier);
      MergeIsFaithful(earlier);
      if item.question.enabledWhen.Some? { SourceWasSighted(items, |items| - 1); }
      hide Ready, WithQuestion, FaithfulRow, Sighted, SourcesFirst, Distinct;
      WithQuestionIsReady(Merged(earlier), item);
    }
  }

  // ---- Where the block sits ------------------------------------------------------------------------------

  lemma {:induction false} WithoutKeepsDistinct(order: seq<string>, block: seq<string>)
    requires Distinct(order)
    ensures Distinct(Without(order, block))
  {
    if order != [] {
      assert order == [order[0]] + order[1..];
      DistinctSplit([order[0]], order[1..]);
      WithoutKeepsDistinct(order[1..], block);
      WithoutElements(order[1..], block);
      if order[0] !in block { DistinctConcat([order[0]], Without(order[1..], block)); }
    }
  }

  /** What stays keeps its relative order. */
  lemma {:induction false} WithoutKeepsOrder(order: seq<string>, block: seq<string>, x: nat, y: nat) returns (i: nat, j: nat)
    requires x < y < |Without(order, block)|
    ensures i < j < |order| && order[i] == Without(order, block)[x] && order[j] == Without(order, block)[y]
  {
    if order[0] in block {
      i, j := WithoutKeepsOrder(order[1..], block, x, y);
      i, j := i + 1, j + 1;
    } else if x > 0 {
      i, j := WithoutKeepsOrder(order[1..], block, x - 1, y - 1);
      i, j := i + 1, j + 1;
    } else {
      var rest := Without(order[1..], block);
      WithoutElements(order[1..], block);
      assert rest[y - 1] in order[1..];
      i := 0;
      j :| 0 <= j < |order[1..]| && order[1..][j] == rest[y - 1];
      j := j + 1;
    }
  }

  lemma {:induction false} DropAllKeepsOrder(order: seq<string>, merges: seq<Merge>, x: nat, y: nat) returns (i: nat, j: nat)
    requires x < y < |DropAll(order, merges)|
    ensures i < j < |order| && order[i] == DropAll(order, merges)[x] && order[j] == DropAll(order, merges)[y]
  {
    i, j := x, y;
    if merges != [] {
      var earlier := DropAll(order, merges[..|merges| - 1]);
      var at := IndexOf(earlier, merges[|merges| - 1].from);
      i, j := DropAllKeepsOrder(order, merges[..|merges| - 1], if 0 <= at <= x then x + 1 else x, if 0 <= at <= y then y + 1 else y);
    }
  }

  /** One contiguous run, directly after the last bound money question, the others in their old order. */
  ghost predicate SeatedAfterMoney(order: seq<string>, unseated: seq<string>, bindings: seq<string>, block: seq<string>,
                                   pre: seq<string>, post: seq<string>)
  {
    && order == pre + block + post
    && pre + post == Without(unseated, block)
    && (pre != [] ==> pre[|pre| - 1] in bindings && pre[|pre| - 1] !in block)
    && (forall c | c in post :: c !in bindings)
  }

  lemma IndexOfAt(order: seq<string>, k: nat)
    requires Distinct(order) && k < |order|
    ensures order[k] in order && IndexOf(order, order[k]) == k
  {}

  lemma BlockIsSeated(order: seq<string>, bindings: seq<string>, block: seq<string>) returns (pre: seq<string>,
                      post: seq<string>)
    requires Distinct(order)
    ensures SeatedAfterMoney(Reseated(order, bindings, block), order, bindings, block, pre, post)
    ensures pre == Without(order, block)[..LastMoney(Without(order, block), bindings, block) + 1]
  {
    var rest := Without(order, block);
    var at := LastMoney(rest, bindings, block) + 1;
    pre, post := rest[..at], rest[at..];
    WithoutKeepsDistinct(order, block);
    WithoutElements(order, block);
    hide Without;
    forall c | c in post ensures c !in bindings {
      var k :| 0 <= k < |post| && post[k] == c;
      IndexOfAt(rest, at + k);
    }
    assert rest == pre + post;
  }

  lemma ReseatedIsDistinct(order: seq<string>, bindings: seq<string>, block: seq<string>)
    requires Distinct(order) && Distinct(block)
    ensures Distinct(Reseated(order, bindings, block))
    ensures Elements(Reseated(order, bindings, block)) == Elements(order) + Elements(block)
  {
    var pre, post := BlockIsSeated(order, bindings, block);
    WithoutKeepsDistinct(order, block);
    WithoutElements(order, block);
    hide Without, Reseated;
    assert pre + post == Without(order, block);
    DistinctSplit(pre, post);
    forall x | x in pre ensures x !in block { assert x in pre + post; }
    forall x | x in post ensures x !in block { assert x in pre + post; }
    DistinctConcat(pre, block);
    DistinctConcat(pre + block, post);
    forall x ensures x in Reseated(order, bindings, block) <==> x in order || x in block {
      assert x in pre + block + post <==> x in pre + post || x in block;
    }
  }

  // ---- The whole pool --------------------------------------------------------------------------------------

  ghost predicate InjectedAs(injected: seq<Injected>, manner: Manner, mq: MergedQuestion) {
    exists k :: 0 <= k < |injected| && mq == InjectedRow(injected[k], manner)
  }

  lemma {:induction false} RowsAdded(byCode: ByCode, injected: seq<Injected>, manner: Manner, c: string)
    ensures c in WithRows(byCode, injected, manner) <==> c in byCode || c in Codes(injected)
    ensures c !in Codes(injected) && c in byCode ==> WithRows(byCode, injected, manner)[c] == byCode[c]
    ensures c in Codes(injected) ==>
      WithRows(byCode, injected, manner)[c].code == c && InjectedAs(injected, manner, WithRows(byCode, injected, manner)[c])
  {
    if injected != [] {
      var shorter, last := injected[..|injected| - 1], injected[|injected| - 1];
      RowsAdded(byCode, shorter, manner, c);
      assert Codes(injected) == Codes(shorter) + [last.question.code];
      if c == last.question.code {
        assert injected[|injected| - 1] == last;
      } else if c in Codes(injected) {
        var k :| 0 <= k < |shorter| && WithRows(byCode, shorter, manner)[c] == InjectedRow(shorter[k], manner);
        assert injected[k] == shorter[k];
      }
    }
  }

  ghost function InjectedCodes(d: SeedData): seq<string> {
    Codes(d.money) + Codes(d.bureau) + Codes(d.sources) + Codes(d.obligations)
  }

  /** What the authored data must satisfy: sources listed first, injected codes fresh, the block made of
      obligation questions and questions of the configs, money bound to injected questions only. */
  ghost predicate WellFormed(d: SeedData) {
    var items := Items(d.configs, d.superseded);
    && SourcesFirst(items)
    && Distinct(InjectedCodes(d))
    && (forall c | c in InjectedCodes(d) :: !Sighted(items, c))
    && Distinct(d.block)
    && (forall c | c in d.block :: c in Codes(d.obligations) || Sighted(items, c))
    && (forall c | c in Codes(d.obligations) :: c in d.block)
    && (forall c | c in d.bindings && c !in d.block ::
          c in Codes(d.money) || (!Sighted(items, c) && c !in Codes(d.bureau) && c !in Codes(d.sources)))
    && (forall k :: 0 <= k < |d.sources| && d.sources[k].question.enabledWhen.Some? ==>
          var source := d.sources[k].question.enabledWhen.value.questionCode;
          Sighted(items, source) || source in Codes(d.money) || source in Codes(d.bureau) || source in Codes(d.sources)[..k])
    && Ready({}, d.block, AllRows(d))
  }

  /** How `AllRows` treats a code of each family. */
  lemma RowsByFamily(d: SeedData, c: string)
    requires WellFormed(d)
    ensures var rows, merged := AllRows(d), Merged(Items(d.configs, d.superseded));
            && (c in rows <==> c in merged.byCode || c in InjectedCodes(d))
            && (c in merged.byCode ==> rows[c] == merged.byCode[c])
            && (c in Codes(d.money) || c in Codes(d.bureau) ==> !Gated(rows, c))
            && (c in Codes(d.sources) ==> rows[c].code == c && InjectedAs(d.sources, Source, rows[c]))
  {
    var items := Items(d.configs, d.superseded);
    MergeIsFaithful(items);
    var mo, bu, so, ob := Codes(d.money), Codes(d.bureau), Codes(d.sources), Codes(d.obligations);
    DistinctSplit(mo + bu + so, ob);
    DistinctSplit(mo + bu, so);
    DistinctSplit(mo, bu);
    assert c in mo ==> c in mo + bu;
    assert c in bu ==> c in mo + bu;
    assert c in mo + bu || c in so ==> c in mo + bu + so;
    assert c in InjectedCodes(d) <==> c in mo || c in bu || c in so || c in ob;
    RowsLayered(Merged(items).byCode, d, c);
  }

  lemma RowsLayered(byCode: ByCode, d: SeedData, c: string)
    ensures var rows := WithRows(WithRows(WithRows(WithRows(byCode, d.money, Money), d.bureau, Bureau), d.sources, Source),
                                 d.obligations, Obligation);
            && (c in rows <==> c in byCode || c in Codes(d.money) || c in Codes(d.bureau) || c in Codes(d.sources) || c in Codes(d.obligations))
            && (c in Codes(d.obligations) ==> rows[c].code == c && InjectedAs(d.obligations, Obligation, rows[c]))
            && (c !in Codes(d.obligations) ==>
                  if c in Codes(d.sources) then rows[c].code == c && InjectedAs(d.sources, Source, rows[c])
                  else if c in Codes(d.bureau) then rows[c].code == c && InjectedAs(d.bureau, Bureau, rows[c])
                  else if c in Codes(d.money) then rows[c].code == c && InjectedAs(d.money, Money, rows[c])
                  else c in byCode ==> rows[c] == byCode[c])
  {
    hide InjectedAs, Codes, WithRows;
    var r1 := WithRows(byCode, d.money, Money);
    var r2 := WithRows(r1, d.bureau, Bureau);
    RowsAdded(byCode, d.money, Money, c);
    RowsAdded(r1, d.bureau, Bureau, c);
    RowsAdded(r2, d.sources, Source, c);
    RowsAdded(WithRows(r2, d.sources, Source), d.obligations, Obligation, c);
  }

  /** The row an injected question is stored as, when its code is its own. */
  lemma InjectedRowIs(injected: seq<Injected>, manner: Manner, k: nat, mq: MergedQuestion)
    requires k < |injected| && Distinct(Codes(injected)) && InjectedAs(injected, manner, mq) && mq.code == injected[k].question.code
    ensures mq == InjectedRow(injected[k], manner)
  {
    var j :| 0 <= j < |injected| && mq == InjectedRow(injected[j], manner);
    assert Codes(injected)[j] == Codes(injected)[k];
  }

  /** What each family of injected questions is stored as: money without rule and options, the bureau question without
      its rule, a source as an optional number without options, an obligation as authored. */
  lemma InjectedRowsExactly(d: SeedData, k: nat)
    requires WellFormed(d)
    ensures k < |d.money| ==> var i := d.money[k];
      i.question.code in AllRows(d)
      && AllRows(d)[i.question.code] == MergedQuestion(i.question.code, i.groupCode, i.question.content, None, [])
    ensures k < |d.bureau| ==> var i := d.bureau[k];
      i.question.code in AllRows(d)
      && AllRows(d)[i.question.code] == MergedQuestion(i.question.code, i.groupCode, i.question.content, None, i.question.options)
    ensures k < |d.sources| ==> var i := d.sources[k];
      i.question.code in AllRows(d)
      && AllRows(d)[i.question.code] == MergedQuestion(i.question.code, i.groupCode,
           Content("NUMERIC", i.question.content.questionEn, i.question.content.questionAr, false), i.question.enabledWhen, [])
    ensures k < |d.obligations| ==> var i := d.obligations[k];
      i.question.code in AllRows(d)
      && AllRows(d)[i.question.code] == MergedQuestion(i.question.code, i.groupCode, i.question.content, i.question.enabledWhen, i.question.options)
  {
    var mo, bu, so, ob := Codes(d.money), Codes(d.bureau), Codes(d.sources), Codes(d.obligations);
    FamiliesApart(d);
    hide WellFormed, Codes, AllRows, Distinct, InjectedAs;
    if k < |d.money| { FamilyRow(d, mo[k]); InjectedRowIs(d.money, Money, k, AllRows(d)[mo[k]]); }
    if k < |d.bureau| { FamilyRow(d, bu[k]); InjectedRowIs(d.bureau, Bureau, k, AllRows(d)[bu[k]]); }
    if k < |d.sources| { FamilyRow(d, so[k]); InjectedRowIs(d.sources, Source, k, AllRows(d)[so[k]]); }
    if k < |d.obligations| { FamilyRow(d, ob[k]); InjectedRowIs(d.obligations, Obligation, k, AllRows(d)[ob[k]]); }
  }

  /** No code is injected twice. */
  lemma FamiliesApart(d: SeedData)
    requires WellFormed(d)
    ensures Distinct(Codes(d.money)) && Distinct(Codes(d.bureau)) && Distinct(Codes(d.sources)) && Distinct(Codes(d.obligations))
    ensures forall c | c in Codes(d.money) :: c !in Codes(d.bureau) && c !in Codes(d.sources) && c !in Codes(d.obligations)
    ensures forall c | c in Codes(d.bureau) :: c !in Codes(d.sources) && c !in Codes(d.obligations)
    ensures forall c | c in Codes(d.sources) :: c !in Codes(d.obligations)
  {
    var mo, bu, so, ob := Codes(d.money), Codes(d.bureau), Codes(d.sources), Codes(d.obligations);
    DistinctSplit(mo + bu + so, ob);
    DistinctSplit(mo + bu, so);
    DistinctSplit(mo, bu);
    hide Codes, Ready, SourcesFirst, AllRows, Sighted, Items;
    assert forall c | c in mo || c in bu :: c in mo + bu;
    assert forall c | c in mo + bu || c in so :: c in mo + bu + so;
  }

  lemma FamilyRow(d: SeedData, c: string)
    requires WellFormed(d)
    ensures c in Codes(d.money) || c in Codes(d.bureau) || c in Codes(d.sources) || c in Codes(d.obligations) ==>
      && c in AllRows(d) && AllRows(d)[c].code == c
      && (c in Codes(d.money) ==> InjectedAs(d.money, Money, AllRows(d)[c]))
      && (c in Codes(d.bureau) ==> InjectedAs(d.bureau, Bureau, AllRows(d)[c]))
      && (c in Codes(d.sources) ==> InjectedAs(d.sources, Source, AllRows(d)[c]))
      && (c in Codes(d.obligations) ==> InjectedAs(d.obligations, Obligation, AllRows(d)[c]))
  {
    FamiliesApart(d);
    RowsLayered(Merged(Items(d.configs, d.superseded)).byCode, d, c);
    hide WellFormed, Codes, WithRows, Merged, Items, InjectedAs, Distinct;
  }

  lemma UnseatedIsDistinct(d: SeedData)
    requires WellFormed(d)
    ensures Distinct(UnseatedOrder(d))
    ensures forall c :: c in UnseatedOrder(d) <==>
      c in Codes(d.money) || Sighted(Items(d.configs, d.superseded), c) || c in Codes(d.bureau) || c in Codes(d.sources)
  {
    var items := Items(d.configs, d.superseded);
    var mo, bu, so, ob := Codes(d.money), Codes(d.bureau), Codes(d.sources), Codes(d.obligations);
    var order := Merged(items).order;
    MergeIsFaithful(items);
    DistinctSplit(mo + bu + so, ob);
    DistinctSplit(mo + bu, so);
    DistinctSplit(mo, bu);
    ReversedIsDistinct(mo);
    hide Merged, Codes, FaithfulRow, Ready, SourcesFirst, Reversed;
    assert forall c :: c in order <==> c in Elements(order);
    assert forall c | c in mo || c in bu || c in so :: c in InjectedCodes(d);
    assert forall c | c in mo || c in bu :: c in mo + bu;
    DistinctConcat(Reversed(mo), order);
    DistinctConcat(Reversed(mo) + order, bu);
    DistinctConcat(Reversed(mo) + order + bu, so);
  }

  lemma {:induction false} ReversedIsDistinct(s: seq<string>)
    requires Distinct(s)
    ensures Distinct(Reversed(s))
  {
    if s != [] {
      assert s == [s[0]] + s[1..];
      DistinctSplit([s[0]], s[1..]);
      ReversedIsDistinct(s[1..]);
      DistinctConcat(Reversed(s[1..]), [s[0]]);
    }
  }

  lemma UnseatedIsReady(d: SeedData)
    requires WellFormed(d)
    ensures Ready({}, UnseatedOrder(d), AllRows(d))
  {
    var items := Items(d.configs, d.superseded);
    var merged, rows := Merged(items), AllRows(d);
    var front := Reversed(Codes(d.money));
    var bu, so := Codes(d.bureau), Codes(d.sources);
    MergeKeepsSources(items);
    MergeIsFaithful(items);
    forall c ensures c in merged.byCode ==> c in rows && rows[c] == merged.byCode[c] { RowsByFamily(d, c); }
    forall c | c in front || c in bu ensures !Gated(rows, c) { RowsByFamily(d, c); }
    SourcesAreReady(d);
    hide Merged, Codes, FaithfulRow, Sighted, SourcesFirst, Reversed, WellFormed, AllRows, Distinct, Items;
    assert forall c | c in merged.order :: c in Elements(merged.order);
    ReadyUngated({}, front, rows);
    ReadySame({}, merged.order, merged.byCode, rows);
    ReadyMore({}, {} + Elements(front), merged.order, rows);
    ReadyConcat({}, front, merged.order, rows);
    ReadyUngated({} + Elements(front + merged.order), bu, rows);
    ReadyConcat({}, front + merged.order, bu, rows);
    ReadyMore(Elements(front + merged.order + bu), {} + Elements(front + merged.order + bu), so, rows);
    ReadyConcat({}, front + merged.order + bu, so, rows);
  }

  lemma SourcesAreReady(d: SeedData)
    requires WellFormed(d)
    ensures Ready(Elements(Reversed(Codes(d.money)) + Merged(Items(d.configs, d.superseded)).order + Codes(d.bureau)),
                  Codes(d.sources), AllRows(d))
  {
    var items := Items(d.configs, d.superseded);
    var so, rows := Codes(d.sources), AllRows(d);
    MergeIsFaithful(items);
    DistinctSplit(Codes(d.money) + Codes(d.bureau) + so, Codes(d.obligations));
    DistinctSplit(Codes(d.money) + Codes(d.bureau), so);
    var order := Merged(items).order;
    forall p | 0 <= p < |so| && Gated(rows, so[p])
      ensures SourceOf(rows, so[p]) in Elements(Reversed(Codes(d.money)) + order + Codes(d.bureau)) || SourceOf(rows, so[p]) in so[..p]
    {
      RowsByFamily(d, so[p]);
      var k :| 0 <= k < |d.sources| && rows[so[p]] == InjectedRow(d.sources[k], Source);
      assert so[k] == so[p] && k == p;
      hide AllRows, FaithfulRow, Merged, Ready, SourcesFirst, Distinct;
      assert Sighted(items, SourceOf(rows, so[p])) ==> SourceOf(rows, so[p]) in Elements(order);
    }
  }

  lemma {:induction false} WithoutUntouched(front: seq<string>, back: seq<string>, block: seq<string>)
    requires forall x | x in front :: x !in block
    ensures Without(front + back, block) == front + Without(back, block)
  {
    if front == [] {
      assert front + back == back;
    } else {
      assert (front + back)[1..] == front[1..] + back;
      WithoutUntouched(front[1..], back, block);
    }
  }

  lemma BoundOutsideBlockIsMoney(d: SeedData, c: string)
    requires WellFormed(d) && c in UnseatedOrder(d) && c in d.bindings && c !in d.block
    ensures c in Reversed(Codes(d.money))
  {
    UnseatedIsDistinct(d);
  }

  /** Only money questions are seated before the block. */
  lemma MoneyBeforeBlock(d: SeedData)
    requires WellFormed(d)
    ensures forall c | c in InFront(UnseatedOrder(d), d.bindings, d.block) :: c in Codes(d.money)
  {
    hide Merged, Codes, Without, Distinct, Reversed, WellFormed;
    var order := UnseatedOrder(d);
    var rest := Without(order, d.block);
    var last := LastMoney(rest, d.bindings, d.block);
    var front := Reversed(Codes(d.money));
    var back := Merged(Items(d.configs, d.superseded)).order + Codes(d.bureau) + Codes(d.sources);
    UnseatedIsDistinct(d);
    WithoutKeepsDistinct(order, d.block);
    WithoutElements(order, d.block);
    MoneyOutsideBlock(d);
    assert order == front + back;
    WithoutUntouched(front, back, d.block);
    if last >= 0 {
      assert rest[last] in rest;
      BoundOutsideBlockIsMoney(d, rest[last]);
      PrefixWithin(front, Without(back, d.block), last);
    }
  }

  lemma PrefixWithin(front: seq<string>, back: seq<string>, last: nat)
    requires Distinct(front + back) && last < |front + back| && (front + back)[last] in front
    ensures forall c | c in (front + back)[..last + 1] :: c in front
  {
    var k :| 0 <= k < |front| && front[k] == (front + back)[last];
    assert (front + back)[k] == front[k];
  }

  lemma MoneyOutsideBlock(d: SeedData)
    requires WellFormed(d)
    ensures forall c | c in Reversed(Codes(d.money)) :: c !in d.block
  {
    var mo, bu, so, ob := Codes(d.money), Codes(d.bureau), Codes(d.sources), Codes(d.obligations);
    DistinctSplit(mo + bu + so, ob);
    forall c | c in mo ensures c !in d.block {
      assert c in mo + bu && c in mo + bu + so && c in InjectedCodes(d);
    }
  }

  /** The pool `mergeSeedPool` returns: no question twice, none missing, the obligation block as one run
      after the last bound money question, everything else in its old order, and every branch source
      before every question it gates. */
  lemma PoolIsOrdered(d: SeedData) returns (pre: seq<string>, post: seq<string>)
    requires WellFormed(d)
    ensures Distinct(PoolOrder(d))
    ensures Elements(PoolOrder(d)) == AllRows(d).Keys
    ensures SeatedAfterMoney(PoolOrder(d), UnseatedOrder(d), d.bindings, d.block, pre, post)
    ensures Ready({}, PoolOrder(d), AllRows(d))
  {
    var order := UnseatedOrder(d);
    UnseatedIsDistinct(d);
    assert Distinct(d.block);
    pre, post := BlockIsSeated(order, d.bindings, d.block);
    ReseatedIsDistinct(order, d.bindings, d.block);
    PoolHoldsExactlyTheRows(d);
    PoolIsReady(d);
    hide Reseated, UnseatedOrder, AllRows, Without, Codes, Ready, Distinct, SourcesFirst, Sighted;
  }

  lemma MoneyIsUngated(d: SeedData, c: string)
    requires WellFormed(d) && c in Codes(d.money)
    ensures !Gated(AllRows(d), c)
  {
    RowsByFamily(d, c);
  }

  lemma BlockIsReady(d: SeedData)
    requires WellFormed(d)
    ensures Ready({}, d.block, AllRows(d))
  {
    hide AllRows, Sighted, SourcesFirst, Ready;
  }

  /** In front of the block stand bound money questions, none of them gated. */
  lemma InFrontIsReady(d: SeedData)
    requires WellFormed(d)
    ensures var pre := InFront(UnseatedOrder(d), d.bindings, d.block);
            Ready({}, pre, AllRows(d)) && Ready(Elements(pre), d.block, AllRows(d))
  {
    var pre := InFront(UnseatedOrder(d), d.bindings, d.block);
    MoneyBeforeBlock(d);
    BlockIsReady(d);
    hide WellFormed, Ready, Gated, InFront, UnseatedOrder, AllRows, Codes;
    forall c | c in pre ensures !Gated(AllRows(d), c) { MoneyIsUngated(d, c); }
    ReadyUngated({}, pre, AllRows(d));
    ReadyMore({}, Elements(pre), d.block, AllRows(d));
  }

  lemma PoolIsReady(d: SeedData)
    requires WellFormed(d)
    ensures Ready({}, PoolOrder(d), AllRows(d))
  {
    UnseatedIsReady(d);
    InFrontIsReady(d);
    hide WellFormed, Ready, Reseated, UnseatedOrder, AllRows, InFront;
    ReseatKeepsSourcesExactly(UnseatedOrder(d), d.bindings, d.block, AllRows(d));
  }

  lemma PoolHoldsExactlyTheRows(d: SeedData)
    requires WellFormed(d)
    ensures Elements(UnseatedOrder(d)) + Elements(d.block) == AllRows(d).Keys
  {
    var items := Items(d.configs, d.superseded);
    UnseatedIsDistinct(d);
    MergeIsFaithful(items);
    forall c ensures c in Elements(UnseatedOrder(d)) + Elements(d.block) <==> c in AllRows(d) {
      RowsByFamily(d, c);
      hide UnseatedOrder, AllRows, Merged, Ready, SourcesFirst, FaithfulRow, Sighted, Distinct;
      assert c in InjectedCodes(d) <==> c in Codes(d.money) || c in Codes(d.bureau) || c in Codes(d.sources) || c in Codes(d.obligations);
    }
  }

  // ---- Groups after the thin ones are merged --------------------------------------------------------------

  ghost predicate GroupsConsistent(gs: Groups) {
    Distinct(gs.order) && Elements(gs.order) == gs.byCode.Keys
  }

  lemma WithGroupConsistent(gs: Groups, g: SeedGroup)
    requires GroupsConsistent(gs)
    ensures GroupsConsistent(WithGroup(gs, g)) && WithGroup(gs, g).byCode.Keys == gs.byCode.Keys + {g.code}
  {
    if g.code !in gs.byCode {
      assert g.code !in Elements(gs.order);
      DistinctConcat(gs.order, [g.code]);
      assert Elements(gs.order + [g.code]) == Elements(gs.order) + {g.code};
    }
  }

  ghost predicate InGroups(items: seq<Injected>, groups: set<string>) {
    forall i :: 0 <= i < |items| ==> items[i].groupCode in groups
  }

  lemma {:induction false} GroupItemsInGroup(groupCode: string, questions: seq<SeedQuestion>, superseded: set<string>)
    ensures InGroups(ItemsOfGroup(groupCode, questions, superseded), {groupCode})
  {
    if questions != [] { GroupItemsInGroup(groupCode, questions[..|questions| - 1], superseded); }
  }

  lemma {:induction false} ConfigGroups(gs: Groups, groups: seq<SeedGroup>, superseded: set<string>)
    requires GroupsConsistent(gs)
    ensures GroupsConsistent(GroupsOfConfig(gs, groups)) && gs.byCode.Keys <= GroupsOfConfig(gs, groups).byCode.Keys
    ensures InGroups(ItemsOfConfig(groups, superseded), GroupsOfConfig(gs, groups).byCode.Keys)
  {
    if groups != [] {
      var g := groups[|groups| - 1];
      ConfigGroups(gs, groups[..|groups| - 1], superseded);
      WithGroupConsistent(GroupsOfConfig(gs, groups[..|groups| - 1]), g);
      GroupItemsInGroup(g.code, g.questions, superseded);
    }
  }

  lemma {:induction false} AllGroups(configs: seq<seq<SeedGroup>>, superseded: set<string>)
    ensures GroupsConsistent(GroupsOf(configs))
    ensures InGroups(Items(configs, superseded), GroupsOf(configs).byCode.Keys)
  {
    if configs != [] {
      AllGroups(configs[..|configs| - 1], superseded);
      ConfigGroups(GroupsOf(configs[..|configs| - 1]), configs[|configs| - 1], superseded);
    }
  }

  lemma {:induction false} DropAllDrops(order: seq<string>, merges: seq<Merge>)
    requires Distinct(order)
    ensures Distinct(DropAll(order, merges))
    ensures Elements(DropAll(order, merges)) == Elements(order) - Froms(merges)
  {
    if merges != [] {
      var earlier, from := DropAll(order, merges[..|merges| - 1]), merges[|merges| - 1].from;
      DropAllDrops(order, merges[..|merges| - 1]);
      assert merges == merges[..|merges| - 1] + [merges[|merges| - 1]];
      assert Froms(merges) == Froms(merges[..|merges| - 1]) + {from};
      DropFirstDrops(earlier, from);
    }
  }

  lemma DropFirstDrops(order: seq<string>, code: string)
    requires Distinct(order)
    ensures Distinct(DropFirst(order, code)) && Elements(DropFirst(order, code)) == Elements(order) - {code}
  {
    var at := IndexOf(order, code);
    if at >= 0 {
      var front, back := order[..at], order[at + 1..];
      assert order == front + ([code] + back);
      DistinctSplit(front, [code] + back);
      DistinctSplit([code], back);
      DistinctConcat(front, back);
      assert forall x :: x in order <==> x in front || x == code || x in back;
    }
  }

  /** A question's group is kept, or merged into one that is itself kept. */
  predicate LandsInKept(merges: seq<Merge>, q: MergedQuestion) {
    match Target(merges, q.groupCode)
    case Some(to) => to !in Froms(merges)
    case None => true
  }

  lemma RemappedGroup(groups: set<string>, q: MergedQuestion, merges: seq<Merge>)
    requires TargetsKnown(merges, |merges|, groups) && q.groupCode in groups
    ensures Regrouped(merges, q).groupCode in groups - Froms(merges) <==> LandsInKept(merges, q)
  {}

  lemma ThinGroupTables(gs: Groups, merges: seq<Merge>, titles: map<string, string>)
    requires GroupsConsistent(gs)
    ensures var after := Groups(DropAll(gs.order, merges), Retitled(gs.byCode, titles) - Froms(merges));
            GroupsConsistent(after) && after.byCode.Keys == gs.byCode.Keys - Froms(merges)
  {
    DropAllDrops(gs.order, merges);
    assert (Retitled(gs.byCode, titles) - Froms(merges)).Keys == gs.byCode.Keys - Froms(merges);
  }

  lemma {:induction false} TargetExactly(merges: seq<Merge>, i: nat)
    requires i < |merges| && forall j | 0 <= j < i :: merges[j].from != merges[i].from
    ensures Target(merges, merges[i].from) == Some(merges[i].to)
  {
    if i > 0 { TargetExactly(merges[1..], i - 1); }
  }

  /** A question of a group that is merged away moves to the group it is merged into, first listed first; nothing else
      of any question changes. */
  lemma RemappedExactly(byCode: ByCode, merges: seq<Merge>)
    ensures Remapped(merges, byCode).Keys == byCode.Keys
    ensures forall c, i |
      c in byCode && 0 <= i < |merges| && merges[i].from == byCode[c].groupCode && (forall j | 0 <= j < i :: merges[j].from != merges[i].from) ::
        Remapped(merges, byCode)[c] == byCode[c].(groupCode := merges[i].to)
    ensures forall c | c in byCode && (forall m | m in merges :: m.from != byCode[c].groupCode) :: Remapped(merges, byCode)[c] == byCode[c]
  {
    forall c, i |
      c in byCode && 0 <= i < |merges| && merges[i].from == byCode[c].groupCode && (forall j | 0 <= j < i :: merges[j].from != merges[i].from)
      ensures Remapped(merges, byCode)[c] == byCode[c].(groupCode := merges[i].to)
    {
      TargetExactly(merges, i);
    }
  }

  lemma KeptGroupsExactly(groups: map<string, SeedGroup>, merges: seq<Merge>, titles: map<string, string>)
    ensures var after := Retitled(groups, titles) - Froms(merges);
      && (forall g :: g in after <==> (g in groups && forall m | m in merges :: m.from != g))
      && (forall g | g in after :: after[g] == if g in titles then groups[g].(title := titles[g]) else groups[g])
  {
  }

  /** After the remap no retired group remains anywhere in the group tables; and every question sits in a
      live group exactly when no question's group was merged into one that is itself retired. */
  lemma ThinGroupsMerged(gs: Groups, byCode: ByCode, merges: seq<Merge>, titles: map<string, string>)
    requires GroupsConsistent(gs) && TargetsKnown(merges, |merges|, gs.byCode.Keys)
    requires forall c | c in byCode :: byCode[c].groupCode in gs.byCode
    ensures var after := Groups(DropAll(gs.order, merges), Retitled(gs.byCode, titles) - Froms(merges));
            && GroupsConsistent(after)
            && after.byCode.Keys == gs.byCode.Keys - Froms(merges)
            && ((forall c | c in byCode :: Remapped(merges, byCode)[c].groupCode in after.byCode) <==>
                (forall c | c in byCode :: LandsInKept(merges, byCode[c])))
  {
    hide DropAll, Retitled, Froms, TargetsKnown, Regrouped, GroupsConsistent, LandsInKept;
    ThinGroupTables(gs, merges, titles);
    forall c | c in byCode
      ensures Remapped(merges, byCode)[c].groupCode in gs.byCode.Keys - Froms(merges) <==> LandsInKept(merges, byCode[c])
    {
      RemappedGroup(gs.byCode.Keys, byCode[c], merges);
    }
  }

  /** The same of the whole pool. */
  lemma PoolGroupsAreLive(d: SeedData)
    requires NamesKnownGroups(d)
    requires forall m | m in d.merges :: m.to !in Froms(d.merges)
    ensures var groups := Retitled(GroupsOf(d.configs).byCode, d.titles) - Froms(d.merges);
            && GroupsConsistent(Groups(DropAll(GroupsOf(d.configs).order, d.merges), groups))
            && (forall m | m in d.merges :: m.from !in groups)
            && (forall c | c in AllRows(d) :: Remapped(d.merges, AllRows(d))[c].groupCode in groups)
  {
    var gs, rows := GroupsOf(d.configs), AllRows(d);
    AllGroups(d.configs, d.superseded);
    forall c | c in rows ensures rows[c].groupCode in gs.byCode { RowGroupKnown(d, c); }
    hide AllRows, GroupsConsistent, GroupsOf, GroupsKnown, TargetsKnown, DropAll, Retitled;
    ThinGroupsMerged(gs, rows, d.merges, d.titles);
    assert forall c | c in rows :: LandsInKept(d.merges, rows[c]);
  }

  lemma {:induction false} RowsKeepGroups(byCode: ByCode, injected: seq<Injected>, manner: Manner, groups: set<string>)
    requires GroupsKnown(injected, |injected|, groups) && forall c | c in byCode :: byCode[c].groupCode in groups
    ensures forall c | c in WithRows(byCode, injected, manner) :: WithRows(byCode, injected, manner)[c].groupCode in groups
  {
    if injected != [] { RowsKeepGroups(byCode, injected[..|injected| - 1], manner, groups); }
  }

  lemma RowGroupKnown(d: SeedData, c: string)
    requires NamesKnownGroups(d) && c in AllRows(d)
    ensures AllRows(d)[c].groupCode in GroupsOf(d.configs).byCode
  {
    var items, groups := Items(d.configs, d.superseded), GroupsOf(d.configs).byCode.Keys;
    var merged := Merged(items).byCode;
    AllGroups(d.configs, d.superseded);
    MergeIsFaithful(items);
    forall c | c in merged ensures merged[c].groupCode in groups {
      assert FaithfulRow(items, c, merged[c]);
    }
    hide Merged, FaithfulRow, GroupsConsistent, GroupsKnown, WithRows, InGroups;
    var r1 := WithRows(merged, d.money, Money);
    var r2 := WithRows(r1, d.bureau, Bureau);
    var r3 := WithRows(r2, d.sources, Source);
    RowsKeepGroups(merged, d.money, Money, groups);
    RowsKeepGroups(r1, d.bureau, Bureau, groups);
    RowsKeepGroups(r2, d.sources, Source, groups);
    RowsKeepGroups(r3, d.obligations, Obligation, groups);
  }
}
