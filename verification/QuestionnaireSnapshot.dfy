/** The published snapshot of the questionnaire: what it serves and in which order. */
module QuestionnaireSnapshots {
  import opened Basics
  import opened Ordering
  import opened SeedPoolSpec
  import opened SeederTables

  datatype ServedQuestion = ServedQuestion(code: string, options: seq<string>)

  datatype ServedGroup = ServedGroup(code: string, questions: seq<ServedQuestion>)

  datatype Version = Version(isActive: bool, snapshot: seq<ServedGroup>)

  function QuestionCodes(served: seq<ServedQuestion>): (r: seq<string>)
    ensures |r| == |served| && forall i :: 0 <= i < |r| ==> r[i] == served[i].code
  {
    seq(|served|, i requires 0 <= i < |served| => served[i].code)
  }

  function GroupCodes(served: seq<ServedGroup>): (r: seq<string>)
    ensures |r| == |served| && forall i :: 0 <= i < |r| ==> r[i] == served[i].code
  {
    seq(|served|, i requires 0 <= i < |served| => served[i].code)
  }

  // ---- What is to be served ---------------------------------------------------------------------------------------

  function OptionPlaces(options: OptionTable, question: string): map<string, nat> {
    map k | k in options && k.questionCode == question :: k.code := options[k].displayOrder
  }

  function ActiveOptions(options: OptionTable, question: string): set<string> {
    set k | k in options && k.questionCode == question && options[k].isActive :: k.code
  }

  function QuestionPlaces(questions: QuestionTable): map<string, nat> { map c | c in questions :: questions[c].displayOrder }

  function ActiveIn(questions: QuestionTable, group: string): set<string> {
    set c | c in questions && questions[c].groupCode == group && questions[c].isActive
  }

  function GroupPlaces(groups: GroupTable): map<string, nat> { map g | g in groups :: groups[g].displayOrder }

  /** The active groups with something to ask. */
  function AskingGroups(groups: GroupTable, questions: QuestionTable): set<string> {
    set g | g in groups && groups[g].isActive && ActiveIn(questions, g) != {}
  }

  ghost predicate ServesQuestion(q: ServedQuestion, options: OptionTable) {
    InOrder(q.options, ActiveOptions(options, q.code), OptionPlaces(options, q.code))
  }

  ghost predicate ServesGroup(g: ServedGroup, questions: QuestionTable, options: OptionTable) {
    && InOrder(QuestionCodes(g.questions), ActiveIn(questions, g.code), QuestionPlaces(questions))
    && forall i | 0 <= i < |g.questions| :: ServesQuestion(g.questions[i], options)
  }

  /** The active groups with something to ask, in order, each with its active questions and their active options. */
  ghost predicate ServesAll(snapshot: seq<ServedGroup>, groups: GroupTable, questions: QuestionTable, options: OptionTable) {
    && InOrder(GroupCodes(snapshot), AskingGroups(groups, questions), GroupPlaces(groups))
    && forall i | 0 <= i < |snapshot| :: ServesGroup(snapshot[i], questions, options)
  }

  /** Whether a snapshot asks a question in a group. */
  predicate Asks(snapshot: seq<ServedGroup>, group: string, c: string) {
    exists i :: 0 <= i < |snapshot| && snapshot[i].code == group && c in QuestionCodes(snapshot[i].questions)
  }

  lemma AsksExactly(snapshot: seq<ServedGroup>, groups: GroupTable, questions: QuestionTable, options: OptionTable,
                    group: string, c: string)
    requires ServesAll(snapshot, groups, questions, options)
    ensures Asks(snapshot, group, c)
       <==> group in groups && groups[group].isActive && c in questions && questions[c].groupCode == group && questions[c].isActive
  {
    assert c in ActiveIn(questions, group) <==> c in questions && questions[c].groupCode == group && questions[c].isActive;
    hide ServesQuestion, ActiveIn;
    if group in AskingGroups(groups, questions) {
      assert group in GroupCodes(snapshot);
      var i :| 0 <= i < |snapshot| && GroupCodes(snapshot)[i] == group;
      assert ServesGroup(snapshot[i], questions, options);
    }
    if Asks(snapshot, group, c) {
      var i :| 0 <= i < |snapshot| && snapshot[i].code == group && c in QuestionCodes(snapshot[i].questions);
      assert ServesGroup(snapshot[i], questions, options);
      assert GroupCodes(snapshot)[i] == group;
    }
  }

  /** Groups come by their display order, each once and only with something to ask; within a group so do its questions. */
  lemma ServedInOrder(snapshot: seq<ServedGroup>, groups: GroupTable, questions: QuestionTable, options: OptionTable, i: nat)
    requires ServesAll(snapshot, groups, questions, options) && i < |snapshot|
    ensures snapshot[i].code in groups && groups[snapshot[i].code].isActive && snapshot[i].questions != []
    ensures forall j | i < j < |snapshot| ::
      && snapshot[j].code != snapshot[i].code && snapshot[j].code in groups
      && groups[snapshot[i].code].displayOrder <= groups[snapshot[j].code].displayOrder
    ensures forall x | 0 <= x < |snapshot[i].questions| ::
      snapshot[i].questions[x].code in questions && questions[snapshot[i].questions[x].code].groupCode == snapshot[i].code
    ensures forall x, y | 0 <= x < y < |snapshot[i].questions| ::
      && snapshot[i].questions[x].code != snapshot[i].questions[y].code
      && questions[snapshot[i].questions[x].code].displayOrder <= questions[snapshot[i].questions[y].code].displayOrder
  {
    var codes, asked := GroupCodes(snapshot), QuestionCodes(snapshot[i].questions);
    assert codes[i] in codes && ServesGroup(snapshot[i], questions, options);
    forall j | i < j < |snapshot| ensures codes[j] in AskingGroups(groups, questions) { assert codes[j] in codes; }
    forall x | 0 <= x < |asked| ensures asked[x] in ActiveIn(questions, snapshot[i].code) { assert asked[x] in asked; }
    var c :| c in ActiveIn(questions, snapshot[i].code);
    assert c in asked;
    hide ServesQuestion;
  }

  /** A served question offers exactly its active options, by their display order. */
  lemma OptionsServed(snapshot: seq<ServedGroup>, groups: GroupTable, questions: QuestionTable, options: OptionTable, i: nat, x: nat,
                      code: string)
    requires ServesAll(snapshot, groups, questions, options) && i < |snapshot| && x < |snapshot[i].questions|
    ensures var q := snapshot[i].questions[x];
      && (code in q.options <==> OptionKey(q.code, code) in options && options[OptionKey(q.code, code)].isActive)
      && (forall k | 0 <= k < |q.options| :: OptionKey(q.code, q.options[k]) in options)
      && (forall k, l | 0 <= k < l < |q.options| ::
            && q.options[k] != q.options[l]
            && options[OptionKey(q.code, q.options[k])].displayOrder <= options[OptionKey(q.code, q.options[l])].displayOrder)
  {
    var q := snapshot[i].questions[x];
    assert ServesGroup(snapshot[i], questions, options) && ServesQuestion(q, options);
    assert code in ActiveOptions(options, q.code) <==> OptionKey(q.code, code) in options && options[OptionKey(q.code, code)].isActive by {
      if OptionKey(q.code, code) in options && options[OptionKey(q.code, code)].isActive {
        assert OptionKey(q.code, code).questionCode == q.code;
      }
    }
    forall k | 0 <= k < |q.options|
      ensures OptionKey(q.code, q.options[k]) in options
      ensures OptionPlaces(options, q.code)[q.options[k]] == options[OptionKey(q.code, q.options[k])].displayOrder
    {
      PlaceOfOption(options, q, q.options[k]);
    }
    hide ServesGroup, OptionPlaces, ActiveOptions;
  }

  lemma PlaceOfOption(options: OptionTable, q: ServedQuestion, code: string)
    requires ServesQuestion(q, options) && code in q.options
    ensures OptionKey(q.code, code) in options && code in OptionPlaces(options, q.code)
    ensures OptionPlaces(options, q.code)[code] == options[OptionKey(q.code, code)].displayOrder
  {
    assert code in ActiveOptions(options, q.code);
    var key :| key in options && key.questionCode == q.code && options[key].isActive && key.code == code;
    assert key == OptionKey(q.code, code);
  }

  /** The version numbered one past the highest, the only one active, serving the tables as they are. */
  ghost predicate IsNext(before: map<nat, Version>, after: map<nat, Version>, n: nat,
                         groups: GroupTable, questions: QuestionTable, options: OptionTable)
  {
    && (forall k | k in before :: k < n) && (if before == map[] then n == 1 else n > 0 && n - 1 in before)
    && after.Keys == before.Keys + {n}
    && after[n].isActive && ServesAll(after[n].snapshot, groups, questions, options)
    && (forall k | k in before :: after[k] == before[k].(isActive := false))
  }

  ghost predicate Published(before: map<nat, Version>, after: map<nat, Version>,
                            groups: GroupTable, questions: QuestionTable, options: OptionTable)
  {
    exists n :: IsNext(before, after, n, groups, questions, options)
  }

  /** After a publication exactly one version is active, the highest; the others keep what they served. */
  lemma OnlyTheNewestIsActive(before: map<nat, Version>, after: map<nat, Version>, groups: GroupTable, questions: QuestionTable,
                              options: OptionTable) returns (n: nat)
    requires Published(before, after, groups, questions, options)
    ensures n !in before && after.Keys == before.Keys + {n}
    ensures if before == map[] then n == 1 else n - 1 in before
    ensures forall k | k in after :: k <= n && (after[k].isActive <==> k == n)
    ensures forall k | k in before :: after[k].snapshot == before[k].snapshot
    ensures ServesAll(after[n].snapshot, groups, questions, options)
  {
    n :| IsNext(before, after, n, groups, questions, options);
    hide ServesAll;
  }

  // ---- Building it ------------------------------------------------------------------------------------------------

  method ServeGroup(group: string, questions: QuestionTable, options: OptionTable) returns (served: ServedGroup)
    ensures served.code == group && ServesGroup(served, questions, options)
  {
    var codes := FindInOrder(ActiveIn(questions, group), QuestionPlaces(questions));
    hide InOrder, ActiveIn, QuestionPlaces;
    var qs: seq<ServedQuestion> := [];
    for i := 0 to |codes|
      invariant QuestionCodes(qs) == codes[..i]
      invariant forall j | 0 <= j < |qs| :: ServesQuestion(qs[j], options)
    {
      OptionsHavePlaces(options, codes[i]);
      var found := FindInOrder(ActiveOptions(options, codes[i]), OptionPlaces(options, codes[i]));
      qs := qs + [ServedQuestion(codes[i], found)];
      assert QuestionCodes(qs) == codes[..i + 1];
    }
    served := ServedGroup(group, qs);
    assert QuestionCodes(qs) == codes;
  }

  lemma OptionsHavePlaces(options: OptionTable, question: string)
    ensures ActiveOptions(options, question) <= OptionPlaces(options, question).Keys
  {
    forall code | code in ActiveOptions(options, question) ensures code in OptionPlaces(options, question) {
      assert OptionKey(question, code) in options;
    }
  }

  /** Groups in order; one with nothing to ask is skipped. */
  method BuildSnapshot(groups: GroupTable, questions: QuestionTable, options: OptionTable) returns (snapshot: seq<ServedGroup>)
    ensures ServesAll(snapshot, groups, questions, options)
  {
    var active := set g | g in groups && groups[g].isActive;
    var codes := FindInOrder(active, GroupPlaces(groups));
    snapshot := [];
    hide ServesGroup;
    for i := 0 to |codes|
      invariant InOrder(GroupCodes(snapshot), AskingGroups(groups, questions) * Elements(codes[..i]), GroupPlaces(groups))
      invariant forall j | 0 <= j < |snapshot| :: ServesGroup(snapshot[j], questions, options)
    {
      var g := ServeGroup(codes[i], questions, options);
      NextGroup(codes, active, GroupCodes(snapshot), groups, questions, i);
      NothingToAsk(g, questions, options);
      hide InOrder, AskingGroups;
      if g.questions != [] {
        assert GroupCodes(snapshot + [g]) == GroupCodes(snapshot) + [codes[i]];
        snapshot := snapshot + [g];
      }
    }
    assert AskingGroups(groups, questions) * Elements(codes[..|codes|]) == AskingGroups(groups, questions) by {
      assert codes[..|codes|] == codes;
    }
  }

  lemma NothingToAsk(g: ServedGroup, questions: QuestionTable, options: OptionTable)
    requires ServesGroup(g, questions, options)
    ensures g.questions == [] <==> ActiveIn(questions, g.code) == {}
  {
    var codes := QuestionCodes(g.questions);
    if g.questions != [] { assert codes[0] in codes; }
    hide ActiveIn;
    if ActiveIn(questions, g.code) != {} {
      var c :| c in ActiveIn(questions, g.code);
      assert c in codes;
    }
  }

  /** The groups served so far, and the next one of the list. */
  lemma NextGroup(codes: seq<string>, active: set<string>, served: seq<string>, groups: GroupTable, questions: QuestionTable, i: nat)
    requires i < |codes| && InOrder(codes, active, GroupPlaces(groups)) && active == set g | g in groups && groups[g].isActive
    requires InOrder(served, AskingGroups(groups, questions) * Elements(codes[..i]), GroupPlaces(groups))
    ensures var asking := AskingGroups(groups, questions);
      if ActiveIn(questions, codes[i]) == {} then asking * Elements(codes[..i + 1]) == asking * Elements(codes[..i])
      else InOrder(served + [codes[i]], asking * Elements(codes[..i + 1]), GroupPlaces(groups))
  {
    var asking := AskingGroups(groups, questions);
    assert codes[i] in codes && codes[i] in active;
    assert codes[..i + 1] == codes[..i] + [codes[i]];
    assert Elements(codes[..i + 1]) == Elements(codes[..i]) + {codes[i]};
    assert codes[i] in asking <==> ActiveIn(questions, codes[i]) != {};
    hide ActiveIn, AskingGroups;
    if codes[i] in asking {
      LastInOrder(codes, active, served, asking * Elements(codes[..i]), GroupPlaces(groups), i);
      assert asking * Elements(codes[..i + 1]) == asking * Elements(codes[..i]) + {codes[i]};
    } else {
      assert asking * Elements(codes[..i + 1]) == asking * Elements(codes[..i]);
    }
  }

  lemma LastInOrder(codes: seq<string>, active: set<string>, served: seq<string>, done: set<string>, place: map<string, nat>, i: nat)
    requires i < |codes| && InOrder(codes, active, place) && InOrder(served, done, place) && done <= Elements(codes[..i])
    ensures InOrder(served + [codes[i]], done + {codes[i]}, place)
  {
    assert codes[i] in codes;
    forall k | 0 <= k < |served| ensures served[k] != codes[i] && place[served[k]] <= place[codes[i]] {
      assert served[k] in served && served[k] in codes[..i];
      var j :| 0 <= j < i && codes[..i][j] == served[k];
    }
    forall x ensures x in served + [codes[i]] <==> x in done + {codes[i]} { assert x in served <==> x in done; }
  }
}
