/** What the authored configs contribute to the pool: which groups and questions, and in which order. */
module SeedPoolListing {
  import opened Basics
  import opened SeedPoolSpec
  import opened SeedPoolProperties

  /** The groups of all configs, one after the other. */
  function AllListed(configs: seq<seq<SeedGroup>>): seq<SeedGroup> {
    if configs == [] then [] else AllListed(configs[..|configs| - 1]) + configs[|configs| - 1]
  }

  lemma {:induction false} ConfigConcat(gs: Groups, a: seq<SeedGroup>, b: seq<SeedGroup>, superseded: set<string>)
    ensures GroupsOfConfig(gs, a + b) == GroupsOfConfig(GroupsOfConfig(gs, a), b)
    ensures ItemsOfConfig(a + b, superseded) == ItemsOfConfig(a, superseded) + ItemsOfConfig(b, superseded)
  {
    if b == [] {
      assert a + b == a;
    } else {
      var front := b[..|b| - 1];
      ConfigConcat(gs, a, front, superseded);
      assert (a + b)[..|a + b| - 1] == a + front;
      Regroup(ItemsOfConfig(a, superseded), ItemsOfConfig(front, superseded), ItemsOfGroup(b[|b| - 1].code, b[|b| - 1].questions, superseded));
    }
  }

  lemma {:induction false} ConfigsAreOneList(configs: seq<seq<SeedGroup>>, superseded: set<string>)
    ensures GroupsOf(configs) == Listed(AllListed(configs))
    ensures Items(configs, superseded) == ItemsOfConfig(AllListed(configs), superseded)
  {
    if configs != [] {
      var front, last := configs[..|configs| - 1], configs[|configs| - 1];
      ConfigsAreOneList(front, superseded);
      ConfigConcat(Groups([], map[]), AllListed(front), last, superseded);
    }
  }

  /** The groups kept of one list. */
  function Listed(gs: seq<SeedGroup>): Groups { GroupsOfConfig(Groups([], map[]), gs) }

  /** A group code's first listing. */
  predicate FirstListed(gs: seq<SeedGroup>, code: string, i: nat) {
    i < |gs| && gs[i].code == code && forall j | 0 <= j < i :: gs[j].code != code
  }

  /** Each listed code is kept with its first listing. */
  lemma {:induction false} FirstListingKept(gs: seq<SeedGroup>, code: string, i: nat)
    requires FirstListed(gs, code, i)
    ensures code in Listed(gs).byCode && Listed(gs).byCode[code] == gs[i]
  {
    var front := gs[..|gs| - 1];
    if i < |front| {
      assert FirstListed(front, code, i);
      FirstListingKept(front, code, i);
    } else {
      OnlyListedAreKept(front, code);
    }
  }

  lemma {:induction false} OnlyListedAreKept(gs: seq<SeedGroup>, code: string)
    ensures code in Listed(gs).byCode <==> exists i :: 0 <= i < |gs| && gs[i].code == code
  {
    if gs != [] {
      var front := gs[..|gs| - 1];
      OnlyListedAreKept(front, code);
      assert forall i | 0 <= i < |front| :: front[i] == gs[i];
      assert gs[|gs| - 1].code == code ==> exists i :: 0 <= i < |gs| && gs[i].code == code;
    }
  }

  lemma {:induction false} EarliestListed(gs: seq<SeedGroup>, j: nat) returns (i: nat)
    requires j < |gs|
    ensures FirstListed(gs, gs[j].code, i)
  {
    if k :| 0 <= k < j && gs[k].code == gs[j].code { i := EarliestListed(gs, k); } else { i := j; }
  }

  /** Groups are kept as first listed, in the order of their first listings. */
  lemma {:induction false} GroupsInListedOrder(gs: seq<SeedGroup>, x: nat, y: nat) returns (i: nat, j: nat)
    requires x < y < |Listed(gs).order|
    ensures i < j
    ensures FirstListed(gs, Listed(gs).order[x], i)
    ensures FirstListed(gs, Listed(gs).order[y], j)
  {
    var front, last := gs[..|gs| - 1], gs[|gs| - 1];
    var earlier := Listed(front).order;
    if y < |earlier| {
      i, j := GroupsInListedOrder(front, x, y);
    } else {
      i := ListedBefore(front, earlier[x]);
      j := |gs| - 1;
      OnlyListedAreKept(front, last.code);
      assert forall k | 0 <= k < |front| :: front[k] == gs[k];
    }
    hide GroupsOfConfig;
  }

  lemma ListedBefore(gs: seq<SeedGroup>, code: string) returns (i: nat)
    requires code in Listed(gs).order
    ensures FirstListed(gs, code, i)
  {
    ConfigGroups(Groups([], map[]), gs, {});
    OnlyListedAreKept(gs, code);
    assert code in Elements(Listed(gs).order);
    var j :| 0 <= j < |gs| && gs[j].code == code;
    i := EarliestListed(gs, j);
  }

  /** How many items the listing has made by a group and a question of it. */
  ghost function PlaceOf(gs: seq<SeedGroup>, superseded: set<string>, g: nat, k: nat): nat
    requires g < |gs| && k <= |gs[g].questions|
  {
    |ItemsOfConfig(gs[..g], superseded)| + |ItemsOfGroup(gs[g].code, gs[g].questions[..k], superseded)|
  }

  lemma {:induction false} GroupPrefix(code: string, questions: seq<SeedQuestion>, superseded: set<string>, k: nat)
    requires k <= |questions|
    ensures ItemsOfGroup(code, questions[..k], superseded) <= ItemsOfGroup(code, questions, superseded)
    ensures k < |questions| && questions[k].code !in superseded ==>
      var at := |ItemsOfGroup(code, questions[..k], superseded)|;
      at < |ItemsOfGroup(code, questions, superseded)| && ItemsOfGroup(code, questions, superseded)[at] == Injected(code, questions[k])
  {
    if k < |questions| {
      var front := questions[..|questions| - 1];
      assert front[..k] == questions[..k];
      if k < |front| { GroupPrefix(code, front, superseded, k); } else { assert front == questions[..k]; }
    } else {
      assert questions[..k] == questions;
    }
  }

  lemma {:induction false} ListPrefix(gs: seq<SeedGroup>, superseded: set<string>, g: nat)
    requires g < |gs|
    ensures ItemsOfConfig(gs[..g], superseded) + ItemsOfGroup(gs[g].code, gs[g].questions, superseded) <= ItemsOfConfig(gs, superseded)
  {
    var front := gs[..|gs| - 1];
    assert g < |front| ==> front[..g] == gs[..g];
    if g < |front| { ListPrefix(front, superseded, g); } else { assert front == gs[..g]; }
  }

  /** Every authored question that no bound money question supersedes is an item, under its group, at its place. */
  lemma AuthoredQuestionIsAnItem(gs: seq<SeedGroup>, superseded: set<string>, g: nat, k: nat)
    requires g < |gs| && k < |gs[g].questions| && gs[g].questions[k].code !in superseded
    ensures PlaceOf(gs, superseded, g, k) < |ItemsOfConfig(gs, superseded)|
    ensures ItemsOfConfig(gs, superseded)[PlaceOf(gs, superseded, g, k)] == Injected(gs[g].code, gs[g].questions[k])
  {
    GroupPrefix(gs[g].code, gs[g].questions, superseded, k);
    ListPrefix(gs, superseded, g);
    hide ItemsOfConfig, ItemsOfGroup;
  }

  /** Places follow the listing: by group, then by question. */
  lemma PlacesRise(gs: seq<SeedGroup>, superseded: set<string>, g: nat, k: nat, g': nat, k': nat)
    requires g < |gs| && k < |gs[g].questions| && g' < |gs| && k' < |gs[g'].questions| && (g < g' || (g == g' && k < k'))
    requires gs[g].questions[k].code !in superseded
    ensures PlaceOf(gs, superseded, g, k) < PlaceOf(gs, superseded, g', k')
  {
    if g == g' {
      var qs := gs[g].questions;
      GroupPrefix(gs[g].code, qs[..k'], superseded, k);
      assert qs[..k'][..k] == qs[..k];
    } else {
      GroupPrefix(gs[g].code, gs[g].questions, superseded, k);
      ListPrefix(gs[..g'], superseded, g);
      assert gs[..g'][..g] == gs[..g];
    }
    hide ItemsOfConfig, ItemsOfGroup;
  }

  lemma {:induction false} GroupItemIsAuthored(code: string, questions: seq<SeedQuestion>, superseded: set<string>, p: nat) returns (k: nat)
    requires p < |ItemsOfGroup(code, questions, superseded)|
    ensures k < |questions| && questions[k].code !in superseded && ItemsOfGroup(code, questions, superseded)[p] == Injected(code, questions[k])
  {
    var front := questions[..|questions| - 1];
    if p < |ItemsOfGroup(code, front, superseded)| { k := GroupItemIsAuthored(code, front, superseded, p); } else { k := |questions| - 1; }
  }

  /** And there is no other item. */
  lemma {:induction false} ItemIsAuthored(gs: seq<SeedGroup>, superseded: set<string>, p: nat) returns (g: nat, k: nat)
    requires p < |ItemsOfConfig(gs, superseded)|
    ensures g < |gs| && k < |gs[g].questions| && gs[g].questions[k].code !in superseded
    ensures ItemsOfConfig(gs, superseded)[p] == Injected(gs[g].code, gs[g].questions[k])
  {
    var front, last := gs[..|gs| - 1], gs[|gs| - 1];
    var before := ItemsOfConfig(front, superseded);
    if p < |before| {
      g, k := ItemIsAuthored(front, superseded, p);
    } else {
      g := |gs| - 1;
      k := GroupItemIsAuthored(last.code, last.questions, superseded, p - |before|);
    }
  }
}
