/** Rows read back by a numeric place: what such a listing is, how one is built, and when it is the only one. */
module Ordering {
  import opened Basics

  /** Each of the codes once, by rising place; codes that share a place come in any order. */
  ghost predicate InOrder(s: seq<string>, codes: set<string>, place: map<string, nat>) {
    && Distinct(s) && codes <= place.Keys
    && (forall c :: c in s <==> c in codes)
    && (forall i, j :: 0 <= i < j < |s| ==> s[i] in place && s[j] in place && place[s[i]] <= place[s[j]])
  }

  lemma TailInOrder(s: seq<string>, codes: set<string>, place: map<string, nat>)
    requires s != [] && InOrder(s, codes, place)
    ensures InOrder(s[1..], codes - {s[0]}, place)
    ensures s[0] in codes && forall c | c in codes :: place[s[0]] <= place[c]
  {
    assert s == [s[0]] + s[1..];
    forall x ensures x in s[1..] <==> x in codes - {s[0]} { assert x in s <==> x in codes; }
    forall c | c in codes ensures place[s[0]] <= place[c] { assert c in s; }
  }

  lemma HeadInOrder(x: string, s: seq<string>, codes: set<string>, place: map<string, nat>)
    requires InOrder(s, codes, place) && x !in codes && x in place
    requires forall c | c in codes :: c in place && place[x] <= place[c]
    ensures InOrder([x] + s, codes + {x}, place)
  {
    forall i | 0 <= i < |s| ensures s[i] != x && place[x] <= place[s[i]] { assert s[i] in s; }
  }

  /** `c` before the first code with a later place. */
  function Placed(s: seq<string>, c: string, place: map<string, nat>): seq<string> {
    if s == [] || (c in place && s[0] in place && place[c] < place[s[0]]) then [c] + s else [s[0]] + Placed(s[1..], c, place)
  }

  lemma {:induction false} PlacedInOrder(s: seq<string>, codes: set<string>, c: string, place: map<string, nat>)
    requires InOrder(s, codes, place) && c !in codes && c in place
    ensures InOrder(Placed(s, c, place), codes + {c}, place)
  {
    if s == [] {
      assert codes == {} by { assert forall x | x in codes :: x in s; }
    } else {
      TailInOrder(s, codes, place);
      assert s[0] in place;
      hide InOrder;
      if place[c] < place[s[0]] {
        HeadInOrder(c, s, codes, place);
      } else {
        PlacedInOrder(s[1..], codes - {s[0]}, c, place);
        var rest := codes - {s[0]} + {c};
        assert rest <= place.Keys by { InOrderIsPlaced(s, codes, place); }
        HeadInOrder(s[0], Placed(s[1..], c, place), rest, place);
        assert codes + {c} == rest + {s[0]};
      }
    }
  }

  lemma InOrderIsPlaced(s: seq<string>, codes: set<string>, place: map<string, nat>)
    requires InOrder(s, codes, place)
    ensures codes <= place.Keys
  {
  }

  lemma NothingInOrder(s: seq<string>, place: map<string, nat>)
    requires InOrder(s, {}, place)
    ensures s == []
  {
    forall x ensures x !in multiset(s) { assert x !in s; }
    assert multiset(s) == multiset{};
  }

  /** When no two codes share a place there is one listing. */
  lemma {:induction false} InOrderIsUnique(s: seq<string>, t: seq<string>, codes: set<string>, place: map<string, nat>)
    requires InOrder(s, codes, place) && InOrder(t, codes, place)
    requires forall x, y | x in codes && y in codes && place[x] == place[y] :: x == y
    ensures s == t
    decreases |s|
  {
    InOrderIsPlaced(s, codes, place);
    if s == [] {
      assert codes == {} by { assert forall x | x in codes :: x in s; }
      NothingInOrder(t, place);
    } else {
      TailInOrder(s, codes, place);
      assert t != [] by { assert s[0] in t; }
      TailInOrder(t, codes, place);
      hide InOrder;
      assert s[0] == t[0];
      InOrderIsUnique(s[1..], t[1..], codes - {s[0]}, place);
      assert s == [s[0]] + s[1..] && t == [t[0]] + t[1..];
    }
  }

  /** `findMany` with an `orderBy`. */
  method FindInOrder(codes: set<string>, place: map<string, nat>) returns (s: seq<string>)
    requires codes <= place.Keys
    ensures InOrder(s, codes, place)
  {
    s := [];
    var left := codes;
    ghost var done: set<string> := {};
    while left != {}
      invariant left + done == codes && left !! done
      invariant InOrder(s, done, place)
    {
      var c :| c in left;
      PlacedInOrder(s, done, c, place);
      hide InOrder, Placed;
      s := Placed(s, c, place);
      left, done := left - {c}, done + {c};
    }
    assert done == codes;
  }
}
