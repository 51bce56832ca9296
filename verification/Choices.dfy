/** `Array.prototype.filter`, told by the places of what it keeps. */
module Choices {

  /**
    The places `places` of `pool` ascend, hold the kept elements, and are exactly those of elements that satisfy `p`.
   */
  ghost predicate ChoosesAt<T>(pool: seq<T>, p: T -> bool, kept: seq<T>, places: seq<nat>) {
    && |places| == |kept|
    && (forall k :: 0 <= k < |kept| ==> places[k] < |pool| && pool[places[k]] == kept[k])
    && Ascends(places)
    && (forall i: nat :: i < |pool| ==> (p(pool[i]) <==> i in places))
  }

  /** What is kept of the pool is what satisfies `p`, each as often as it is there and in the order of the pool. */
  ghost predicate IsChoice<T>(pool: seq<T>, p: T -> bool, kept: seq<T>) {
    exists places: seq<nat> :: ChoosesAt(pool, p, kept, places)
  }

  function Moved(places: seq<nat>): (moved: seq<nat>)
    ensures |moved| == |places| && forall k :: 0 <= k < |places| ==> moved[k] == places[k] + 1
  {
    seq(|places|, k requires 0 <= k < |places| => places[k] + 1)
  }

  lemma ChoiceOfNone<T>(p: T -> bool)
    ensures IsChoice([], p, [])
  {
    assert ChoosesAt([], p, [], []);
  }

  /** One more element in front is kept or not. */
  lemma ChoiceGrows<T>(x: T, pool: seq<T>, p: T -> bool, kept: seq<T>)
    requires IsChoice(pool, p, kept)
    ensures IsChoice([x] + pool, p, (if p(x) then [x] else []) + kept)
  {
    var places: seq<nat> :| ChoosesAt(pool, p, kept, places);
    var moved := Moved(places);
    if p(x) {
      GrowsKept(x, pool, p, kept, places, moved);
      assert ChoosesAt([x] + pool, p, [x] + kept, [0] + moved);
    } else {
      GrowsSkipped(x, pool, p, kept, places, moved);
      assert [] + kept == kept;
    }
  }

  lemma GrowsSkipped<T>(x: T, pool: seq<T>, p: T -> bool, kept: seq<T>, places: seq<nat>, moved: seq<nat>)
    requires ChoosesAt(pool, p, kept, places) && !p(x) && moved == Moved(places)
    ensures ChoosesAt([x] + pool, p, kept, moved)
  {
    var more := [x] + pool;
    MovedAscends(places);
    forall k | 0 <= k < |kept|
      ensures moved[k] < |more| && more[moved[k]] == kept[k]
    {
      assert more[places[k] + 1] == pool[places[k]];
    }
    forall i: nat | i < |more|
      ensures p(more[i]) <==> i in moved
    {
      MovedExactly(places, i);
      assert i > 0 ==> more[i] == pool[i - 1];
    }
    hide Moved, Ascends;
  }

  lemma GrowsKept<T>(x: T, pool: seq<T>, p: T -> bool, kept: seq<T>, places: seq<nat>, moved: seq<nat>)
    requires ChoosesAt(pool, p, kept, places) && p(x) && moved == Moved(places)
    ensures ChoosesAt([x] + pool, p, [x] + kept, [0] + moved)
  {
    var more, all := [x] + pool, [0] + moved;
    MovedAscends(places);
    forall k | 0 <= k < |all|
      ensures all[k] < |more| && more[all[k]] == ([x] + kept)[k]
    {
      if k > 0 {
        assert all[k] == places[k - 1] + 1;
        assert more[places[k - 1] + 1] == pool[places[k - 1]];
      }
    }
    forall i: nat | i < |more|
      ensures p(more[i]) <==> i in all
    {
      MovedExactly(places, i);
      assert i in all <==> i == 0 || i in moved;
      assert i > 0 ==> more[i] == pool[i - 1];
    }
    hide Moved, Ascends;
  }

  lemma MovedAscends(places: seq<nat>)
    requires Ascends(places)
    ensures Ascends(Moved(places)) && Ascends([0] + Moved(places))
  {
  }

  lemma MovedExactly(places: seq<nat>, i: nat)
    ensures i in Moved(places) <==> i > 0 && i - 1 in places
  {
    var moved := Moved(places);
    if i in moved {
      var k :| 0 <= k < |moved| && moved[k] == i;
      assert places[k] == i - 1;
    }
    if i > 0 && i - 1 in places {
      var k :| 0 <= k < |places| && places[k] == i - 1;
      assert moved[k] == i;
    }
  }

  /** Those of the elements that satisfy `p`, in their order. */
  function Those<T(!new)>(pool: seq<T>, p: T -> bool): (kept: seq<T>)
    ensures forall x :: x in kept <==> x in pool && p(x)
  {
    if pool == [] then [] else (if p(pool[0]) then [pool[0]] else []) + Those(pool[1..], p)
  }

  lemma {:induction false} ThoseAreChosen<T(!new)>(pool: seq<T>, p: T -> bool)
    ensures IsChoice(pool, p, Those(pool, p))
  {
    if pool == [] {
      ChoiceOfNone(p);
    } else {
      ThoseAreChosen(pool[1..], p);
      ChoiceGrows(pool[0], pool[1..], p, Those(pool[1..], p));
      assert pool == [pool[0]] + pool[1..];
    }
  }

  lemma ChosenExactly<T>(pool: seq<T>, p: T -> bool, kept: seq<T>)
    requires IsChoice(pool, p, kept)
    ensures forall x :: x in kept <==> x in pool && p(x)
  {
    var places: seq<nat> :| ChoosesAt(pool, p, kept, places);
    forall x | x in kept
      ensures x in pool && p(x)
    {
      var k :| 0 <= k < |kept| && kept[k] == x;
      assert places[k] in places;
    }
    forall x | x in pool && p(x)
      ensures x in kept
    {
      var i: nat :| i < |pool| && pool[i] == x;
      var k :| 0 <= k < |places| && places[k] == i;
      assert kept[k] == x;
    }
  }

  /** Only the values of `p` on the pool matter. */
  lemma SameChoice<T>(pool: seq<T>, p: T -> bool, q: T -> bool, kept: seq<T>)
    requires IsChoice(pool, p, kept) && forall x :: x in pool ==> (p(x) <==> q(x))
    ensures IsChoice(pool, q, kept)
  {
    var places: seq<nat> :| ChoosesAt(pool, p, kept, places);
    forall i: nat | i < |pool|
      ensures q(pool[i]) <==> i in places
    {
      assert pool[i] in pool;
    }
    assert ChoosesAt(pool, q, kept, places);
  }

  /** Ascending places are determined by which they are. */
  lemma {:induction false} PlacesUnique(places: seq<nat>, others: seq<nat>)
    requires Ascends(places) && Ascends(others)
    requires forall i: nat :: i in places <==> i in others
    ensures places == others
  {
    if places == [] {
      if others != [] {
        SomeMember(others);
      }
    } else {
      assert places[0] in others && (others != [] ==> others[0] in places);
      HeadIsLeast(places, others[0]);
      HeadIsLeast(others, places[0]);
      forall i: nat
        ensures i in places[1..] <==> i in others[1..]
      {
        TailMembers(places, i);
        TailMembers(others, i);
      }
      TailAscends(places);
      TailAscends(others);
      PlacesUnique(places[1..], others[1..]);
      assert places == [places[0]] + places[1..] && others == [others[0]] + others[1..];
    }
  }

  lemma SomeMember(places: seq<nat>)
    requires places != []
    ensures exists i: nat :: i in places
  {
    assert places[0] in places;
  }

  predicate Ascends(places: seq<nat>) {
    forall j, k :: 0 <= j < k < |places| ==> places[j] < places[k]
  }

  lemma HeadIsLeast(places: seq<nat>, i: nat)
    requires Ascends(places) && i in places
    ensures places[0] <= i
  {
  }

  lemma TailMembers(places: seq<nat>, i: nat)
    requires places != [] && Ascends(places)
    ensures i in places[1..] <==> i in places && i != places[0]
  {
    if i in places[1..] {
      var k :| 0 <= k < |places[1..]| && places[1..][k] == i;
      assert places[k + 1] == i;
    }
    if i in places && i != places[0] {
      var k :| 0 <= k < |places| && places[k] == i;
      assert places[1..][k - 1] == i;
    }
  }

  lemma TailAscends(places: seq<nat>)
    requires places != [] && Ascends(places)
    ensures Ascends(places[1..])
  {
  }

  /** There is one choice only. */
  lemma ChoiceUnique<T>(pool: seq<T>, p: T -> bool, kept: seq<T>, others: seq<T>)
    requires IsChoice(pool, p, kept) && IsChoice(pool, p, others)
    ensures kept == others
  {
    var places: seq<nat> :| ChoosesAt(pool, p, kept, places);
    var otherPlaces: seq<nat> :| ChoosesAt(pool, p, others, otherPlaces);
    forall i: nat
      ensures i in places <==> i in otherPlaces
    {
      if i in places {
        var k :| 0 <= k < |places| && places[k] == i;
      }
      if i in otherPlaces {
        var k :| 0 <= k < |otherPlaces| && otherPlaces[k] == i;
      }
    }
    PlacesUnique(places, otherPlaces);
  }
}
