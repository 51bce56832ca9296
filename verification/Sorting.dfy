/** `Array.prototype.sort` with a comparator: a stable sort, and the only one there is. */
module Sorting {

  ghost predicate TotalPreorder<T(!new)>(le: (T, T) -> bool) {
    && (forall x, y :: le(x, y) || le(y, x))
    && (forall x, y, z :: le(x, y) && le(y, z) ==> le(x, z))
  }

  ghost predicate Antisymmetric<T(!new)>(le: (T, T) -> bool) {
    forall x, y :: le(x, y) && le(y, x) ==> x == y
  }

  ghost predicate Sorted<T>(le: (T, T) -> bool, s: seq<T>) {
    forall i, j :: 0 <= i < j < |s| ==> le(s[i], s[j])
  }

  /** `x` goes before the first element that is not smaller, so equal elements keep their order. */
  function Insert<T>(le: (T, T) -> bool, x: T, s: seq<T>): seq<T> {
    if s == [] || le(x, s[0]) then [x] + s else [s[0]] + Insert(le, x, s[1..])
  }

  function Sort<T>(le: (T, T) -> bool, s: seq<T>): seq<T> {
    if s == [] then [] else Insert(le, s[0], Sort(le, s[1..]))
  }

  /** The elements of `s` tied with `x`, in order. */
  function Ties<T>(le: (T, T) -> bool, x: T, s: seq<T>): seq<T> {
    if s == [] then []
    else (if le(x, s[0]) && le(s[0], x) then [s[0]] else []) + Ties(le, x, s[1..])
  }

  lemma {:induction false} InsertPermutes<T>(le: (T, T) -> bool, x: T, s: seq<T>)
    ensures multiset(Insert(le, x, s)) == multiset{x} + multiset(s)
    ensures |Insert(le, x, s)| == |s| + 1
  {
    if s != [] && !le(x, s[0]) {
      InsertPermutes(le, x, s[1..]);
      assert s == [s[0]] + s[1..];
    }
  }

  lemma {:induction false} SortPermutes<T>(le: (T, T) -> bool, s: seq<T>)
    ensures multiset(Sort(le, s)) == multiset(s)
    ensures |Sort(le, s)| == |s|
  {
    if s != [] {
      SortPermutes(le, s[1..]);
      InsertPermutes(le, s[0], Sort(le, s[1..]));
      assert s == [s[0]] + s[1..];
    }
  }

  lemma MemberOfSort<T>(le: (T, T) -> bool, s: seq<T>, x: T)
    ensures x in Sort(le, s) <==> x in s
  {
    SortPermutes(le, s);
    assert x in Sort(le, s) <==> x in multiset(Sort(le, s));
    assert x in s <==> x in multiset(s);
  }

  lemma {:induction false} InsertSorts<T(!new)>(le: (T, T) -> bool, x: T, s: seq<T>)
    requires TotalPreorder(le) && Sorted(le, s)
    ensures Sorted(le, Insert(le, x, s))
  {
    if s == [] {
    } else if le(x, s[0]) {
      var r := [x] + s;
      forall i, j | 0 <= i < j < |r|
        ensures le(r[i], r[j])
      {
        if i == 0 && j > 1 {
          assert le(s[0], s[j - 1]);
        }
      }
    } else {
      InsertSorts(le, x, s[1..]);
      var rest := Insert(le, x, s[1..]);
      InsertPermutes(le, x, s[1..]);
      forall j | 0 <= j < |rest|
        ensures le(s[0], rest[j])
      {
        assert rest[j] in multiset(rest);
        assert rest[j] == x || rest[j] in s[1..];
      }
      var r := [s[0]] + rest;
      forall i, j | 0 <= i < j < |r|
        ensures le(r[i], r[j])
      {
        assert i > 0 ==> le(rest[i - 1], rest[j - 1]);
      }
    }
  }

  lemma {:induction false} SortSorts<T(!new)>(le: (T, T) -> bool, s: seq<T>)
    requires TotalPreorder(le)
    ensures Sorted(le, Sort(le, s))
  {
    if s != [] {
      SortSorts(le, s[1..]);
      InsertSorts(le, s[0], Sort(le, s[1..]));
    }
  }

  lemma {:induction false} InsertStable<T(!new)>(le: (T, T) -> bool, x: T, s: seq<T>, y: T)
    requires TotalPreorder(le) && Sorted(le, s)
    ensures Ties(le, y, Insert(le, x, s)) == Ties(le, y, [x] + s)
  {
    if s != [] && !le(x, s[0]) {
      InsertStable(le, x, s[1..], y);
      var r := Insert(le, x, s[1..]);
      assert Insert(le, x, s) == [s[0]] + r && ([s[0]] + r)[1..] == r;
      assert ([x] + s)[1..] == s;
      assert ([x] + s[1..])[1..] == s[1..];
      var tiesX, tiesHead := le(y, x) && le(x, y), le(y, s[0]) && le(s[0], y);
      assert tiesX ==> !tiesHead;
    }
  }

  lemma {:induction false} SortStable<T(!new)>(le: (T, T) -> bool, s: seq<T>, y: T)
    requires TotalPreorder(le)
    ensures Ties(le, y, Sort(le, s)) == Ties(le, y, s)
  {
    if s != [] {
      SortStable(le, s[1..], y);
      SortSorts(le, s[1..]);
      InsertStable(le, s[0], Sort(le, s[1..]), y);
      assert ([s[0]] + Sort(le, s[1..]))[1..] == Sort(le, s[1..]);
    }
  }

  lemma SomeTies<T(!new)>(le: (T, T) -> bool, s: seq<T>)
    requires TotalPreorder(le)
    ensures s == [] || exists y :: Ties(le, y, s) != []
  {
    if s != [] {
      assert le(s[0], s[0]);
      assert Ties(le, s[0], s) == [s[0]] + Ties(le, s[0], s[1..]);
      assert Ties(le, s[0], s)[0] == s[0];
    }
  }

  /** Sorted sequences with the same ties everywhere are the same sequence: no other stable sort exists. */
  lemma {:induction false} StableSortUnique<T(!new)>(le: (T, T) -> bool, s: seq<T>, t: seq<T>)
    requires TotalPreorder(le) && Sorted(le, s) && Sorted(le, t)
    requires forall y :: Ties(le, y, s) == Ties(le, y, t)
    ensures s == t
  {
    if s == [] {
      SomeTies(le, t);
      assert forall y :: Ties(le, y, t) == [];
    } else {
      assert s[0] in Ties(le, s[0], s);
      assert Ties(le, s[0], t) == Ties(le, s[0], s);
      TieIsMember(le, s[0], t);
      assert t[0] in Ties(le, t[0], t);
      assert Ties(le, t[0], t) == Ties(le, t[0], s);
      TieIsMember(le, t[0], s);
      HeadsAgree(le, s, t);
      forall y
        ensures Ties(le, y, s[1..]) == Ties(le, y, t[1..])
      {
        var head := if le(y, s[0]) && le(s[0], y) then [s[0]] else [];
        assert head + Ties(le, y, s[1..]) == Ties(le, y, s) == Ties(le, y, t) == head + Ties(le, y, t[1..]);
        assert (head + Ties(le, y, s[1..]))[|head|..] == Ties(le, y, s[1..]);
        assert (head + Ties(le, y, t[1..]))[|head|..] == Ties(le, y, t[1..]);
      }
      StableSortUnique(le, s[1..], t[1..]);
      assert s == [s[0]] + s[1..] && t == [t[0]] + t[1..];
    }
  }

  lemma {:induction false} TieIsMember<T(!new)>(le: (T, T) -> bool, x: T, s: seq<T>)
    ensures forall y :: y in Ties(le, x, s) ==> y in s && le(x, y) && le(y, x)
  {
    if s != [] {
      TieIsMember(le, x, s[1..]);
    }
  }

  lemma HeadsAgree<T(!new)>(le: (T, T) -> bool, s: seq<T>, t: seq<T>)
    requires TotalPreorder(le) && Sorted(le, s) && Sorted(le, t) && s != [] && t != []
    requires exists x :: x in t && le(s[0], x) && le(x, s[0])
    requires exists x :: x in s && le(t[0], x) && le(x, t[0])
    requires Ties(le, s[0], s) == Ties(le, s[0], t)
    ensures s[0] == t[0]
  {
    var x :| x in t && le(s[0], x) && le(x, s[0]);
    var y :| y in s && le(t[0], y) && le(y, t[0]);
    assert le(t[0], x) && le(s[0], y);
    assert Ties(le, s[0], s)[0] == s[0];
    assert Ties(le, s[0], t)[0] == t[0];
  }

  /** Sorting what is sorted changes nothing. */
  lemma SortOfSorted<T(!new)>(le: (T, T) -> bool, s: seq<T>)
    requires TotalPreorder(le) && Sorted(le, s)
    ensures Sort(le, s) == s
  {
    SortSorts(le, s);
    forall y
      ensures Ties(le, y, Sort(le, s)) == Ties(le, y, s)
    {
      SortStable(le, s, y);
    }
    StableSortUnique(le, Sort(le, s), s);
  }

  lemma TailMultiset<T>(s: seq<T>)
    requires s != []
    ensures multiset(s[1..]) == multiset(s) - multiset{s[0]}
  {
    assert s == [s[0]] + s[1..];
  }

  lemma LeastFirst<T(!new)>(le: (T, T) -> bool, s: seq<T>, t: seq<T>)
    requires Antisymmetric(le) && TotalPreorder(le) && Sorted(le, s) && Sorted(le, t)
    requires s != [] && t != [] && s[0] in t && t[0] in s
    ensures s[0] == t[0]
  {
    var i :| 0 <= i < |t| && t[i] == s[0];
    var j :| 0 <= j < |s| && s[j] == t[0];
    assert le(s[0], s[j]) && le(t[0], t[i]);
  }

  lemma SameSize<T>(s: seq<T>, t: seq<T>)
    requires multiset(s) == multiset(t)
    ensures |s| == |t|
    ensures s != [] ==> t != [] && s[0] in t && t[0] in s
  {
    assert |s| == |multiset(s)| == |multiset(t)| == |t|;
    if s != [] {
      assert s[0] in multiset(s) && t[0] in multiset(t);
    }
  }

  lemma TailSorted<T>(le: (T, T) -> bool, s: seq<T>)
    requires s != [] && Sorted(le, s)
    ensures Sorted(le, s[1..])
  {
  }

  /** For an order without ties, the sorted form depends on the elements only. */
  lemma {:induction false} SortedUnique<T(!new)>(le: (T, T) -> bool, s: seq<T>, t: seq<T>)
    requires TotalPreorder(le) && Antisymmetric(le)
    requires Sorted(le, s) && Sorted(le, t) && multiset(s) == multiset(t)
    ensures s == t
  {
    hide *;
    SameSize(s, t);
    if s != [] {
      LeastFirst(le, s, t);
      TailMultiset(s);
      TailMultiset(t);
      TailSorted(le, s);
      TailSorted(le, t);
      SortedUnique(le, s[1..], t[1..]);
      assert s == [s[0]] + s[1..] && t == [t[0]] + t[1..];
    }
  }

  lemma SortsAgree<T(!new)>(le: (T, T) -> bool, s: seq<T>, t: seq<T>)
    requires TotalPreorder(le) && Antisymmetric(le)
    ensures Sort(le, s) == Sort(le, t) <==> multiset(s) == multiset(t)
  {
    SortSorts(le, s);
    SortSorts(le, t);
    SortPermutes(le, s);
    SortPermutes(le, t);
    if multiset(s) == multiset(t) {
      SortedUnique(le, Sort(le, s), Sort(le, t));
    }
  }
}
