/**
  `Array.prototype.join` with a one-unit separator, when the parts can be told from the text, and texts within texts.
 */
module Delimited {

  function Join<T>(sep: T, parts: seq<seq<T>>): seq<T> {
    if parts == [] then [] else if |parts| == 1 then parts[0] else parts[0] + [sep] + Join(sep, parts[1..])
  }

  lemma JoinOfThree<T>(sep: T, a: seq<T>, b: seq<T>, c: seq<T>)
    ensures Join(sep, [a, b, c]) == a + [sep] + (b + [sep] + c)
  {
    assert [a, b, c][1..] == [b, c] && [b, c][1..] == [c];
    assert Join(sep, [c]) == c && Join(sep, [b, c]) == b + [sep] + Join(sep, [c]);
  }

  /** The length of the text before the first separator. */
  function Before<T(==)>(sep: T, s: seq<T>): (n: nat)
    ensures n <= |s|
  {
    if s == [] || s[0] == sep then 0 else 1 + Before(sep, s[1..])
  }

  function Split<T(==)>(sep: T, s: seq<T>): (parts: seq<seq<T>>)
    ensures parts != []
    decreases |s|
  {
    var n := Before(sep, s);
    if n == |s| then [s] else [s[..n]] + Split(sep, s[n + 1..])
  }

  predicate FreeOf<T(==)>(sep: T, parts: seq<seq<T>>) {
    forall i :: 0 <= i < |parts| ==> sep !in parts[i]
  }

  lemma {:induction false} BeforeSeparator<T>(sep: T, a: seq<T>, rest: seq<T>)
    requires sep !in a
    ensures Before(sep, a) == |a| && Before(sep, a + [sep] + rest) == |a|
  {
    if a == [] {
      assert a + [sep] + rest == [sep] + rest;
    } else {
      BeforeSeparator(sep, a[1..], rest);
      assert (a + [sep] + rest)[1..] == a[1..] + [sep] + rest;
    }
  }

  /** Splitting inverts joining when no part holds the separator. */
  lemma {:induction false} SplitOfJoin<T>(sep: T, parts: seq<seq<T>>)
    requires parts != [] && FreeOf(sep, parts)
    ensures Split(sep, Join(sep, parts)) == parts
  {
    var a := parts[0];
    assert sep !in a;
    if |parts| == 1 {
      BeforeSeparator(sep, a, []);
    } else {
      var rest := Join(sep, parts[1..]);
      BeforeSeparator(sep, a, rest);
      SplitOfJoin(sep, parts[1..]);
      var s := a + [sep] + rest;
      assert s[..|a|] == a && s[|a| + 1..] == rest;
      assert parts == [a] + parts[1..];
    }
  }

  lemma JoinInjective<T>(sep: T, xs: seq<seq<T>>, ys: seq<seq<T>>)
    requires xs != [] && ys != [] && FreeOf(sep, xs) && FreeOf(sep, ys)
    ensures Join(sep, xs) == Join(sep, ys) <==> xs == ys
  {
    SplitOfJoin(sep, xs);
    SplitOfJoin(sep, ys);
  }

  // ---- texts within texts ----

  predicate Contains<T(==)>(s: seq<T>, word: seq<T>) {
    word <= s || (s != [] && Contains(s[1..], word))
  }

  lemma {:induction false} ContainsAt<T>(s: seq<T>, word: seq<T>, i: nat)
    requires i <= |s| && word <= s[i..]
    ensures Contains(s, word)
  {
    if i > 0 {
      assert s[1..][i - 1..] == s[i..];
      ContainsAt(s[1..], word, i - 1);
    } else {
      assert s[0..] == s;
    }
  }

  lemma {:induction false} ContainsFits<T>(s: seq<T>, word: seq<T>)
    requires Contains(s, word)
    ensures |word| <= |s|
  {
    if !(word <= s) {
      ContainsFits(s[1..], word);
    }
  }

  lemma {:induction false} ContainsSplit<T>(s: seq<T>, word: seq<T>) returns (a: seq<T>, b: seq<T>)
    requires Contains(s, word)
    ensures s == a + word + b
  {
    if word <= s {
      a, b := [], s[|word|..];
    } else {
      a, b := ContainsSplit(s[1..], word);
      a := [s[0]] + a;
    }
  }

  lemma HoldsFirst<T>(a: seq<T>, mark: seq<T>, b: seq<T>)
    requires mark != []
    ensures mark[0] in a + mark + b
  {
    assert (a + mark + b)[|a|] == mark[0];
  }

  lemma HoldsNoMark<T>(s: seq<T>, mark: seq<T>)
    requires mark != [] && mark[0] !in s
    ensures !Contains(s, mark)
  {
    if Contains(s, mark) {
      var a, b := ContainsSplit(s, mark);
      HoldsFirst(a, mark, b);
    }
  }

  /**
    A mark that begins with a character found nowhere else in it, between two parts that do not hold the mark, says
    where the first part ends.
   */
  lemma MarkSplits<T>(u: seq<T>, v: seq<T>, mark: seq<T>, x: seq<T>, y: seq<T>)
    requires mark != [] && mark[0] !in mark[1..]
    requires u + mark + x == v + mark + y && !Contains(u, mark) && !Contains(v, mark)
    ensures u == v && x == y
  {
    if |u| < |v| {
      MarkNotInside(u, v, mark, x, y);
    } else if |v| < |u| {
      MarkNotInside(v, u, mark, y, x);
    } else {
      var s, t := u + mark + x, v + mark + y;
      assert s[..|u|] == u && t[..|v|] == v && s[|u| + |mark|..] == x && t[|v| + |mark|..] == y;
    }
  }

  /** If the first part of one text is longer than that of an equal one, it holds the mark. */
  lemma MarkNotInside<T>(u: seq<T>, v: seq<T>, mark: seq<T>, x: seq<T>, y: seq<T>)
    requires mark != [] && mark[0] !in mark[1..]
    requires u + mark + x == v + mark + y && |u| < |v|
    ensures |u| + |mark| <= |v| && v[..|u| + |mark|] == u + mark
    ensures Contains(v, mark)
  {
    var s, n := u + mark + x, |u|;
    assert s == v + mark + y;
    assert s[|v|] == mark[0];
    assert forall k :: 0 <= k < |mark| ==> s[n + k] == mark[k];
    assert forall k :: 0 < k < |mark| ==> mark[k] == mark[1..][k - 1];
    assert s[..|v|] == v && s[..n + |mark|] == u + mark;
    assert v[n..n + |mark|] == mark;
    assert mark <= v[n..];
    ContainsAt(v, mark, n);
  }

  // ---- joined parts with known beginnings ----

  /** Part `i` is `tags[i] + texts[i]`. */
  function Tagged<T>(tags: seq<seq<T>>, texts: seq<seq<T>>): (parts: seq<seq<T>>)
    requires |tags| == |texts|
    ensures |parts| == |tags| && forall i :: 0 <= i < |tags| ==> parts[i] == tags[i] + texts[i]
  {
    seq(|tags|, i requires 0 <= i < |tags| => tags[i] + texts[i])
  }

  /** What reads as the end of text `i`: the separator and the next beginning. */
  function EndMark<T>(sep: T, tags: seq<seq<T>>, i: nat): seq<T>
    requires i + 1 < |tags|
  {
    [sep] + tags[i + 1]
  }

  /** No text but the last holds what reads as its end. */
  predicate EndsOnce<T(==)>(sep: T, tags: seq<seq<T>>, texts: seq<seq<T>>) {
    && |tags| == |texts|
    && forall i: nat :: i + 1 < |tags| ==> !Contains(texts[i], EndMark(sep, tags, i))
  }

  predicate TagsFree<T(==)>(sep: T, tags: seq<seq<T>>) {
    forall i :: 0 < i < |tags| ==> sep !in tags[i]
  }

  lemma JoinBegins<T>(sep: T, a: seq<T>, b: seq<T>, parts: seq<seq<T>>) returns (rest: seq<T>)
    requires parts != [] && parts[0] == a + b
    ensures Join(sep, parts) == a + rest
  {
    var more := if |parts| == 1 then [] else [sep] + Join(sep, parts[1..]);
    rest := b + more;
    assert a + b + more == a + (b + more);
    assert |parts| > 1 ==> parts[0] + [sep] + Join(sep, parts[1..]) == parts[0] + more;
    assert |parts| == 1 ==> parts[0] + more == parts[0];
  }

  lemma JoinOfTagged<T>(sep: T, tags: seq<seq<T>>, texts: seq<seq<T>>) returns (rest: seq<T>)
    requires |tags| == |texts| > 1
    ensures Join(sep, Tagged(tags[1..], texts[1..])) == tags[1] + rest
    ensures Join(sep, Tagged(tags, texts)) == tags[0] + (texts[0] + EndMark(sep, tags, 0) + rest)
  {
    assert Tagged(tags[1..], texts[1..]) == Tagged(tags, texts)[1..];
    rest := JoinBegins(sep, tags[1], texts[1], Tagged(tags[1..], texts[1..]));
    ReassociateFive(tags[0], texts[0], sep, tags[1], rest);
  }

  lemma ReassociateFive<T>(a: seq<T>, b: seq<T>, sep: T, d: seq<T>, e: seq<T>)
    ensures a + b + [sep] + (d + e) == a + (b + ([sep] + d) + e)
  {
  }

  lemma CancelPrefix<T>(p: seq<T>, a: seq<T>, b: seq<T>)
    ensures p + a == p + b <==> a == b
  {
    assert (p + a)[|p|..] == a && (p + b)[|p|..] == b;
  }

  /** Then joining tells the texts apart. */
  lemma {:induction false} TaggedInjective<T>(sep: T, tags: seq<seq<T>>, texts: seq<seq<T>>, texts': seq<seq<T>>)
    requires tags != [] && TagsFree(sep, tags) && EndsOnce(sep, tags, texts) && EndsOnce(sep, tags, texts')
    ensures Join(sep, Tagged(tags, texts)) == Join(sep, Tagged(tags, texts')) <==> texts == texts'
  {
    if Join(sep, Tagged(tags, texts)) == Join(sep, Tagged(tags, texts')) {
      if |tags| == 1 {
        CancelPrefix(tags[0], texts[0], texts'[0]);
      } else {
        var mark := EndMark(sep, tags, 0);
        var rest := JoinOfTagged(sep, tags, texts);
        var rest' := JoinOfTagged(sep, tags, texts');
        CancelPrefix(tags[0], texts[0] + mark + rest, texts'[0] + mark + rest');
        assert mark[1..] == tags[1];
        MarkSplits(texts[0], texts'[0], mark, rest, rest');
        EndsOnceTail(sep, tags, texts);
        EndsOnceTail(sep, tags, texts');
        TaggedInjective(sep, tags[1..], texts[1..], texts'[1..]);
        assert texts == [texts[0]] + texts[1..] && texts' == [texts'[0]] + texts'[1..];
      }
    }
    hide Join, Tagged, EndMark, Contains, EndsOnce;
  }

  lemma EndsOnceTail<T>(sep: T, tags: seq<seq<T>>, texts: seq<seq<T>>)
    requires |tags| > 1 && EndsOnce(sep, tags, texts)
    ensures EndsOnce(sep, tags[1..], texts[1..])
  {
    forall i: nat | i + 1 < |tags[1..]|
      ensures !Contains(texts[1..][i], EndMark(sep, tags[1..], i))
    {
      assert EndMark(sep, tags[1..], i) == EndMark(sep, tags, i + 1) && texts[1..][i] == texts[i + 1];
    }
    hide Contains;
  }

  /** A text that holds its end can give what follows to the next one: other texts join to the same. */
  lemma {:induction false} EndMoves<T>(sep: T, tags: seq<seq<T>>, texts: seq<seq<T>>, i: nat, a: seq<T>, b: seq<T>)
    returns (texts': seq<seq<T>>)
    requires |tags| == |texts| && i + 1 < |tags| && texts[i] == a + EndMark(sep, tags, i) + b
    ensures texts' == texts[i := a][i + 1 := b + EndMark(sep, tags, i) + texts[i + 1]] && texts' != texts
    ensures Join(sep, Tagged(tags, texts')) == Join(sep, Tagged(tags, texts))
  {
    var mark := EndMark(sep, tags, i);
    texts' := texts[i := a][i + 1 := b + mark + texts[i + 1]];
    assert |texts'[i]| < |texts[i]|;
    var parts, parts' := Tagged(tags, texts), Tagged(tags, texts');
    assert parts' == parts[..i] + [tags[i] + a, tags[i + 1] + (b + mark + texts[i + 1])] + parts[i + 2..];
    assert parts == parts[..i] + [tags[i] + texts[i], tags[i + 1] + texts[i + 1]] + parts[i + 2..];
    MovedText(sep, tags[i], a, tags[i + 1], b, texts[i + 1]);
    SamePairJoins(sep, parts[..i], tags[i] + a, tags[i + 1] + (b + mark + texts[i + 1]),
                  tags[i] + texts[i], tags[i + 1] + texts[i + 1], parts[i + 2..]);
  }

  lemma MovedText<T>(sep: T, p: seq<T>, a: seq<T>, q: seq<T>, b: seq<T>, c: seq<T>)
    ensures (p + a) + [sep] + (q + (b + ([sep] + q) + c)) == (p + (a + ([sep] + q) + b)) + [sep] + (q + c)
  {
  }

  /** Two neighbours may be exchanged for two others that join to the same. */
  lemma {:induction false} SamePairJoins<T>(sep: T, before: seq<seq<T>>, x: seq<T>, y: seq<T>, x': seq<T>, y': seq<T>,
                                            after: seq<seq<T>>)
    requires x + [sep] + y == x' + [sep] + y'
    ensures Join(sep, before + [x, y] + after) == Join(sep, before + [x', y'] + after)
  {
    if before == [] {
      assert [] + [x, y] + after == [x] + ([y] + after) && [] + [x', y'] + after == [x'] + ([y'] + after);
      assert ([y] + after)[1..] == after && ([y'] + after)[1..] == after;
      assert ([x] + ([y] + after))[1..] == [y] + after && ([x'] + ([y'] + after))[1..] == [y'] + after;
      if after != [] {
        var tail := [sep] + Join(sep, after);
        assert Join(sep, [y] + after) == y + [sep] + Join(sep, after) == y + tail;
        assert Join(sep, [y'] + after) == y' + [sep] + Join(sep, after) == y' + tail;
        assert x + [sep] + (y + tail) == (x + [sep] + y) + tail;
        assert x' + [sep] + (y' + tail) == (x' + [sep] + y') + tail;
      }
    } else {
      SamePairJoins(sep, before[1..], x, y, x', y', after);
      assert (before + [x, y] + after)[1..] == before[1..] + [x, y] + after;
      assert (before + [x', y'] + after)[1..] == before[1..] + [x', y'] + after;
    }
  }
}
