/**
 Python's `sorted(items, key=lambda x: x[1], reverse=True)` on (node, score)
 pairs: a stable sort by descending score.  Both solvers end with it.
 */
module Ranking {
  import opened Common

  type Entry = (Node, real)

  /** Scores never increase along the list. */
  ghost predicate NonIncreasing(s: seq<Entry>)
  {
    forall i, j :: 0 <= i < j < |s| ==> s[i].1 >= s[j].1
  }

  /** The entries of `s` whose score is `c`, in their order in `s`. */
  function WithScore(s: seq<Entry>, c: real): seq<Entry>
    decreases |s|
  {
    if |s| == 0 then []
    else (if s[0].1 == c then [s[0]] else []) + WithScore(s[1..], c)
  }

  /**
   Inserts `x` in front of the first entry whose score is not above
   `x`'s: `x` goes before every entry with an equal score.
   */
  function Insert(x: Entry, s: seq<Entry>): seq<Entry>
    decreases |s|
  {
    if |s| == 0 then [x]
    else if s[0].1 <= x.1 then [x] + s
    else [s[0]] + Insert(x, s[1..])
  }

  /** The stable descending sort, as an insertion sort from the back. */
  function SortByScoreDesc(s: seq<Entry>): seq<Entry>
    decreases |s|
  {
    if |s| == 0 then [] else Insert(s[0], SortByScoreDesc(s[1..]))
  }

  lemma {:induction false} InsertMultiset(x: Entry, s: seq<Entry>)
    ensures multiset(Insert(x, s)) == multiset(s) + multiset{x}
    decreases |s|
  {
    if |s| > 0 && s[0].1 > x.1 {
      InsertMultiset(x, s[1..]);
      assert s == [s[0]] + s[1..];
    }
  }

  lemma {:induction false} InsertNonIncreasing(x: Entry, s: seq<Entry>)
    requires NonIncreasing(s)
    ensures NonIncreasing(Insert(x, s))
    decreases |s|
  {
    if |s| > 0 && s[0].1 > x.1 {
      var t := s[1..];
      InsertNonIncreasing(x, t);
      InsertMultiset(x, t);
      var r := Insert(x, s);
      assert r == [s[0]] + Insert(x, t);
      forall j | 0 < j < |r| ensures s[0].1 >= r[j].1 {
        assert r[j] in multiset(Insert(x, t));
        if r[j] != x {
          assert r[j] in multiset(t);
          var k :| 0 <= k < |t| && t[k] == r[j];
          assert s[k + 1] == r[j];
        }
      }
    }
  }

  /** Inserting `x` adds it in front of the entries with its score and changes no other equal-score sublist. */
  lemma {:induction false} InsertWithScore(x: Entry, s: seq<Entry>, c: real)
    ensures WithScore(Insert(x, s), c) == (if x.1 == c then [x] else []) + WithScore(s, c)
    decreases |s|
  {
    if |s| == 0 {
    } else if s[0].1 <= x.1 {
      assert ([x] + s)[1..] == s;
    } else {
      var t := s[1..];
      InsertWithScore(x, t, c);
      var r := Insert(x, s);
      assert r[0] == s[0] && r[1..] == Insert(x, t);
      assert x.1 == c ==> s[0].1 != c;
    }
  }

  /**
   The ranked list: its scores never increase, it holds exactly the input
   entries, and entries with equal scores keep their input order.
   */
  lemma {:induction false} SortByScoreDescCorrect(s: seq<Entry>)
    ensures NonIncreasing(SortByScoreDesc(s))
    ensures multiset(SortByScoreDesc(s)) == multiset(s)
    ensures forall c :: WithScore(SortByScoreDesc(s), c) == WithScore(s, c)
    decreases |s|
  {
    if |s| > 0 {
      var t := SortByScoreDesc(s[1..]);
      SortByScoreDescCorrect(s[1..]);
      InsertNonIncreasing(s[0], t);
      InsertMultiset(s[0], t);
      forall c ensures WithScore(SortByScoreDesc(s), c) == WithScore(s, c) {
        InsertWithScore(s[0], t, c);
      }
      assert s == [s[0]] + s[1..];
    }
  }

  lemma {:induction false} WithScoreMembers(s: seq<Entry>, c: real, x: Entry)
    requires x in WithScore(s, c)
    ensures x in s && x.1 == c
    decreases |s|
  {
    if s[0].1 != c || x != s[0] {
      WithScoreMembers(s[1..], c, x);
    }
  }

  lemma HeadInWithScore(s: seq<Entry>)
    ensures |s| > 0 ==> s[0] in WithScore(s, s[0].1)
  {
  }

  /**
   A non-increasing list is determined by its equal-score sublists: so any
   stable descending sort of `s` (Python's `sorted(..., reverse=True)`
   among them) yields `SortByScoreDesc(s)`.
   */
  lemma {:induction false} StableSortUnique(a: seq<Entry>, b: seq<Entry>)
    requires NonIncreasing(a) && NonIncreasing(b)
    requires forall c :: WithScore(a, c) == WithScore(b, c)
    ensures a == b
    decreases |a|
  {
    if |a| == 0 {
      HeadInWithScore(b);
    } else {
      var x := a[0];
      HeadInWithScore(a);
      WithScoreMembers(b, x.1, x);
      var y := b[0];
      HeadInWithScore(b);
      WithScoreMembers(a, y.1, y);
      HeadIsMax(a, y);
      HeadIsMax(b, x);
      assert x == y by {
        assert WithScore(a, x.1)[0] == x;
        assert WithScore(b, x.1)[0] == y;
      }
      forall c ensures WithScore(a[1..], c) == WithScore(b[1..], c) {
        TailWithScore(a, c);
        TailWithScore(b, c);
      }
      StableSortUnique(a[1..], b[1..]);
      assert a == [x] + a[1..];
      assert b == [y] + b[1..];
    }
  }

  lemma HeadIsMax(s: seq<Entry>, x: Entry)
    requires NonIncreasing(s) && x in s
    ensures s[0].1 >= x.1
  {
    var k :| 0 <= k < |s| && s[k] == x;
  }

  lemma TailWithScore(s: seq<Entry>, c: real)
    requires |s| > 0
    ensures WithScore(s[1..], c) == WithScore(s, c)[(if s[0].1 == c then 1 else 0)..]
  {
  }

  /**
   `sorted(p.items(), key=lambda x: x[1], reverse=True)`: a vector's items
   sorted by descending score, equal scores keeping the vector's order.
   */
  function RankedList(p: Dict): seq<Entry>
  {
    SortByScoreDesc(p.Items())
  }

  /** The ranked list is non-increasing, a permutation of the items, and stable. */
  lemma RankedListCorrect(p: Dict)
    ensures NonIncreasing(RankedList(p))
    ensures multiset(RankedList(p)) == multiset(p.Items())
    ensures forall c :: WithScore(RankedList(p), c) == WithScore(p.Items(), c)
  {
    SortByScoreDescCorrect(p.Items());
  }
}
