/**
 * `scored_entries.sort(key=lambda x: x["score"], reverse=True)`: Python's
 * list sort is stable, so entries are ordered by score, highest first, and
 * entries with equal scores keep the order they were appended in. The sort
 * is modelled by a stable insertion sort; `SortIsUnique` shows that any
 * sequence ordered that way equals it, whatever algorithm produced it.
 */
module Ranking {
  import opened Records

  /** `{"score": total_score, "service": entry}`. */
  datatype Scored = Scored(score: real, service: Descriptor)

  predicate SortedDesc(s: seq<Scored>)
  {
    forall i, j :: 0 <= i < j < |s| ==> s[i].score >= s[j].score
  }

  /** The entries of `s` whose score is `v`, in their order in `s`. */
  function WithScore(s: seq<Scored>, v: real): seq<Scored>
  {
    if s == [] then []
    else (if s[0].score == v then [s[0]] else []) + WithScore(s[1..], v)
  }

  /** Places `x` before the first element whose score does not exceed its own. */
  function Insert(x: Scored, s: seq<Scored>): (r: seq<Scored>)
    ensures |r| == |s| + 1
    ensures multiset(r) == multiset(s) + multiset{x}
    ensures r[0] == x || (s != [] && r[0] == s[0])
  {
    if s == [] || x.score >= s[0].score then [x] + s
    else assert s == [s[0]] + s[1..]; [s[0]] + Insert(x, s[1..])
  }

  /** Stable sort by score, highest first. */
  function SortByScore(s: seq<Scored>): seq<Scored>
  {
    if s == [] then [] else Insert(s[0], SortByScore(s[1..]))
  }

  /** `[item["service"] for item in scored_entries]`. */
  function Services(s: seq<Scored>): (r: seq<Descriptor>)
    ensures |r| == |s|
    ensures forall i :: 0 <= i < |s| ==> r[i] == s[i].service
  {
    seq(|s|, i requires 0 <= i < |s| => s[i].service)
  }

  // ---------------------------------------------------------------------------

  lemma {:induction false} WithScoreAppend(a: seq<Scored>, b: seq<Scored>, v: real)
    ensures WithScore(a + b, v) == WithScore(a, v) + WithScore(b, v)
  {
    if a != [] {
      assert (a + b)[0] == a[0];
      assert (a + b)[1..] == a[1..] + b;
      WithScoreAppend(a[1..], b, v);
    } else {
      assert a + b == b;
    }
  }

  lemma {:induction false} WithScoreMembers(s: seq<Scored>, v: real)
    ensures forall x :: x in WithScore(s, v) ==> x in s && x.score == v
    ensures (exists x :: x in s && x.score == v) ==> WithScore(s, v) != []
  {
    if s != [] {
      WithScoreMembers(s[1..], v);
      if exists x :: x in s && x.score == v {
        var x :| x in s && x.score == v;
        if x != s[0] { assert x in s[1..]; }
      }
    }
  }

  lemma {:induction false} InsertSorted(x: Scored, s: seq<Scored>)
    requires SortedDesc(s)
    ensures SortedDesc(Insert(x, s))
  {
    if s != [] && x.score < s[0].score {
      InsertSorted(x, s[1..]);
      var t := Insert(x, s[1..]);
      assert t[0] == x || t[0] == s[1];
      assert forall k :: 0 <= k < |t| ==> t[k] in multiset(s[1..]) + multiset{x};
      forall k | 0 <= k < |t| ensures s[0].score >= t[k].score {
        assert t[k] in multiset(s[1..]) + multiset{x};
        if t[k] != x {
          assert t[k] in s[1..];
        }
      }
    }
  }

  /** Inserting `x` puts it ahead of every other entry of score `v` when its own
    * score is `v`, and leaves the entries of score `v` in place otherwise. */
  lemma {:induction false} InsertWithScore(x: Scored, s: seq<Scored>, v: real)
    ensures WithScore(Insert(x, s), v) == (if x.score == v then [x] else []) + WithScore(s, v)
  {
    if s == [] || x.score >= s[0].score {
      assert ([x] + s)[1..] == s;
    } else {
      InsertWithScore(x, s[1..], v);
      assert ([s[0]] + Insert(x, s[1..]))[1..] == Insert(x, s[1..]);
    }
  }

  /** The sort orders by score, highest first. */
  lemma {:induction false} SortSorted(s: seq<Scored>)
    ensures SortedDesc(SortByScore(s))
  {
    if s != [] {
      SortSorted(s[1..]);
      InsertSorted(s[0], SortByScore(s[1..]));
    }
  }

  /** The sort is a permutation of its input. */
  lemma {:induction false} SortPermutes(s: seq<Scored>)
    ensures multiset(SortByScore(s)) == multiset(s)
  {
    if s != [] {
      SortPermutes(s[1..]);
      assert s == [s[0]] + s[1..];
    }
  }

  /** The sort is stable: entries with equal score keep their relative order. */
  lemma {:induction false} SortStable(s: seq<Scored>, v: real)
    ensures WithScore(SortByScore(s), v) == WithScore(s, v)
  {
    if s != [] {
      SortStable(s[1..], v);
      InsertWithScore(s[0], SortByScore(s[1..]), v);
    }
  }

  lemma SortedHeadIsMax(s: seq<Scored>, x: Scored)
    requires SortedDesc(s) && x in s
    ensures s[0].score >= x.score
  {
    var i :| 0 <= i < |s| && s[i] == x;
    if i > 0 { assert s[0].score >= s[i].score; }
  }

  /** Sorted sequences with the same score groups start with the same entry. */
  lemma SameHead(t: seq<Scored>, u: seq<Scored>)
    requires SortedDesc(t) && SortedDesc(u) && t != [] && u != []
    requires forall v :: WithScore(t, v) == WithScore(u, v)
    ensures t[0] == u[0]
  {
    var a, b := t[0].score, u[0].score;
    WithScoreMembers(t, a);
    WithScoreMembers(u, b);
    assert WithScore(t, a) == WithScore(u, a);
    assert WithScore(t, b) == WithScore(u, b);
    WithScoreMembers(u, a);
    WithScoreMembers(t, b);
    SortedHeadIsMax(u, WithScore(u, a)[0]);
    SortedHeadIsMax(t, WithScore(t, b)[0]);
    assert a == b;
    assert WithScore(t, a)[0] == t[0];
    assert WithScore(u, a)[0] == u[0];
  }

  lemma SameTailGroups(t: seq<Scored>, u: seq<Scored>)
    requires t != [] && u != [] && t[0] == u[0]
    requires forall v :: WithScore(t, v) == WithScore(u, v)
    ensures forall v :: WithScore(t[1..], v) == WithScore(u[1..], v)
  {
    forall v ensures WithScore(t[1..], v) == WithScore(u[1..], v) {
      var p := if t[0].score == v then [t[0]] else [];
      assert WithScore(t, v) == p + WithScore(t[1..], v);
      assert WithScore(u, v) == p + WithScore(u[1..], v);
      assert WithScore(t[1..], v) == (p + WithScore(t[1..], v))[|p|..];
      assert WithScore(u[1..], v) == (p + WithScore(u[1..], v))[|p|..];
    }
  }

  /** Two score-ordered sequences that agree on the order of every group of
    * equal scores are the same sequence. */
  lemma {:induction false} SortedGroupsDetermine(t: seq<Scored>, u: seq<Scored>)
    requires SortedDesc(t) && SortedDesc(u)
    requires forall v :: WithScore(t, v) == WithScore(u, v)
    ensures t == u
    decreases |t|
  {
    if t == [] {
      if u != [] {
        WithScoreMembers(u, u[0].score);
      }
    } else if u == [] {
      WithScoreMembers(t, t[0].score);
    } else {
      SameHead(t, u);
      SameTailGroups(t, u);
      SortedGroupsDetermine(t[1..], u[1..]);
      assert t == [t[0]] + t[1..];
      assert u == [u[0]] + u[1..];
    }
  }

  /** Any score-ordered arrangement of `s` that keeps each group of equal
    * scores in its original order is exactly `SortByScore(s)`: the result of
    * a stable descending sort does not depend on the sorting algorithm. */
  lemma SortIsUnique(s: seq<Scored>, t: seq<Scored>)
    requires SortedDesc(t)
    requires forall v :: WithScore(t, v) == WithScore(s, v)
    ensures t == SortByScore(s)
  {
    SortSorted(s);
    forall v ensures WithScore(t, v) == WithScore(SortByScore(s), v) {
      SortStable(s, v);
    }
    SortedGroupsDetermine(t, SortByScore(s));
  }
}
