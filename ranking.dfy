/**
 Ranking of (title, score) pairs the way Python's
 `sorted(pairs, key=lambda x: x[1], reverse=True)` ranks them: by score,
 highest first, and stably, so that pairs with equal scores keep the order
 they had before the sort.
 */
module Ranking {
  import opened PySeq

  type Title = string

  /** One entry of the combined list: a catalog title and its hybrid score. */
  datatype Scored = Scored(title: Title, score: real)

  /** Scores never increase from one entry to the next. */
  ghost predicate Descending(s: seq<Scored>)
  {
    forall i, j :: 0 <= i < j < |s| ==> s[i].score >= s[j].score
  }

  /** The entries of `s` whose score is `k`, in the order `s` has them. */
  function WithScore(s: seq<Scored>, k: real): seq<Scored>
  {
    if s == [] then []
    else (if s[0].score == k then [s[0]] else []) + WithScore(s[1..], k)
  }

  /** The filter keeps exactly the entries of `s` with score `k`. */
  lemma {:induction false} WithScoreMembers(s: seq<Scored>, k: real)
    ensures forall x :: x in WithScore(s, k) <==> x in s && x.score == k
  {
    if s != [] {
      WithScoreMembers(s[1..], k);
      assert s == [s[0]] + s[1..];
    }
  }

  /** Places `x` in front of the first entry whose score does not exceed its own. */
  function Insert(x: Scored, s: seq<Scored>): seq<Scored>
  {
    if s == [] then [x]
    else if x.score >= s[0].score then [x] + s
    else [s[0]] + Insert(x, s[1..])
  }

  lemma {:induction false} InsertPermutes(x: Scored, s: seq<Scored>)
    ensures multiset(Insert(x, s)) == multiset(s) + multiset{x}
  {
    if s == [] {
    } else if x.score >= s[0].score {
      assert Insert(x, s) == [x] + s;
      assert multiset([x] + s) == multiset{x} + multiset(s);
    } else {
      var rest := Insert(x, s[1..]);
      InsertPermutes(x, s[1..]);
      assert Insert(x, s) == [s[0]] + rest;
      assert multiset([s[0]] + rest) == multiset{s[0]} + multiset(rest);
      assert s == [s[0]] + s[1..];
      assert multiset(s) == multiset{s[0]} + multiset(s[1..]);
    }
  }

  lemma {:induction false} InsertDescending(x: Scored, s: seq<Scored>)
    requires Descending(s)
    ensures Descending(Insert(x, s))
  {
    if s == [] {
    } else if x.score >= s[0].score {
      assert forall j :: 0 <= j < |s| ==> s[0].score >= s[j].score;
    } else {
      var rest := Insert(x, s[1..]);
      InsertDescending(x, s[1..]);
      InsertPermutes(x, s[1..]);
      forall j | 0 <= j < |rest| ensures s[0].score >= rest[j].score {
        assert rest[j] in multiset(rest);
        assert rest[j] == x || rest[j] in multiset(s[1..]);
        if rest[j] != x {
          assert rest[j] in s[1..];
        }
      }
      assert Insert(x, s) == [s[0]] + rest;
    }
  }

  /** Python's stable descending sort by score (insertion sort from the back). */
  function SortByScore(s: seq<Scored>): (r: seq<Scored>)
    ensures Descending(r)
    ensures multiset(r) == multiset(s)
    ensures |r| == |s|
  {
    if s == [] then []
    else
      assert s == [s[0]] + s[1..];
      var rest := SortByScore(s[1..]);
      InsertDescending(s[0], rest);
      InsertPermutes(s[0], rest);
      Insert(s[0], rest)
  }

  /** Sorting neither adds nor loses entries. */
  lemma SortByScoreMembers(s: seq<Scored>)
    ensures forall x :: x in SortByScore(s) <==> x in s
  {
    forall x ensures x in SortByScore(s) <==> x in s {
      assert x in SortByScore(s) <==> x in multiset(SortByScore(s));
      assert x in s <==> x in multiset(s);
    }
  }

  lemma WithScoreCons(y: Scored, s: seq<Scored>, k: real)
    ensures y.score == k ==> WithScore([y] + s, k) == [y] + WithScore(s, k)
    ensures y.score != k ==> WithScore([y] + s, k) == WithScore(s, k)
  {
  }

  lemma {:induction false} InsertWithScore(x: Scored, s: seq<Scored>, k: real)
    ensures x.score == k ==> WithScore(Insert(x, s), k) == [x] + WithScore(s, k)
    ensures x.score != k ==> WithScore(Insert(x, s), k) == WithScore(s, k)
  {
    if s == [] {
      WithScoreCons(x, [], k);
    } else if x.score >= s[0].score {
      assert Insert(x, s) == [x] + s;
      WithScoreCons(x, s, k);
    } else {
      var rest := Insert(x, s[1..]);
      assert Insert(x, s) == [s[0]] + rest;
      InsertWithScore(x, s[1..], k);
      WithScoreCons(s[0], rest, k);
      if x.score == k {
        assert s[0].score != k;
        assert WithScore(s, k) == WithScore(s[1..], k);
      } else if s[0].score == k {
        assert WithScore(s, k) == [s[0]] + WithScore(s[1..], k);
      } else {
        assert WithScore(s, k) == WithScore(s[1..], k);
      }
    }
  }

  /** Stability: for every score, the entries holding that score appear in
      the sorted list in exactly the order they had in the input. */
  lemma {:induction false} SortByScoreStable(s: seq<Scored>, k: real)
    ensures WithScore(SortByScore(s), k) == WithScore(s, k)
  {
    if s != [] {
      SortByScoreStable(s[1..], k);
      InsertWithScore(s[0], SortByScore(s[1..]), k);
      if s[0].score == k {
        assert WithScore(s, k) == [s[0]] + WithScore(s[1..], k);
      } else {
        assert WithScore(s, k) == WithScore(s[1..], k);
      }
    }
  }

  /** A descending list and its per-score subsequences determine each other:
      any list that is descending and has the same entries per score as `s`
      is the sorted list. */
  lemma {:induction false} SortByScoreUnique(s: seq<Scored>, t: seq<Scored>)
    requires Descending(t)
    requires forall k :: WithScore(t, k) == WithScore(s, k)
    ensures t == SortByScore(s)
  {
    forall k ensures WithScore(t, k) == WithScore(SortByScore(s), k) {
      SortByScoreStable(s, k);
    }
    DescendingDetermined(t, SortByScore(s));
  }

  lemma HeadHasScore(s: seq<Scored>)
    ensures s != [] ==> WithScore(s, s[0].score) != []
  {
  }

  lemma {:induction false} DescendingDetermined(t: seq<Scored>, u: seq<Scored>)
    requires Descending(t) && Descending(u)
    requires forall k :: WithScore(t, k) == WithScore(u, k)
    ensures t == u
    decreases |t|
  {
    if t == [] || u == [] {
      HeadHasScore(t);
      HeadHasScore(u);
    } else {
      var m := t[0].score;
      WithScoreMembers(t, m);
      WithScoreMembers(u, m);
      WithScoreMembers(t, u[0].score);
      WithScoreMembers(u, u[0].score);
      assert t[0] in WithScore(u, m);
      assert u[0] in WithScore(t, u[0].score);
      assert u[0].score == m;
      assert WithScore(t, m)[0] == t[0];
      assert WithScore(u, m)[0] == u[0];
      assert t[0] == u[0];
      forall k ensures WithScore(t[1..], k) == WithScore(u[1..], k) {
        assert WithScore(t, k) == (if t[0].score == k then [t[0]] else []) + WithScore(t[1..], k);
        assert WithScore(u, k) == (if u[0].score == k then [u[0]] else []) + WithScore(u[1..], k);
        var p := if t[0].score == k then [t[0]] else [];
        assert WithScore(t[1..], k) == WithScore(t, k)[|p|..];
        assert WithScore(u[1..], k) == WithScore(u, k)[|p|..];
      }
      DescendingDetermined(t[1..], u[1..]);
      assert t == [t[0]] + t[1..];
      assert u == [u[0]] + u[1..];
    }
  }

  /** An entry whose score beats every other entry's takes rank 0. */
  lemma StrictBestRanksFirst(s: seq<Scored>, m: nat)
    requires m < |s|
    requires forall j :: 0 <= j < |s| && j != m ==> s[j].score < s[m].score
    ensures SortByScore(s)[0] == s[m]
  {
    var r := SortByScore(s);
    SortByScoreMembers(s);
    assert r[0] in s;
    var j0 :| 0 <= j0 < |s| && s[j0] == r[0];
    assert s[m] in r;
    var p :| 0 <= p < |r| && r[p] == s[m];
    assert r[0].score >= r[p].score;
  }

  /** No two entries share a title. */
  predicate UniqueTitles(s: seq<Scored>)
  {
    forall i, j :: 0 <= i < j < |s| ==> s[i].title != s[j].title
  }

  /** Sorting does not make two ranks carry the same title. */
  lemma SortByScoreKeepsTitlesUnique(s: seq<Scored>)
    requires UniqueTitles(s)
    ensures UniqueTitles(SortByScore(s))
  {
    var r := SortByScore(s);
    SortByScoreMembers(s);
    forall i, j | 0 <= i < j < |r| ensures r[i].title != r[j].title {
      if r[i].title == r[j].title {
        assert r[i] in s && r[j] in s;
        var a :| 0 <= a < |s| && s[a] == r[i];
        var b :| 0 <= b < |s| && s[b] == r[j];
        assert a == b;
        TwoOccurrences(r, i, j);
        SingleOccurrence(s, r[i]);
        assert false;
      }
    }
  }
}
