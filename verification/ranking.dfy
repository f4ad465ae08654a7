/** Nearest neighbours of a movie from its row of the similarity matrix
    (app.py:35-37): the row is enumerated into (index, similarity) entries,
    stable-sorted by similarity in descending order, and the entries at sorted
    positions 1 to 5 are kept. How the similarities are computed (TF-IDF and
    cosine similarity) is outside the model; the row is an input. */
module Ranking {

  /** One `(index, similarity)` pair of `enumerate(row)`. */
  datatype Entry = Entry(index: nat, sim: real)

  function Min(a: int, b: int): int
  {
    if a <= b then a else b
  }

  /** `list(enumerate(row))`. */
  function Enumerate(row: seq<real>): (r: seq<Entry>)
    ensures |r| == |row|
    ensures forall i :: 0 <= i < |row| ==> r[i] == Entry(i, row[i])
  {
    seq(|row|, i requires 0 <= i < |row| => Entry(i, row[i]))
  }

  /** The entry of movie `j` in `row`. */
  function At(row: seq<real>, j: nat): Entry
    requires j < |row|
  {
    Entry(j, row[j])
  }

  /** `a` precedes `b` in a stable descending sort of enumerated entries: a
      higher similarity first, and on equal similarity the lower index. */
  predicate Before(a: Entry, b: Entry)
  {
    a.sim > b.sim || (a.sim == b.sim && a.index < b.index)
  }

  /** Similarities never increase along `s`. */
  predicate Descending(s: seq<Entry>)
  {
    forall i, j :: 0 <= i < j < |s| ==> s[i].sim >= s[j].sim
  }

  /** Every pair of `s` is in `Before` order. */
  predicate InOrder(s: seq<Entry>)
  {
    forall i, j :: 0 <= i < j < |s| ==> Before(s[i], s[j])
  }

  /** Indices strictly increase along `s`, as they do in `enumerate`. */
  predicate IndicesIncrease(s: seq<Entry>)
  {
    forall i, j :: 0 <= i < j < |s| ==> s[i].index < s[j].index
  }

  /** Every entry of `s` carries its movie's similarity from `row`. */
  predicate FromRow(s: seq<Entry>, row: seq<real>)
  {
    forall k :: 0 <= k < |s| ==> s[k].index < |row| && s[k].sim == row[s[k].index]
  }

  /** Places `x` in front of the first entry whose similarity does not exceed
      its own. */
  function InsertDesc(x: Entry, s: seq<Entry>): (r: seq<Entry>)
    ensures multiset(r) == multiset(s) + multiset{x}
  {
    if |s| == 0 || x.sim >= s[0].sim then [x] + s
    else
      assert s == [s[0]] + s[1..];
      [s[0]] + InsertDesc(x, s[1..])
  }

  lemma {:induction false} InsertKeepsDescending(x: Entry, s: seq<Entry>)
    requires Descending(s)
    ensures Descending(InsertDesc(x, s))
  {
    if |s| > 0 && x.sim < s[0].sim {
      var t := InsertDesc(x, s[1..]);
      InsertKeepsDescending(x, s[1..]);
      forall k | 0 <= k < |t|
        ensures s[0].sim >= t[k].sim
      {
        assert t[k] in multiset(t);
        assert t[k] == x || t[k] in s[1..];
      }
    }
  }

  /** `sorted(s, key=sim, reverse=True)`: a permutation of `s` with
      non-increasing similarities. */
  function SortDesc(s: seq<Entry>): (r: seq<Entry>)
    ensures multiset(r) == multiset(s)
    ensures Descending(r)
  {
    if |s| == 0 then []
    else
      assert s == [s[0]] + s[1..];
      InsertKeepsDescending(s[0], SortDesc(s[1..]));
      InsertDesc(s[0], SortDesc(s[1..]))
  }

  lemma {:induction false} InsertKeepsOrder(x: Entry, t: seq<Entry>)
    requires InOrder(t)
    requires forall y :: y in t ==> x.index < y.index
    ensures InOrder(InsertDesc(x, t))
  {
    if |t| > 0 && x.sim < t[0].sim {
      var u := InsertDesc(x, t[1..]);
      InsertKeepsOrder(x, t[1..]);
      forall k | 0 <= k < |u|
        ensures Before(t[0], u[k])
      {
        assert u[k] in multiset(u);
        assert u[k] == x || u[k] in t[1..];
      }
    }
  }

  /** The sort is stable: entries with equal similarity keep their original
      order, so on enumerated entries ties go to the lower index. */
  lemma {:induction false} SortIsStable(s: seq<Entry>)
    requires IndicesIncrease(s)
    ensures InOrder(SortDesc(s))
  {
    if |s| > 0 {
      SortIsStable(s[1..]);
      HeadAheadOfSortedTail(s);
      assert s == [s[0]] + s[1..];
      InsertKeepsOrder(s[0], SortDesc(s[1..]));
    }
  }

  /** Sorting the tail of an index-increasing sequence keeps every entry
      behind the head's index. */
  lemma HeadAheadOfSortedTail(s: seq<Entry>)
    requires |s| > 0 && IndicesIncrease(s)
    ensures forall y :: y in SortDesc(s[1..]) ==> s[0].index < y.index
  {
    var t := SortDesc(s[1..]);
    forall y | y in t
      ensures s[0].index < y.index
    {
      assert y in multiset(t);
      assert y in multiset(s[1..]);
    }
  }

  /** `sorted(list(enumerate(row)), reverse=True, key=lambda x: x[1])`. */
  function Ranked(row: seq<real>): (r: seq<Entry>)
    ensures |r| == |row|
    ensures multiset(r) == multiset(Enumerate(row))
    ensures Descending(r)
  {
    var e := Enumerate(row);
    var r := SortDesc(e);
    assert |r| == |multiset(r)| == |multiset(e)| == |e|;
    r
  }

  /** The ranking lists every movie of the row exactly once, best first. */
  lemma RankedFacts(row: seq<real>)
    ensures |Ranked(row)| == |row|
    ensures InOrder(Ranked(row))
    ensures FromRow(Ranked(row), row)
    ensures forall j :: 0 <= j < |row| ==> At(row, j) in Ranked(row)
  {
    var e := Enumerate(row);
    var rk := Ranked(row);
    SortIsStable(e);
    forall k | 0 <= k < |rk|
      ensures rk[k].index < |row| && rk[k].sim == row[rk[k].index]
    {
      assert rk[k] in multiset(e);
    }
    forall j | 0 <= j < |row|
      ensures At(row, j) in rk
    {
      assert e[j] in multiset(rk);
    }
  }

  /** Entries taken from one row in `Before` order have distinct indices. */
  lemma OrderedIndicesDistinct(s: seq<Entry>, row: seq<real>)
    requires InOrder(s) && FromRow(s, row)
    ensures forall i, j :: 0 <= i < j < |s| ==> s[i].index != s[j].index
  {
  }

  function Indices(s: seq<Entry>): (r: seq<nat>)
    ensures |r| == |s|
    ensures forall k :: 0 <= k < |s| ==> r[k] == s[k].index
  {
    seq(|s|, k requires 0 <= k < |s| => s[k].index)
  }

  /** The movie in sorted position 0: the best entry of the row. */
  function Top(row: seq<real>): (t: nat)
    requires |row| > 0
  {
    RankedFacts(row);
    Ranked(row)[0].index
  }

  /** The neighbours `recommend` picks as written: the indices at sorted
      positions 1 to 5 (`[1:6]`), whichever movie sits at position 0. */
  function NeighboursAsWritten(row: seq<real>): (r: seq<nat>)
    ensures |r| == if |row| == 0 then 0 else Min(5, |row| - 1)
  {
    RankedFacts(row);
    var rk := Ranked(row);
    if |rk| <= 1 then [] else Indices(rk[1..Min(6, |rk|)])
  }

  /** What the picks are: the best movie of the row (`Top`) is dropped, and
      the picks are the next best in order, each ahead of every movie that
      was not picked. */
  lemma NeighboursAsWrittenSpec(row: seq<real>)
    requires |row| > 0
    ensures var t := Top(row);
            t < |row| && forall j :: 0 <= j < |row| && j != t ==> Before(At(row, t), At(row, j))
    ensures var r := NeighboursAsWritten(row);
            && (forall k :: 0 <= k < |r| ==> r[k] < |row| && r[k] != Top(row))
            && (forall k, l :: 0 <= k < l < |r| ==> Before(At(row, r[k]), At(row, r[l])))
            && (forall j, k :: 0 <= j < |row| && j != Top(row) && j !in r && 0 <= k < |r|
                  ==> Before(At(row, r[k]), At(row, j)))
  {
    RankedFacts(row);
    var rk := Ranked(row);
    var r := NeighboursAsWritten(row);
    var hi := Min(6, |rk|);
    OrderedIndicesDistinct(rk, row);
    forall j | 0 <= j < |row| && j != Top(row)
      ensures Before(At(row, Top(row)), At(row, j))
    {
      var p :| 0 <= p < |rk| && rk[p] == At(row, j);
      assert rk[0] == At(row, Top(row));
    }
    forall k | 0 <= k < |r|
      ensures r[k] < |row| && r[k] != Top(row) && rk[k + 1] == At(row, r[k])
    {
      assert r[k] == rk[k + 1].index;
    }
    forall j, k | 0 <= j < |row| && j != Top(row) && j !in r && 0 <= k < |r|
      ensures Before(At(row, r[k]), At(row, j))
    {
      var p :| 0 <= p < |rk| && rk[p] == At(row, j);
      assert forall i :: 1 <= i < hi ==> rk[i].index == r[i - 1];
      assert rk[0].index == Top(row);
      assert p >= hi;
      assert Before(rk[k + 1], rk[p]);
    }
  }

  // ----- the intended neighbours: every movie but the query -----

  /** The entries of `s` whose index is not `q`, in order. */
  function Without(s: seq<Entry>, q: nat): (r: seq<Entry>)
  {
    if |s| == 0 then []
    else
      var t := Without(s[1..], q);
      if s[0].index == q then t else [s[0]] + t
  }

  /** `Without` keeps exactly the entries of other movies, in their order. */
  lemma {:induction false} WithoutFacts(s: seq<Entry>, q: nat)
    ensures forall x :: x in Without(s, q) <==> x in s && x.index != q
    ensures InOrder(s) ==> InOrder(Without(s, q))
  {
    if |s| > 0 {
      WithoutFacts(s[1..], q);
      assert s == [s[0]] + s[1..];
    }
  }

  /** Removing the one entry of `q` from entries with distinct indices
      shortens them by one. */
  lemma {:induction false} WithoutOne(s: seq<Entry>, q: nat, p: nat)
    requires forall i, j :: 0 <= i < j < |s| ==> s[i].index != s[j].index
    requires p < |s| && s[p].index == q
    ensures |Without(s, q)| == |s| - 1
  {
    if p == 0 {
      WithoutNone(s[1..], q);
    } else {
      WithoutOne(s[1..], q, p - 1);
    }
  }

  lemma {:induction false} WithoutNone(s: seq<Entry>, q: nat)
    requires forall i :: 0 <= i < |s| ==> s[i].index != q
    ensures Without(s, q) == s
  {
    if |s| > 0 {
      WithoutNone(s[1..], q);
      assert s == [s[0]] + s[1..];
    }
  }

  /** The neighbours of movie `q`: the five best movies of its row other than
      `q` itself. */
  function Neighbours(row: seq<real>, q: nat): (r: seq<nat>)
    requires q < |row|
    ensures |r| == Min(5, |row| - 1)
    ensures q !in r
  {
    var w := Without(Ranked(row), q);
    WithoutFacts(Ranked(row), q);
    WithoutQueryLength(row, q);
    assert forall k :: 0 <= k < Min(5, |w|) ==> w[k] in w;
    Indices(w[..Min(5, |w|)])
  }

  /** The query occurs once in its ranked row, so removing it leaves every
      other movie. */
  lemma WithoutQueryLength(row: seq<real>, q: nat)
    requires q < |row|
    ensures |Without(Ranked(row), q)| == |row| - 1
  {
    RankedFacts(row);
    var rk := Ranked(row);
    OrderedIndicesDistinct(rk, row);
    var p :| 0 <= p < |rk| && rk[p] == At(row, q);
    WithoutOne(rk, q, p);
  }

  /** What the intended picks are: other movies of the row, best first, each
      ahead of every movie other than `q` that was not picked. */
  lemma NeighboursSpec(row: seq<real>, q: nat)
    requires q < |row|
    ensures var r := Neighbours(row, q);
            && (forall k :: 0 <= k < |r| ==> r[k] < |row|)
            && (forall k, l :: 0 <= k < l < |r| ==> Before(At(row, r[k]), At(row, r[l])))
            && (forall j, k :: 0 <= j < |row| && j != q && j !in r && 0 <= k < |r|
                  ==> Before(At(row, r[k]), At(row, j)))
  {
    RankedFacts(row);
    var rk := Ranked(row);
    var w := Without(rk, q);
    WithoutFacts(rk, q);
    var r := Neighbours(row, q);
    var n := Min(5, |w|);
    assert FromRow(w, row) by {
      forall k | 0 <= k < |w|
        ensures w[k].index < |row| && w[k].sim == row[w[k].index]
      {
        assert w[k] in rk;
      }
    }
    assert forall k :: 0 <= k < |r| ==> w[k] == At(row, r[k]);
    forall j, k | 0 <= j < |row| && j != q && j !in r && 0 <= k < |r|
      ensures Before(At(row, r[k]), At(row, j))
    {
      assert At(row, j) in w;
      var p :| 0 <= p < |w| && w[p] == At(row, j);
      if p < n {
        assert false;
      }
    }
  }

  /** When the query movie ranks first in its own row, dropping sorted
      position 0 drops exactly the query, and the code's picks are the
      intended ones. */
  lemma AsWrittenAgreesWhenQueryRanksFirst(row: seq<real>, q: nat)
    requires q < |row|
    requires forall j :: 0 <= j < |row| && j != q ==> Before(At(row, q), At(row, j))
    ensures NeighboursAsWritten(row) == Neighbours(row, q)
  {
    BestIsTop(row, q);
    DroppingTopIsDroppingQuery(row, q);
  }

  /** A movie ahead of every other movie of the row is the one sorted first. */
  lemma BestIsTop(row: seq<real>, q: nat)
    requires q < |row|
    requires forall j :: 0 <= j < |row| && j != q ==> Before(At(row, q), At(row, j))
    ensures Top(row) == q
  {
    NeighboursAsWrittenSpec(row);
    var t := Top(row);
    assert t != q ==> Before(At(row, t), At(row, q));
  }

  lemma DroppingTopIsDroppingQuery(row: seq<real>, q: nat)
    requires q < |row| && Top(row) == q
    ensures NeighboursAsWritten(row) == Neighbours(row, q)
  {
    TailAvoidsTop(row);
    DropFirst(Ranked(row), q);
  }

  /** Dropping the entry of `q` from entries that hold it only in front is
      dropping the front entry. */
  lemma DropFirst(s: seq<Entry>, q: nat)
    requires |s| > 0 && s[0].index == q
    requires forall i :: 0 <= i < |s| - 1 ==> s[1..][i].index != q
    ensures var w := Without(s, q);
            Indices(w[..Min(5, |w|)]) == if |s| <= 1 then [] else Indices(s[1..Min(6, |s|)])
  {
    WithoutFront(s, q);
    var w := Without(s, q);
    var n := Min(5, |w|);
    if |s| > 1 {
      assert Min(6, |s|) == n + 1;
      assert w[..n] == s[1..n + 1];
    } else {
      assert |Indices(w[..n])| == 0;
    }
  }

  lemma WithoutFront(s: seq<Entry>, q: nat)
    requires |s| > 0 && s[0].index == q
    requires forall i :: 0 <= i < |s| - 1 ==> s[1..][i].index != q
    ensures Without(s, q) == s[1..]
  {
    WithoutNone(s[1..], q);
  }

  /** Below sorted position 0 the top movie does not occur again. */
  lemma TailAvoidsTop(row: seq<real>)
    requires |row| > 0
    ensures |Ranked(row)| == |row| && Ranked(row)[0].index == Top(row)
    ensures forall i :: 0 <= i < |row| - 1 ==> Ranked(row)[1..][i].index != Top(row)
  {
    RankedFacts(row);
    var rk := Ranked(row);
    OrderedIndicesDistinct(rk, row);
    forall i | 0 <= i < |rk| - 1
      ensures rk[1..][i].index != rk[0].index
    {
      assert rk[1..][i] == rk[i + 1];
    }
  }

  /** An all-zero row, as an empty overview yields, ties every movie; for
      movie 1 of a two-movie corpus the code drops movie 0 and recommends
      movie 1 to itself, where the intended neighbours are movie 0 alone. */
  lemma AsWrittenRecommendsQueryOnTie(row: seq<real>)
    requires row == [0.0, 0.0]
    ensures NeighboursAsWritten(row) == [1]
    ensures Neighbours(row, 1) == [0]
  {
    NeighboursAsWrittenSpec(row);
    assert Before(At(row, 0), At(row, 1));
    assert Top(row) == 0;
    NeighboursSpec(row, 1);
  }
}
