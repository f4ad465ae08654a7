/** Python's ordering of `str` values (code point by code point, a proper
    prefix first) and the strictly increasing sequences that `sorted` of a
    set produces. */
module Order {

  /** `a < b` on Python strings. */
  predicate Below(a: string, b: string)
  {
    if |a| == 0 then |b| > 0
    else if |b| == 0 then false
    else if a[0] == b[0] then Below(a[1..], b[1..])
    else a[0] < b[0]
  }

  /** No string is below itself. */
  lemma {:induction false} BelowIrreflexive(a: string)
    ensures !Below(a, a)
  {
    if |a| > 0 {
      BelowIrreflexive(a[1..]);
    }
  }

  /** Of two strings at most one is below the other: a string below one
      that is below it would be below itself. */
  lemma BelowAsymmetric(a: string, b: string)
    ensures Below(a, b) ==> !Below(b, a)
  {
    if Below(a, b) && Below(b, a) {
      BelowTransitive(a, b, a);
      BelowIrreflexive(a);
    }
  }

  lemma {:induction false} BelowTransitive(a: string, b: string, c: string)
    requires Below(a, b) && Below(b, c)
    ensures Below(a, c)
  {
    if |a| > 0 && a[0] == b[0] && b[0] == c[0] {
      BelowTransitive(a[1..], b[1..], c[1..]);
    }
  }

  /** Any two different strings are ordered one way or the other. */
  lemma {:induction false} BelowTotal(a: string, b: string)
    requires a != b
    ensures Below(a, b) || Below(b, a)
  {
    if |a| > 0 && |b| > 0 && a[0] == b[0] {
      assert a == [a[0]] + a[1..] && b == [b[0]] + b[1..];
      BelowTotal(a[1..], b[1..]);
    }
  }

  /** The values held by a sequence. */
  function Elems(s: seq<string>): set<string>
  {
    set y | y in s
  }

  /** Strictly increasing: sorted, and therefore without duplicates. */
  predicate Increasing(s: seq<string>)
  {
    forall i, j :: 0 <= i < j < |s| ==> Below(s[i], s[j])
  }

  /** Adds `x` to a strictly increasing sequence at its place; a value that is
      already present is not added twice. */
  function Insert(s: seq<string>, x: string): (r: seq<string>)
    requires Increasing(s)
    ensures Increasing(r)
    ensures Elems(r) == Elems(s) + {x}
  {
    if |s| == 0 then [x]
    else if x == s[0] then s
    else if Below(x, s[0]) then
      InsertFront(s, x);
      ElemsCons(x, s);
      [x] + s
    else
      BelowTotal(x, s[0]);
      var t := Insert(s[1..], x);
      InsertBehind(s, x, t);
      [s[0]] + t
  }

  lemma InsertFront(s: seq<string>, x: string)
    requires Increasing(s) && |s| > 0 && Below(x, s[0])
    ensures Increasing([x] + s)
  {
    forall j | 0 < j < |s|
      ensures Below(x, s[j])
    {
      BelowTransitive(x, s[0], s[j]);
    }
  }

  lemma InsertBehind(s: seq<string>, x: string, t: seq<string>)
    requires Increasing(s) && |s| > 0 && Below(s[0], x)
    requires Increasing(t)
    requires Elems(t) == Elems(s[1..]) + {x}
    ensures Increasing([s[0]] + t)
    ensures Elems([s[0]] + t) == Elems(s) + {x}
  {
    ElemsCons(s[0], t);
    ElemsCons(s[0], s[1..]);
    assert s == [s[0]] + s[1..];
    forall j | 0 <= j < |t|
      ensures Below(s[0], t[j])
    {
      assert t[j] in Elems(t);
    }
  }

  /** Inserts every element of `xs`, in order. */
  function InsertAll(s: seq<string>, xs: seq<string>): (r: seq<string>)
    requires Increasing(s)
    ensures Increasing(r)
    ensures Elems(r) == Elems(s) + Elems(xs)
    decreases |xs|
  {
    if |xs| == 0 then s
    else
      var r := InsertAll(Insert(s, xs[0]), xs[1..]);
      assert Elems(xs) == {xs[0]} + Elems(xs[1..]);
      r
  }

  /** A strictly increasing sequence is determined by its elements: whatever
      order the values were collected in, the sorted result is the same. */
  lemma {:induction false} IncreasingUnique(a: seq<string>, b: seq<string>)
    requires Increasing(a) && Increasing(b)
    requires Elems(a) == Elems(b)
    ensures a == b
  {
    ElemsEmpty(a);
    ElemsEmpty(b);
    if |a| > 0 && |b| > 0 {
      assert a[0] in Elems(b);
      assert b[0] in Elems(a);
      if a[0] != b[0] {
        var i :| 0 <= i < |b| && b[i] == a[0];
        var j :| 0 <= j < |a| && a[j] == b[0];
        assert Below(a[0], a[j]);
        assert Below(b[0], b[i]);
        BelowAsymmetric(a[0], b[0]);
        assert false;
      }
      DropHead(a);
      DropHead(b);
      IncreasingUnique(a[1..], b[1..]);
      assert a == [a[0]] + a[1..] && b == [b[0]] + b[1..];
    }
  }

  lemma ElemsCons(x: string, s: seq<string>)
    ensures Elems([x] + s) == {x} + Elems(s)
  {
    assert forall y :: y in [x] + s <==> y == x || y in s;
  }

  lemma ElemsEmpty(s: seq<string>)
    ensures Elems(s) == {} <==> |s| == 0
  {
    if |s| > 0 {
      assert s[0] in Elems(s);
    }
  }

  lemma DropHead(a: seq<string>)
    requires Increasing(a) && |a| > 0
    ensures Increasing(a[1..])
    ensures Elems(a[1..]) == Elems(a) - {a[0]}
  {
    forall j | 0 < j < |a|
      ensures a[j] != a[0]
    {
      BelowAsymmetric(a[0], a[j]);
    }
    assert a == [a[0]] + a[1..];
  }
}
