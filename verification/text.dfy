/** String operations the engine applies to genre fields and queries:
    Python's `str.strip()`, `str.lower()` restricted to ASCII letters,
    `str.split(" ")`, and its inverse `" ".join`. */
module Text {

  /** The characters Python's `str.isspace()` accepts, which `str.strip()`
      removes from both ends. */
  predicate IsSpace(c: char)
  {
    || c == ' ' || c == '\t' || c == '\n' || c == '\r'
    || c == '\U{000B}' || c == '\U{000C}'
    || ('\U{001C}' <= c <= '\U{001F}')
    || c == '\U{0085}' || c == '\U{00A0}' || c == '\U{1680}'
    || ('\U{2000}' <= c <= '\U{200A}')
    || c == '\U{2028}' || c == '\U{2029}' || c == '\U{202F}' || c == '\U{205F}'
    || c == '\U{3000}'
  }

  /** True if no whitespace sits at either end of `s`. */
  predicate Stripped(s: string)
  {
    |s| == 0 || (!IsSpace(s[0]) && !IsSpace(s[|s| - 1]))
  }

  predicate IsUpper(c: char)
  {
    'A' <= c <= 'Z'
  }

  /** ASCII lower-casing of one character. */
  function LowerChar(c: char): (d: char)
    ensures !IsUpper(d)
    ensures IsSpace(d) == IsSpace(c)
    ensures IsUpper(c) ==> d as int == c as int + 32
    ensures !IsUpper(c) ==> d == c
  {
    if IsUpper(c) then (c as int + 32) as char else c
  }

  /** `s.lower()`, on the ASCII letters. */
  function Lower(s: string): (r: string)
    ensures |r| == |s|
    ensures forall i :: 0 <= i < |s| ==> r[i] == LowerChar(s[i])
  {
    seq(|s|, i requires 0 <= i < |s| => LowerChar(s[i]))
  }

  /** `s.lstrip()`: drops the leading whitespace and nothing else. */
  function TrimLeft(s: string): (r: string)
    ensures |r| <= |s|
    ensures r == s[|s| - |r|..]
    ensures forall k :: 0 <= k < |s| - |r| ==> IsSpace(s[k])
    ensures |r| > 0 ==> !IsSpace(r[0])
  {
    if |s| > 0 && IsSpace(s[0]) then TrimLeft(s[1..]) else s
  }

  /** `s.rstrip()`: drops the trailing whitespace and nothing else. */
  function TrimRight(s: string): (r: string)
    ensures |r| <= |s|
    ensures r == s[..|r|]
    ensures forall k :: |r| <= k < |s| ==> IsSpace(s[k])
    ensures |r| > 0 ==> !IsSpace(r[|r| - 1])
  {
    if |s| > 0 && IsSpace(s[|s| - 1]) then TrimRight(s[..|s| - 1]) else s
  }

  /** True if `r` sits in `s` at offset `i` with only whitespace before and
      after it. */
  predicate Surrounds(s: string, i: int, r: string)
  {
    && 0 <= i <= |s| - |r|
    && r == s[i..i + |r|]
    && (forall k :: 0 <= k < i ==> IsSpace(s[k]))
    && (forall k :: i + |r| <= k < |s| ==> IsSpace(s[k]))
  }

  /** `s.strip()`: the longest middle slice of `s` whose surroundings are all
      whitespace and whose ends are not. */
  function Strip(s: string): (r: string)
    ensures Stripped(r)
    ensures exists i :: Surrounds(s, i, r)
  {
    var l := TrimLeft(s);
    var r := TrimRight(l);
    var i := |s| - |l|;
    assert Surrounds(s, i, r);
    r
  }

  /** Python's `s.split(" ")`: the pieces between single spaces, empty pieces
      included, so there is always at least one piece. */
  function Split(s: string): (r: seq<string>)
    ensures |r| >= 1
    ensures forall p :: p in r ==> ' ' !in p
  {
    if |s| == 0 then [""]
    else
      var rest := Split(s[1..]);
      if s[0] == ' ' then [""] + rest
      else [[s[0]] + rest[0]] + rest[1..]
  }

  /** `" ".join(ps)`. */
  function Join(ps: seq<string>): (r: string)
    requires |ps| >= 1
  {
    if |ps| == 1 then ps[0] else ps[0] + " " + Join(ps[1..])
  }

  /** Joining the pieces of a split gives back the original string. */
  lemma {:induction false} JoinSplit(s: string)
    ensures Join(Split(s)) == s
  {
    if |s| > 0 {
      var rest := Split(s[1..]);
      JoinSplit(s[1..]);
      if s[0] != ' ' {
        var head := [s[0]] + rest[0];
        if |rest| == 1 {
          assert Split(s) == [head];
        } else {
          assert Split(s) == [head] + rest[1..];
          assert Join([head] + rest[1..]) == head + " " + Join(rest[1..]);
          assert Join(rest) == rest[0] + " " + Join(rest[1..]);
        }
      }
    }
  }

  /** Splitting a join of space-free pieces gives back the pieces. */
  lemma {:induction false} SplitJoin(ps: seq<string>)
    requires |ps| >= 1
    requires forall p :: p in ps ==> ' ' !in p
    ensures Split(Join(ps)) == ps
  {
    if |ps| == 1 {
      SplitSpaceFree(ps[0]);
    } else {
      SplitJoin(ps[1..]);
      SplitPrefix(ps[0], Join(ps[1..]));
    }
  }

  /** A string with no space is a single piece. */
  lemma {:induction false} SplitSpaceFree(p: string)
    requires ' ' !in p
    ensures Split(p) == [p]
  {
    if |p| > 0 {
      SplitSpaceFree(p[1..]);
      assert [p[0]] + p[1..] == p;
    }
  }

  /** Splitting `p + " " + t` for a space-free `p` puts `p` in front of the
      pieces of `t`. */
  lemma {:induction false} SplitPrefix(p: string, t: string)
    requires ' ' !in p
    ensures Split(p + " " + t) == [p] + Split(t)
  {
    if |p| == 0 {
      assert p + " " + t == [' '] + t;
      assert (p + " " + t)[1..] == t;
    } else {
      SplitPrefix(p[1..], t);
      assert (p + " " + t)[1..] == p[1..] + " " + t;
      assert [p[0]] + p[1..] == p;
    }
  }

  /** Lower-casing keeps whitespace where it is, so it commutes with the
      one-sided trims. */
  lemma {:induction false} LowerTrimLeft(s: string)
    ensures Lower(TrimLeft(s)) == TrimLeft(Lower(s))
  {
    if |s| > 0 && IsSpace(s[0]) {
      assert Lower(s)[1..] == Lower(s[1..]);
      LowerTrimLeft(s[1..]);
    }
  }

  lemma {:induction false} LowerTrimRight(s: string)
    ensures Lower(TrimRight(s)) == TrimRight(Lower(s))
  {
    if |s| > 0 && IsSpace(s[|s| - 1]) {
      assert Lower(s)[..|s| - 1] == Lower(s[..|s| - 1]);
      LowerTrimRight(s[..|s| - 1]);
    }
  }

  /** `s.strip().lower() == s.lower().strip()`. */
  lemma LowerStrip(s: string)
    ensures Lower(Strip(s)) == Strip(Lower(s))
  {
    LowerTrimLeft(s);
    LowerTrimRight(TrimLeft(s));
  }

  /** Stripping a string without surrounding whitespace leaves it alone, so
      `strip` is idempotent. */
  lemma StripStripped(s: string)
    requires Stripped(s)
    ensures Strip(s) == s
  {
  }

  lemma StripIdempotent(s: string)
    ensures Strip(Strip(s)) == Strip(s)
  {
    StripStripped(Strip(s));
  }

  lemma LowerIdempotent(s: string)
    ensures Lower(Lower(s)) == Lower(s)
  {
  }

  /** The normal form a genre is compared in: `s.strip().lower()`. */
  function Key(s: string): (k: string)
    ensures Stripped(k)
    ensures forall i :: 0 <= i < |k| ==> !IsUpper(k[i])
  {
    var t := Strip(s);
    LowerKeepsStripped(t);
    Lower(t)
  }

  lemma LowerKeepsStripped(t: string)
    requires Stripped(t)
    ensures Stripped(Lower(t))
  {
    if |t| > 0 {
      assert Lower(t)[0] == LowerChar(t[0]);
      assert Lower(t)[|t| - 1] == LowerChar(t[|t| - 1]);
    }
  }

  /** Normalising is insensitive to case and to surrounding whitespace, and a
      normal form is its own normal form. */
  lemma KeyInsensitive(s: string)
    ensures Key(Lower(s)) == Key(s)
    ensures Key(Strip(s)) == Key(s)
    ensures Key(Key(s)) == Key(s)
  {
    LowerStrip(s);
    LowerIdempotent(Strip(s));
    StripIdempotent(s);
    LowerStrip(Lower(Strip(s)));
    StripStripped(Strip(Lower(s)));
    StripIdempotent(Lower(s));
    LowerIdempotent(Strip(Lower(s)));
  }
}
