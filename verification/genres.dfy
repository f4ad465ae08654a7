/** The genre field of a movie and the two normalisers the engine applies to
    it (app.py:44-70 for queries, app.py:105-127 for display), plus the
    genre vocabulary offered for selection (app.py:103-132).

    The field's encoding is inconsistent across rows, so it is modelled as a
    tagged value. What `ast.literal_eval` makes of a string is an input of
    the model (`Encoded.parsed`); its failure is `None`. What `str()` makes
    of a non-string value is an input too (`shown`). */
module Genres {
  import opened Wrappers
  import opened Text
  import Order

  /** One element of a genre list. */
  datatype Item =
    | Named(name: string)   // a mapping whose 'name' key holds a string
    | NamedNonString        // a mapping whose 'name' value has no `.strip()`
    | Other(shown: string)  // any other element; `shown` is its `str()`

  /** What `ast.literal_eval` produced from a genre string. */
  datatype Parsed = ParsedList(items: seq<Item>) | ParsedOther(shown: string)

  /** The raw `genres` cell of a row. */
  datatype Field =
    | Encoded(raw: string, parsed: Option<Parsed>)  // a `str`
    | Native(items: seq<Item>)                     // a `list`
    | Missing(shown: string)                       // NaN or None; `shown` is its `str()`
    | Scalar(shown: string)                        // any other value; `shown` is its `str()`

  /** Genre fields that survive `dropna()`. */
  predicate Kept(f: Field)
  {
    !f.Missing?
  }

  /** True if some element is a mapping whose name cannot be stripped. */
  predicate HasBadName(items: seq<Item>)
  {
    exists i :: 0 <= i < |items| && items[i].NamedNonString?
  }

  // ----- query variant: every token is `x.strip().lower()` -----

  /** The query token of one list element; `None` when `.strip()` raises. */
  function QueryItem(it: Item): Option<string>
  {
    match it
    case Named(n) => Some(Key(n))
    case NamedNonString => None
    case Other(s) => Some(Key(s))
  }

  /** The query tokens of a list, element by element and in order; `None`
      when some element raises. */
  function QueryItems(items: seq<Item>): (r: Option<seq<string>>)
    ensures r.Some? <==> !HasBadName(items)
    ensures r.Some? ==> |r.value| == |items|
    ensures r.Some? ==> forall i :: 0 <= i < |items| ==> QueryItem(items[i]) == Some(r.value[i])
  {
    if HasBadName(items) then None
    else Some(seq(|items|, i requires 0 <= i < |items| => QueryItem(items[i]).value))
  }

  /** `[g.strip().lower() for g in ps]`. */
  function KeyAll(ps: seq<string>): (r: seq<string>)
    ensures |r| == |ps|
    ensures forall i :: 0 <= i < |ps| ==> r[i] == Key(ps[i])
  {
    seq(|ps|, i requires 0 <= i < |ps| => Key(ps[i]))
  }

  /** The genre tokens a row is matched against. Total except for a native
      list holding a mapping whose name is not a string: inside the string
      branch that error is caught and the raw string is split instead. */
  function QueryTokens(f: Field): (r: Option<seq<string>>)
    ensures r.None? <==> f.Native? && HasBadName(f.items)
  {
    match f
    case Encoded(raw, parsed) =>
      (match parsed
       case None => Some(KeyAll(Split(raw)))
       case Some(ParsedList(items)) =>
         (match QueryItems(items)
          case Some(ts) => Some(ts)
          case None => Some(KeyAll(Split(raw))))
       case Some(ParsedOther(s)) => Some([Key(s)]))
    case Native(items) => QueryItems(items)
    case Missing(s) => Some([Key(s)])
    case Scalar(s) => Some([Key(s)])
  }

  // ----- display variant: every token is `x.strip()` -----

  function DisplayItem(it: Item): Option<string>
  {
    match it
    case Named(n) => Some(Strip(n))
    case NamedNonString => None
    case Other(s) => Some(Strip(s))
  }

  function DisplayItems(items: seq<Item>): (r: Option<seq<string>>)
    ensures r.Some? <==> !HasBadName(items)
    ensures r.Some? ==> |r.value| == |items|
    ensures r.Some? ==> forall i :: 0 <= i < |items| ==> DisplayItem(items[i]) == Some(r.value[i])
  {
    if HasBadName(items) then None
    else Some(seq(|items|, i requires 0 <= i < |items| => DisplayItem(items[i]).value))
  }

  /** `[g.strip() for g in ps]`. */
  function StripAll(ps: seq<string>): (r: seq<string>)
    ensures |r| == |ps|
    ensures forall i :: 0 <= i < |ps| ==> r[i] == Strip(ps[i])
  {
    seq(|ps|, i requires 0 <= i < |ps| => Strip(ps[i]))
  }

  /** The genre names a row contributes to the vocabulary. It fails on
      exactly the fields the query variant fails on. */
  function DisplayTokens(f: Field): (r: Option<seq<string>>)
    ensures r.None? <==> f.Native? && HasBadName(f.items)
  {
    match f
    case Encoded(raw, parsed) =>
      (match parsed
       case None => Some(StripAll(Split(raw)))
       case Some(ParsedList(items)) =>
         (match DisplayItems(items)
          case Some(ts) => Some(ts)
          case None => Some(StripAll(Split(raw))))
       case Some(ParsedOther(s)) => Some([Strip(s)]))
    case Native(items) => DisplayItems(items)
    case Missing(s) => Some([Strip(s)])
    case Scalar(s) => Some([Strip(s)])
  }

  // ----- properties of the normalisers -----

  /** Every query token is already in normal form, so it is equal to a query
      genre exactly when that genre normalises to it. */
  lemma QueryTokensNormal(f: Field)
    requires QueryTokens(f).Some?
    ensures forall t :: t in QueryTokens(f).value ==> Key(t) == t
  {
    var ts := QueryTokens(f).value;
    forall i | 0 <= i < |ts|
      ensures Key(ts[i]) == ts[i]
    {
      var items := if f.Native? then f.items
                   else if f.Encoded? && f.parsed.Some? && f.parsed.value.ParsedList? then f.parsed.value.items
                   else [];
      if i < |items| && QueryItems(items) == Some(ts) {
        match items[i]
        case Named(n) => KeyInsensitive(n);
        case Other(s) => KeyInsensitive(s);
      } else if f.Encoded? && ts == KeyAll(Split(f.raw)) {
        KeyInsensitive(Split(f.raw)[i]);
      } else {
        var s := if f.Encoded? then f.parsed.value.shown else f.shown;
        assert ts == [Key(s)];
        KeyInsensitive(s);
      }
    }
  }

  /** A string that parses to a list gives the same tokens as that list held
      natively; when the list holds a mapping with a non-string name, the
      string falls back to its space-split pieces where the native list
      raises. */
  lemma EncodedListAgreesWithNative(raw: string, items: seq<Item>)
    ensures !HasBadName(items) ==>
              && QueryTokens(Encoded(raw, Some(ParsedList(items)))) == QueryTokens(Native(items))
              && DisplayTokens(Encoded(raw, Some(ParsedList(items)))) == DisplayTokens(Native(items))
    ensures HasBadName(items) ==>
              && QueryTokens(Native(items)).None?
              && QueryTokens(Encoded(raw, Some(ParsedList(items)))) == QueryTokens(Encoded(raw, None))
  {
  }

  /** Each list element contributes one token in place: a mapping its
      normalised name, anything else its normalised `str()`. */
  lemma ListTokensPerItem(items: seq<Item>, i: int)
    requires !HasBadName(items) && 0 <= i < |items|
    ensures items[i].Named? ==> QueryTokens(Native(items)).value[i] == Key(items[i].name)
    ensures items[i].Other? ==> QueryTokens(Native(items)).value[i] == Key(items[i].shown)
    ensures |QueryTokens(Native(items)).value| == |items|
  {
  }

  /** A string that cannot be parsed yields its pieces between single
      spaces, each normalised, empty pieces included: for any way of writing
      the string as space-free pieces joined by single spaces, those pieces
      are the tokens. */
  lemma {:induction false} UnparsedSplitsOnSpaces(raw: string, ps: seq<string>)
    requires |ps| >= 1 && forall p :: p in ps ==> ' ' !in p
    requires Join(ps) == raw
    ensures QueryTokens(Encoded(raw, None)) == Some(KeyAll(ps))
    ensures DisplayTokens(Encoded(raw, None)) == Some(StripAll(ps))
  {
    SplitJoin(ps);
  }

  /** A string that parses to something other than a list, and any value
      that is neither a string nor a list, is a single token: its `str()`,
      stripped for display and normalised for queries. */
  lemma ScalarIsOneToken(f: Field)
    requires f.Scalar? || f.Missing? || (f.Encoded? && f.parsed.Some? && f.parsed.value.ParsedOther?)
    ensures var s := if f.Encoded? then f.parsed.value.shown else f.shown;
            DisplayTokens(f) == Some([Strip(s)]) && QueryTokens(f) == Some([Key(s)])
    ensures QueryTokens(f).value[0] == Lower(DisplayTokens(f).value[0])
  {
  }

  /** `[t.lower() for t in ts]`. */
  function LowerAll(ts: seq<string>): (r: seq<string>)
    ensures |r| == |ts|
    ensures forall i :: 0 <= i < |ts| ==> r[i] == Lower(ts[i])
  {
    seq(|ts|, i requires 0 <= i < |ts| => Lower(ts[i]))
  }

  lemma ItemsLowered(items: seq<Item>)
    ensures QueryItems(items).Some? <==> DisplayItems(items).Some?
    ensures QueryItems(items).Some? ==> QueryItems(items).value == LowerAll(DisplayItems(items).value)
  {
    if !HasBadName(items) {
      var q := QueryItems(items).value;
      var d := DisplayItems(items).value;
      forall i | 0 <= i < |items|
        ensures q[i] == Lower(d[i])
      {
        assert QueryItem(items[i]) == Some(q[i]) && DisplayItem(items[i]) == Some(d[i]);
      }
    }
  }

  /** The display variant is the query variant without the lower-casing:
      lower-casing each display token gives the query tokens. */
  lemma {:induction false} DisplayLowersToQuery(f: Field)
    ensures QueryTokens(f).Some? <==> DisplayTokens(f).Some?
    ensures QueryTokens(f).Some? ==> QueryTokens(f).value == LowerAll(DisplayTokens(f).value)
  {
    match f
    case Encoded(raw, parsed) =>
      assert KeyAll(Split(raw)) == LowerAll(StripAll(Split(raw)));
      if parsed.Some? && parsed.value.ParsedList? {
        ItemsLowered(parsed.value.items);
      }
    case Native(items) =>
      ItemsLowered(items);
    case Missing(s) =>
    case Scalar(s) =>
  }

  /** The three encodings of the same two genres give the same tokens. */
  lemma EncodingsAgreeExample()
    ensures var items := [Named("Action"), Named("Drama")];
            && QueryTokens(Encoded("[{'name': 'Action'}, {'name': 'Drama'}]", Some(ParsedList(items))))
               == Some(["action", "drama"])
            && QueryTokens(Native(items)) == Some(["action", "drama"])
            && QueryTokens(Encoded("Action Drama", None)) == Some(["action", "drama"])
  {
    var items := [Named("Action"), Named("Drama")];
    NativeExample(items);
    EncodedListAgreesWithNative("[{'name': 'Action'}, {'name': 'Drama'}]", items);
    SplitExample("Action Drama");
  }

  lemma ExampleKeys()
    ensures Key("Action") == "action" && Key("Drama") == "drama"
  {
    ExampleKey("Action", "action");
    ExampleKey("Drama", "drama");
  }

  lemma ExampleKey(s: string, k: string)
    requires (s == "Action" && k == "action") || (s == "Drama" && k == "drama")
    ensures Key(s) == k
  {
    StripStripped(s);
    forall i | 0 <= i < |s|
      ensures Lower(s)[i] == k[i]
    {
    }
  }

  lemma NativeExample(items: seq<Item>)
    requires items == [Named("Action"), Named("Drama")]
    ensures !HasBadName(items)
    ensures QueryTokens(Native(items)) == Some(["action", "drama"])
  {
    ExampleKeys();
    assert forall i :: 0 <= i < |items| ==> items[i].Named?;
    var ts := QueryItems(items).value;
    assert QueryItem(items[0]) == Some(ts[0]) && QueryItem(items[1]) == Some(ts[1]);
    assert ts == ["action", "drama"];
  }

  lemma SplitExample(raw: string)
    requires raw == "Action Drama"
    ensures QueryTokens(Encoded(raw, None)) == Some(["action", "drama"])
  {
    var ps := ["Action", "Drama"];
    assert ps[1..] == ["Drama"];
    assert Join(ps) == raw;
    UnparsedSplitsOnSpaces(raw, ps);
    ExampleKeyAll(ps);
  }

  lemma ExampleKeyAll(ps: seq<string>)
    requires ps == ["Action", "Drama"]
    ensures KeyAll(ps) == ["action", "drama"]
  {
    ExampleKeys();
  }

  // ----- vocabulary -----

  /** Every display token of every field that survives `dropna()`. */
  ghost function DisplayUnion(fields: seq<Field>): set<string>
  {
    set i, t | 0 <= i < |fields| && Kept(fields[i]) && DisplayTokens(fields[i]).Some?
                 && t in DisplayTokens(fields[i]).value :: t
  }

  /** True if building the vocabulary raises on some field. */
  predicate VocabularyRaises(fields: seq<Field>)
  {
    exists i :: 0 <= i < |fields| && DisplayTokens(fields[i]).None?
  }

  lemma VocabularyRaisesCons(fields: seq<Field>)
    requires |fields| > 0
    ensures VocabularyRaises(fields)
            <==> DisplayTokens(fields[0]).None? || VocabularyRaises(fields[1..])
  {
    if VocabularyRaises(fields[1..]) {
      var i :| 0 <= i < |fields| - 1 && DisplayTokens(fields[1..][i]).None?;
      assert fields[1..][i] == fields[i + 1];
    }
    if VocabularyRaises(fields) && DisplayTokens(fields[0]).Some? {
      var i :| 0 <= i < |fields| && DisplayTokens(fields[i]).None?;
      assert fields[1..][i - 1] == fields[i];
    }
  }

  lemma DisplayUnionCons(fields: seq<Field>)
    requires |fields| > 0
    ensures DisplayUnion(fields) ==
            (if Kept(fields[0]) && DisplayTokens(fields[0]).Some?
             then Order.Elems(DisplayTokens(fields[0]).value) else {})
            + DisplayUnion(fields[1..])
  {
    DisplayUnionHead(fields);
    DisplayUnionTail(fields);
  }

  lemma DisplayUnionHead(fields: seq<Field>)
    requires |fields| > 0
    ensures DisplayUnion(fields) <=
            (if Kept(fields[0]) && DisplayTokens(fields[0]).Some?
             then Order.Elems(DisplayTokens(fields[0]).value) else {})
            + DisplayUnion(fields[1..])
  {
    forall t | t in DisplayUnion(fields)
      ensures t in DisplayUnion(fields[1..]) || (Kept(fields[0]) && DisplayTokens(fields[0]).Some?
                                                 && t in DisplayTokens(fields[0]).value)
    {
      var i :| 0 <= i < |fields| && Kept(fields[i]) && DisplayTokens(fields[i]).Some?
               && t in DisplayTokens(fields[i]).value;
      if i > 0 {
        assert fields[1..][i - 1] == fields[i];
      }
    }
  }

  lemma DisplayUnionTail(fields: seq<Field>)
    requires |fields| > 0
    ensures DisplayUnion(fields[1..]) <= DisplayUnion(fields)
    ensures Kept(fields[0]) && DisplayTokens(fields[0]).Some? ==>
              Order.Elems(DisplayTokens(fields[0]).value) <= DisplayUnion(fields)
  {
    forall t | t in DisplayUnion(fields[1..])
      ensures t in DisplayUnion(fields)
    {
      var i :| 0 <= i < |fields| - 1 && Kept(fields[1..][i]) && DisplayTokens(fields[1..][i]).Some?
               && t in DisplayTokens(fields[1..][i]).value;
      assert fields[1..][i] == fields[i + 1];
    }
  }


  /** Adds the display tokens of `fields`, in order, to the sorted set `acc`. */
  function Collect(acc: seq<string>, fields: seq<Field>): (r: Result<seq<string>, PyException>)
    requires Order.Increasing(acc)
    ensures r.Failure? <==> VocabularyRaises(fields)
    ensures r.Success? ==> Order.Increasing(r.value)
    ensures r.Success? ==> Order.Elems(r.value) == Order.Elems(acc) + DisplayUnion(fields)
    decreases |fields|
  {
    if |fields| == 0 then Success(acc)
    else
      DisplayUnionCons(fields);
      VocabularyRaisesCons(fields);
      if fields[0].Missing? then Collect(acc, fields[1..])
      else
        match DisplayTokens(fields[0])
        case None => Failure(AttributeError)
        case Some(ts) => Collect(Order.InsertAll(acc, ts), fields[1..])
  }

  /** `sorted(set(...))` of the display tokens of every non-missing field:
      strictly increasing and holding exactly those tokens. The build raises
      exactly when some field's normalisation raises. */
  function Vocabulary(fields: seq<Field>): (r: Result<seq<string>, PyException>)
    ensures r.Failure? <==> VocabularyRaises(fields)
    ensures r.Success? ==> Order.Increasing(r.value)
    ensures r.Success? ==> Order.Elems(r.value) == DisplayUnion(fields)
  {
    Collect([], fields)
  }

  /** Any strictly increasing listing of the display tokens is the
      vocabulary, so the order the fields were read in does not matter. */
  lemma VocabularyIsSortedSet(fields: seq<Field>, listing: seq<string>)
    requires !VocabularyRaises(fields)
    requires Order.Increasing(listing) && Order.Elems(listing) == DisplayUnion(fields)
    ensures Vocabulary(fields) == Success(listing)
  {
    Order.IncreasingUnique(Vocabulary(fields).value, listing);
  }
}
