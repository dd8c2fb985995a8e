/** `stableJson`: the printer used as an equality test, a reader that inverts it, and the theorem that
    makes the test sound and complete. */
module StableJson {
  import opened Basics
  import opened JsonText

  /** A JavaScript value as far as the printer looks into it. An object is the list of own entries in
      the order `Object.entries` reports them. */
  datatype Js =
    | Undefined
    | Null
    | Bool(b: bool)
    | Num(n: Number)
    | Str(s: Text)
    | Arr(elems: seq<Js>)
    | Obj(entries: seq<Entry>)

  datatype Entry = Entry(key: Text, value: Js)

  predicate DistinctKeys(entries: seq<Entry>) {
    forall i, j :: 0 <= i < j < |entries| ==> entries[i].key != entries[j].key
  }

  /** What the runtime guarantees: canonical digits, and no key twice in one object. */
  predicate Valid(v: Js) {
    match v
    case Num(n) => n.Valid()
    case Arr(elems) => forall e | e in elems :: Valid(e)
    case Obj(entries) => DistinctKeys(entries) && forall e | e in entries :: Valid(e.value)
    case _ => true
  }

  const COMMA: CodeUnit := 0x2C
  const COLON: CodeUnit := 0x3A
  const LBRACKET: CodeUnit := 0x5B
  const RBRACKET: CodeUnit := 0x5D
  const LBRACE: CodeUnit := 0x7B
  const RBRACE: CodeUnit := 0x7D
  const TRUE_TEXT: Text := [0x74, 0x72, 0x75, 0x65]
  const FALSE_TEXT: Text := [0x66, 0x61, 0x6C, 0x73, 0x65]

  // ---- The printer -------------------------------------------------------------------------

  function Defined(entries: seq<Entry>): (r: seq<Entry>)
    ensures forall e :: e in r <==> e in entries && e.value != Undefined
    ensures DistinctKeys(entries) ==> DistinctKeys(r)
  {
    if entries == [] then []
    else
      var rest := Defined(entries[1..]);
      assert entries == [entries[0]] + entries[1..];
      if entries[0].value == Undefined then rest else [entries[0]] + rest
  }

  ghost function Keys(entries: seq<Entry>): set<Text> {
    set e | e in entries :: e.key
  }

  predicate SortedByKey(entries: seq<Entry>) {
    forall i, j :: 0 <= i < j < |entries| ==> Less(entries[i].key, entries[j].key)
  }

  function Insert(e: Entry, sorted: seq<Entry>): (r: seq<Entry>)
    ensures forall x :: x in r <==> x == e || x in sorted
  {
    if sorted == [] || Less(e.key, sorted[0].key) then [e] + sorted
    else
      assert sorted == [sorted[0]] + sorted[1..];
      [sorted[0]] + Insert(e, sorted[1..])
  }

  /** `.sort` under the key comparator. */
  function SortByKey(entries: seq<Entry>): (r: seq<Entry>)
    ensures forall x :: x in r <==> x in entries
  {
    if entries == [] then []
    else
      assert entries == [entries[0]] + entries[1..];
      Insert(entries[0], SortByKey(entries[1..]))
  }

  function Join(parts: seq<Text>): Text {
    if parts == [] then []
    else if |parts| == 1 then parts[0]
    else parts[0] + ([COMMA] + Join(parts[1..]))
  }

  function EntryText(key: Text, valueText: Text): Text { Quote(key) + [COLON] + valueText }

  function Stable(v: Js): Text
    requires Valid(v)
  {
    match v
    case Undefined => NULL_TEXT
    case Null => NULL_TEXT
    case Bool(b) => if b then TRUE_TEXT else FALSE_TEXT
    case Num(n) => NumberText(n)
    case Str(s) => Quote(s)
    case Arr(elems) =>
      [LBRACKET] + Join(seq(|elems|, i requires 0 <= i < |elems| => Stable(elems[i]))) + [RBRACKET]
    case Obj(entries) =>
      var sorted := SortByKey(Defined(entries));
      [LBRACE] + Join(seq(|sorted|, i requires 0 <= i < |sorted| =>
        assert sorted[i] in entries;
        EntryText(sorted[i].key, Stable(sorted[i].value)))) + [RBRACE]
  }

  /** The tokens as they are spelled. */
  lemma TokensSpelled()
    ensures NULL_TEXT == Ascii("null") && TRUE_TEXT == Ascii("true") && FALSE_TEXT == Ascii("false")
    ensures [COMMA] == Ascii(",") && [COLON] == Ascii(":") && [QUOTE] == Ascii("\"")
    ensures [LBRACKET] == Ascii("[") && [RBRACKET] == Ascii("]") && [LBRACE] == Ascii("{") && [RBRACE] == Ascii("}")
  {
  }

  /** An array is its elements' texts in order between brackets, parted by commas. */
  lemma ArraySpelled(elems: seq<Js>) returns (parts: seq<Text>)
    requires Valid(Arr(elems))
    ensures |parts| == |elems| && forall i | 0 <= i < |elems| :: parts[i] == Stable(elems[i])
    ensures Stable(Arr(elems)) == Ascii("[") + Join(parts) + Ascii("]")
  {
    TokensSpelled();
    parts := seq(|elems|, i requires 0 <= i < |elems| => Stable(elems[i]));
  }

  /** An object is its defined entries, each once and by rising key, key and value parted by a colon, between braces. */
  lemma ObjectSpelled(entries: seq<Entry>) returns (sorted: seq<Entry>, parts: seq<Text>)
    requires Valid(Obj(entries))
    ensures forall e :: e in sorted <==> e in entries && e.value != Undefined
    ensures SortedByKey(sorted) && |parts| == |sorted|
    ensures forall i | 0 <= i < |sorted| ::
      Valid(sorted[i].value) && parts[i] == Ascii("\"") + Escape(sorted[i].key) + Ascii("\"") + Ascii(":") + Stable(sorted[i].value)
    ensures Stable(Obj(entries)) == Ascii("{") + Join(parts) + Ascii("}")
  {
    sorted := SortByKey(Defined(entries));
    SortSorts(Defined(entries));
    assert forall i | 0 <= i < |sorted| :: sorted[i] in entries;
    hide SortedByKey, SortByKey, Defined, Stable, EntryText, Escape, Join, Ascii;
    var s := sorted;
    parts := seq(|s|, i requires 0 <= i < |s| => EntryText(s[i].key, Stable(s[i].value)));
    forall i | 0 <= i < |s|
      ensures parts[i] == Ascii("\"") + Escape(s[i].key) + Ascii("\"") + Ascii(":") + Stable(s[i].value)
    {
      EntrySpelled(s[i].key, Stable(s[i].value));
    }
    TokensSpelled();
    ObjectJoins(entries, parts);
  }

  /** By rising key: of two keys the later has the larger unit where they first differ, or continues the earlier. */
  lemma KeysRise(sorted: seq<Entry>, i: nat, j: nat) returns (k: nat)
    requires SortedByKey(sorted) && i < j < |sorted|
    ensures var x, y := sorted[i].key, sorted[j].key;
      k <= |x| && k < |y| && x[..k] == y[..k] && (k < |x| ==> x[k] < y[k])
  {
    LessExactly(sorted[i].key, sorted[j].key);
    k :| LessAt(sorted[i].key, sorted[j].key, k);
  }

  lemma EntrySpelled(key: Text, t: Text)
    ensures EntryText(key, t) == Ascii("\"") + Escape(key) + Ascii("\"") + Ascii(":") + t
  {
    TokensSpelled();
    hide Escape, Ascii;
  }

  lemma ObjectJoins(entries: seq<Entry>, parts: seq<Text>)
    requires Valid(Obj(entries)) && |parts| == |SortByKey(Defined(entries))|
    requires var s := SortByKey(Defined(entries));
      forall i | 0 <= i < |parts| :: Valid(s[i].value) && parts[i] == EntryText(s[i].key, Stable(s[i].value))
    ensures Stable(Obj(entries)) == [LBRACE] + Join(parts) + [RBRACE]
  {
    var s := SortByKey(Defined(entries));
    hide EntryText, Join, SortByKey, Defined;
    assert parts == seq(|s|, i requires 0 <= i < |s| => assert s[i] in entries; EntryText(s[i].key, Stable(s[i].value)));
  }

  lemma JoinSpelled(parts: seq<Text>)
    ensures Join([]) == [] && (|parts| == 1 ==> Join(parts) == parts[0])
    ensures |parts| > 1 ==> Join(parts) == parts[0] + Ascii(",") + Join(parts[1..])
  {
    TokensSpelled();
    if |parts| > 1 { Regroup(parts[0], [COMMA], Join(parts[1..])); }
  }

  /** Everything else: absent, null and non-finite values are `null`. */
  lemma ScalarsSpelled(v: Js)
    requires Valid(v) && !v.Arr? && !v.Obj?
    ensures v.Undefined? || v.Null? || (v.Num? && (v.n.NotANumber? || v.n.Infinity?)) ==> Stable(v) == Ascii("null")
    ensures v.Bool? ==> Stable(v) == if v.b then Ascii("true") else Ascii("false")
    ensures v.Num? && v.n.Zero? ==> Stable(v) == Ascii("0")
    ensures v.Str? ==> Stable(v) == Ascii("\"") + Escape(v.s) + Ascii("\"")
  {
    TokensSpelled();
  }

  // ---- What the printed text stands for ------------------------------------------------------

  predicate ReadsAsNull(v: Js) {
    v.Undefined? || v.Null? || (v.Num? && (v.n.NotANumber? || v.n.Infinity?))
  }

  /** The same JSON value: key order and undefined-valued fields aside, an undefined element and a
      non-finite number being null, and the two zeros being one number. */
  ghost predicate Same(a: Js, b: Js)
    decreases a
  {
    if ReadsAsNull(a) || ReadsAsNull(b) then ReadsAsNull(a) && ReadsAsNull(b)
    else
      match a
      case Num(n) => b.Num? && (n == b.n || (n.Zero? && b.n.Zero?))
      case Arr(elems) => b.Arr? && |elems| == |b.elems| && forall i | 0 <= i < |elems| :: Same(elems[i], b.elems[i])
      case Obj(entries) =>
        && b.Obj?
        && Keys(Defined(entries)) == Keys(Defined(b.entries))
        && forall e, f | e in Defined(entries) && f in Defined(b.entries) && e.key == f.key :: Same(e.value, f.value)
      case _ => a == b
  }

  /** The representative the reader returns: sorted, nothing undefined, one zero. */
  function Canon(v: Js): Js {
    if ReadsAsNull(v) then Null
    else
      match v
      case Num(n) => if n.Zero? then Num(Zero(false)) else v
      case Arr(elems) => Arr(seq(|elems|, i requires 0 <= i < |elems| => Canon(elems[i])))
      case Obj(entries) =>
        var sorted := SortByKey(Defined(entries));
        Obj(seq(|sorted|, i requires 0 <= i < |sorted| =>
          assert sorted[i] in entries;
          Entry(sorted[i].key, Canon(sorted[i].value))))
      case _ => v
  }

  // ---- The reader: RFC 8259 without insignificant whitespace ---------------------------------

  function ReadValue(t: Text): (r: Option<(Js, Text)>)
    ensures r.Some? ==> |r.value.1| < |t|
    decreases |t|, 0
  {
    if t == [] then None
    else if t[0] == LBRACKET then
      if |t| > 1 && t[1] == RBRACKET then Some((Arr([]), t[2..]))
      else match ReadElems(t[1..]) { case None => None case Some((es, rest)) => Some((Arr(es), rest)) }
    else if t[0] == LBRACE then
      if |t| > 1 && t[1] == RBRACE then Some((Obj([]), t[2..]))
      else match ReadEntries(t[1..]) { case None => None case Some((es, rest)) => Some((Obj(es), rest)) }
    else if t[0] == QUOTE then
      match ReadString(t[1..]) { case None => None case Some((s, rest)) => Some((Str(s), rest)) }
    else if NULL_TEXT <= t then Some((Null, t[4..]))
    else if TRUE_TEXT <= t then Some((Bool(true), t[4..]))
    else if FALSE_TEXT <= t then Some((Bool(false), t[5..]))
    else match ReadNumber(t) { case None => None case Some((n, rest)) => Some((Num(n), rest)) }
  }

  /** One or more values, comma separated, through the closing bracket. */
  function ReadElems(t: Text): (r: Option<(seq<Js>, Text)>)
    ensures r.Some? ==> |r.value.1| < |t|
    decreases |t|, 1
  {
    match ReadValue(t)
    case None => None
    case Some((v, rest)) =>
      if rest == [] then None
      else if rest[0] == RBRACKET then Some(([v], rest[1..]))
      else if rest[0] != COMMA then None
      else match ReadElems(rest[1..]) { case None => None case Some((vs, after)) => Some(([v] + vs, after)) }
  }

  function ReadEntry(t: Text): (r: Option<(Entry, Text)>)
    ensures r.Some? ==> |r.value.1| < |t|
    decreases |t|, 0
  {
    if t == [] || t[0] != QUOTE then None
    else
      match ReadString(t[1..])
      case None => None
      case Some((key, rest)) =>
        if rest == [] || rest[0] != COLON then None
        else match ReadValue(rest[1..]) { case None => None case Some((v, after)) => Some((Entry(key, v), after)) }
  }

  function ReadEntries(t: Text): (r: Option<(seq<Entry>, Text)>)
    ensures r.Some? ==> |r.value.1| < |t|
    decreases |t|, 1
  {
    match ReadEntry(t)
    case None => None
    case Some((e, rest)) =>
      if rest == [] then None
      else if rest[0] == RBRACE then Some(([e], rest[1..]))
      else if rest[0] != COMMA then None
      else match ReadEntries(rest[1..]) { case None => None case Some((es, after)) => Some(([e] + es, after)) }
  }

  // ---- The reader inverts the printer ---------------------------------------------------------

  ghost predicate ReadsAs(t: Text, v: Js) {
    forall rest: Text | EndsNumber(rest) :: ReadValue(t + rest) == Some((v, rest))
  }

  ghost predicate ReadsAsEntry(t: Text, e: Entry) {
    forall rest: Text | EndsNumber(rest) :: ReadEntry(t + rest) == Some((e, rest))
  }

  lemma ReadElemsStep(t: Text, v: Js, rest: Text, values: seq<Js>, after: Text)
    requires EndsNumber([COMMA] + rest) && ReadsAs(t, v) && ReadElems(rest) == Some((values, after))
    ensures ReadElems(t + ([COMMA] + rest)) == Some(([v] + values, after))
  {
    hide ReadValue;
    TailOfCons(COMMA, rest);
  }

  lemma ReadElemsLast(t: Text, v: Js, rest: Text)
    requires EndsNumber([RBRACKET] + rest) && ReadsAs(t, v)
    ensures ReadElems(t + ([RBRACKET] + rest)) == Some(([v], rest))
  {
    hide ReadValue;
    TailOfCons(RBRACKET, rest);
  }

  lemma ReadEntriesStep(t: Text, e: Entry, rest: Text, entries: seq<Entry>, after: Text)
    requires EndsNumber([COMMA] + rest) && ReadsAsEntry(t, e) && ReadEntries(rest) == Some((entries, after))
    ensures ReadEntries(t + ([COMMA] + rest)) == Some(([e] + entries, after))
  {
    hide ReadEntry;
    TailOfCons(COMMA, rest);
  }

  lemma ReadEntriesLast(t: Text, e: Entry, rest: Text)
    requires EndsNumber([RBRACE] + rest) && ReadsAsEntry(t, e)
    ensures ReadEntries(t + ([RBRACE] + rest)) == Some(([e], rest))
  {
    hide ReadEntry;
    TailOfCons(RBRACE, rest);
  }

  lemma JoinThen(parts: seq<Text>, rest: Text)
    requires |parts| > 1
    ensures Join(parts) + rest == parts[0] + ([COMMA] + (Join(parts[1..]) + rest))
  {
    Regroup(parts[0], [COMMA] + Join(parts[1..]), rest);
    Regroup([COMMA], Join(parts[1..]), rest);
  }

  lemma {:induction false} ReadElemsInvertsJoin(parts: seq<Text>, values: seq<Js>, rest: Text)
    requires parts != [] && |parts| == |values|
    requires forall i :: 0 <= i < |parts| ==> ReadsAs(parts[i], values[i])
    ensures ReadElems(Join(parts) + ([RBRACKET] + rest)) == Some((values, rest))
  {
    if |parts| == 1 {
      ReadElemsLast(parts[0], values[0], rest);
      assert values == [values[0]];
    } else {
      hide ReadElems, ReadsAs, Join;
      var closing := [RBRACKET] + rest;
      ReadElemsInvertsJoin(parts[1..], values[1..], rest);
      JoinThen(parts, closing);
      ReadElemsStep(parts[0], values[0], Join(parts[1..]) + closing, values[1..], rest);
      assert values == [values[0]] + values[1..];
    }
  }

  lemma {:induction false} ReadEntriesInvertsJoin(parts: seq<Text>, entries: seq<Entry>, rest: Text)
    requires parts != [] && |parts| == |entries|
    requires forall i :: 0 <= i < |parts| ==> ReadsAsEntry(parts[i], entries[i])
    ensures ReadEntries(Join(parts) + ([RBRACE] + rest)) == Some((entries, rest))
  {
    if |parts| == 1 {
      ReadEntriesLast(parts[0], entries[0], rest);
      assert entries == [entries[0]];
    } else {
      hide ReadEntries, ReadsAsEntry, Join;
      var closing := [RBRACE] + rest;
      ReadEntriesInvertsJoin(parts[1..], entries[1..], rest);
      JoinThen(parts, closing);
      ReadEntriesStep(parts[0], entries[0], Join(parts[1..]) + closing, entries[1..], rest);
      assert entries == [entries[0]] + entries[1..];
    }
  }

  lemma ReadEntryInvertsText(key: Text, t: Text, v: Js)
    requires ReadsAs(t, v)
    ensures ReadsAsEntry(EntryText(key, t), Entry(key, v))
  {
    forall rest: Text | EndsNumber(rest)
      ensures ReadEntry(EntryText(key, t) + rest) == Some((Entry(key, v), rest))
    {
      var tail := [COLON] + (t + rest);
      Regroup(Quote(key), [COLON], t);
      Regroup(Quote(key), [COLON] + t, rest);
      Regroup([COLON], t, rest);
      ReadQuoted(key, tail);
      TailOfCons(COLON, t + rest);
    }
  }

  lemma ReadQuoted(s: Text, tail: Text)
    ensures var t := Quote(s) + tail; t != [] && t[0] == QUOTE && ReadString(t[1..]) == Some((s, tail))
  {
    ReadStringInvertsQuote(s, tail);
    var body := Escape(s) + [QUOTE] + tail;
    assert Quote(s) + tail == [QUOTE] + body by {
      Regroup([QUOTE], Escape(s), [QUOTE]);
      Regroup([QUOTE], Escape(s) + [QUOTE], tail);
    }
    TailOfCons(QUOTE, body);
  }

  /** The first unit of a printed value is never a closing bracket, so an empty container cannot be
      mistaken for a full one. */
  lemma FirstUnit(v: Js)
    requires Valid(v)
    ensures Stable(v) != [] && Stable(v)[0] != RBRACKET
  {
    if v.Num? && v.n.Finite? {
      MagnitudeStartsWithDigit(v.n.digits, v.n.point);
    }
  }

  lemma BracketedRegroup(open: CodeUnit, body: Text, close: CodeUnit, rest: Text)
    ensures [open] + body + [close] + rest == [open] + (body + ([close] + rest))
  {
    Regroup([open] + body, [close], rest);
    Regroup([open], body, [close] + rest);
  }

  lemma ReadEmptyArray(rest: Text)
    ensures ReadValue([LBRACKET] + ([RBRACKET] + rest)) == Some((Arr([]), rest))
  {
    var body := [RBRACKET] + rest;
    TailOfCons(LBRACKET, body);
    assert ([LBRACKET] + body)[2..] == rest;
    hide ReadElems, ReadEntries;
  }

  lemma ReadFilledArray(body: Text)
    requires body != [] && body[0] != RBRACKET
    ensures ReadValue([LBRACKET] + body) == match ReadElems(body) case None => None case Some((es, rest)) => Some((Arr(es), rest))
  {
    TailOfCons(LBRACKET, body);
    hide ReadElems, ReadEntries;
  }

  lemma ReadArray(parts: seq<Text>, values: seq<Js>)
    requires |parts| == |values|
    requires forall i :: 0 <= i < |parts| ==> ReadsAs(parts[i], values[i]) && parts[i] != [] && parts[i][0] != RBRACKET
    ensures ReadsAs([LBRACKET] + Join(parts) + [RBRACKET], Arr(values))
  {
    forall rest: Text | EndsNumber(rest)
      ensures ReadValue([LBRACKET] + Join(parts) + [RBRACKET] + rest) == Some((Arr(values), rest))
    {
      BracketedRegroup(LBRACKET, Join(parts), RBRACKET, rest);
      if parts == [] {
        ReadEmptyArray(rest);
        assert Join(parts) + ([RBRACKET] + rest) == [RBRACKET] + rest;
      } else {
        var body := Join(parts) + ([RBRACKET] + rest);
        assert body[0] == parts[0][0];
        ReadElemsInvertsJoin(parts, values, rest);
        ReadFilledArray(body);
      }
      hide ReadValue, ReadElems, Join, EndsNumber;
    }
  }

  lemma ReadEmptyObject(rest: Text)
    ensures ReadValue([LBRACE] + ([RBRACE] + rest)) == Some((Obj([]), rest))
  {
    var body := [RBRACE] + rest;
    TailOfCons(LBRACE, body);
    assert ([LBRACE] + body)[2..] == rest;
    hide ReadElems, ReadEntries;
  }

  lemma ReadFilledObject(body: Text)
    requires body != [] && body[0] != RBRACE
    ensures ReadValue([LBRACE] + body) == match ReadEntries(body) case None => None case Some((es, rest)) => Some((Obj(es), rest))
  {
    TailOfCons(LBRACE, body);
    hide ReadElems, ReadEntries;
  }

  lemma ReadObject(parts: seq<Text>, entries: seq<Entry>)
    requires |parts| == |entries|
    requires forall i :: 0 <= i < |parts| ==> ReadsAsEntry(parts[i], entries[i]) && parts[i] != [] && parts[i][0] != RBRACE
    ensures ReadsAs([LBRACE] + Join(parts) + [RBRACE], Obj(entries))
  {
    forall rest: Text | EndsNumber(rest)
      ensures ReadValue([LBRACE] + Join(parts) + [RBRACE] + rest) == Some((Obj(entries), rest))
    {
      BracketedRegroup(LBRACE, Join(parts), RBRACE, rest);
      if parts == [] {
        ReadEmptyObject(rest);
        assert Join(parts) + ([RBRACE] + rest) == [RBRACE] + rest;
      } else {
        var body := Join(parts) + ([RBRACE] + rest);
        assert body[0] == parts[0][0];
        ReadEntriesInvertsJoin(parts, entries, rest);
        ReadFilledObject(body);
      }
      hide ReadValue, ReadEntries, Join, ReadsAsEntry, EndsNumber;
    }
  }

  lemma WordThen(word: Text, rest: Text)
    ensures word <= word + rest && (word + rest)[|word|..] == rest
  {}

  /** A text that starts as no other value does is read as a number. */
  lemma ReadAsNumber(t: Text)
    requires t != [] && (IsDigitUnit(t[0]) || t[0] == MINUS)
    ensures ReadValue(t) == (match ReadNumber(t) case None => None case Some((n, rest)) => Some((Num(n), rest)))
  {
    hide ReadNumber, ReadString, ReadElems, ReadEntries;
  }

  lemma NumberStart(n: Number)
    requires n.Valid() && (n.Zero? || n.Finite?)
    ensures NumberText(n) != [] && (IsDigitUnit(NumberText(n)[0]) || NumberText(n)[0] == MINUS)
  {
    if n.Finite? { MagnitudeStartsWithDigit(n.digits, n.point); }
    hide MagnitudeText;
  }

  lemma ReadNumberValue(n: Number, rest: Text)
    requires n.Valid() && (n.Zero? || n.Finite?) && EndsNumber(rest)
    ensures ReadValue(NumberText(n) + rest) == Some((Num(if n.Zero? then Zero(false) else n), rest))
  {
    hide ReadNumber, ReadValue, NumberText, EndsNumber;
    NumberStart(n);
    assert (NumberText(n) + rest)[0] == NumberText(n)[0];
    ReadNumberInvertsText(n, rest);
    ReadAsNumber(NumberText(n) + rest);
  }

  lemma ReadNull(rest: Text)
    ensures ReadValue(NULL_TEXT + rest) == Some((Null, rest))
  {
    WordThen(NULL_TEXT, rest);
    hide ReadString, ReadNumber, ReadElems, ReadEntries;
  }

  lemma ReadStr(s: Text, rest: Text)
    ensures ReadValue(Quote(s) + rest) == Some((Str(s), rest))
  {
    ReadQuoted(s, rest);
    hide ReadString, Quote, ReadNumber, ReadElems, ReadEntries;
  }

  lemma ReadBool(b: bool, rest: Text)
    ensures ReadValue((if b then TRUE_TEXT else FALSE_TEXT) + rest) == Some((Bool(b), rest))
  {
    WordThen(if b then TRUE_TEXT else FALSE_TEXT, rest);
    hide ReadString, ReadNumber, ReadElems, ReadEntries;
  }

  lemma ReadScalar(v: Js, rest: Text)
    requires Valid(v) && !v.Arr? && !v.Obj? && EndsNumber(rest)
    ensures ReadValue(Stable(v) + rest) == Some((Canon(v), rest))
  {
    hide ReadValue, NumberText, Quote, EndsNumber;
    match v
    case Undefined => ReadNull(rest);
    case Null => ReadNull(rest);
    case Bool(b) => ReadBool(b, rest);
    case Str(s) => ReadStr(s, rest);
    case Num(n) =>
      if ReadsAsNull(v) { NotANumberPrintsNull(n); ReadNull(rest); } else { ReadNumberValue(n, rest); }
    case Arr(_) =>
    case Obj(_) =>
  }

  lemma NotANumberPrintsNull(n: Number)
    requires n.NotANumber? || n.Infinity?
    ensures NumberText(n) == NULL_TEXT
  {
  }

  lemma {:induction false} ReadInvertsStable(v: Js)
    requires Valid(v)
    ensures ReadsAs(Stable(v), Canon(v))
    decreases v
  {
    match v
    case Arr(elems) =>
      var parts := seq(|elems|, i requires 0 <= i < |elems| => Stable(elems[i]));
      var values := seq(|elems|, i requires 0 <= i < |elems| => Canon(elems[i]));
      forall i | 0 <= i < |elems|
        ensures ReadsAs(parts[i], values[i]) && parts[i] != [] && parts[i][0] != RBRACKET
      {
        ReadInvertsStable(elems[i]);
        FirstUnit(elems[i]);
      }
      ReadArray(parts, values);
    case Obj(entries) =>
      var sorted := SortByKey(Defined(entries));
      var parts := seq(|sorted|, i requires 0 <= i < |sorted| =>
        assert sorted[i] in entries;
        EntryText(sorted[i].key, Stable(sorted[i].value)));
      var values := seq(|sorted|, i requires 0 <= i < |sorted| =>
        assert sorted[i] in entries;
        Entry(sorted[i].key, Canon(sorted[i].value)));
      forall i | 0 <= i < |sorted|
        ensures ReadsAsEntry(parts[i], values[i]) && parts[i] != [] && parts[i][0] != RBRACE
      {
        assert sorted[i] in entries;
        ReadInvertsStable(sorted[i].value);
        ReadEntryInvertsText(sorted[i].key, Stable(sorted[i].value), Canon(sorted[i].value));
      }
      ReadObject(parts, values);
    case _ =>
      forall rest: Text | EndsNumber(rest) ensures ReadValue(Stable(v) + rest) == Some((Canon(v), rest)) {
        ReadScalar(v, rest);
      }
  }

  /** Reading back a whole printed value consumes all of it. */
  lemma ReadStable(v: Js)
    requires Valid(v)
    ensures ReadValue(Stable(v)) == Some((Canon(v), []))
  {
    ReadInvertsStable(v);
    assert Stable(v) + [] == Stable(v);
  }

  // ---- Sorting ------------------------------------------------------------------------------

  lemma {:induction false} InsertKeepsSorted(e: Entry, sorted: seq<Entry>)
    requires SortedByKey(sorted) && forall x | x in sorted :: x.key != e.key
    ensures SortedByKey(Insert(e, sorted))
  {
    if sorted == [] {
    } else if Less(e.key, sorted[0].key) {
      forall j | 0 < j < |sorted| ensures Less(e.key, sorted[j].key) {
        LessIsTransitive(e.key, sorted[0].key, sorted[j].key);
      }
    } else {
      LessIsTotal(e.key, sorted[0].key);
      var tail := Insert(e, sorted[1..]);
      InsertKeepsSorted(e, sorted[1..]);
      forall j | 0 <= j < |tail| ensures Less(sorted[0].key, tail[j].key) {
        assert tail[j] in tail;
      }
    }
  }

  lemma {:induction false} SortSorts(entries: seq<Entry>)
    requires DistinctKeys(entries)
    ensures SortedByKey(SortByKey(entries))
  {
    if entries != [] {
      SortSorts(entries[1..]);
      InsertKeepsSorted(entries[0], SortByKey(entries[1..]));
    }
  }

  lemma HeadPrecedesKeys(s: seq<Entry>, key: Text)
    requires s != [] && SortedByKey(s) && key in Keys(s)
    ensures key == s[0].key || Less(s[0].key, key)
  {
    hide Less;
    var e :| e in s && e.key == key;
  }

  lemma LeastKeyFirst(s: seq<Entry>, t: seq<Entry>)
    requires s != [] && t != [] && SortedByKey(s) && SortedByKey(t) && Keys(s) == Keys(t)
    ensures s[0].key == t[0].key
  {
    hide Less;
    assert s[0] in s && t[0] in t;
    assert s[0].key in Keys(s) && t[0].key in Keys(t);
    HeadPrecedesKeys(s, t[0].key);
    HeadPrecedesKeys(t, s[0].key);
    if s[0].key != t[0].key {
      LessIsTransitive(t[0].key, s[0].key, t[0].key);
      LessIsIrreflexive(t[0].key);
    }
  }

  lemma TailKeys(s: seq<Entry>)
    requires s != [] && SortedByKey(s)
    ensures Keys(s[1..]) == Keys(s) - {s[0].key}
  {
    hide Less;
    assert s == [s[0]] + s[1..];
    forall e | e in s[1..] ensures e.key != s[0].key {
      assert Less(s[0].key, e.key);
      LessIsIrreflexive(e.key);
    }
  }

  /** Two sorted lists with the same keys have them in the same places. */
  lemma {:induction false} SortedKeysAgree(s: seq<Entry>, t: seq<Entry>)
    requires SortedByKey(s) && SortedByKey(t) && Keys(s) == Keys(t)
    ensures |s| == |t| && forall i :: 0 <= i < |s| ==> s[i].key == t[i].key
  {
    hide Less;
    assert s != [] ==> s[0].key in Keys(s);
    assert t != [] ==> t[0].key in Keys(t);
    if s != [] {
      LeastKeyFirst(s, t);
      TailKeys(s);
      TailKeys(t);
      SortedKeysAgree(s[1..], t[1..]);
      forall i | 0 < i < |s| ensures s[i].key == t[i].key {
        assert s[i] == s[1..][i - 1] && t[i] == t[1..][i - 1];
      }
    }
  }

  lemma SortedDefined(entries: seq<Entry>)
    requires DistinctKeys(entries)
    ensures SortedByKey(SortByKey(Defined(entries)))
  {
    SortSorts(Defined(entries));
  }

  // ---- The equality test is exact ---------------------------------------------------------------

  function SortedEntries(v: Js): (r: seq<Entry>)
    requires v.Obj?
    ensures forall e :: e in r <==> e in Defined(v.entries)
  {
    SortByKey(Defined(v.entries))
  }

  lemma ValidEntries(v: Js)
    requires v.Obj? && Valid(v)
    ensures SortedByKey(SortedEntries(v)) && Keys(SortedEntries(v)) == Keys(Defined(v.entries))
    ensures forall e | e in SortedEntries(v) :: Valid(e.value) && e in v.entries
  {
    SortedDefined(v.entries);
  }

  lemma SameKeysAgree(a: Js, b: Js)
    requires a.Obj? && b.Obj? && Valid(a) && Valid(b) && Same(a, b)
    ensures var s, t := SortedEntries(a), SortedEntries(b);
            |s| == |t| && forall i :: 0 <= i < |s| ==> s[i].key == t[i].key && Same(s[i].value, t[i].value)
  {
    var s, t := SortedEntries(a), SortedEntries(b);
    ValidEntries(a);
    ValidEntries(b);
    hide SortByKey, SortedEntries, Less, Valid;
    SortedKeysAgree(s, t);
    forall i | 0 <= i < |s| ensures Same(s[i].value, t[i].value) {
      assert s[i] in s && t[i] in t;
    }
  }

  lemma ArraysPrintAlike(a: Js, b: Js)
    requires a.Arr? && b.Arr? && Valid(a) && Valid(b) && |a.elems| == |b.elems|
    requires forall i :: 0 <= i < |a.elems| ==> Stable(a.elems[i]) == Stable(b.elems[i])
    ensures Stable(a) == Stable(b)
  {
    assert seq(|a.elems|, i requires 0 <= i < |a.elems| => Stable(a.elems[i]))
        == seq(|b.elems|, i requires 0 <= i < |b.elems| => Stable(b.elems[i]));
  }

  lemma ObjectText(v: Js, parts: seq<Text>)
    requires v.Obj? && Valid(v) && |parts| == |SortedEntries(v)|
    requires forall i :: 0 <= i < |parts| ==>
      var e := SortedEntries(v)[i]; e in SortedEntries(v) && parts[i] == EntryText(e.key, Stable(e.value))
    ensures Stable(v) == [LBRACE] + Join(parts) + [RBRACE]
  {
    hide EntryText, Join;
    var sorted := SortByKey(Defined(v.entries));
    assert parts == seq(|sorted|, i requires 0 <= i < |sorted| =>
      assert sorted[i] in v.entries;
      EntryText(sorted[i].key, Stable(sorted[i].value)));
  }

  lemma {:induction false} SamePrintsAlike(a: Js, b: Js)
    requires Valid(a) && Valid(b) && Same(a, b)
    ensures Stable(a) == Stable(b)
    decreases a
  {
    if a.Arr? {
      forall i | 0 <= i < |a.elems| ensures Stable(a.elems[i]) == Stable(b.elems[i]) {
        SamePrintsAlike(a.elems[i], b.elems[i]);
      }
      ArraysPrintAlike(a, b);
    } else if a.Obj? {
      SameKeysAgree(a, b);
      ValidEntries(a);
      ValidEntries(b);
      var s, t := SortedEntries(a), SortedEntries(b);
      hide SortedEntries, EntryText, Same, Valid;
      var parts := seq(|s|, i requires 0 <= i < |s| => assert s[i] in s; EntryText(s[i].key, Stable(s[i].value)));
      forall i | 0 <= i < |s|
        ensures t[i] in t && Valid(t[i].value) && parts[i] == EntryText(t[i].key, Stable(t[i].value))
      {
        assert s[i] in s && t[i] in t;
        SamePrintsAlike(s[i].value, t[i].value);
      }
      ObjectText(a, parts);
      ObjectText(b, parts);
    }
  }

  lemma CanonEntries(v: Js)
    requires v.Obj?
    ensures Canon(v).Obj? && |Canon(v).entries| == |SortedEntries(v)|
    ensures forall i :: 0 <= i < |SortedEntries(v)| ==>
      var e := SortedEntries(v)[i]; e in SortedEntries(v) && Canon(v).entries[i] == Entry(e.key, Canon(e.value))
  {}

  lemma {:induction false} SameCanonIsSame(a: Js, b: Js)
    requires Valid(a) && Valid(b) && Canon(a) == Canon(b)
    ensures Same(a, b)
    decreases a
  {
    if a.Arr? && b.Arr? {
      forall i | 0 <= i < |a.elems| ensures Same(a.elems[i], b.elems[i]) {
        assert Canon(a).elems[i] == Canon(b).elems[i];
        SameCanonIsSame(a.elems[i], b.elems[i]);
      }
    } else if a.Obj? && b.Obj? {
      SameCanonObjects(a, b);
    }
  }

  lemma {:induction false} SameCanonObjects(a: Js, b: Js)
    requires a.Obj? && b.Obj? && Valid(a) && Valid(b) && Canon(a) == Canon(b)
    ensures Same(a, b)
    decreases a, 0
  {
    CanonEntries(a);
    CanonEntries(b);
    ValidEntries(a);
    ValidEntries(b);
    var s, t := SortedEntries(a), SortedEntries(b);
    hide SortedEntries, Canon, Valid, Same, Less;
    forall i | 0 <= i < |s| ensures s[i].key == t[i].key && Same(s[i].value, t[i].value) {
      assert Canon(a).entries[i] == Canon(b).entries[i];
      assert s[i] in s && t[i] in t;
      SameCanonIsSame(s[i].value, t[i].value);
    }
    AlignedObjects(a, b);
  }

  lemma AlignedObjects(a: Js, b: Js)
    requires a.Obj? && b.Obj? && Valid(a) && Valid(b)
    requires var s, t := SortedEntries(a), SortedEntries(b);
             |s| == |t| && forall i :: 0 <= i < |s| ==> s[i].key == t[i].key && Same(s[i].value, t[i].value)
    ensures Same(a, b)
  {
    ValidEntries(a);
    ValidEntries(b);
    var s, t := SortedEntries(a), SortedEntries(b);
    hide SortedEntries, Valid, Same, SortedByKey;
    KeysOfAligned(s, t);
    forall e, f | e in s && f in t && e.key == f.key ensures Same(e.value, f.value) {
      var i :| 0 <= i < |s| && s[i] == e;
      var j :| 0 <= j < |t| && t[j] == f;
      SortedPositions(s, i, j);
    }
    SameObjects(a, b);
  }

  lemma SameObjects(a: Js, b: Js)
    requires a.Obj? && b.Obj?
    requires Keys(Defined(a.entries)) == Keys(Defined(b.entries))
    requires forall e, f | e in SortedEntries(a) && f in SortedEntries(b) && e.key == f.key :: Same(e.value, f.value)
    ensures Same(a, b)
  {}

  lemma KeysOfAligned(s: seq<Entry>, t: seq<Entry>)
    requires |s| == |t| && forall i :: 0 <= i < |s| ==> s[i].key == t[i].key
    ensures Keys(s) == Keys(t)
  {
    forall key ensures key in Keys(s) <==> key in Keys(t) {
      if key in Keys(s) {
        var i :| 0 <= i < |s| && s[i].key == key;
        assert t[i] in t;
      }
      if key in Keys(t) {
        var i :| 0 <= i < |t| && t[i].key == key;
        assert s[i] in s;
      }
    }
  }

  lemma SortedPositions(s: seq<Entry>, i: nat, j: nat)
    requires SortedByKey(s) && i < |s| && j < |s| && s[i].key == s[j].key
    ensures i == j
  {
    LessIsIrreflexive(s[i].key);
  }

  /** Equal strings exactly for equal values. */
  lemma StableDecidesSame(a: Js, b: Js)
    requires Valid(a) && Valid(b)
    ensures Stable(a) == Stable(b) <==> Same(a, b)
  {
    if Stable(a) == Stable(b) {
      ReadStable(a);
      ReadStable(b);
      SameCanonIsSame(a, b);
    }
    if Same(a, b) { SamePrintsAlike(a, b); }
  }
}
