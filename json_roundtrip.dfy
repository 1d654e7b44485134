/**
 * Decoding the text of a document gives back its meaning: the round trip of
 * `from_bytes` in json/src/lib.rs against the encoding of module JsonEncoding,
 * whatever whitespace the layout puts between the tokens.
 */
module JsonRoundTrip {
  import opened Bytes
  import opened Utf8
  import opened JsonSpec
  import opened JsonProperties
  import opened JsonEncoding

  // Single steps of the decoder on known bytes, so that the proofs below
  // unfold one decoder at a time.

  lemma FromBytesAt(scan: Scan, s: seq<Byte>, pos: nat)
    requires pos < |s| && !IsWhitespace(s[pos])
    ensures FromBytes(scan, s, pos) == Dispatch(scan, s[pos], s, pos + 1)
  {
    assert SkipSpace(s, pos) == pos;
  }

  lemma DispatchLiteral(scan: Scan, c: Byte, s: seq<Byte>, pos: nat)
    requires pos <= |s| && (c == 't' as int || c == 'f' as int || c == 'n' as int)
    ensures var lit := if c == 't' as int then LIT_TRUE else if c == 'f' as int then LIT_FALSE else LIT_NULL;
      var v := if c == 't' as int then Bool(true) else if c == 'f' as int then Bool(false) else Null;
      MatchLitStr(lit, s, pos).Ok? ==> Dispatch(scan, c, s, pos) == Ok(Parsed(v, MatchLitStr(lit, s, pos).value))
  {
  }

  lemma DispatchNumber(scan: Scan, c: Byte, s: seq<Byte>, pos: nat)
    requires pos <= |s| && IsDigit(c) && GetNumber(scan, c, s, pos).Ok?
    ensures Dispatch(scan, c, s, pos) ==
      Ok(Parsed(Number(GetNumber(scan, c, s, pos).value.value), GetNumber(scan, c, s, pos).value.next))
  {
  }

  lemma DispatchString(scan: Scan, s: seq<Byte>, pos: nat)
    requires pos <= |s| && GetString(s, pos).Ok?
    ensures Dispatch(scan, QUOTE, s, pos) == Ok(Parsed(String(GetString(s, pos).value.value), GetString(s, pos).value.next))
  {
  }

  lemma DispatchArray(scan: Scan, s: seq<Byte>, pos: nat)
    requires pos <= |s| && GetArray(scan, s, pos).Ok?
    ensures Dispatch(scan, LBRACKET, s, pos) == Ok(Parsed(Array(GetArray(scan, s, pos).value.value), GetArray(scan, s, pos).value.next))
  {
  }

  lemma DispatchObject(scan: Scan, s: seq<Byte>, pos: nat)
    requires pos <= |s| && GetObject(scan, s, pos).Ok?
    ensures Dispatch(scan, LBRACE, s, pos) == Ok(Parsed(Object(GetObject(scan, s, pos).value.value), GetObject(scan, s, pos).value.next))
  {
  }

  /** `get_array` over whitespace to the first byte of a value: the element, then the loop after it. */
  lemma GetArrayFirst(scan: Scan, s: seq<Byte>, pos: nat, p: nat, v: Value, q: nat)
    requires pos <= p < |s| && AllWhitespace(s, pos, p) && IsValueStart(s[p])
    requires FromBytes(scan, s, pos) == Ok(Parsed(v, q))
    ensures GetArray(scan, s, pos) == ArrayTail(scan, s, q, [v])
  {
    GetArraySkipsSpace(scan, s, pos, p);
    LeadingWhitespace(scan, s, pos, p);
  }

  /** The loop of `get_array_content` on `]`. */
  lemma ArrayTailClose(scan: Scan, s: seq<Byte>, pos: nat, acc: seq<Value>, r: nat)
    requires pos <= |s| && NextToken(s, pos) == Ok(Parsed(RBRACKET, r + 1))
    ensures ArrayTail(scan, s, pos, acc) == Ok(Parsed(acc, r + 1))
  {
  }

  /** The loop of `get_array_content` on `,` and an element `v` ending at `q`. */
  lemma ArrayTailNext(scan: Scan, s: seq<Byte>, pos: nat, acc: seq<Value>, r: nat, v: Value, q: nat)
    requires pos <= |s| && NextToken(s, pos) == Ok(Parsed(COMMA, r + 1))
    requires FromBytes(scan, s, r + 1) == Ok(Parsed(v, q))
    ensures ArrayTail(scan, s, pos, acc) == ArrayTail(scan, s, q, acc + [v])
  {
  }

  /** `get_object` at a quote after whitespace: the member loop, from before the whitespace. */
  lemma GetObjectFirst(scan: Scan, s: seq<Byte>, pos: nat, p: nat)
    requires pos <= p < |s| && AllWhitespace(s, pos, p) && s[p] == QUOTE
    ensures GetObject(scan, s, pos) == ObjectMembers(scan, s, pos, map[])
  {
    GetObjectSkipsSpace(scan, s, pos, p);
    TokenAfter(s, pos, p);
    assert SkipSpace(s, p) == p;
    assert Member(scan, s, p) == Member(scan, s, pos);
    assert GetObject(scan, s, p) == GetObjectContent(scan, s, p) == ObjectMembers(scan, s, p, map[]);
    assert ObjectMembers(scan, s, p, map[]) == ObjectMembers(scan, s, pos, map[]);
  }

  /** A key, a colon and a value, each after its token, make one member. */
  lemma MemberChain(scan: Scan, s: seq<Byte>, pos: nat, p1: nat, k: Str, p2: nat, p3: nat, v: Value, q: nat)
    requires pos <= |s| && NextToken(s, pos) == Ok(Parsed(QUOTE, p1 + 1))
    requires p1 + 1 <= |s| && GetString(s, p1 + 1) == Ok(Parsed(k, p2))
    requires p2 <= |s| && NextToken(s, p2) == Ok(Parsed(COLON, p3))
    requires p3 <= |s| && FromBytes(scan, s, p3) == Ok(Parsed(v, q))
    ensures Member(scan, s, pos) == Ok(Parsed((k, v), q))
  {
  }

  /** The outer loop of `get_object_content` after a member: the inner loop, with the member added. */
  lemma MembersNext(scan: Scan, s: seq<Byte>, pos: nat, acc: map<Str, Value>, k: Str, v: Value, q: nat)
    requires pos <= |s| && Member(scan, s, pos) == Ok(Parsed((k, v), q))
    ensures ObjectMembers(scan, s, pos, acc) == MemberEnd(scan, s, q, Insert(acc, k, v))
  {
  }

  /** Whitespace from `pos` up to a byte `r` that is not whitespace: that byte is the next token. */
  lemma TokenAfter(s: seq<Byte>, pos: nat, r: nat)
    requires pos <= r < |s| && AllWhitespace(s, pos, r) && !IsWhitespace(s[r])
    ensures NextToken(s, pos) == Ok(Parsed(s[r], r + 1))
  {
    SkipSpaceOverWhitespace(s, pos, r);
    assert SkipSpace(s, r) == r;
  }

  /** Whitespace from `q` up to a byte that is no digit: a number ending at `q` cannot go on. */
  lemma DelimitedBefore(s: seq<Byte>, q: nat, r: nat)
    requires q <= r < |s| && AllWhitespace(s, q, r) && !IsDigit(s[r])
    ensures Delimited(s, q)
  {
    if q < r {
      assert IsWhitespace(s[q]);
    }
  }

  /**
   * Round trip of `from_bytes`: the text of a readable document, followed by
   * anything that cannot continue a number, decodes to its meaning and ends
   * at `end`, just after the text.
   */
  lemma {:induction false} DecodeEncoded(scan: Scan, d: Doc, s: seq<Byte>, pos: nat, end: nat)
    requires Readable(scan, d) && Occurs(Encode(d), s, pos)
    requires end == pos + |Encode(d)| && Delimited(s, end)
    ensures FromBytes(scan, s, pos) == Ok(Parsed(Meaning(d), end))
    decreases d, 3
  {
    match d
    case DNull => DecodeLiteral(scan, d, s, pos, end);
    case DBool(_) => DecodeLiteral(scan, d, s, pos, end);
    case DNumber(n) => DecodeNumber(n, s, pos, end);
    case DString(t) => DecodeString(scan, t, s, pos, end);
    case DArray(items, close) => DecodeArrayText(scan, items, close, s, pos, end);
    case DObject(entries, close) => DecodeObjectText(scan, entries, close, s, pos, end);
  }

  /**
   * Decoding a whole input that is the text of a readable element, with its
   * whitespace before and after, gives back the meaning of its value.
   */
  lemma RoundTrip(scan: Scan, e: Element)
    requires ElementReadable(scan, e)
    ensures Decode(scan, EncodeElement(e)) == Ok(ElementMeaning(e))
  {
    var s := EncodeElement(e);
    var p := |e.before|;
    var q := p + |Encode(e.value)|;
    OccursIsSlice(s, s, 0);
    assert s[0..|s|] == s;
    Occurs3(e.before, Encode(e.value), e.after, s, 0);
    BlankAt(e.before, s, 0);
    BlankAt(e.after, s, q);
    LeadingWhitespace(scan, s, 0, p);
    if q < |s| {
      assert IsWhitespace(s[q]);
    }
    DecodeEncoded(scan, e.value, s, p, q);
  }

  /** The rest of a literal in the text is matched by `match_lit_str`. */
  lemma LiteralOccurs(lit: seq<Byte>, s: seq<Byte>, pos: nat)
    requires |lit| > 0 && Occurs(lit[1..], s, pos)
    ensures pos <= |s| && MatchLitStr(lit, s, pos) == Ok(pos + |lit| - 1)
  {
  }

  lemma DecodeLiteral(scan: Scan, d: Doc, s: seq<Byte>, pos: nat, end: nat)
    requires (d.DNull? || d.DBool?) && Occurs(Encode(d), s, pos) && end == pos + |Encode(d)|
    ensures FromBytes(scan, s, pos) == Ok(Parsed(Meaning(d), end))
  {
    var e := Encode(d);
    OccursByte(e, s, pos, 0);
    FromBytesAt(scan, s, pos);
    OccursSlice(e, s, pos, 1, |e|);
    LiteralOccurs(e, s, pos + 1);
    DispatchLiteral(scan, e[0], s, pos + 1);
  }

  /** Numbers go through the corrected scanner: the one as written drops digits. */
  lemma DecodeNumber(n: Natural, s: seq<Byte>, pos: nat, end: nat)
    requires Occurs(Decimal(n), s, pos) && end == pos + |Decimal(n)| && Delimited(s, end)
    ensures FromBytes(Corrected, s, pos) == Ok(Parsed(Number(n), end))
  {
    DecodeDecimal(n, s, pos, end);
    FromBytesAt(Corrected, s, pos);
    DispatchNumber(Corrected, s[pos], s, pos + 1);
  }

  lemma DecodeString(scan: Scan, t: Str, s: seq<Byte>, pos: nat, end: nat)
    requires Escapable(t) && ValidUtf8(t) && Occurs([QUOTE] + Escape(t) + [QUOTE], s, pos)
    requires end == pos + |Escape(t)| + 2
    ensures FromBytes(scan, s, pos) == Ok(Parsed(String(t), end))
  {
    assert [QUOTE] + Escape(t) + [QUOTE] == [QUOTE] + (Escape(t) + [QUOTE]);
    OccursSplit([QUOTE], Escape(t) + [QUOTE], s, pos);
    OccursByte([QUOTE], s, pos, 0);
    StringAt(t, s, pos + 1, end);
    FromBytesAt(scan, s, pos);
    DispatchString(scan, s, pos + 1);
  }

  /** `GetStringEscaped` for a valid key or string, ending at `end`. */
  lemma StringAt(t: Str, s: seq<Byte>, pos: nat, end: nat)
    requires Escapable(t) && ValidUtf8(t) && Occurs(Escape(t) + [QUOTE], s, pos)
    requires end == pos + |Escape(t)| + 1
    ensures GetString(s, pos) == Ok(Parsed(t, end))
  {
    GetStringEscaped(t, s, pos);
  }

  lemma {:induction false} DecodeArrayText(scan: Scan, items: seq<Element>, close: seq<Byte>, s: seq<Byte>, pos: nat, end: nat)
    requires AllReadable(scan, items) && Blank(close)
    requires Occurs([LBRACKET] + EncodeItems(items, true) + close + [RBRACKET], s, pos)
    requires end == pos + |EncodeItems(items, true)| + |close| + 2
    ensures FromBytes(scan, s, pos) == Ok(Parsed(Array(Meanings(items)), end))
    decreases items, 3
  {
    var e := [LBRACKET] + EncodeItems(items, true) + close + [RBRACKET];
    OccursByte(e, s, pos, 0);
    assert pos < |s| && s[pos] == LBRACKET && !IsWhitespace(s[pos]);
    FromBytesAt(scan, s, pos);
    OccursSlice(e, s, pos, 1, |e|);
    assert e[1..] == EncodeItems(items, true) + close + [RBRACKET];
    DecodeArray(scan, items, close, s, pos + 1, end);
    DispatchArray(scan, s, pos + 1);
  }

  lemma {:induction false} DecodeObjectText(scan: Scan, entries: seq<Entry>, close: seq<Byte>, s: seq<Byte>, pos: nat, end: nat)
    requires EntriesReadable(scan, entries) && Blank(close)
    requires Occurs([LBRACE] + EncodeEntries(entries, true) + close + [RBRACE], s, pos)
    requires end == pos + |EncodeEntries(entries, true)| + |close| + 2
    ensures FromBytes(scan, s, pos) == Ok(Parsed(Object(MembersMeaning(entries, map[])), end))
    decreases entries, 5
  {
    var e := [LBRACE] + EncodeEntries(entries, true) + close + [RBRACE];
    OccursByte(e, s, pos, 0);
    assert pos < |s| && s[pos] == LBRACE && !IsWhitespace(s[pos]);
    FromBytesAt(scan, s, pos);
    OccursSlice(e, s, pos, 1, |e|);
    assert e[1..] == EncodeEntries(entries, true) + close + [RBRACE];
    DecodeObject(scan, entries, close, s, pos + 1, end);
    DispatchObject(scan, s, pos + 1);
  }

  // ------------------------------------------------------------------ arrays

  /** `get_array` on the text of an array after its `[`. */
  lemma {:induction false} DecodeArray(scan: Scan, items: seq<Element>, close: seq<Byte>, s: seq<Byte>, pos: nat, end: nat)
    requires AllReadable(scan, items) && Blank(close)
    requires Occurs(EncodeItems(items, true) + close + [RBRACKET], s, pos)
    requires end == pos + |EncodeItems(items, true)| + |close| + 1
    ensures GetArray(scan, s, pos) == Ok(Parsed(Meanings(items), end))
    decreases items, 2
  {
    if |items| == 0 {
      assert [] + EncodeItems(items, true) + close + [RBRACKET] == EncodeItems(items, true) + close + [RBRACKET];
      SeparatorAt([], EncodeItems(items, true), close, RBRACKET, s, pos);
      EmptyArray(scan, s, pos, pos + |close|);
    } else {
      NonEmptyArray(scan, items, close, s, pos, end);
    }
  }

  /**
   * A non-empty array: the peek loop passes over the whitespace before the
   * first element, which `get_array_content` decodes; then the loop over the
   * others.
   */
  lemma {:induction false} NonEmptyArray(scan: Scan, items: seq<Element>, close: seq<Byte>, s: seq<Byte>, pos: nat, end: nat)
    requires |items| > 0 && AllReadable(scan, items) && Blank(close)
    requires Occurs(EncodeItems(items, true) + close + [RBRACKET], s, pos)
    requires end == pos + |EncodeItems(items, true)| + |close| + 1
    ensures GetArray(scan, s, pos) == Ok(Parsed(Meanings(items), end))
    decreases items, 1
  {
    var v := ElementMeaning(items[0]);
    var p, q := FirstItem(scan, items, close, s, pos);
    GetArrayFirst(scan, s, pos, p, v, q);
    DecodeItems(scan, items[1..], close, items[0].after, s, q, [v], end);
    MeaningsCons([], items);
    assert [] + [v] == [v];
  }

  /**
   * The first of `items`, read from `pos`: `from_bytes` skips the whitespace
   * up to the value, which starts at `p` and ends at `q`.
   */
  lemma {:induction false} FirstItem(scan: Scan, items: seq<Element>, close: seq<Byte>, s: seq<Byte>, pos: nat)
      returns (p: nat, q: nat)
    requires |items| > 0 && AllReadable(scan, items) && Blank(close)
    requires Occurs(EncodeItems(items, true) + close + [RBRACKET], s, pos)
    ensures pos <= p < |s| && AllWhitespace(s, pos, p) && IsValueStart(s[p])
    ensures FromBytes(scan, s, pos) == Ok(Parsed(ElementMeaning(items[0]), q))
    ensures Occurs(items[0].after + EncodeItems(items[1..], false) + close + [RBRACKET], s, q)
    ensures |EncodeItems(items, true)| == q - pos + |items[0].after| + |EncodeItems(items[1..], false)|
    ensures AllReadable(scan, items[1..]) && Blank(items[0].after)
    decreases items, 0
  {
    var e := items[0];
    ItemsParts(scan, items);
    ElementParts(scan, e);
    p, q := ItemsLayout(items, close, s, pos);
    BlankAt(e.before, s, pos);
    OccursByte(Encode(e.value), s, p, 0);
    EndOfValue(scan, e, EncodeItems(items[1..], false), close, RBRACKET, s, q);
    ValueAt(scan, e, s, pos, q);
  }

  /**
   * The loop of `get_array_content` after the whitespace `w`, over the
   * elements `items` that follow a comma each, and the whitespace `close`
   * before `]`.
   */
  lemma {:induction false} DecodeItems(scan: Scan, items: seq<Element>, close: seq<Byte>, w: seq<Byte>, s: seq<Byte>,
                                       pos: nat, acc: seq<Value>, end: nat)
    requires Blank(w) && Blank(close) && AllReadable(scan, items)
    requires Occurs(w + EncodeItems(items, false) + close + [RBRACKET], s, pos)
    requires end == pos + |w| + |EncodeItems(items, false)| + |close| + 1
    ensures ArrayTail(scan, s, pos, acc) == Ok(Parsed(acc + Meanings(items), end))
    decreases items, 2
  {
    var r := ItemsSeparator(items, close, w, s, pos, end);
    TokenAfter(s, pos, r);
    if |items| == 0 {
      ArrayTailClose(scan, s, pos, acc, r);
      assert acc + Meanings(items) == acc;
    } else {
      var v := ElementMeaning(items[0]);
      var _, q := FirstItem(scan, items, close, s, r + 1);
      ArrayTailNext(scan, s, pos, acc, r, v, q);
      DecodeItems(scan, items[1..], close, items[0].after, s, q, acc + [v], end);
      MeaningsCons(acc, items);
    }
  }

  /**
   * Where the loop of `get_array_content` goes on after the whitespace `w`:
   * `]` at `r` if no element is left, else `,` at `r` and the elements after it.
   */
  lemma ItemsSeparator(items: seq<Element>, close: seq<Byte>, w: seq<Byte>, s: seq<Byte>, pos: nat, end: nat)
      returns (r: nat)
    requires Blank(w) && Blank(close)
    requires Occurs(w + EncodeItems(items, false) + close + [RBRACKET], s, pos)
    requires end == pos + |w| + |EncodeItems(items, false)| + |close| + 1
    ensures pos <= r < |s| && AllWhitespace(s, pos, r) && !IsWhitespace(s[r])
    ensures |items| == 0 ==> s[r] == RBRACKET && end == r + 1
    ensures |items| > 0 ==> s[r] == COMMA
                            && Occurs(EncodeItems(items, true) + close + [RBRACKET], s, r + 1)
                            && end == r + 1 + |EncodeItems(items, true)| + |close| + 1
  {
    SeparatorAt(w, EncodeItems(items, false), close, RBRACKET, s, pos);
    r := pos + |w| + (if |items| == 0 then |close| else 0);
    if |items| > 0 {
      assert w + EncodeItems(items, false) + close + [RBRACKET] == w + (EncodeItems(items, false) + close + [RBRACKET]);
      OccursSplit(w, EncodeItems(items, false) + close + [RBRACKET], s, pos);
      ItemsAfterComma(items, close, s, r);
    }
  }

  lemma MeaningsCons(acc: seq<Value>, items: seq<Element>)
    requires |items| > 0
    ensures acc + [ElementMeaning(items[0])] + Meanings(items[1..]) == acc + Meanings(items)
  {
    assert Meanings(items) == [ElementMeaning(items[0])] + Meanings(items[1..]);
  }

  // ------------------------------------------------------------------ objects

  /** `get_object` on the text of an object after its `{`. */
  lemma {:induction false} DecodeObject(scan: Scan, entries: seq<Entry>, close: seq<Byte>, s: seq<Byte>, pos: nat, end: nat)
    requires EntriesReadable(scan, entries) && Blank(close)
    requires Occurs(EncodeEntries(entries, true) + close + [RBRACE], s, pos)
    requires end == pos + |EncodeEntries(entries, true)| + |close| + 1
    ensures GetObject(scan, s, pos) == Ok(Parsed(MembersMeaning(entries, map[]), end))
    decreases entries, 4
  {
    if |entries| == 0 {
      assert [] + EncodeEntries(entries, true) + close + [RBRACE] == EncodeEntries(entries, true) + close + [RBRACE];
      SeparatorAt([], EncodeEntries(entries, true), close, RBRACE, s, pos);
      EmptyObject(scan, s, pos, pos + |close|);
    } else {
      var p := ObjectStart(scan, entries, close, s, pos);
      GetObjectFirst(scan, s, pos, p);
      DecodeMembers(scan, entries, close, s, pos, map[], end);
    }
  }

  /**
   * The text of the non-empty, readable `entries`, then the whitespace
   * `close` and `}`, from `pos`, ending at `end`.
   */
  predicate MembersAt(scan: Scan, entries: seq<Entry>, close: seq<Byte>, s: seq<Byte>, pos: nat, end: nat) {
    && |entries| > 0 && EntriesReadable(scan, entries) && Blank(close)
    && Occurs(EncodeEntries(entries, true) + close + [RBRACE], s, pos)
    && end == pos + |EncodeEntries(entries, true)| + |close| + 1
  }

  /** The quote of the first key of `entries`, at `p`, after whitespace. */
  lemma ObjectStart(scan: Scan, entries: seq<Entry>, close: seq<Byte>, s: seq<Byte>, pos: nat) returns (p: nat)
    requires |entries| > 0 && EntriesReadable(scan, entries)
    requires Occurs(EncodeEntries(entries, true) + close + [RBRACE], s, pos)
    ensures pos <= p < |s| && AllWhitespace(s, pos, p) && s[p] == QUOTE
  {
    var e := entries[0];
    assert EntryWellFormed(e);
    EntryLayout(entries, close, s, pos);
    assert MemberLaidOut(e, s, pos);
    BlankAt(e.before, s, pos);
    p := pos + |e.before|;
  }

  /** The outer loop of `get_object_content` over the members `entries`. */
  lemma {:induction false} DecodeMembers(scan: Scan, entries: seq<Entry>, close: seq<Byte>, s: seq<Byte>, pos: nat,
                                         acc: map<Str, Value>, end: nat)
    requires MembersAt(scan, entries, close, s, pos, end)
    ensures ObjectMembers(scan, s, pos, acc) == Ok(Parsed(MembersMeaning(entries, acc), end))
    decreases entries, 3
  {
    var r := MemberStep(scan, entries, close, s, pos, acc, end);
    if |entries| > 1 {
      MoreMembers(scan, entries, close, s, pos, acc, end, r);
    }
  }

  /** The outer loop of `get_object_content` after `,` at `r`: the other members. */
  lemma {:induction false} MoreMembers(scan: Scan, entries: seq<Entry>, close: seq<Byte>, s: seq<Byte>, pos: nat,
                                       acc: map<Str, Value>, end: nat, r: nat)
    requires |entries| > 1 && MembersAt(scan, entries[1..], close, s, r + 1, end)
    requires var acc' := Insert(acc, entries[0].key, EntryMeaning(entries[0]));
      && pos <= |s| && r < |s|
      && MembersMeaning(entries, acc) == MembersMeaning(entries[1..], acc')
      && ObjectMembers(scan, s, pos, acc) == ObjectMembers(scan, s, r + 1, acc')
    ensures ObjectMembers(scan, s, pos, acc) == Ok(Parsed(MembersMeaning(entries, acc), end))
    decreases entries, 2
  {
    DecodeMembers(scan, entries[1..], close, s, r + 1, Insert(acc, entries[0].key, EntryMeaning(entries[0])), end);
  }

  /**
   * One turn of the outer loop of `get_object_content`: the first member of
   * `entries` is added, then `}` ends the object at `end` or `,` at `r` leads
   * to the rest.
   */
  lemma {:induction false} MemberStep(scan: Scan, entries: seq<Entry>, close: seq<Byte>, s: seq<Byte>, pos: nat,
                                      acc: map<Str, Value>, end: nat)
      returns (r: nat)
    requires MembersAt(scan, entries, close, s, pos, end)
    ensures r < |s|
    ensures var acc' := Insert(acc, entries[0].key, EntryMeaning(entries[0]));
      && MembersMeaning(entries, acc) == MembersMeaning(entries[1..], acc')
      && (|entries| == 1 ==> ObjectMembers(scan, s, pos, acc) == Ok(Parsed(MembersMeaning(entries, acc), end)))
      && (|entries| > 1 ==> ObjectMembers(scan, s, pos, acc) == ObjectMembers(scan, s, r + 1, acc'))
    ensures |entries| > 1 ==> MembersAt(scan, entries[1..], close, s, r + 1, end)
    decreases entries, 1
  {
    var e := entries[0];
    var acc' := Insert(acc, e.key, EntryMeaning(e));
    var q := FirstMember(scan, entries, close, s, pos);
    r := AfterMember(scan, entries, close, s, q, acc', end);
    MembersNext(scan, s, pos, acc, e.key, EntryMeaning(e), q);
    MembersMeaningCons(entries, acc);
    if |entries| == 1 {
      assert MembersMeaning(entries[1..], acc') == acc';
    }
  }

  /**
   * The first member of `entries`, read from `pos`: its key and the meaning
   * of its value, which ends at `q`, before the rest of the object text.
   */
  lemma {:induction false} FirstMember(scan: Scan, entries: seq<Entry>, close: seq<Byte>, s: seq<Byte>, pos: nat)
      returns (q: nat)
    requires |entries| > 0 && EntriesReadable(scan, entries) && Blank(close)
    requires Occurs(EncodeEntries(entries, true) + close + [RBRACE], s, pos)
    ensures Member(scan, s, pos) == Ok(Parsed((entries[0].key, EntryMeaning(entries[0])), q))
    ensures Occurs(entries[0].value.after + EncodeEntries(entries[1..], false) + close + [RBRACE], s, q)
    ensures |EncodeEntries(entries, true)| == q - pos + |entries[0].value.after| + |EncodeEntries(entries[1..], false)|
    ensures ElementReadable(scan, entries[0].value) && EntriesReadable(scan, entries[1..])
    decreases entries, 0
  {
    var e := entries[0];
    q := ValueEnd(e, pos);
    EntryParts(scan, entries);
    EntryLayout(entries, close, s, pos);
    EndOfValue(scan, e.value, EncodeEntries(entries[1..], false), close, RBRACE, s, q);
    MemberAt(scan, e, s, pos);
  }

  /** A readable element's value, ending at `q`, cannot go on: whitespace, `,` or a closing byte follow. */
  lemma EndOfValue(scan: Scan, el: Element, x: seq<Byte>, close: seq<Byte>, c: Byte, s: seq<Byte>, q: nat)
    requires ElementReadable(scan, el) && Blank(close) && !IsDigit(c) && (|x| > 0 ==> x[0] == COMMA)
    requires Occurs(el.after + x + close + [c], s, q)
    ensures Delimited(s, q)
  {
    ElementParts(scan, el);
    SeparatorAt(el.after, x, close, c, s, q);
    DelimitedBefore(s, q, q + |el.after| + (if |x| == 0 then |close| else 0));
  }

  lemma MembersMeaningCons(entries: seq<Entry>, acc: map<Str, Value>)
    requires |entries| > 0
    ensures MembersMeaning(entries, acc) == MembersMeaning(entries[1..], Insert(acc, entries[0].key, EntryMeaning(entries[0])))
  {
  }

  /**
   * The inner loop of `get_object_content` after the value of the first of
   * `entries`, ending at `q`: `}` closes the object if it was the last, and
   * otherwise `,` leads to the next member, at `r + 1`.
   */
  lemma AfterMember(scan: Scan, entries: seq<Entry>, close: seq<Byte>, s: seq<Byte>, q: nat, acc: map<Str, Value>,
                    end: nat)
      returns (r: nat)
    requires |entries| > 0 && Blank(close) && ElementReadable(scan, entries[0].value)
    requires Occurs(entries[0].value.after + EncodeEntries(entries[1..], false) + close + [RBRACE], s, q)
    requires end == q + |entries[0].value.after| + |EncodeEntries(entries[1..], false)| + |close| + 1
    ensures r < |s|
    ensures |entries| == 1 ==> MemberEnd(scan, s, q, acc) == Ok(Parsed(acc, end))
    ensures |entries| > 1 ==> MemberEnd(scan, s, q, acc) == ObjectMembers(scan, s, r + 1, acc)
                              && Occurs(EncodeEntries(entries[1..], true) + close + [RBRACE], s, r + 1)
                              && end == r + 1 + |EncodeEntries(entries[1..], true)| + |close| + 1
  {
    ElementParts(scan, entries[0].value);
    r := MemberSeparator(entries, close, s, q);
    SeparatorStep(scan, s, q, r, acc);
  }

  /** Where the text of the members after the value of the first of `entries`, ending at `q`, goes on. */
  lemma MemberSeparator(entries: seq<Entry>, close: seq<Byte>, s: seq<Byte>, q: nat) returns (r: nat)
    requires |entries| > 0 && Blank(close) && Blank(entries[0].value.after)
    requires Occurs(entries[0].value.after + EncodeEntries(entries[1..], false) + close + [RBRACE], s, q)
    ensures q <= r < |s| && AllWhitespace(s, q, r)
    ensures |entries| == 1 ==> s[r] == RBRACE && r == q + |entries[0].value.after| + |close|
    ensures |entries| > 1 ==> s[r] == COMMA && r == q + |entries[0].value.after|
                              && Occurs(EncodeEntries(entries[1..], true) + close + [RBRACE], s, r + 1)
                              && |EncodeEntries(entries[1..], false)| == 1 + |EncodeEntries(entries[1..], true)|
  {
    var after := entries[0].value.after;
    var rest := entries[1..];
    SeparatorAt(after, EncodeEntries(rest, false), close, RBRACE, s, q);
    r := q + |after| + (if |rest| == 0 then |close| else 0);
    if |rest| > 0 {
      assert after + EncodeEntries(rest, false) + close + [RBRACE] == after + (EncodeEntries(rest, false) + close + [RBRACE]);
      OccursSplit(after, EncodeEntries(rest, false) + close + [RBRACE], s, q);
      EntriesAfterComma(rest, close, s, r);
    }
  }

  /** The inner loop of `get_object_content` over whitespace up to `}` or `,` at `r`. */
  lemma SeparatorStep(scan: Scan, s: seq<Byte>, q: nat, r: nat, acc: map<Str, Value>)
    requires q <= r < |s| && AllWhitespace(s, q, r) && (s[r] == RBRACE || s[r] == COMMA)
    ensures s[r] == RBRACE ==> MemberEnd(scan, s, q, acc) == Ok(Parsed(acc, r + 1))
    ensures s[r] == COMMA ==> MemberEnd(scan, s, q, acc) == ObjectMembers(scan, s, r + 1, acc)
  {
    SkipSpaceOverWhitespace(s, q, r);
    assert SkipSpace(s, r) == r;
    MemberEndSeparators(scan, s, q, acc);
  }

  /**
   * One member, laid out from `pos`: the key and the colon, then the value,
   * which ends at `q`.
   */
  lemma {:induction false} MemberAt(scan: Scan, e: Entry, s: seq<Byte>, pos: nat)
    requires Blank(e.before) && Escapable(e.key) && ValidUtf8(e.key) && Blank(e.mid) && ElementReadable(scan, e.value)
    requires MemberLaidOut(e, s, pos) && ValueEnd(e, pos) < |s| && Delimited(s, ValueEnd(e, pos))
    ensures Member(scan, s, pos) == Ok(Parsed((e.key, EntryMeaning(e)), ValueEnd(e, pos)))
    decreases e, 1
  {
    var q := ValueEnd(e, pos);
    var p1, p2, p3 := KeyAt(e, s, pos);
    ValueAt(scan, e.value, s, p3, q);
    MemberChain(scan, s, pos, p1, e.key, p2, p3, ElementMeaning(e.value), q);
  }

  /**
   * `skip_space` passes over the whitespace before the key to its quote at
   * `p1`, `get_string` reads the key up to `p2`, and the whitespace before
   * `:` is skipped; the value's element starts at `p3`.
   */
  lemma KeyAt(e: Entry, s: seq<Byte>, pos: nat) returns (p1: nat, p2: nat, p3: nat)
    requires Blank(e.before) && Escapable(e.key) && ValidUtf8(e.key) && Blank(e.mid)
    requires MemberLaidOut(e, s, pos)
    ensures pos <= p1 < p2 < p3 <= |s|
    ensures NextToken(s, pos) == Ok(Parsed(QUOTE, p1 + 1))
    ensures GetString(s, p1 + 1) == Ok(Parsed(e.key, p2))
    ensures NextToken(s, p2) == Ok(Parsed(COLON, p3))
    ensures ValueEnd(e, pos) == p3 + |e.value.before| + |Encode(e.value.value)|
    ensures Occurs(e.value.before, s, p3) && Occurs(Encode(e.value.value), s, p3 + |e.value.before|)
  {
    p1 := pos + |e.before|;
    p2 := p1 + |Escape(e.key)| + 2;
    p3 := p2 + |e.mid| + 1;
    BlankAt(e.before, s, pos);
    TokenAfter(s, pos, p1);
    StringAt(e.key, s, p1 + 1, p2);
    BlankAt(e.mid, s, p2);
    TokenAfter(s, p2, p2 + |e.mid|);
  }

  /**
   * `from_bytes` on a readable element from `pos`: the whitespace before the
   * value is skipped and the value, which cannot go on, ends at `q`.
   */
  lemma {:induction false} ValueAt(scan: Scan, el: Element, s: seq<Byte>, pos: nat, q: nat)
    requires ElementReadable(scan, el)
    requires q == pos + |el.before| + |Encode(el.value)| && q < |s| && Delimited(s, q)
    requires Occurs(el.before, s, pos) && Occurs(Encode(el.value), s, pos + |el.before|)
    ensures FromBytes(scan, s, pos) == Ok(Parsed(ElementMeaning(el), q))
    decreases el, 0
  {
    ElementParts(scan, el);
    BlankAt(el.before, s, pos);
    LeadingWhitespace(scan, s, pos, pos + |el.before|);
    DecodeEncoded(scan, el.value, s, pos + |el.before|, q);
  }
}
