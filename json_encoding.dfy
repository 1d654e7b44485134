/**
 * The reference the decoder of json/src/lib.rs is measured against: documents
 * written out in the JSON syntax of ECMA-404, with any whitespace layout
 * between the tokens, and the value each one means. Decoding the text of any
 * document gives back its meaning, with the corrected number scanner for
 * every document and with the scanner as written for documents without
 * numbers.
 */
module JsonEncoding {
  import opened Bytes
  import opened Utf8
  import opened JsonSpec
  import opened JsonProperties

  /** A nonnegative number that fits in an `i64`: the numbers the decoder can return. */
  type Natural = n: int | 0 <= n <= I64_MAX

  /** A run of whitespace, which ECMA-404 allows around every token. */
  predicate Blank(w: seq<Byte>) {
    forall i :: 0 <= i < |w| ==> IsWhitespace(w[i])
  }

  /**
   * A document as a writer lays it out: object members in the order written,
   * the same key possibly more than once, and the whitespace written between
   * the tokens. `close` is the whitespace just before the closing bracket or
   * brace.
   */
  datatype Doc =
    | DNull
    | DBool(b: bool)
    | DNumber(n: Natural)
    | DString(s: Str)
    | DArray(items: seq<Element>, close: seq<Byte>)
    | DObject(entries: seq<Entry>, close: seq<Byte>)

  /** A value with the whitespace written before and after it: `element` in ECMA-404. */
  datatype Element = Element(before: seq<Byte>, value: Doc, after: seq<Byte>)

  /** A member: whitespace, the key, whitespace, `:` and an element. */
  datatype Entry = Entry(before: seq<Byte>, key: Str, mid: seq<Byte>, value: Element)

  /**
   * Every string, keys included, can be written with the escapes the decoder
   * knows and is UTF-8, and the layout puts only whitespace between tokens.
   */
  predicate WellFormed(d: Doc)
    decreases d
  {
    match d
    case DString(t) => Escapable(t) && ValidUtf8(t)
    case DArray(items, close) => Blank(close) && forall i :: 0 <= i < |items| ==> ElementWellFormed(items[i])
    case DObject(entries, close) => Blank(close) && forall i :: 0 <= i < |entries| ==> EntryWellFormed(entries[i])
    case _ => true
  }

  predicate ElementWellFormed(e: Element)
    decreases e
  {
    Blank(e.before) && Blank(e.after) && WellFormed(e.value)
  }

  predicate EntryWellFormed(e: Entry)
    decreases e
  {
    Blank(e.before) && Escapable(e.key) && ValidUtf8(e.key) && Blank(e.mid) && ElementWellFormed(e.value)
  }

  /** No number anywhere in the document. */
  predicate NumberFree(d: Doc)
    decreases d
  {
    match d
    case DNumber(_) => false
    case DArray(items, _) => forall i :: 0 <= i < |items| ==> ElementNumberFree(items[i])
    case DObject(entries, _) => forall i :: 0 <= i < |entries| ==> EntryNumberFree(entries[i])
    case _ => true
  }

  predicate ElementNumberFree(e: Element)
    decreases e
  {
    NumberFree(e.value)
  }

  predicate EntryNumberFree(e: Entry)
    decreases e
  {
    ElementNumberFree(e.value)
  }

  /** The value a document means: for a repeated key, the first member counts. */
  function Meaning(d: Doc): Value
    decreases d
  {
    match d
    case DNull => Null
    case DBool(b) => Bool(b)
    case DNumber(n) => Number(n)
    case DString(t) => String(t)
    case DArray(items, _) => Array(Meanings(items))
    case DObject(entries, _) => Object(MembersMeaning(entries, map[]))
  }

  function Meanings(items: seq<Element>): (vs: seq<Value>)
    ensures |vs| == |items|
    decreases items
  {
    if |items| == 0 then [] else [ElementMeaning(items[0])] + Meanings(items[1..])
  }

  function ElementMeaning(e: Element): Value
    decreases e
  {
    Meaning(e.value)
  }

  function EntryMeaning(e: Entry): Value
    decreases e
  {
    ElementMeaning(e.value)
  }

  /** The members `entries` added in order to `acc`, keeping the first value of each key. */
  function MembersMeaning(entries: seq<Entry>, acc: map<Str, Value>): map<Str, Value>
    decreases entries
  {
    if |entries| == 0 then acc
    else MembersMeaning(entries[1..], Insert(acc, entries[0].key, EntryMeaning(entries[0])))
  }

  /**
   * The text of a document: its layout's whitespace between the tokens, and
   * numbers in shortest decimal. A document whose whitespace runs are all
   * empty is written compactly.
   */
  function Encode(d: Doc): (e: seq<Byte>)
    ensures |e| > 0 && IsValueStart(e[0])
    decreases d
  {
    match d
    case DNull => LIT_NULL
    case DBool(b) => if b then LIT_TRUE else LIT_FALSE
    case DNumber(n) => Decimal(n)
    case DString(t) => [QUOTE] + Escape(t) + [QUOTE]
    case DArray(items, close) => [LBRACKET] + EncodeItems(items, true) + close + [RBRACKET]
    case DObject(entries, close) => [LBRACE] + EncodeEntries(entries, true) + close + [RBRACE]
  }

  /** An element: the whitespace before it, the value and the whitespace after it. */
  function EncodeElement(e: Element): (r: seq<Byte>)
    ensures |r| > 0
    decreases e
  {
    e.before + Encode(e.value) + e.after
  }

  /** Elements separated by commas; `first` says no comma precedes the first one. */
  function EncodeItems(items: seq<Element>, first: bool): (r: seq<Byte>)
    ensures |items| == 0 <==> |r| == 0
    ensures |items| > 0 && !first ==> r[0] == COMMA
    decreases items
  {
    if |items| == 0 then []
    else (if first then [] else [COMMA]) + EncodeElement(items[0]) + EncodeItems(items[1..], false)
  }

  function EncodeEntry(e: Entry): (r: seq<Byte>)
    decreases e
  {
    e.before + [QUOTE] + Escape(e.key) + [QUOTE] + e.mid + [COLON] + EncodeElement(e.value)
  }

  function EncodeEntries(entries: seq<Entry>, first: bool): (r: seq<Byte>)
    ensures |entries| == 0 <==> |r| == 0
    ensures |entries| > 0 && !first ==> r[0] == COMMA
    decreases entries
  {
    if |entries| == 0 then []
    else (if first then [] else [COMMA]) + EncodeEntry(entries[0]) + EncodeEntries(entries[1..], false)
  }

  /** Which scanner can read `d` back: the corrected one always, the one as written without numbers. */
  predicate Readable(scan: Scan, d: Doc) {
    WellFormed(d) && (scan == AsWritten ==> NumberFree(d))
  }

  predicate ElementReadable(scan: Scan, e: Element) {
    ElementWellFormed(e) && (scan == AsWritten ==> ElementNumberFree(e))
  }

  /** Every element of `items` is readable by `scan`. */
  predicate AllReadable(scan: Scan, items: seq<Element>) {
    forall i :: 0 <= i < |items| ==> ElementReadable(scan, items[i])
  }

  /** Every member of `entries` has a readable key, layout and value. */
  predicate EntriesReadable(scan: Scan, entries: seq<Entry>) {
    forall i :: 0 <= i < |entries| ==> EntryWellFormed(entries[i]) && (scan == AsWritten ==> EntryNumberFree(entries[i]))
  }

  /** What a readable element is made of. */
  lemma ElementParts(scan: Scan, e: Element)
    requires ElementReadable(scan, e)
    ensures Blank(e.before) && Blank(e.after) && Readable(scan, e.value)
  {
  }

  /** What a readable member is made of. */
  lemma EntryParts(scan: Scan, entries: seq<Entry>)
    requires |entries| > 0 && EntriesReadable(scan, entries)
    ensures var e := entries[0];
      Blank(e.before) && Escapable(e.key) && ValidUtf8(e.key) && Blank(e.mid) && ElementReadable(scan, e.value)
    ensures EntriesReadable(scan, entries[1..])
  {
    var e := entries[0];
    assert EntryWellFormed(e) && (scan == AsWritten ==> EntryNumberFree(e));
    forall i | 0 <= i < |entries[1..]|
      ensures EntryWellFormed(entries[1..][i]) && (scan == AsWritten ==> EntryNumberFree(entries[1..][i]))
    {
      assert entries[1..][i] == entries[i + 1];
    }
  }

  /** What readable elements are made of. */
  lemma ItemsParts(scan: Scan, items: seq<Element>)
    requires |items| > 0 && AllReadable(scan, items)
    ensures ElementReadable(scan, items[0]) && AllReadable(scan, items[1..])
  {
    forall i | 0 <= i < |items[1..]|
      ensures ElementReadable(scan, items[1..][i])
    {
      assert items[1..][i] == items[i + 1];
    }
  }

  // The layout of the text of arrays and objects.

  lemma Occurs3(a: seq<Byte>, b: seq<Byte>, c: seq<Byte>, s: seq<Byte>, pos: nat)
    requires Occurs(a + b + c, s, pos)
    ensures Occurs(a, s, pos) && Occurs(b, s, pos + |a|) && Occurs(c, s, pos + |a| + |b|)
  {
    OccursSplit(a + b, c, s, pos);
    OccursSplit(a, b, s, pos);
  }

  lemma Occurs4(a: seq<Byte>, b: seq<Byte>, c: seq<Byte>, d: seq<Byte>, s: seq<Byte>, pos: nat)
    requires Occurs(a + b + c + d, s, pos)
    ensures Occurs(a, s, pos) && Occurs(b, s, pos + |a|) && Occurs(c, s, pos + |a| + |b|)
    ensures Occurs(d, s, pos + |a| + |b| + |c|)
  {
    OccursSplit(a + b + c, d, s, pos);
    Occurs3(a, b, c, s, pos);
  }

  /** A run of whitespace found in the input is whitespace there. */
  lemma BlankAt(w: seq<Byte>, s: seq<Byte>, pos: nat)
    requires Blank(w) && Occurs(w, s, pos)
    ensures pos + |w| <= |s| && AllWhitespace(s, pos, pos + |w|)
  {
    forall i | pos <= i < pos + |w|
      ensures IsWhitespace(s[i])
    {
      OccursByte(w, s, pos, i - pos);
    }
  }

  /**
   * Where the decoder stops after a value: past the whitespace `w`, at the
   * comma that starts `x`, or, when `x` is empty, past the whitespace `close`
   * at the closing byte `c`.
   */
  lemma SeparatorAt(w: seq<Byte>, x: seq<Byte>, close: seq<Byte>, c: Byte, s: seq<Byte>, pos: nat)
    requires Blank(w) && Blank(close) && (|x| > 0 ==> x[0] == COMMA)
    requires Occurs(w + x + close + [c], s, pos)
    ensures var r := pos + |w| + (if |x| == 0 then |close| else 0);
      r < |s| && AllWhitespace(s, pos, r) && s[r] == (if |x| == 0 then c else COMMA)
  {
    Occurs4(w, x, close, [c], s, pos);
    BlankAt(w, s, pos);
    if |x| == 0 {
      BlankAt(close, s, pos + |w|);
      OccursByte([c], s, pos + |w| + |close|, 0);
    } else {
      OccursByte(x, s, pos + |w|, 0);
    }
  }

  /** The first element of `items`, piece by piece, and where the rest of the array text starts. */
  lemma ItemsLayout(items: seq<Element>, close: seq<Byte>, s: seq<Byte>, pos: nat) returns (p: nat, q: nat)
    requires |items| > 0 && Occurs(EncodeItems(items, true) + close + [RBRACKET], s, pos)
    ensures p == pos + |items[0].before| && q == p + |Encode(items[0].value)| && q < |s|
    ensures Occurs(items[0].before, s, pos) && Occurs(Encode(items[0].value), s, p)
    ensures Occurs(items[0].after + EncodeItems(items[1..], false) + close + [RBRACKET], s, q)
    ensures |EncodeItems(items, true)| == q - pos + |items[0].after| + |EncodeItems(items[1..], false)|
  {
    var e := items[0];
    var rest := EncodeItems(items[1..], false);
    p := pos + |e.before|;
    q := p + |Encode(e.value)|;
    assert EncodeItems(items, true) == [] + EncodeElement(e) + rest;
    assert [] + EncodeElement(e) + rest == e.before + Encode(e.value) + e.after + rest;
    Pieces(e.before, Encode(e.value), e.after, rest, close, RBRACKET, s, pos);
  }

  /** A text of the form `b + v + a + rest + close + [c]`, found at `pos`, piece by piece. */
  lemma Pieces(b: seq<Byte>, v: seq<Byte>, a: seq<Byte>, rest: seq<Byte>, close: seq<Byte>, c: Byte,
               s: seq<Byte>, pos: nat)
    requires Occurs(b + v + a + rest + close + [c], s, pos)
    ensures pos + |b| + |v| < |s|
    ensures Occurs(b, s, pos) && Occurs(v, s, pos + |b|)
    ensures Occurs(a + rest + close + [c], s, pos + |b| + |v|)
  {
    SplitText(b + v + a + rest, close, [c], s, pos);
    Occurs4(b, v, a, rest, s, pos);
    JoinText(a, rest, close, [c], s, pos + |b| + |v|);
  }

  /** The text after an element's comma is the text of the elements from there on. */
  lemma ItemsAfterComma(items: seq<Element>, close: seq<Byte>, s: seq<Byte>, pos: nat)
    requires |items| > 0 && Occurs(EncodeItems(items, false) + close + [RBRACKET], s, pos)
    ensures Occurs(EncodeItems(items, true) + close + [RBRACKET], s, pos + 1)
    ensures |EncodeItems(items, false)| == 1 + |EncodeItems(items, true)|
  {
    var rest := EncodeElement(items[0]) + EncodeItems(items[1..], false);
    assert EncodeItems(items, true) == rest;
    assert EncodeItems(items, false) + close + [RBRACKET] == [COMMA] + (rest + close + [RBRACKET]);
    OccursSplit([COMMA], rest + close + [RBRACKET], s, pos);
  }

  /** A text `x + close + [c]` found at `pos`: its three parts, one after the other. */
  lemma SplitText(x: seq<Byte>, close: seq<Byte>, c: seq<Byte>, s: seq<Byte>, pos: nat)
    requires Occurs(x + close + c, s, pos)
    ensures Occurs(x, s, pos) && Occurs(close, s, pos + |x|) && Occurs(c, s, pos + |x| + |close|)
  {
    Occurs3(x, close, c, s, pos);
  }

  /** Four parts found one after the other make the text `a + x + close + c`. */
  lemma JoinText(a: seq<Byte>, x: seq<Byte>, close: seq<Byte>, c: seq<Byte>, s: seq<Byte>, pos: nat)
    requires Occurs(a, s, pos) && Occurs(x, s, pos + |a|)
    requires Occurs(close, s, pos + |a| + |x|) && Occurs(c, s, pos + |a| + |x| + |close|)
    ensures Occurs(a + x + close + c, s, pos)
  {
    OccursJoin(a, x, s, pos);
    OccursJoin(a + x, close, s, pos);
    OccursJoin(a + x + close, c, s, pos);
  }

  /** Where the value of the member `e`, laid out from `pos`, ends. */
  function ValueEnd(e: Entry, pos: nat): nat {
    pos + |e.before| + |Escape(e.key)| + 2 + |e.mid| + 1 + |e.value.before| + |Encode(e.value.value)|
  }

  /** The text of the member `e` is found at `pos`, piece by piece, up to the end of its value. */
  predicate MemberLaidOut(e: Entry, s: seq<Byte>, pos: nat) {
    KeyValueAt(e.before, Escape(e.key), e.mid, e.value.before, Encode(e.value.value), s, pos)
  }

  /**
   * Whitespace `b`, a quote, the key's bytes `k`, a quote, whitespace `mid`,
   * a colon, whitespace `vb` and the value's bytes `v`, one after the other
   * from `pos`.
   */
  predicate KeyValueAt(b: seq<Byte>, k: seq<Byte>, mid: seq<Byte>, vb: seq<Byte>, v: seq<Byte>, s: seq<Byte>, pos: nat) {
    var p1 := pos + |b|;
    var p2 := p1 + |k| + 2;
    var p3 := p2 + |mid| + 1;
    && p2 + |mid| < |s|
    && Occurs(b, s, pos) && s[p1] == QUOTE
    && Occurs(k + [QUOTE], s, p1 + 1)
    && Occurs(mid, s, p2) && s[p2 + |mid|] == COLON
    && Occurs(vb, s, p3) && Occurs(v, s, p3 + |vb|)
  }

  /** The first member of `entries`, piece by piece, and where the rest of the object text starts. */
  lemma EntryLayout(entries: seq<Entry>, close: seq<Byte>, s: seq<Byte>, pos: nat)
    requires |entries| > 0 && Occurs(EncodeEntries(entries, true) + close + [RBRACE], s, pos)
    ensures var e := entries[0];
      var q := ValueEnd(e, pos);
      && q < |s| && MemberLaidOut(e, s, pos)
      && Occurs(e.value.after + EncodeEntries(entries[1..], false) + close + [RBRACE], s, q)
      && |EncodeEntries(entries, true)| == q - pos + |e.value.after| + |EncodeEntries(entries[1..], false)|
  {
    var e := entries[0];
    var rest := EncodeEntries(entries[1..], false);
    EntriesHead(entries);
    HeadText(EncodeEntry(e), rest, close, [RBRACE], s, pos);
    MemberText(e, s, pos);
    TailText(EncodeEntry(e), e.value.after, rest, close, [RBRACE], s, pos, ValueEnd(e, pos));
  }

  lemma EntriesHead(entries: seq<Entry>)
    requires |entries| > 0
    ensures EncodeEntries(entries, true) == EncodeEntry(entries[0]) + EncodeEntries(entries[1..], false)
  {
    assert EncodeEntries(entries, true) == [] + EncodeEntry(entries[0]) + EncodeEntries(entries[1..], false);
    assert [] + EncodeEntry(entries[0]) == EncodeEntry(entries[0]);
  }

  /**
   * Where the text `x` found at `pos` ends with `a`, from `q`: `a` and the
   * three parts after `x` make one text from `q`.
   */
  lemma TailText(x: seq<Byte>, a: seq<Byte>, rest: seq<Byte>, close: seq<Byte>, c: seq<Byte>, s: seq<Byte>, pos: nat, q: nat)
    requires q + |a| == pos + |x| && Occurs(a, s, q) && Occurs(rest, s, pos + |x|)
    requires Occurs(close, s, pos + |x| + |rest|) && Occurs(c, s, pos + |x| + |rest| + |close|)
    ensures Occurs(a + rest + close + c, s, q)
  {
    JoinText(a, rest, close, c, s, q);
  }

  /** A text `x + rest + close + c` found at `pos`: its four parts, one after the other. */
  lemma HeadText(x: seq<Byte>, rest: seq<Byte>, close: seq<Byte>, c: seq<Byte>, s: seq<Byte>, pos: nat)
    requires Occurs(x + rest + close + c, s, pos)
    ensures Occurs(x, s, pos) && Occurs(rest, s, pos + |x|)
    ensures Occurs(close, s, pos + |x| + |rest|) && Occurs(c, s, pos + |x| + |rest| + |close|)
  {
    SplitText(x + rest, close, c, s, pos);
    OccursSplit(x, rest, s, pos);
  }

  /** The text of the member `e` found at `pos`, piece by piece. */
  lemma MemberText(e: Entry, s: seq<Byte>, pos: nat)
    requires Occurs(EncodeEntry(e), s, pos)
    ensures MemberLaidOut(e, s, pos) && Occurs(e.value.after, s, ValueEnd(e, pos))
    ensures ValueEnd(e, pos) + |e.value.after| == pos + |EncodeEntry(e)|
  {
    var el := e.value;
    EntryPieces(e);
    MemberPieces(e.before, Escape(e.key), e.mid, el.before, Encode(el.value), el.after, s, pos);
  }

  lemma EntryPieces(e: Entry)
    ensures EncodeEntry(e)
      == e.before + [QUOTE] + Escape(e.key) + [QUOTE] + e.mid + [COLON] + (e.value.before + Encode(e.value.value) + e.value.after)
  {
  }

  /** A text of the form of a member, found at `pos`, piece by piece. */
  lemma MemberPieces(b: seq<Byte>, k: seq<Byte>, mid: seq<Byte>, vb: seq<Byte>, v: seq<Byte>, va: seq<Byte>,
                     s: seq<Byte>, pos: nat)
    requires Occurs(b + [QUOTE] + k + [QUOTE] + mid + [COLON] + (vb + v + va), s, pos)
    ensures KeyValueAt(b, k, mid, vb, v, s, pos)
    ensures Occurs(va, s, pos + |b| + |k| + 2 + |mid| + 1 + |vb| + |v|)
  {
    var p1 := pos + |b|;
    var p2 := p1 + |k| + 2;
    var key := b + [QUOTE] + k + [QUOTE];
    OccursSplit(key + mid + [COLON], vb + v + va, s, pos);
    Occurs3(key, mid, [COLON], s, pos);
    OccursSplit(b + [QUOTE] + k, [QUOTE], s, pos);
    Occurs3(b, [QUOTE], k, s, pos);
    OccursJoin(k, [QUOTE], s, p1 + 1);
    OccursByte([QUOTE], s, p1, 0);
    OccursByte([COLON], s, p2 + |mid|, 0);
    Occurs3(vb, v, va, s, p2 + |mid| + 1);
  }

  /** The text after a member's comma is the text of the members from there on. */
  lemma EntriesAfterComma(entries: seq<Entry>, close: seq<Byte>, s: seq<Byte>, pos: nat)
    requires |entries| > 0 && Occurs(EncodeEntries(entries, false) + close + [RBRACE], s, pos)
    ensures Occurs(EncodeEntries(entries, true) + close + [RBRACE], s, pos + 1)
    ensures |EncodeEntries(entries, false)| == 1 + |EncodeEntries(entries, true)|
  {
    var rest := EncodeEntry(entries[0]) + EncodeEntries(entries[1..], false);
    assert EncodeEntries(entries, true) == rest;
    assert EncodeEntries(entries, false) + close + [RBRACE] == [COMMA] + (rest + close + [RBRACE]);
    OccursSplit([COMMA], rest + close + [RBRACE], s, pos);
  }

}
