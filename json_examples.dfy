/**
 * The inputs of the test `it_works` of json/src/lib.rs, and a few more, decoded
 * by the model. Each lemma walks the decoder through its input one call at a
 * time, from the innermost call outwards.
 *
 * Three of the source's own expectations fail under `AsWritten` (the number
 * `3244443214`, the object `{"a":[12, 34 , 45]}`, which should decode, and
 * the array `[12 , 34 45 ]`, which should not): `get_number` drops the byte
 * after each digit it takes. The same inputs decode as the test expects under
 * `Corrected`.
 */
module JsonExamples {
  import opened Bytes
  import opened Utf8
  import opened JsonSpec
  import opened JsonProperties
  import opened JsonRoundTrip

  const SP: Byte := ' ' as int
  const TAB: Byte := 0x09
  const NEWLINE: Byte := 0x0A

  function Digit(d: nat): (c: Byte)
    requires d < 10
    ensures IsDigit(c) && DigitValue(c) == d
  {
    '0' as int + d
  }

  // ---------------------------------------------------------------- strings

  /** `""` */
  const EMPTY_STRING: seq<Byte> := [QUOTE, QUOTE]

  lemma EmptyString(scan: Scan)
    ensures Decode(scan, EMPTY_STRING) == Ok(String([]))
  {
    var s := EMPTY_STRING;
    AsciiIsValid([]);
    assert ScanString(s, 1, false, []) == Ok(Parsed([], 2));
    FromBytesAt(scan, s, 0);
    assert Dispatch(scan, QUOTE, s, 1) == Ok(Parsed(String([]), 2));
  }

  /** `a string` */
  const A_STRING: Str := ['a' as int, SP, 's' as int, 't' as int, 'r' as int, 'i' as int, 'n' as int, 'g' as int]

  /** `"a string"` */
  const QUOTED_A_STRING: seq<Byte> := [QUOTE] + A_STRING + [QUOTE]

  lemma PlainString(scan: Scan)
    ensures Decode(scan, QUOTED_A_STRING) == Ok(String(A_STRING))
  {
    var s := QUOTED_A_STRING;
    assert s[1..9] == A_STRING;
    assert PlainRun(s, 1, 9);
    AsciiIsValid(A_STRING);
    GetStringAfterPlain(s, 1, 9);
    FromBytesAt(scan, s, 0);
    assert Dispatch(scan, QUOTE, s, 1) == Ok(Parsed(String(A_STRING), 10));
    assert FromBytes(scan, s, 0) == Ok(Parsed(String(A_STRING), 10));
  }

  /** `a ` newline `string` */
  const A_NEWLINE_STRING: Str := ['a' as int, SP, NEWLINE, 's' as int, 't' as int, 'r' as int, 'i' as int, 'n' as int, 'g' as int]

  /** `"a \nstring"`, the newline written as an escape */
  const ESCAPED_NEWLINE: seq<Byte> :=
    [QUOTE, 'a' as int, SP, BACKSLASH, 'n' as int, 's' as int, 't' as int, 'r' as int, 'i' as int, 'n' as int, 'g' as int, QUOTE]

  lemma EscapedNewlineScan()
    ensures ScanString(ESCAPED_NEWLINE, 1, false, []) == Ok(Parsed(A_NEWLINE_STRING, 12))
  {
    var s, t := ESCAPED_NEWLINE, A_NEWLINE_STRING;
    assert PlainRun(s, 5, 11);
    ScanPlainRun(s, 5, 11, t[..3]);
    assert t[..3] + s[5..11] == t;
    AsciiIsValid(t);
    assert ScanString(s, 11, false, t) == Ok(Parsed(t, 12));
    assert t[..2] + [NEWLINE] == t[..3];
    assert ScanString(s, 4, true, t[..2]) == Ok(Parsed(t, 12));
    assert PlainRun(s, 1, 3);
    ScanPlainRun(s, 1, 3, []);
    assert [] + s[1..3] == t[..2];
  }

  lemma EscapedNewline(scan: Scan)
    ensures Decode(scan, ESCAPED_NEWLINE) == Ok(String(A_NEWLINE_STRING))
  {
    var s := ESCAPED_NEWLINE;
    EscapedNewlineScan();
    FromBytesAt(scan, s, 0);
    assert Dispatch(scan, QUOTE, s, 1) == Ok(Parsed(String(A_NEWLINE_STRING), 12));
    assert FromBytes(scan, s, 0) == Ok(Parsed(String(A_NEWLINE_STRING), 12));
  }

  /** `"abcded` tab `fdsa"`: a raw control byte inside a string */
  const RAW_TAB: seq<Byte> :=
    [QUOTE, 'a' as int, 'b' as int, 'c' as int, 'd' as int, 'e' as int, 'd' as int, TAB,
     'f' as int, 'd' as int, 's' as int, 'a' as int, QUOTE]

  lemma RawTab(scan: Scan)
    ensures Decode(scan, RAW_TAB) == Err(UnexpectSymErr(TAB))
  {
    var s := RAW_TAB;
    assert PlainRun(s, 1, 7);
    GetStringAfterPlain(s, 1, 7);
    FromBytesAt(scan, s, 0);
    assert Dispatch(scan, QUOTE, s, 1) == Err(UnexpectSymErr(TAB));
  }

  /** `"\u0041"`: the `\u` escape is not implemented */
  const UNICODE_ESCAPE: seq<Byte> := [QUOTE, BACKSLASH, 'u' as int, '0' as int, '0' as int, '4' as int, '1' as int, QUOTE]

  lemma UnicodeEscapePanics(scan: Scan)
    ensures Decode(scan, UNICODE_ESCAPE) == Panicked(UnicodeEscape)
  {
    var s := UNICODE_ESCAPE;
    GetStringAfterPlain(s, 1, 1);
    FromBytesAt(scan, s, 0);
    assert Dispatch(scan, QUOTE, s, 1) == Panicked(UnicodeEscape);
  }

  /** `"a\"b`: the input ends after an escaped quote */
  const CUT_AFTER_ESCAPED_QUOTE: seq<Byte> := [QUOTE, 'a' as int, BACKSLASH, QUOTE, 'b' as int]

  /** `"a\\x`: the input ends after an escaped backslash */
  const CUT_AFTER_ESCAPED_BACKSLASH: seq<Byte> := [QUOTE, 'a' as int, BACKSLASH, BACKSLASH, 'x' as int]

  lemma CutOffStrings(scan: Scan)
    ensures Decode(scan, CUT_AFTER_ESCAPED_QUOTE) == Err(UnexpectedEof)
    ensures Decode(scan, CUT_AFTER_ESCAPED_BACKSLASH) == Err(UnexpectedEof)
  {
    var s := CUT_AFTER_ESCAPED_QUOTE;
    assert Unterminated(s, 4, false);
    assert Unterminated(s, 3, true);
    assert Unterminated(s, 2, false);
    assert Unterminated(s, 1, false);
    GetStringAfterPlain(s, 1, 1);
    FromBytesAt(scan, s, 0);
    assert Dispatch(scan, QUOTE, s, 1) == Err(UnexpectedEof);
    var t := CUT_AFTER_ESCAPED_BACKSLASH;
    assert Unterminated(t, 4, false);
    assert Unterminated(t, 3, true);
    assert Unterminated(t, 2, false);
    assert Unterminated(t, 1, false);
    GetStringAfterPlain(t, 1, 1);
    FromBytesAt(scan, t, 0);
    assert Dispatch(scan, QUOTE, t, 1) == Err(UnexpectedEof);
  }

  // --------------------------------------------------------------- literals

  /** ` true` */
  const SPACED_TRUE: seq<Byte> := [SP] + LIT_TRUE

  /** ` false` */
  const SPACED_FALSE: seq<Byte> := [SP] + LIT_FALSE

  lemma SpacedLiterals(scan: Scan)
    ensures Decode(scan, SPACED_TRUE) == Ok(Bool(true))
    ensures Decode(scan, SPACED_FALSE) == Ok(Bool(false))
  {
    var s := SPACED_TRUE;
    assert SkipSpace(s, 0) == 1;
    LiteralMatch(LIT_TRUE, s, 2);
    assert Dispatch(scan, 't' as int, s, 2) == Ok(Parsed(Bool(true), 5));
    assert FromBytes(scan, s, 0) == Ok(Parsed(Bool(true), 5));
    var f := SPACED_FALSE;
    assert SkipSpace(f, 0) == 1;
    LiteralMatch(LIT_FALSE, f, 2);
    assert Dispatch(scan, 'f' as int, f, 2) == Ok(Parsed(Bool(false), 6));
    assert FromBytes(scan, f, 0) == Ok(Parsed(Bool(false), 6));
  }

  /** `tru`: a literal cut short */
  lemma ShortLiteral(scan: Scan)
    ensures Decode(scan, LIT_TRUE[..3]) == Err(DefaultErr)
  {
    var s := LIT_TRUE[..3];
    LiteralMatch(LIT_TRUE, s, 1);
    FromBytesAt(scan, s, 0);
    assert Dispatch(scan, 't' as int, s, 1) == Err(DefaultErr);
  }

  /** `-1`: no value starts with a sign */
  lemma NegativeNumber(scan: Scan)
    ensures Decode(scan, ['-' as int, Digit(1)]) == Err(UnexpectSymErr('-' as int))
  {
    FromBytesAt(scan, ['-' as int, Digit(1)], 0);
  }

  // ------------------------------------------------------------- containers

  /** `[]` and `{}` */
  lemma EmptyContainers(scan: Scan)
    ensures Decode(scan, [LBRACKET, RBRACKET]) == Ok(Array([]))
    ensures Decode(scan, [LBRACE, RBRACE]) == Ok(Object(map[]))
  {
    var a: seq<Byte> := [LBRACKET, RBRACKET];
    FromBytesAt(scan, a, 0);
    assert GetArray(scan, a, 1) == Ok(Parsed([], 2));
    var o: seq<Byte> := [LBRACE, RBRACE];
    FromBytesAt(scan, o, 0);
    assert GetObject(scan, o, 1) == Ok(Parsed(map[], 2));
  }

  /** `[}` */
  lemma MismatchedClose(scan: Scan)
    ensures Decode(scan, [LBRACKET, RBRACE]) == Err(UnexpectSymErr(RBRACE))
  {
    var s: seq<Byte> := [LBRACKET, RBRACE];
    FromBytesAt(scan, s, 0);
    assert GetArray(scan, s, 1) == Err(UnexpectSymErr(RBRACE));
  }

  /** A member at `pos` whose key is one plain ASCII byte, with no space before the `:`. */
  lemma ShortKeyMember(scan: Scan, s: seq<Byte>, pos: nat)
    requires pos + 4 <= |s|
    requires s[pos] == QUOTE && IsPlain(s[pos + 1]) && s[pos + 1] < 0x80 && s[pos + 2] == QUOTE && s[pos + 3] == COLON
    ensures Member(scan, s, pos) ==
      match FromBytes(scan, s, pos + 4)
      case Ok(item) => Ok(Parsed(([s[pos + 1]], item.value), item.next))
      case Err(e) => Err(e)
      case Panicked(p) => Panicked(p)
  {
    var k := [s[pos + 1]];
    assert PlainRun(s, pos + 1, pos + 2) && s[pos + 1..pos + 2] == k;
    AsciiIsValid(k);
    GetStringAfterPlain(s, pos + 1, pos + 2);
    assert NextToken(s, pos + 3) == Ok(Parsed(COLON, pos + 4));
  }

  /** A member at `pos` with a one-byte key and a one-digit value that nothing continues. */
  lemma OneDigitMember(scan: Scan, s: seq<Byte>, pos: nat)
    requires pos + 5 <= |s| && IsDigit(s[pos + 4]) && (pos + 5 < |s| ==> !IsDigit(s[pos + 5]))
    requires s[pos] == QUOTE && IsPlain(s[pos + 1]) && s[pos + 1] < 0x80 && s[pos + 2] == QUOTE && s[pos + 3] == COLON
    ensures Member(scan, s, pos) == Ok(Parsed(([s[pos + 1]], Number(DigitValue(s[pos + 4]))), pos + 5))
  {
    assert NumberLoop(scan, s, pos + 5, DigitValue(s[pos + 4])) == Ok(Parsed(DigitValue(s[pos + 4]), pos + 5));
    FromBytesAt(scan, s, pos + 4);
    ShortKeyMember(scan, s, pos);
  }

  /**
   * A number of two digits at `pos`: under `AsWritten` the byte after the
   * second digit is consumed with it.
   */
  lemma TwoDigitNumber(scan: Scan, s: seq<Byte>, pos: nat)
    requires pos + 1 < |s| && IsDigit(s[pos]) && IsDigit(s[pos + 1])
    requires AfterDigit(scan, s, pos + 1) == |s| || !IsDigit(s[AfterDigit(scan, s, pos + 1)])
    ensures FromBytes(scan, s, pos) ==
      Ok(Parsed(Number(10 * DigitValue(s[pos]) + DigitValue(s[pos + 1])), AfterDigit(scan, s, pos + 1)))
  {
    var q := AfterDigit(scan, s, pos + 1);
    var v := 10 * DigitValue(s[pos]) + DigitValue(s[pos + 1]);
    assert NumberLoop(scan, s, q, v) == Ok(Parsed(v, q));
    assert NumberLoop(scan, s, pos + 1, DigitValue(s[pos])) == Ok(Parsed(v, q));
    FromBytesAt(scan, s, pos);
  }

  /** The same number after one byte of whitespace. */
  lemma SpacedTwoDigitNumber(scan: Scan, s: seq<Byte>, pos: nat)
    requires pos + 2 < |s| && IsWhitespace(s[pos]) && IsDigit(s[pos + 1]) && IsDigit(s[pos + 2])
    requires AfterDigit(scan, s, pos + 2) == |s| || !IsDigit(s[AfterDigit(scan, s, pos + 2)])
    ensures FromBytes(scan, s, pos) ==
      Ok(Parsed(Number(10 * DigitValue(s[pos + 1]) + DigitValue(s[pos + 2])), AfterDigit(scan, s, pos + 2)))
  {
    assert AllWhitespace(s, pos, pos + 1);
    LeadingWhitespace(scan, s, pos, pos + 1);
    TwoDigitNumber(scan, s, pos + 1);
  }

  /** `{"a":1,"a":2}` */
  const DUPLICATE_KEY: seq<Byte> :=
    [LBRACE, QUOTE, 'a' as int, QUOTE, COLON, Digit(1), COMMA, QUOTE, 'a' as int, QUOTE, COLON, Digit(2), RBRACE]

  lemma DuplicateKeyEach(scan: Scan)
    ensures Member(scan, DUPLICATE_KEY, 1) == Ok(Parsed((['a' as int], Number(1)), 6))
    ensures Member(scan, DUPLICATE_KEY, 7) == Ok(Parsed((['a' as int], Number(2)), 12))
  {
    OneDigitMember(scan, DUPLICATE_KEY, 1);
    OneDigitMember(scan, DUPLICATE_KEY, 7);
  }

  lemma DuplicateKeyMembers(scan: Scan)
    ensures ObjectMembers(scan, DUPLICATE_KEY, 1, map[]) == Ok(Parsed(map[['a' as int] := Number(1)], 13))
  {
    var s := DUPLICATE_KEY;
    var m := map[['a' as int] := Number(1)];
    DuplicateKeyEach(scan);
    assert MemberEnd(scan, s, 12, m) == Ok(Parsed(m, 13));
    assert ObjectMembers(scan, s, 7, m) == Ok(Parsed(m, 13));
    assert MemberEnd(scan, s, 6, m) == Ok(Parsed(m, 13));
  }

  /** A key given twice keeps its first value. */
  lemma DuplicateKey(scan: Scan)
    ensures Decode(scan, DUPLICATE_KEY) == Ok(Object(map[['a' as int] := Number(1)]))
  {
    var s := DUPLICATE_KEY;
    DuplicateKeyMembers(scan);
    FromBytesAt(scan, s, 0);
    assert GetObject(scan, s, 1) == Ok(Parsed(map[['a' as int] := Number(1)], 13));
  }

  /** `{"a":1,"a":x}` */
  const DUPLICATE_BAD_VALUE: seq<Byte> :=
    [LBRACE, QUOTE, 'a' as int, QUOTE, COLON, Digit(1), COMMA, QUOTE, 'a' as int, QUOTE, COLON, 'x' as int, RBRACE]

  /** The value of a key given twice is still decoded, and its error is the object's. */
  lemma DuplicateKeyBadValue(scan: Scan)
    ensures Decode(scan, DUPLICATE_BAD_VALUE) == Err(UnexpectSymErr('x' as int))
  {
    var s := DUPLICATE_BAD_VALUE;
    var x: Byte := 'x' as int;
    var m := map[['a' as int] := Number(1)];
    OneDigitMember(scan, s, 1);
    FromBytesAt(scan, s, 11);
    ShortKeyMember(scan, s, 7);
    assert Member(scan, s, 7) == Err(UnexpectSymErr(x));
    DuplicateValueErrors(scan, s, 7, m);
    assert MemberEnd(scan, s, 6, m) == Err(UnexpectSymErr(x));
    assert ObjectMembers(scan, s, 1, map[]) == Err(UnexpectSymErr(x));
    FromBytesAt(scan, s, 0);
    assert GetObject(scan, s, 1) == Err(UnexpectSymErr(x));
  }

  /** `[12 , 34 , 45 ,]`: a comma before the closing bracket */
  const TRAILING_COMMA: seq<Byte> :=
    [LBRACKET, Digit(1), Digit(2), SP, COMMA, SP, Digit(3), Digit(4), SP, COMMA, SP, Digit(4), Digit(5), SP, COMMA, RBRACKET]

  lemma TrailingCommaItems()
    ensures FromBytes(AsWritten, TRAILING_COMMA, 1) == Ok(Parsed(Number(12), 4))
    ensures FromBytes(AsWritten, TRAILING_COMMA, 5) == Ok(Parsed(Number(34), 9))
    ensures FromBytes(AsWritten, TRAILING_COMMA, 10) == Ok(Parsed(Number(45), 14))
  {
    var s := TRAILING_COMMA;
    TwoDigitNumber(AsWritten, s, 1);
    SpacedTwoDigitNumber(AsWritten, s, 5);
    SpacedTwoDigitNumber(AsWritten, s, 10);
  }

  lemma TrailingComma()
    ensures Decode(AsWritten, TRAILING_COMMA) == Err(UnexpectSymErr(RBRACKET))
  {
    var s := TRAILING_COMMA;
    var e := Err(UnexpectSymErr(RBRACKET));
    TrailingCommaItems();
    FromBytesAt(AsWritten, s, 15);
    assert ArrayTail(AsWritten, s, 14, [Number(12), Number(34), Number(45)]) == e;
    assert NextToken(s, 9) == Ok(Parsed(COMMA, 10));
    assert [Number(12), Number(34)] + [Number(45)] == [Number(12), Number(34), Number(45)];
    assert ArrayTail(AsWritten, s, 9, [Number(12), Number(34)]) == e;
    assert NextToken(s, 4) == Ok(Parsed(COMMA, 5));
    assert [Number(12)] + [Number(34)] == [Number(12), Number(34)];
    assert ArrayTail(AsWritten, s, 4, [Number(12)]) == e;
    FromBytesAt(AsWritten, s, 0);
    assert GetArray(AsWritten, s, 1) == e;
  }

  /** `[12 , 34 45 ]`: two numbers with no comma between them */
  const MISSING_COMMA: seq<Byte> :=
    [LBRACKET, Digit(1), Digit(2), SP, COMMA, SP, Digit(3), Digit(4), SP, Digit(4), Digit(5), SP, RBRACKET]

  /**
   * As written, the space after `34` is consumed with its `4`, so `45` runs
   * on into the same number and the input is accepted.
   */
  lemma MissingCommaAsWritten()
    ensures Decode(AsWritten, MISSING_COMMA) == Ok(Array([Number(12), Number(344)]))
  {
    var s := MISSING_COMMA;
    var items := [Number(12), Number(344)];
    TwoDigitNumber(AsWritten, s, 1);
    assert NumberLoop(AsWritten, s, 11, 344) == Ok(Parsed(344, 11));
    assert NumberLoop(AsWritten, s, 9, 34) == Ok(Parsed(344, 11));
    assert NumberLoop(AsWritten, s, 7, 3) == Ok(Parsed(344, 11));
    FromBytesAt(AsWritten, s, 6);
    assert AllWhitespace(s, 5, 6);
    LeadingWhitespace(AsWritten, s, 5, 6);
    assert FromBytes(AsWritten, s, 5) == Ok(Parsed(Number(344), 11));
    assert SkipSpace(s, 12) == 12;
    assert NextToken(s, 11) == Ok(Parsed(RBRACKET, 13));
    assert ArrayTail(AsWritten, s, 11, items) == Ok(Parsed(items, 13));
    assert NextToken(s, 4) == Ok(Parsed(COMMA, 5));
    assert [Number(12)] + [Number(344)] == items;
    assert ArrayTail(AsWritten, s, 4, [Number(12)]) == Ok(Parsed(items, 13));
    FromBytesAt(AsWritten, s, 0);
    assert GetArray(AsWritten, s, 1) == Ok(Parsed(items, 13));
  }

  /** Corrected, `[12 , 34 45 ]` is rejected at the `4` where a separator belongs, as the test expects. */
  lemma MissingCommaCorrected()
    ensures Decode(Corrected, MISSING_COMMA) == Err(UnexpectSymErr(Digit(4)))
  {
    var s := MISSING_COMMA;
    var e := Err(UnexpectSymErr(Digit(4)));
    TwoDigitNumber(Corrected, s, 1);
    SpacedTwoDigitNumber(Corrected, s, 5);
    assert SkipSpace(s, 9) == 9;
    assert NextToken(s, 8) == Ok(Parsed(Digit(4), 10));
    assert ArrayTail(Corrected, s, 8, [Number(12), Number(34)]) == e;
    assert SkipSpace(s, 4) == 4;
    assert NextToken(s, 3) == Ok(Parsed(COMMA, 5));
    assert [Number(12)] + [Number(34)] == [Number(12), Number(34)];
    assert ArrayTail(Corrected, s, 3, [Number(12)]) == e;
    FromBytesAt(Corrected, s, 0);
    assert GetArray(Corrected, s, 1) == e;
  }

  /** `[1,2`: the input ends where a separator belongs */
  const OPEN_ARRAY: seq<Byte> := [LBRACKET, Digit(1), COMMA, Digit(2)]

  /** An array cut off after its last element is `UnexpectedEof`, under either scanner. */
  lemma OpenArray(scan: Scan)
    ensures Decode(scan, OPEN_ARRAY) == Err(UnexpectedEof)
  {
    var s := OPEN_ARRAY;
    var e := Err(UnexpectedEof);
    assert NumberLoop(scan, s, 4, 2) == Ok(Parsed(2, 4));
    FromBytesAt(scan, s, 3);
    assert ArrayTail(scan, s, 4, [Number(1), Number(2)]) == e;
    assert NextToken(s, 2) == Ok(Parsed(COMMA, 3));
    assert [Number(1)] + [Number(2)] == [Number(1), Number(2)];
    assert NumberLoop(scan, s, 2, 1) == Ok(Parsed(1, 2));
    FromBytesAt(scan, s, 1);
    assert ArrayTail(scan, s, 2, [Number(1)]) == e;
    FromBytesAt(scan, s, 0);
    assert GetArray(scan, s, 1) == e;
  }

  /** `{"a":1`: the input ends where `,` or `}` belongs */
  const OPEN_OBJECT: seq<Byte> := [LBRACE, QUOTE, 'a' as int, QUOTE, COLON, Digit(1)]

  /** An object cut off after its last value is `UnexpectedEof`, under either scanner. */
  lemma OpenObject(scan: Scan)
    ensures Decode(scan, OPEN_OBJECT) == Err(UnexpectedEof)
  {
    var s := OPEN_OBJECT;
    var e := Err(UnexpectedEof);
    var m := map[['a' as int] := Number(1)];
    OneDigitMember(scan, s, 1);
    assert MemberEnd(scan, s, 6, m) == e;
    assert ObjectMembers(scan, s, 1, map[]) == e;
    FromBytesAt(scan, s, 0);
    assert GetObject(scan, s, 1) == e;
  }

  /** `[12]` */
  const CLOSED_NUMBER: seq<Byte> := [LBRACKET, Digit(1), Digit(2), RBRACKET]

  /** `[12 ]` */
  const SPACED_NUMBER: seq<Byte> := [LBRACKET, Digit(1), Digit(2), SP, RBRACKET]

  /**
   * As written, the `]` right after `12` is consumed with its `2`, so `[12]`
   * runs out of input.
   */
  lemma ClosedNumberAsWritten()
    ensures Decode(AsWritten, CLOSED_NUMBER) == Err(UnexpectedEof)
  {
    var s := CLOSED_NUMBER;
    var e := Err(UnexpectedEof);
    assert NumberLoop(AsWritten, s, 4, 12) == Ok(Parsed(12, 4));
    assert NumberLoop(AsWritten, s, 2, 1) == Ok(Parsed(12, 4));
    FromBytesAt(AsWritten, s, 1);
    assert ArrayTail(AsWritten, s, 4, [Number(12)]) == e;
    FromBytesAt(AsWritten, s, 0);
    assert GetArray(AsWritten, s, 1) == e;
  }

  /** As written, `[12 ]` is accepted: the space after `12` is the byte consumed with its `2`. */
  lemma SpacedNumberAsWritten()
    ensures Decode(AsWritten, SPACED_NUMBER) == Ok(Array([Number(12)]))
  {
    var s := SPACED_NUMBER;
    var r := Ok(Parsed([Number(12)], 5));
    assert NumberLoop(AsWritten, s, 4, 12) == Ok(Parsed(12, 4));
    assert NumberLoop(AsWritten, s, 2, 1) == Ok(Parsed(12, 4));
    FromBytesAt(AsWritten, s, 1);
    assert SkipSpace(s, 4) == 4;
    assert ArrayTail(AsWritten, s, 4, [Number(12)]) == r;
    FromBytesAt(AsWritten, s, 0);
    assert GetArray(AsWritten, s, 1) == r;
  }

  /** Corrected, `[12]` decodes to the array holding `12`. */
  lemma ClosedNumberCorrected()
    ensures Decode(Corrected, CLOSED_NUMBER) == Ok(Array([Number(12)]))
  {
    var s := CLOSED_NUMBER;
    var r := Ok(Parsed([Number(12)], 4));
    TwoDigitNumber(Corrected, s, 1);
    assert SkipSpace(s, 3) == 3;
    assert ArrayTail(Corrected, s, 3, [Number(12)]) == r;
    FromBytesAt(Corrected, s, 0);
    assert GetArray(Corrected, s, 1) == r;
  }

  // ---------------------------------------------------------------- numbers

  /** `3244443214` */
  const BIG_NUMBER: seq<Byte> :=
    [Digit(3), Digit(2), Digit(4), Digit(4), Digit(4), Digit(4), Digit(3), Digit(2), Digit(1), Digit(4)]

  /** As written, every second digit of `3244443214` is dropped. */
  lemma BigNumberAsWritten()
    ensures Decode(AsWritten, BIG_NUMBER) == Ok(Number(324424))
  {
    var s := BIG_NUMBER;
    assert NumberLoop(AsWritten, s, 10, 324424) == Ok(Parsed(324424, 10));
    assert NumberLoop(AsWritten, s, 9, 32442) == Ok(Parsed(324424, 10));
    assert NumberLoop(AsWritten, s, 7, 3244) == Ok(Parsed(324424, 10));
    assert NumberLoop(AsWritten, s, 5, 324) == Ok(Parsed(324424, 10));
    assert NumberLoop(AsWritten, s, 3, 32) == Ok(Parsed(324424, 10));
    assert NumberLoop(AsWritten, s, 1, 3) == Ok(Parsed(324424, 10));
    FromBytesAt(AsWritten, s, 0);
  }

  /** Corrected, `3244443214` decodes to the number the test expects. */
  lemma BigNumberCorrected()
    ensures Decode(Corrected, BIG_NUMBER) == Ok(Number(3244443214))
  {
    var s := BIG_NUMBER;
    var r := Ok(Parsed(3244443214, 10));
    assert NumberLoop(Corrected, s, 10, 3244443214) == r;
    assert NumberLoop(Corrected, s, 9, 324444321) == r;
    assert NumberLoop(Corrected, s, 8, 32444432) == r;
    assert NumberLoop(Corrected, s, 7, 3244443) == r;
    assert NumberLoop(Corrected, s, 6, 324444) == r;
    assert NumberLoop(Corrected, s, 5, 32444) == r;
    assert NumberLoop(Corrected, s, 4, 3244) == r;
    assert NumberLoop(Corrected, s, 3, 324) == r;
    assert NumberLoop(Corrected, s, 2, 32) == r;
    assert NumberLoop(Corrected, s, 1, 3) == r;
    FromBytesAt(Corrected, s, 0);
  }

  /** `{"a":[12, 34 , 45]}` */
  const NESTED: seq<Byte> :=
    [LBRACE, QUOTE, 'a' as int, QUOTE, COLON, LBRACKET, Digit(1), Digit(2), COMMA, SP,
     Digit(3), Digit(4), SP, COMMA, SP, Digit(4), Digit(5), RBRACKET, RBRACE]

  /** The items of `NESTED`, as the test expects them. */
  const NESTED_ITEMS: seq<Value> := [Number(12), Number(34), Number(45)]

  /** Decoding `NESTED` succeeds once its array at position 5 does. */
  lemma NestedObjectOk(scan: Scan, v: Value)
    requires FromBytes(scan, NESTED, 5) == Ok(Parsed(v, 18))
    ensures FromBytes(scan, NESTED, 0) == Ok(Parsed(Object(map[['a' as int] := v]), 19))
  {
    var s := NESTED;
    var m := map[['a' as int] := v];
    ShortKeyMember(scan, s, 1);
    assert MemberEnd(scan, s, 18, m) == Ok(Parsed(m, 19));
    assert ObjectMembers(scan, s, 1, map[]) == Ok(Parsed(m, 19));
    FromBytesAt(scan, s, 0);
    assert GetObject(scan, s, 1) == Ok(Parsed(m, 19));
  }

  /** Decoding `NESTED` fails as its array at position 5 does. */
  lemma NestedObjectErr(scan: Scan, e: ParseError)
    requires FromBytes(scan, NESTED, 5) == Err(e)
    ensures FromBytes(scan, NESTED, 0) == Err(e)
  {
    var s := NESTED;
    ShortKeyMember(scan, s, 1);
    assert ObjectMembers(scan, s, 1, map[]) == Err(e);
    FromBytesAt(scan, s, 0);
    assert GetObject(scan, s, 1) == Err(e);
  }

  /** As written, the comma after `12` is consumed with it and `3` is read as the separator. */
  lemma NestedAsWritten()
    ensures Decode(AsWritten, NESTED) == Err(UnexpectSymErr(Digit(3)))
  {
    var s := NESTED;
    TwoDigitNumber(AsWritten, s, 6);
    assert SkipSpace(s, 10) == 10;
    assert NextToken(s, 9) == Ok(Parsed(Digit(3), 11));
    assert ArrayTail(AsWritten, s, 9, [Number(12)]) == Err(UnexpectSymErr(Digit(3)));
    assert GetArray(AsWritten, s, 6) == Err(UnexpectSymErr(Digit(3)));
    FromBytesAt(AsWritten, s, 5);
    assert FromBytes(AsWritten, s, 5) == Err(UnexpectSymErr(Digit(3)));
    NestedObjectErr(AsWritten, UnexpectSymErr(Digit(3)));
  }

  lemma NestedNumbersCorrected()
    ensures FromBytes(Corrected, NESTED, 6) == Ok(Parsed(Number(12), 8))
    ensures FromBytes(Corrected, NESTED, 9) == Ok(Parsed(Number(34), 12))
    ensures FromBytes(Corrected, NESTED, 14) == Ok(Parsed(Number(45), 17))
  {
    TwoDigitNumber(Corrected, NESTED, 6);
    SpacedTwoDigitNumber(Corrected, NESTED, 9);
    SpacedTwoDigitNumber(Corrected, NESTED, 14);
  }

  lemma NestedItemsCorrected()
    ensures GetArray(Corrected, NESTED, 6) == Ok(Parsed(NESTED_ITEMS, 18))
  {
    var s := NESTED;
    var r := Ok(Parsed(NESTED_ITEMS, 18));
    NestedNumbersCorrected();
    assert ArrayTail(Corrected, s, 17, NESTED_ITEMS) == r;
    assert SkipSpace(s, 13) == 13;
    assert NextToken(s, 12) == Ok(Parsed(COMMA, 14));
    assert NESTED_ITEMS[..2] + [Number(45)] == NESTED_ITEMS;
    assert ArrayTail(Corrected, s, 12, NESTED_ITEMS[..2]) == r;
    assert NESTED_ITEMS[..1] + [Number(34)] == NESTED_ITEMS[..2];
    assert ArrayTail(Corrected, s, 8, NESTED_ITEMS[..1]) == r;
    assert [Number(12)] == NESTED_ITEMS[..1];
    assert GetArrayContent(Corrected, s, 6) == r;
  }

  /** Corrected, `NESTED` decodes as the test expects. */
  lemma NestedCorrected()
    ensures Decode(Corrected, NESTED) == Ok(Object(map[['a' as int] := Array(NESTED_ITEMS)]))
  {
    NestedItemsCorrected();
    FromBytesAt(Corrected, NESTED, 5);
    assert FromBytes(Corrected, NESTED, 5) == Ok(Parsed(Array(NESTED_ITEMS), 18));
    NestedObjectOk(Corrected, Array(NESTED_ITEMS));
  }
}
