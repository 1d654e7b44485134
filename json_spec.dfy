/**
 * The JSON decoder of json/src/lib.rs, as pure functions over the whole input
 * `s` and a read position. Each decoder returns the decoded value together with
 * the position just after the last byte it consumed, so that the shared
 * `Peekable` cursor of the source becomes an explicit index. The imperative
 * module JsonDecoder runs the same algorithms over a cursor object and is
 * proved to compute exactly these functions.
 */
module JsonSpec {
  import opened Bytes
  import opened Utf8

  const I64_MAX: int := 0x7FFF_FFFF_FFFF_FFFF
  type I64 = x: int | -0x8000_0000_0000_0000 <= x <= I64_MAX

  /** A decoded string: its bytes, which are well-formed UTF-8 on every decode. */
  type Str = seq<Byte>

  /** `Value`: the closed sum type of decoded documents. Object member order is irrelevant. */
  datatype Value =
    | Null
    | Bool(b: bool)
    | Number(n: I64)
    | String(s: Str)
    | Array(items: seq<Value>)
    | Object(members: map<Str, Value>)

  /** `ParseError`: the four error kinds of the decoder. */
  datatype ParseError = DefaultErr | UnexpectSymErr(sym: Byte) | UnexpectedEof | Utf8Err

  /**
   * Where the source aborts the process instead of returning: `todo!()` on a
   * `\u` escape, and the overflow check of a debug build on `10 * v + d`.
   */
  datatype Panic = UnicodeEscape | NumberOverflow

  datatype Outcome<+T> = Ok(value: T) | Err(error: ParseError) | Panicked(panic: Panic)
  {
    predicate IsFailure() {
      !Ok?
    }

    function PropagateFailure<U>(): (r: Outcome<U>)
      requires IsFailure()
      ensures r.Err? == Err? && r.Panicked? == Panicked?
    {
      if Err? then Err(error) else Panicked(panic)
    }

    function Extract(): T
      requires Ok?
    {
      value
    }
  }

  /** A decoded item and the read position after it. */
  datatype Parsed<+T> = Parsed(value: T, next: nat)

  /**
   * Which number scanner the decoder uses. `AsWritten` is `get_number` as the
   * source has it: after each digit taken with `next_if` it calls `it.next()`
   * once more and so drops the byte after that digit. `Corrected` stops at the
   * first non-digit and leaves it for the caller, as the tests in the source
   * expect.
   */
  datatype Scan = AsWritten | Corrected

  const QUOTE: Byte := '"' as int
  const BACKSLASH: Byte := '\\' as int
  const COLON: Byte := ':' as int
  const COMMA: Byte := ',' as int
  const LBRACE: Byte := '{' as int
  const RBRACE: Byte := '}' as int
  const LBRACKET: Byte := '[' as int
  const RBRACKET: Byte := ']' as int
  const LIT_TRUE: seq<Byte> := ['t' as int, 'r' as int, 'u' as int, 'e' as int]
  const LIT_FALSE: seq<Byte> := ['f' as int, 'a' as int, 'l' as int, 's' as int, 'e' as int]
  const LIT_NULL: seq<Byte> := ['n' as int, 'u' as int, 'l' as int, 'l' as int]

  /** `u8::is_ascii_whitespace`: space, tab, line feed, form feed, carriage return. */
  predicate IsWhitespace(c: Byte) {
    c == 0x20 || c == 0x09 || c == 0x0A || c == 0x0C || c == 0x0D
  }

  predicate IsDigit(c: Byte) {
    '0' as int <= c <= '9' as int
  }

  /** The bytes `get_array` peeks for before it hands over to `get_array_content`. */
  predicate IsValueStart(c: Byte) {
    c == LBRACE || c == LBRACKET || c == QUOTE || c == 't' as int || c == 'f' as int
    || c == 'n' as int || IsDigit(c)
  }

  /** `skip_space`: the position of the first non-whitespace byte at or after `pos`. */
  function SkipSpace(s: seq<Byte>, pos: nat): (q: nat)
    requires pos <= |s|
    ensures pos <= q <= |s|
    ensures q < |s| ==> !IsWhitespace(s[q])
    decreases |s| - pos
  {
    if pos < |s| && IsWhitespace(s[pos]) then SkipSpace(s, pos + 1) else pos
  }

  /** `skip_space(it).next().ok_or(UnexpectedEof)`: the next significant byte, consumed. */
  function NextToken(s: seq<Byte>, pos: nat): (r: Outcome<Parsed<Byte>>)
    requires pos <= |s|
    ensures r.Ok? || r == Err(UnexpectedEof)
    ensures r.Ok? ==> pos < r.value.next <= |s| && r.value.value == s[r.value.next - 1]
  {
    var q := SkipSpace(s, pos);
    if q == |s| then Err(UnexpectedEof) else Ok(Parsed(s[q], q + 1))
  }

  /** The escape table of `get_string`: the byte an escaped byte stands for. */
  function Unescape(c: Byte): Option<Byte> {
    if c == QUOTE then Some(QUOTE)
    else if c == BACKSLASH then Some(BACKSLASH)
    else if c == '/' as int then Some('/' as int)
    else if c == 'b' as int then Some(0x08)
    else if c == 'f' as int then Some(0x0C)
    else if c == 'n' as int then Some(0x0A)
    else if c == 'r' as int then Some(0x0D)
    else if c == 't' as int then Some(0x09)
    else None
  }

  /**
   * The loop of `get_string` from position `pos`, with `esc` the escape flag
   * and `buf` the bytes decoded so far.
   */
  function ScanString(s: seq<Byte>, pos: nat, esc: bool, buf: Str): (r: Outcome<Parsed<Str>>)
    requires pos <= |s|
    ensures r.Ok? ==> pos < r.value.next <= |s| && s[r.value.next - 1] == QUOTE
    ensures r.Ok? ==> ValidUtf8(r.value.value)
    decreases |s| - pos
  {
    if pos == |s| then Err(UnexpectedEof)
    else
      var c := s[pos];
      if esc then
        match Unescape(c)
        case Some(d) => ScanString(s, pos + 1, false, buf + [d])
        case None => if c == 'u' as int then Panicked(UnicodeEscape) else Err(UnexpectSymErr(c))
      else if c < 0x20 then Err(UnexpectSymErr(c))
      else if c == QUOTE then (if ValidUtf8(buf) then Ok(Parsed(buf, pos + 1)) else Err(Utf8Err))
      else if c == BACKSLASH then ScanString(s, pos + 1, true, buf)
      else ScanString(s, pos + 1, false, buf + [c])
  }

  /** `get_string`, called just after the opening quote. */
  function GetString(s: seq<Byte>, pos: nat): (r: Outcome<Parsed<Str>>)
    requires pos <= |s|
  {
    ScanString(s, pos, false, [])
  }

  function DigitValue(c: Byte): nat
    requires IsDigit(c)
  {
    c - '0' as int
  }

  /**
   * Where `get_number` reads next after taking the digit at `pos`: `next_if`
   * consumed it, and under `AsWritten` the following `it.next()` consumes one
   * more byte when there is one.
   */
  function AfterDigit(scan: Scan, s: seq<Byte>, pos: nat): (q: nat)
    requires pos < |s|
    ensures pos < q <= |s|
  {
    if scan == AsWritten && pos + 1 < |s| then pos + 2 else pos + 1
  }

  /**
   * The loop of `get_number` from position `pos` with accumulator `v`. Under
   * `AsWritten` each digit taken is followed by one more byte consumed (none at
   * the end of the input).
   */
  function NumberLoop(scan: Scan, s: seq<Byte>, pos: nat, v: nat): (r: Outcome<Parsed<nat>>)
    requires pos <= |s| && v <= I64_MAX
    ensures !r.Err?
    ensures r.Ok? ==> pos <= r.value.next <= |s| && v <= r.value.value <= I64_MAX
    decreases |s| - pos
  {
    if pos < |s| && IsDigit(s[pos]) then
      var w := 10 * v + DigitValue(s[pos]);
      if w > I64_MAX then Panicked(NumberOverflow) else NumberLoop(scan, s, AfterDigit(scan, s, pos), w)
    else Ok(Parsed(v, pos))
  }

  /** `get_number`: `first` is the digit the dispatcher already consumed. */
  function GetNumber(scan: Scan, first: Byte, s: seq<Byte>, pos: nat): (r: Outcome<Parsed<nat>>)
    requires pos <= |s| && IsDigit(first)
  {
    NumberLoop(scan, s, pos, DigitValue(first))
  }

  /**
   * The bytes `e` are found in `s` from position `pos` on, compared one pair
   * at a time as an iterator comparison does.
   */
  predicate Occurs(e: seq<Byte>, s: seq<Byte>, pos: nat)
    decreases |e|
  {
    pos + |e| <= |s| && (|e| == 0 || (s[pos] == e[0] && Occurs(e[1..], s, pos + 1)))
  }

  /** The pairwise comparison agrees with comparing a slice of `s` to `e`. */
  lemma {:induction false} OccursIsSlice(e: seq<Byte>, s: seq<Byte>, pos: nat)
    ensures Occurs(e, s, pos) <==> pos + |e| <= |s| && s[pos..pos + |e|] == e
    decreases |e|
  {
    if |e| > 0 && pos + |e| <= |s| {
      OccursIsSlice(e[1..], s, pos + 1);
      assert s[pos..pos + |e|] == [s[pos]] + s[pos + 1..pos + |e|];
      assert e == [e[0]] + e[1..];
    }
  }

  /**
   * `match_lit_str`: the literal without its first byte (already consumed) must
   * be the next bytes of the input, else `DefaultErr`.
   */
  function MatchLitStr(lit: seq<Byte>, s: seq<Byte>, pos: nat): (r: Outcome<nat>)
    requires |lit| > 0 && pos <= |s|
  {
    var rest := lit[1..];
    if Occurs(rest, s, pos) then Ok(pos + |rest|) else Err(DefaultErr)
  }

  /** `from_bytes`: skip whitespace, consume the next byte and dispatch on it. */
  function FromBytes(scan: Scan, s: seq<Byte>, pos: nat): (r: Outcome<Parsed<Value>>)
    requires pos <= |s|
    ensures r.Ok? ==> pos < r.value.next <= |s|
    decreases |s| - pos, 0
  {
    var tok :- NextToken(s, pos);
    Dispatch(scan, tok.value, s, tok.next)
  }

  /** `c` is the byte that values of the kind of `v` start with. */
  predicate Heads(c: Byte, v: Value) {
    match v
    case Null => c == 'n' as int
    case Bool(b) => c == if b then 't' as int else 'f' as int
    case Number(_) => IsDigit(c)
    case String(_) => c == QUOTE
    case Array(_) => c == LBRACKET
    case Object(_) => c == LBRACE
  }

  /**
   * The `match` of `from_bytes` on the byte `c`, read just before `pos`: each
   * value start leads to a value of its own kind, any other byte is an error
   * naming it.
   */
  function Dispatch(scan: Scan, c: Byte, s: seq<Byte>, pos: nat): (r: Outcome<Parsed<Value>>)
    requires pos <= |s|
    ensures r.Ok? ==> pos <= r.value.next <= |s| && Heads(c, r.value.value)
    ensures !IsValueStart(c) ==> r == Err(UnexpectSymErr(c))
    decreases |s| - pos, 4
  {
    if c == LBRACE then
      var m :- GetObject(scan, s, pos);
      Ok(Parsed(Object(m.value), m.next))
    else if c == LBRACKET then
      var a :- GetArray(scan, s, pos);
      Ok(Parsed(Array(a.value), a.next))
    else if c == QUOTE then
      var t :- GetString(s, pos);
      Ok(Parsed(String(t.value), t.next))
    else if c == 't' as int then
      var p :- MatchLitStr(LIT_TRUE, s, pos);
      Ok(Parsed(Bool(true), p))
    else if c == 'f' as int then
      var p :- MatchLitStr(LIT_FALSE, s, pos);
      Ok(Parsed(Bool(false), p))
    else if c == 'n' as int then
      var p :- MatchLitStr(LIT_NULL, s, pos);
      Ok(Parsed(Null, p))
    else if IsDigit(c) then
      var n :- GetNumber(scan, c, s, pos);
      Ok(Parsed(Number(n.value), n.next))
    else Err(UnexpectSymErr(c))
  }

  /** `get_array`, called after `[`: the peek loop before the first element. */
  function GetArray(scan: Scan, s: seq<Byte>, pos: nat): (r: Outcome<Parsed<seq<Value>>>)
    requires pos <= |s|
    ensures r.Ok? ==> pos < r.value.next <= |s|
    decreases |s| - pos, 2
  {
    if pos == |s| then Err(UnexpectedEof)
    else
      var c := s[pos];
      if IsValueStart(c) then GetArrayContent(scan, s, pos)
      else if IsWhitespace(c) then GetArray(scan, s, pos + 1)
      else if c == RBRACKET then Ok(Parsed([], pos + 1))
      else Err(UnexpectSymErr(c))
  }

  /** `get_array_content`: the first element, then the separator loop. */
  function GetArrayContent(scan: Scan, s: seq<Byte>, pos: nat): (r: Outcome<Parsed<seq<Value>>>)
    requires pos <= |s|
    ensures r.Ok? ==> pos < r.value.next <= |s|
    decreases |s| - pos, 1
  {
    var first :- FromBytes(scan, s, pos);
    ArrayTail(scan, s, first.next, [first.value])
  }

  /**
   * The loop of `get_array_content` after the elements `acc`: `]` ends the
   * array, `,` must be followed by one more element.
   */
  function ArrayTail(scan: Scan, s: seq<Byte>, pos: nat, acc: seq<Value>): (r: Outcome<Parsed<seq<Value>>>)
    requires pos <= |s|
    ensures r.Ok? ==> pos < r.value.next <= |s|
    decreases |s| - pos, 1
  {
    var sep :- NextToken(s, pos);
    if sep.value == RBRACKET then Ok(Parsed(acc, sep.next))
    else if sep.value == COMMA then
      var item :- FromBytes(scan, s, sep.next);
      ArrayTail(scan, s, item.next, acc + [item.value])
    else Err(UnexpectSymErr(sep.value))
  }

  /** `get_object`, called after `{`: the peek loop before the first key. */
  function GetObject(scan: Scan, s: seq<Byte>, pos: nat): (r: Outcome<Parsed<map<Str, Value>>>)
    requires pos <= |s|
    ensures r.Ok? ==> pos < r.value.next <= |s|
    decreases |s| - pos, 3
  {
    if pos == |s| then Err(UnexpectedEof)
    else
      var c := s[pos];
      if IsWhitespace(c) then GetObject(scan, s, pos + 1)
      else if c == QUOTE then GetObjectContent(scan, s, pos)
      else if c == RBRACE then Ok(Parsed(map[], pos + 1))
      else Err(UnexpectSymErr(c))
  }

  /** `get_object_content`: the member loop, starting from an empty map. */
  function GetObjectContent(scan: Scan, s: seq<Byte>, pos: nat): (r: Outcome<Parsed<map<Str, Value>>>)
    requires pos <= |s|
    ensures r.Ok? ==> pos < r.value.next <= |s|
    decreases |s| - pos, 2
  {
    ObjectMembers(scan, s, pos, map[])
  }

  /**
   * The start of the outer loop of `get_object_content`: a quoted key,
   * whitespace, `:` and a value.
   */
  function Member(scan: Scan, s: seq<Byte>, pos: nat): (r: Outcome<Parsed<(Str, Value)>>)
    requires pos <= |s|
    ensures r.Ok? ==> pos < r.value.next <= |s|
    decreases |s| - pos, 0
  {
    var open :- NextToken(s, pos);
    if open.value != QUOTE then Err(UnexpectSymErr(open.value))
    else
      var key :- GetString(s, open.next);
      var colon :- NextToken(s, key.next);
      if colon.value != COLON then Err(DefaultErr)
      else
        var item :- FromBytes(scan, s, colon.next);
        Ok(Parsed((key.value, item.value), item.next))
  }

  /** `m.entry(k).or_insert(v)`: a key already present keeps its value. */
  function Insert(m: map<Str, Value>, k: Str, v: Value): map<Str, Value> {
    if k in m then m else m[k := v]
  }

  /**
   * The outer loop of `get_object_content` with the members `acc` read so
   * far. A key already in `acc` keeps its first value, though the later value
   * is still decoded (and its errors returned).
   */
  function ObjectMembers(scan: Scan, s: seq<Byte>, pos: nat, acc: map<Str, Value>): (r: Outcome<Parsed<map<Str, Value>>>)
    requires pos <= |s|
    ensures r.Ok? ==> pos < r.value.next <= |s|
    decreases |s| - pos, 1
  {
    var member :- Member(scan, s, pos);
    MemberEnd(scan, s, member.next, Insert(acc, member.value.0, member.value.1))
  }

  /** The inner loop of `get_object_content`: peek past whitespace to `,` or `}`. */
  function MemberEnd(scan: Scan, s: seq<Byte>, pos: nat, acc: map<Str, Value>): (r: Outcome<Parsed<map<Str, Value>>>)
    requires pos <= |s|
    ensures r.Ok? ==> pos < r.value.next <= |s|
    decreases |s| - pos, 1
  {
    if pos == |s| then Err(UnexpectedEof)
    else
      var c := s[pos];
      if IsWhitespace(c) then MemberEnd(scan, s, pos + 1, acc)
      else if c == COMMA then ObjectMembers(scan, s, pos + 1, acc)
      else if c == RBRACE then Ok(Parsed(acc, pos + 1))
      else Err(UnexpectSymErr(c))
  }

  /** Decoding a whole input from its first byte, as the tests of the source do. */
  function Decode(scan: Scan, s: seq<Byte>): Outcome<Value> {
    var r :- FromBytes(scan, s, 0);
    Ok(r.value)
  }
}
