/**
 * The decoders of json/src/lib.rs as the source runs them: every decoder
 * advances one shared `Peekable` byte iterator in place, strings and arrays
 * are accumulated in loops, objects are filled in labelled loops. Each method
 * is proved to compute the function of the same name in JsonSpec. Every
 * method takes the number scanner `scan`: `Scan.AsWritten` runs `get_number`
 * as the source has it, `Scan.Corrected` without its extra `it.next()`.
 */
module JsonDecoder {
  import opened Bytes
  import opened Utf8
  import opened JsonSpec

  /** The shared byte iterator with one byte of lookahead: the input and the read position. */
  class Cursor {
    const data: seq<Byte>
    var pos: nat

    ghost predicate Valid()
      reads this
    {
      pos <= |data|
    }

    constructor (s: seq<Byte>)
      ensures Valid() && data == s && pos == 0
    {
      data := s;
      pos := 0;
    }

    /** `peek`: the next byte, not consumed. */
    function Peek(): (r: Option<Byte>)
      reads this
      requires Valid()
      ensures r.Some? <==> pos < |data|
      ensures r.Some? ==> r.value == data[pos]
    {
      if pos < |data| then Some(data[pos]) else None
    }

    /** `next`: the next byte, consumed; nothing happens at the end of the input. */
    method Next() returns (r: Option<Byte>)
      requires Valid()
      modifies this
      ensures Valid()
      ensures r == old(Peek())
      ensures pos == if r.Some? then old(pos) + 1 else old(pos)
    {
      if pos < |data| {
        r := Some(data[pos]);
        pos := pos + 1;
      } else {
        r := None;
      }
    }

    /** `next_if(u8::is_ascii_digit)`: the next byte, consumed only when it is a digit. */
    method NextIfDigit() returns (r: Option<Byte>)
      requires Valid()
      modifies this
      ensures Valid()
      ensures r.Some? <==> old(pos) < |data| && IsDigit(data[old(pos)])
      ensures r.Some? ==> r.value == data[old(pos)] && pos == old(pos) + 1
      ensures r.None? ==> pos == old(pos)
    {
      if pos < |data| && IsDigit(data[pos]) {
        r := Some(data[pos]);
        pos := pos + 1;
      } else {
        r := None;
      }
    }
  }

  /** The decoded item without its end position. */
  function Forget<T>(r: Outcome<Parsed<T>>): Outcome<T> {
    match r
    case Ok(p) => Ok(p.value)
    case Err(e) => Err(e)
    case Panicked(p) => Panicked(p)
  }

  /**
   * A method's result `r` and final position `pos` are those of the
   * specification outcome `spec` (the position only matters on success).
   */
  ghost predicate Agrees<T>(r: Outcome<T>, spec: Outcome<Parsed<T>>, pos: nat) {
    r == Forget(spec) && (spec.Ok? ==> pos == spec.value.next)
  }

  /** `skip_space(it).next()`: consume whitespace and the byte after it. */
  method NextNonSpace(it: Cursor) returns (r: Option<Byte>)
    requires it.Valid()
    modifies it
    ensures it.Valid()
    ensures var tok := NextToken(it.data, old(it.pos));
      if tok.Ok? then r == Some(tok.value.value) && it.pos == tok.value.next
      else r == None && it.pos == |it.data|
  {
    r := it.Next();
    while r.Some? && IsWhitespace(r.value)
      invariant it.Valid()
      invariant r.None? ==> it.pos == |it.data| && SkipSpace(it.data, old(it.pos)) == |it.data|
      invariant r.Some? ==> 0 < it.pos && r.value == it.data[it.pos - 1]
      invariant r.Some? ==> SkipSpace(it.data, it.pos - 1) == SkipSpace(it.data, old(it.pos))
      decreases |it.data| - it.pos, r.Some?
    {
      r := it.Next();
    }
  }

  /** `get_string`: the escape flag and the byte buffer, one input byte per turn. */
  method GetString(it: Cursor) returns (r: Outcome<Str>)
    requires it.Valid()
    modifies it
    ensures it.Valid()
    ensures Agrees(r, JsonSpec.GetString(it.data, old(it.pos)), it.pos)
  {
    ghost var target := JsonSpec.GetString(it.data, it.pos);
    var esc := false;
    var buf: Str := [];
    while true
      invariant it.Valid()
      invariant ScanString(it.data, it.pos, esc, buf) == target
      decreases |it.data| - it.pos
    {
      var next := it.Next();
      if next.None? {
        return Err(UnexpectedEof);
      }
      var c := next.value;
      if esc {
        esc := false;
        var d := Unescape(c);
        if d.Some? {
          buf := buf + [d.value];
        } else if c == 'u' as int {
          return Panicked(UnicodeEscape);
        } else {
          return Err(UnexpectSymErr(c));
        }
      } else if c < 0x20 {
        return Err(UnexpectSymErr(c));
      } else if c == QUOTE {
        if ValidUtf8(buf) {
          return Ok(buf);
        } else {
          return Err(Utf8Err);
        }
      } else if c == BACKSLASH {
        esc := true;
      } else {
        buf := buf + [c];
      }
    }
  }

  /**
   * `get_number`: under `AsWritten` each digit taken by `next_if` is followed
   * by an unconditional `it.next()`, as in the source.
   */
  method GetNumber(scan: Scan, first: Byte, it: Cursor) returns (r: Outcome<nat>)
    requires it.Valid() && IsDigit(first)
    modifies it
    ensures it.Valid()
    ensures Agrees(r, JsonSpec.GetNumber(scan, first, it.data, old(it.pos)), it.pos)
  {
    ghost var target := JsonSpec.GetNumber(scan, first, it.data, it.pos);
    var v: nat := DigitValue(first);
    var c := it.NextIfDigit();
    while c.Some?
      invariant it.Valid() && v <= I64_MAX
      invariant c.None? ==> NumberLoop(scan, it.data, it.pos, v) == target
      invariant c.None? ==> !(it.pos < |it.data| && IsDigit(it.data[it.pos]))
      invariant c.Some? ==> 0 < it.pos && IsDigit(c.value) && c.value == it.data[it.pos - 1]
      invariant c.Some? ==> NumberLoop(scan, it.data, it.pos - 1, v) == target
      decreases |it.data| - it.pos, c.Some?
    {
      if 10 * v + DigitValue(c.value) > I64_MAX {
        assert NumberLoop(scan, it.data, it.pos - 1, v) == Panicked(NumberOverflow);
        return Panicked(NumberOverflow);
      }
      v := 10 * v + DigitValue(c.value);
      if scan == AsWritten {
        var _ := it.Next();
      }
      c := it.NextIfDigit();
    }
    assert NumberLoop(scan, it.data, it.pos, v) == Ok(Parsed(v, it.pos));
    r := Ok(v);
  }

  /** `match_lit_str`: compare the rest of the literal with the next bytes, pair by pair. */
  method MatchLitStr(lit: seq<Byte>, it: Cursor) returns (r: Outcome<()>)
    requires it.Valid() && |lit| > 0
    modifies it
    ensures it.Valid()
    ensures var spec := JsonSpec.MatchLitStr(lit, it.data, old(it.pos));
      (r.Ok? <==> spec.Ok?) && (r.Err? <==> spec.Err?) && !r.Panicked?
      && (r.Err? ==> r.error == spec.error)
      && (spec.Ok? ==> it.pos == spec.value)
  {
    var rest := lit[1..];
    ghost var start := it.pos;
    OccursIsSlice(rest, it.data, start);
    var i := 0;
    while i < |rest|
      invariant it.Valid() && 0 <= i <= |rest|
      invariant it.pos == start + i && it.data[start..it.pos] == rest[..i]
    {
      var c := it.Next();
      if c != Some(rest[i]) {
        assert start + |rest| <= |it.data| ==> it.data[start..start + |rest|][i] != rest[i];
        return Err(DefaultErr);
      }
      assert it.data[start..it.pos] == it.data[start..start + i] + [rest[i]];
      assert rest[..i + 1] == rest[..i] + [rest[i]];
      i := i + 1;
    }
    assert rest[..i] == rest;
    r := Ok(());
  }

  /** `from_bytes`: the dispatcher. */
  method FromBytes(scan: Scan, it: Cursor) returns (r: Outcome<Value>)
    requires it.Valid()
    modifies it
    ensures it.Valid()
    ensures Agrees(r, JsonSpec.FromBytes(scan, it.data, old(it.pos)), it.pos)
    decreases |it.data| - it.pos, 0
  {
    var next := NextNonSpace(it);
    if next.None? {
      return Err(UnexpectedEof);
    }
    var c := next.value;
    if c == LBRACE {
      var m :- GetObject(scan, it);
      r := Ok(Object(m));
    } else if c == LBRACKET {
      var a :- GetArray(scan, it);
      r := Ok(Array(a));
    } else if c == QUOTE {
      var t :- GetString(it);
      r := Ok(String(t));
    } else if c == 't' as int {
      var _ :- MatchLitStr(LIT_TRUE, it);
      r := Ok(Bool(true));
    } else if c == 'f' as int {
      var _ :- MatchLitStr(LIT_FALSE, it);
      r := Ok(Bool(false));
    } else if c == 'n' as int {
      var _ :- MatchLitStr(LIT_NULL, it);
      r := Ok(Null);
    } else if IsDigit(c) {
      var n :- GetNumber(scan, c, it);
      r := Ok(Number(n));
    } else {
      r := Err(UnexpectSymErr(c));
    }
  }

  /** `get_array`: peek past whitespace; a value start hands over to `get_array_content`. */
  method GetArray(scan: Scan, it: Cursor) returns (r: Outcome<seq<Value>>)
    requires it.Valid()
    modifies it
    ensures it.Valid()
    ensures Agrees(r, JsonSpec.GetArray(scan, it.data, old(it.pos)), it.pos)
    decreases |it.data| - it.pos, 2
  {
    ghost var target := JsonSpec.GetArray(scan, it.data, it.pos);
    ghost var start := it.pos;
    while true
      invariant it.Valid() && start <= it.pos
      invariant JsonSpec.GetArray(scan, it.data, it.pos) == target
      decreases |it.data| - it.pos
    {
      var peeked := it.Peek();
      if peeked.None? {
        return Err(UnexpectedEof);
      }
      var c := peeked.value;
      if IsValueStart(c) {
        r := GetArrayContent(scan, it);
        return;
      }
      var _ := it.Next();
      if IsWhitespace(c) {
      } else if c == RBRACKET {
        return Ok([]);
      } else {
        return Err(UnexpectSymErr(c));
      }
    }
  }

  /** `get_array_content`: the first element, then `,` and an element until `]`. */
  method GetArrayContent(scan: Scan, it: Cursor) returns (r: Outcome<seq<Value>>)
    requires it.Valid()
    modifies it
    ensures it.Valid()
    ensures Agrees(r, JsonSpec.GetArrayContent(scan, it.data, old(it.pos)), it.pos)
    decreases |it.data| - it.pos, 1
  {
    ghost var target := JsonSpec.GetArrayContent(scan, it.data, it.pos);
    ghost var start := it.pos;
    var first :- FromBytes(scan, it);
    var v := [first];
    while true
      invariant it.Valid() && start <= it.pos
      invariant ArrayTail(scan, it.data, it.pos, v) == target
      decreases |it.data| - it.pos
    {
      var sep := NextNonSpace(it);
      if sep.None? {
        return Err(UnexpectedEof);
      } else if sep.value == RBRACKET {
        return Ok(v);
      } else if sep.value == COMMA {
        var item :- FromBytes(scan, it);
        v := v + [item];
      } else {
        return Err(UnexpectSymErr(sep.value));
      }
    }
  }

  /** `get_object`: peek past whitespace to the first key or to `}`. */
  method GetObject(scan: Scan, it: Cursor) returns (r: Outcome<map<Str, Value>>)
    requires it.Valid()
    modifies it
    ensures it.Valid()
    ensures Agrees(r, JsonSpec.GetObject(scan, it.data, old(it.pos)), it.pos)
    decreases |it.data| - it.pos, 3
  {
    ghost var target := JsonSpec.GetObject(scan, it.data, it.pos);
    ghost var start := it.pos;
    while true
      invariant it.Valid() && start <= it.pos
      invariant JsonSpec.GetObject(scan, it.data, it.pos) == target
      decreases |it.data| - it.pos
    {
      var peeked := it.Peek();
      if peeked.None? {
        return Err(UnexpectedEof);
      }
      var c := peeked.value;
      if IsWhitespace(c) {
        var _ := it.Next();
      } else if c == QUOTE {
        r := GetObjectContent(scan, it);
        return;
      } else if c == RBRACE {
        var _ := it.Next();
        return Ok(map[]);
      } else {
        return Err(UnexpectSymErr(c));
      }
    }
  }

  /** The head of the outer loop of `get_object_content`: `"key"`, `:` and a value. */
  method Member(scan: Scan, it: Cursor) returns (r: Outcome<(Str, Value)>)
    requires it.Valid()
    modifies it
    ensures it.Valid()
    ensures Agrees(r, JsonSpec.Member(scan, it.data, old(it.pos)), it.pos)
    decreases |it.data| - it.pos, 0
  {
    var open := NextNonSpace(it);
    if open.None? {
      return Err(UnexpectedEof);
    } else if open.value != QUOTE {
      return Err(UnexpectSymErr(open.value));
    }
    var k :- GetString(it);
    var colon := NextNonSpace(it);
    if colon.None? {
      return Err(UnexpectedEof);
    } else if colon.value != COLON {
      return Err(DefaultErr);
    }
    var v :- FromBytes(scan, it);
    r := Ok((k, v));
  }

  /**
   * `get_object_content`: the outer loop reads a member and inserts it
   * unless its key is present; the inner loop peeks past whitespace to `,`
   * (next member) or `}` (done).
   */
  method GetObjectContent(scan: Scan, it: Cursor) returns (r: Outcome<map<Str, Value>>)
    requires it.Valid()
    modifies it
    ensures it.Valid()
    ensures Agrees(r, JsonSpec.GetObjectContent(scan, it.data, old(it.pos)), it.pos)
    decreases |it.data| - it.pos, 2
  {
    ghost var target := JsonSpec.GetObjectContent(scan, it.data, it.pos);
    ghost var start := it.pos;
    var m: map<Str, Value> := map[];
    while true
      invariant it.Valid() && start <= it.pos
      invariant ObjectMembers(scan, it.data, it.pos, m) == target
      decreases |it.data| - it.pos
    {
      var member :- Member(scan, it);
      var (k, v) := member;
      if k !in m {
        m := m[k := v];
      }
      while true
        invariant it.Valid() && start <= it.pos
        invariant MemberEnd(scan, it.data, it.pos, m) == target
        decreases |it.data| - it.pos
      {
        var peeked := it.Peek();
        if peeked.None? {
          return Err(UnexpectedEof);
        }
        var c := peeked.value;
        if IsWhitespace(c) {
          var _ := it.Next();
        } else if c == COMMA {
          var _ := it.Next();
          break;
        } else if c == RBRACE {
          var _ := it.Next();
          return Ok(m);
        } else {
          return Err(UnexpectSymErr(c));
        }
      }
    }
  }

  /** Decode an in-memory input from its first byte, as the tests of the source do. */
  method DecodeBytes(scan: Scan, s: seq<Byte>) returns (r: Outcome<Value>)
    ensures r == Decode(scan, s)
  {
    var it := new Cursor(s);
    r := FromBytes(scan, it);
  }
}
