/**
 * What the decoder of json/src/lib.rs promises, proved about the functions of
 * JsonSpec for every input: how whitespace, strings, literals, numbers,
 * arrays and objects are read, which error each malformed input gets, and
 * the round trips of strings and numbers against their encodings.
 */
module JsonProperties {
  import opened Bytes
  import opened Utf8
  import opened JsonSpec

  lemma OccursByte(e: seq<Byte>, s: seq<Byte>, pos: nat, i: nat)
    requires Occurs(e, s, pos) && i < |e|
    ensures s[pos + i] == e[i]
  {
    OccursIsSlice(e, s, pos);
    assert s[pos..pos + |e|][i] == s[pos + i];
  }

  lemma OccursSlice(e: seq<Byte>, s: seq<Byte>, pos: nat, i: nat, j: nat)
    requires Occurs(e, s, pos) && i <= j <= |e|
    ensures Occurs(e[i..j], s, pos + i)
  {
    OccursIsSlice(e, s, pos);
    OccursIsSlice(e[i..j], s, pos + i);
    var t := s[pos..pos + |e|];
    forall k | 0 <= k < j - i
      ensures s[pos + i..pos + j][k] == e[i..j][k]
    {
      assert t[i + k] == s[pos + i + k];
    }
  }

  lemma OccursSplit(a: seq<Byte>, b: seq<Byte>, s: seq<Byte>, pos: nat)
    requires Occurs(a + b, s, pos)
    ensures Occurs(a, s, pos) && Occurs(b, s, pos + |a|)
  {
    OccursSlice(a + b, s, pos, 0, |a|);
    OccursSlice(a + b, s, pos, |a|, |a + b|);
    assert (a + b)[0..|a|] == a;
    assert (a + b)[|a|..|a + b|] == b;
  }

  lemma OccursJoin(a: seq<Byte>, b: seq<Byte>, s: seq<Byte>, pos: nat)
    requires Occurs(a, s, pos) && Occurs(b, s, pos + |a|)
    ensures Occurs(a + b, s, pos)
  {
    OccursIsSlice(a, s, pos);
    OccursIsSlice(b, s, pos + |a|);
    OccursIsSlice(a + b, s, pos);
    assert s[pos..pos + |a| + |b|] == s[pos..pos + |a|] + s[pos + |a|..pos + |a| + |b|];
  }

  // ---------------------------------------------------------------- whitespace

  /** Every byte in `[pos, q)` is whitespace. */
  predicate AllWhitespace(s: seq<Byte>, pos: nat, q: nat)
    requires pos <= q <= |s|
  {
    forall i :: pos <= i < q ==> IsWhitespace(s[i])
  }

  lemma {:induction false} SkipSpaceOverWhitespace(s: seq<Byte>, pos: nat, q: nat)
    requires pos <= q <= |s| && AllWhitespace(s, pos, q)
    ensures SkipSpace(s, pos) == SkipSpace(s, q)
    decreases q - pos
  {
    if pos < q {
      SkipSpaceOverWhitespace(s, pos + 1, q);
    }
  }

  /** `skip_space` stops at the first byte that is not whitespace and skips only whitespace. */
  lemma {:induction false} SkipSpaceSkips(s: seq<Byte>, pos: nat)
    requires pos <= |s|
    ensures AllWhitespace(s, pos, SkipSpace(s, pos))
    decreases |s| - pos
  {
    if pos < |s| && IsWhitespace(s[pos]) {
      SkipSpaceSkips(s, pos + 1);
    }
  }

  /**
   * Whitespace before a value does not matter, and input that is all
   * whitespace from `pos` on is a premature end.
   */
  lemma LeadingWhitespace(scan: Scan, s: seq<Byte>, pos: nat, q: nat)
    requires pos <= q <= |s| && AllWhitespace(s, pos, q)
    ensures FromBytes(scan, s, pos) == FromBytes(scan, s, q)
    ensures q == |s| ==> FromBytes(scan, s, pos) == Err(UnexpectedEof)
  {
    SkipSpaceOverWhitespace(s, pos, q);
  }

  /**
   * `from_bytes` routes on the first byte after whitespace: the token read is
   * `UnexpectedEof` exactly when only whitespace is left, and then so is the
   * result; a byte that starts no value is reported; and a decoded value has
   * the kind its first byte announces.
   */
  lemma FromBytesRoutes(scan: Scan, s: seq<Byte>, pos: nat)
    requires pos <= |s|
    ensures var q := SkipSpace(s, pos);
      && (NextToken(s, pos) == Err(UnexpectedEof) <==> q == |s|)
      && (q == |s| ==> FromBytes(scan, s, pos) == Err(UnexpectedEof))
      && (q < |s| && !IsValueStart(s[q]) ==> FromBytes(scan, s, pos) == Err(UnexpectSymErr(s[q])))
      && (FromBytes(scan, s, pos).Ok? ==> q < |s| && Heads(s[q], FromBytes(scan, s, pos).value.value))
  {
  }

  // ------------------------------------------------------------------- strings

  /** A byte `get_string` copies to its buffer unchanged. */
  predicate IsPlain(c: Byte) {
    c >= 0x20 && c != QUOTE && c != BACKSLASH
  }

  predicate PlainRun(s: seq<Byte>, pos: nat, q: nat)
    requires pos <= q <= |s|
  {
    forall i :: pos <= i < q ==> IsPlain(s[i])
  }

  /** A run of plain bytes, whitespace included, is appended to the buffer as it is. */
  lemma {:induction false} ScanPlainRun(s: seq<Byte>, pos: nat, q: nat, buf: Str)
    requires pos <= q <= |s| && PlainRun(s, pos, q)
    ensures ScanString(s, pos, false, buf) == ScanString(s, q, false, buf + s[pos..q])
    decreases q - pos
  {
    if pos < q {
      ScanPlainRun(s, pos + 1, q, buf + [s[pos]]);
      assert buf + [s[pos]] + s[pos + 1..q] == buf + s[pos..q];
    } else {
      assert buf + s[pos..q] == buf;
    }
  }

  /** No `"` is left in the input from `pos` on. */
  predicate NoQuote(s: seq<Byte>, pos: nat)
    requires pos <= |s|
  {
    forall i :: pos <= i < |s| ==> s[i] != QUOTE
  }

  /**
   * No raw control byte is left from `pos` on, and every backslash left is
   * followed by a byte of the escape table or ends the input.
   */
  predicate CleanTail(s: seq<Byte>, pos: nat)
    requires pos <= |s|
  {
    && (forall i :: pos <= i < |s| ==> s[i] >= 0x20)
    && (forall i :: pos <= i < |s| - 1 ==> s[i] == BACKSLASH ==> Unescape(s[i + 1]).Some?)
  }

  /**
   * A string the input cuts off: with no `"` left, the loop of `get_string`
   * never returns a string; when no control byte and no bad escape is left
   * either, it runs into the end of the input, `UnexpectedEof`, whether it
   * stops inside an escape (`esc`) or not.
   */
  lemma {:induction false} ScanUnterminated(s: seq<Byte>, pos: nat, esc: bool, buf: Str)
    requires pos <= |s| && NoQuote(s, pos)
    ensures !ScanString(s, pos, esc, buf).Ok?
    ensures CleanTail(s, pos) && (esc && pos < |s| ==> Unescape(s[pos]).Some?) ==>
      ScanString(s, pos, esc, buf) == Err(UnexpectedEof)
    decreases |s| - pos
  {
    if pos < |s| && CleanTail(s, pos) && (esc ==> Unescape(s[pos]).Some?) {
      var c := s[pos];
      if esc {
        ScanUnterminated(s, pos + 1, false, buf + [Unescape(c).value]);
      } else if c == BACKSLASH {
        ScanUnterminated(s, pos + 1, true, buf);
      } else {
        ScanUnterminated(s, pos + 1, false, buf + [c]);
      }
    }
  }

  /**
   * From `pos`, with escape flag `esc`, the loop of `get_string` meets no
   * closing `"`: every `"` left is escaped. Other bytes may still stop it.
   */
  predicate Unclosed(s: seq<Byte>, pos: nat, esc: bool)
    requires pos <= |s|
    decreases |s| - pos
  {
    pos == |s| || (if esc then Unclosed(s, pos + 1, false) else s[pos] != QUOTE && Unclosed(s, pos + 1, s[pos] == BACKSLASH))
  }

  /**
   * From `pos`, with escape flag `esc`, the loop of `get_string` reads every
   * byte left without stopping: each escaped byte is in the escape table, and
   * each other byte is neither a control byte nor a closing `"`.
   */
  predicate Unterminated(s: seq<Byte>, pos: nat, esc: bool)
    requires pos <= |s|
    decreases |s| - pos
  {
    pos == |s|
    || (if esc then Unescape(s[pos]).Some? && Unterminated(s, pos + 1, false)
        else s[pos] >= 0x20 && s[pos] != QUOTE && Unterminated(s, pos + 1, s[pos] == BACKSLASH))
  }

  /**
   * The loop of `get_string` runs into the end of the input exactly when it
   * reads every byte left, and it never returns a string when no closing `"`
   * is left.
   */
  lemma {:induction false} ScanEndOfInput(s: seq<Byte>, pos: nat, esc: bool, buf: Str)
    requires pos <= |s|
    ensures ScanString(s, pos, esc, buf) == Err(UnexpectedEof) <==> Unterminated(s, pos, esc)
    ensures Unclosed(s, pos, esc) ==> !ScanString(s, pos, esc, buf).Ok?
    decreases |s| - pos
  {
    if pos < |s| {
      var c := s[pos];
      if esc {
        if Unescape(c).Some? {
          ScanEndOfInput(s, pos + 1, false, buf + [Unescape(c).value]);
        }
      } else if c >= 0x20 && c != QUOTE {
        if c == BACKSLASH {
          ScanEndOfInput(s, pos + 1, true, buf);
        } else {
          ScanEndOfInput(s, pos + 1, false, buf + [c]);
        }
      }
    }
  }

  /**
   * What `get_string` returns. After a body of plain bytes ending at `q`: a
   * closing quote returns the bytes when they are well-formed UTF-8 and
   * `Utf8Err` otherwise; the end of the input is `UnexpectedEof`; an
   * unescaped control byte is reported; a backslash before a byte outside
   * the escape table is reported, or aborts the decoder when that byte is
   * `u`. For any body with no `"` left, the result is never a string, and it
   * is `UnexpectedEof` when no control byte and no bad escape is left either.
   */
  lemma GetStringAfterPlain(s: seq<Byte>, pos: nat, q: nat)
    requires pos <= q <= |s| && PlainRun(s, pos, q)
    ensures q < |s| && s[q] == QUOTE ==>
      GetString(s, pos) == if ValidUtf8(s[pos..q]) then Ok(Parsed(s[pos..q], q + 1)) else Err(Utf8Err)
    ensures q == |s| ==> GetString(s, pos) == Err(UnexpectedEof)
    ensures q < |s| && s[q] < 0x20 ==> GetString(s, pos) == Err(UnexpectSymErr(s[q]))
    ensures q + 1 < |s| && s[q] == BACKSLASH && Unescape(s[q + 1]).None? ==>
      GetString(s, pos) == if s[q + 1] == 'u' as int then Panicked(UnicodeEscape) else Err(UnexpectSymErr(s[q + 1]))
    ensures NoQuote(s, pos) ==> !GetString(s, pos).Ok?
    ensures NoQuote(s, pos) && CleanTail(s, pos) ==> GetString(s, pos) == Err(UnexpectedEof)
    ensures GetString(s, pos) == Err(UnexpectedEof) <==> Unterminated(s, pos, false)
    ensures Unclosed(s, pos, false) ==> !GetString(s, pos).Ok?
  {
    ScanEndOfInput(s, pos, false, []);
    ScanPlainRun(s, pos, q, []);
    assert [] + s[pos..q] == s[pos..q];
    if NoQuote(s, pos) {
      ScanUnterminated(s, pos, false, []);
    }
  }

  /** The bytes that have a two-byte escape in the table of `get_string`. */
  predicate HasShortEscape(c: Byte) {
    c == QUOTE || c == BACKSLASH || c == 0x08 || c == 0x0C || c == 0x0A || c == 0x0D || c == 0x09
  }

  /** String contents an encoder can write: every control byte has a short escape. */
  predicate Escapable(t: Str) {
    forall i :: 0 <= i < |t| ==> t[i] >= 0x20 || HasShortEscape(t[i])
  }

  /** How an encoder writes one byte of a string literal. */
  function EscapeByte(c: Byte): (e: seq<Byte>)
    ensures 1 <= |e| <= 2
  {
    if c == QUOTE then [BACKSLASH, QUOTE]
    else if c == BACKSLASH then [BACKSLASH, BACKSLASH]
    else if c == 0x08 then [BACKSLASH, 'b' as int]
    else if c == 0x0C then [BACKSLASH, 'f' as int]
    else if c == 0x0A then [BACKSLASH, 'n' as int]
    else if c == 0x0D then [BACKSLASH, 'r' as int]
    else if c == 0x09 then [BACKSLASH, 't' as int]
    else [c]
  }

  /** The escape table of `get_string` undoes `EscapeByte`. */
  lemma EscapeByteInverse(c: Byte)
    requires c >= 0x20 || HasShortEscape(c)
    ensures |EscapeByte(c)| == 1 <==> IsPlain(c)
    ensures |EscapeByte(c)| == 1 ==> EscapeByte(c) == [c]
    ensures |EscapeByte(c)| == 2 ==> EscapeByte(c)[0] == BACKSLASH && Unescape(EscapeByte(c)[1]) == Some(c)
  {
  }

  function Escape(t: Str): seq<Byte> {
    if |t| == 0 then [] else EscapeByte(t[0]) + Escape(t[1..])
  }

  /**
   * Round trip of `get_string`: the escaped bytes of `t` and a closing quote
   * decode to `t` appended to the buffer, ending just after the quote,
   * whenever the result is well-formed UTF-8.
   */
  lemma {:induction false} ScanEscaped(t: Str, s: seq<Byte>, pos: nat, buf: Str)
    requires Escapable(t) && Occurs(Escape(t) + [QUOTE], s, pos)
    ensures ScanString(s, pos, false, buf) ==
      if ValidUtf8(buf + t) then Ok(Parsed(buf + t, pos + |Escape(t)| + 1)) else Err(Utf8Err)
    decreases |t|
  {
    if |t| == 0 {
      OccursByte(Escape(t) + [QUOTE], s, pos, 0);
      assert buf + t == buf;
    } else {
      var e := EscapeByte(t[0]);
      assert Escapable(t[1..]) by {
        forall i | 0 <= i < |t[1..]| ensures t[1..][i] >= 0x20 || HasShortEscape(t[1..][i]) {
          assert t[1..][i] == t[i + 1];
        }
      }
      assert t[0] >= 0x20 || HasShortEscape(t[0]);
      EscapeByteInverse(t[0]);
      assert Escape(t) + [QUOTE] == e + (Escape(t[1..]) + [QUOTE]);
      OccursSplit(e, Escape(t[1..]) + [QUOTE], s, pos);
      OccursByte(e, s, pos, 0);
      ScanEscaped(t[1..], s, pos + |e|, buf + [t[0]]);
      assert buf + [t[0]] + t[1..] == buf + t;
      if |e| == 2 {
        OccursByte(e, s, pos, 1);
      }
    }
  }

  /** `GetString` after an opening quote, for the escaped contents `t`. */
  lemma GetStringEscaped(t: Str, s: seq<Byte>, pos: nat)
    requires Escapable(t) && Occurs(Escape(t) + [QUOTE], s, pos)
    ensures GetString(s, pos) ==
      if ValidUtf8(t) then Ok(Parsed(t, pos + |Escape(t)| + 1)) else Err(Utf8Err)
  {
    ScanEscaped(t, s, pos, []);
    assert [] + t == t;
  }

  // ------------------------------------------------------------------ literals

  /**
   * `match_lit_str` succeeds exactly when every remaining byte of the literal
   * is found in order; otherwise, and in particular on input that ends too
   * early, the error is `DefaultErr` and never `UnexpectedEof`.
   */
  lemma LiteralMatch(lit: seq<Byte>, s: seq<Byte>, pos: nat)
    requires |lit| > 0 && pos <= |s|
    ensures MatchLitStr(lit, s, pos).Ok? <==>
      pos + |lit| - 1 <= |s| && forall i :: 1 <= i < |lit| ==> s[pos + i - 1] == lit[i]
    ensures MatchLitStr(lit, s, pos).Ok? ==> MatchLitStr(lit, s, pos).value == pos + |lit| - 1
    ensures !MatchLitStr(lit, s, pos).Ok? ==> MatchLitStr(lit, s, pos) == Err(DefaultErr)
    ensures pos + |lit| - 1 > |s| ==> MatchLitStr(lit, s, pos) == Err(DefaultErr)
  {
    var n := |lit| - 1;
    OccursIsSlice(lit[1..], s, pos);
    if pos + n <= |s| {
      forall j | 0 <= j < n
        ensures s[pos..pos + n][j] == s[pos + (j + 1) - 1] && lit[1..][j] == lit[j + 1]
      {
      }
    }
  }

  // ------------------------------------------------------------------- numbers

  predicate AllDigits(d: seq<Byte>) {
    forall i :: 0 <= i < |d| ==> IsDigit(d[i])
  }

  /** The decimal value of the digits `d` appended to `v`, most significant first. */
  function Horner(v: nat, d: seq<Byte>): nat
    requires AllDigits(d)
    decreases |d|
  {
    if |d| == 0 then v else Horner(10 * v + DigitValue(d[0]), d[1..])
  }

  lemma {:induction false} HornerGrows(v: nat, d: seq<Byte>)
    requires AllDigits(d)
    ensures Horner(v, d) >= v
    decreases |d|
  {
    if |d| > 0 {
      HornerGrows(10 * v + DigitValue(d[0]), d[1..]);
    }
  }

  lemma {:induction false} HornerSnoc(v: nat, d: seq<Byte>, c: Byte)
    requires AllDigits(d) && IsDigit(c)
    ensures AllDigits(d + [c]) && Horner(v, d + [c]) == 10 * Horner(v, d) + DigitValue(c)
    decreases |d|
  {
    if |d| == 0 {
      assert d + [c] == [c];
    } else {
      assert (d + [c])[1..] == d[1..] + [c];
      HornerSnoc(10 * v + DigitValue(d[0]), d[1..], c);
    }
  }

  /** The digits `get_number` takes with `next_if` from `pos` on. */
  function Taken(scan: Scan, s: seq<Byte>, pos: nat): (d: seq<Byte>)
    requires pos <= |s|
    ensures AllDigits(d)
    decreases |s| - pos
  {
    if pos < |s| && IsDigit(s[pos]) then [s[pos]] + Taken(scan, s, AfterDigit(scan, s, pos)) else []
  }

  /** Where `get_number` stops reading: the first byte `next_if` refuses. */
  function TakenEnd(scan: Scan, s: seq<Byte>, pos: nat): (q: nat)
    requires pos <= |s|
    ensures pos <= q <= |s| && (q < |s| ==> !IsDigit(s[q]))
    decreases |s| - pos
  {
    if pos < |s| && IsDigit(s[pos]) then TakenEnd(scan, s, AfterDigit(scan, s, pos)) else pos
  }

  /**
   * The number loop reads the decimal value of the digits it takes, and
   * aborts exactly when that value does not fit in an `i64`.
   */
  lemma {:induction false} NumberLoopIsHorner(scan: Scan, s: seq<Byte>, pos: nat, v: nat)
    requires pos <= |s| && v <= I64_MAX
    ensures NumberLoop(scan, s, pos, v) ==
      var n := Horner(v, Taken(scan, s, pos));
      if n > I64_MAX then Panicked(NumberOverflow) else Ok(Parsed(n, TakenEnd(scan, s, pos)))
    decreases |s| - pos
  {
    if pos < |s| && IsDigit(s[pos]) {
      var d := Taken(scan, s, pos);
      var w := 10 * v + DigitValue(s[pos]);
      assert d[1..] == Taken(scan, s, AfterDigit(scan, s, pos));
      if w > I64_MAX {
        HornerGrows(w, d[1..]);
      } else {
        NumberLoopIsHorner(scan, s, AfterDigit(scan, s, pos), w);
      }
    }
  }

  /**
   * The corrected scanner takes exactly the run of digits that starts at
   * `pos` and stops at the byte after it.
   */
  lemma {:induction false} CorrectedTakesRun(s: seq<Byte>, pos: nat, q: nat)
    requires pos <= q <= |s| && AllDigits(s[pos..q]) && (q < |s| ==> !IsDigit(s[q]))
    ensures Taken(Corrected, s, pos) == s[pos..q] && TakenEnd(Corrected, s, pos) == q
    decreases q - pos
  {
    if pos < q {
      assert s[pos..q][0] == s[pos];
      assert s[pos + 1..q] == s[pos..q][1..];
      CorrectedTakesRun(s, pos + 1, q);
      assert s[pos..q] == [s[pos]] + s[pos + 1..q];
    }
  }

  /** The shortest decimal writing of `n`. */
  function Decimal(n: nat): (d: seq<Byte>)
    ensures |d| > 0 && AllDigits(d)
  {
    if n < 10 then [n + '0' as int] else Decimal(n / 10) + [n % 10 + '0' as int]
  }

  lemma {:induction false} HornerDecimal(n: nat)
    ensures Horner(0, Decimal(n)) == n
  {
    if n >= 10 {
      HornerDecimal(n / 10);
      HornerSnoc(0, Decimal(n / 10), n % 10 + '0' as int);
    }
  }

  /** The byte at `q`, if any, cannot continue a number. */
  predicate Delimited(s: seq<Byte>, q: nat) {
    q < |s| ==> !IsDigit(s[q])
  }

  /**
   * Round trip of numbers through the corrected scanner: the decimal writing
   * of any `n` up to `i64::MAX`, followed by a byte that is no digit, is
   * decoded as `n` and consumed up to its last digit.
   */
  lemma DecodeDecimal(n: nat, s: seq<Byte>, pos: nat, q: nat)
    requires n <= I64_MAX && Occurs(Decimal(n), s, pos) && q == pos + |Decimal(n)| && Delimited(s, q)
    ensures IsDigit(s[pos]) && GetNumber(Corrected, s[pos], s, pos + 1) == Ok(Parsed(n, q))
  {
    var d := Decimal(n);
    OccursIsSlice(d, s, pos);
    assert s[pos..q] == d;
    assert s[pos] == d[0];
    assert s[pos + 1..q] == d[1..];
    CorrectedTakesRun(s, pos + 1, q);
    NumberLoopIsHorner(Corrected, s, pos + 1, DigitValue(d[0]));
    HornerDecimal(n);
  }

  // -------------------------------------------------------------------- arrays

  /** `[`, whitespace and `]` is the empty array. */
  lemma {:induction false} EmptyArray(scan: Scan, s: seq<Byte>, pos: nat, q: nat)
    requires pos <= q < |s| && AllWhitespace(s, pos, q) && s[q] == RBRACKET
    ensures GetArray(scan, s, pos) == Ok(Parsed([], q + 1))
    decreases q - pos
  {
    if pos < q {
      EmptyArray(scan, s, pos + 1, q);
    }
  }

  /**
   * After an element, `]` ends the array, `,` must be followed by another
   * value (so `,]` is an error naming `]`, and `,` at the end of the input is
   * `UnexpectedEof`), any other byte is an error naming it, and the end of
   * the input is `UnexpectedEof`.
   */
  lemma ArraySeparators(scan: Scan, s: seq<Byte>, pos: nat, acc: seq<Value>)
    requires pos <= |s|
    ensures NextToken(s, pos) == Err(UnexpectedEof) ==> ArrayTail(scan, s, pos, acc) == Err(UnexpectedEof)
    ensures NextToken(s, pos).Ok? ==>
      var sep := NextToken(s, pos).value;
      && (sep.value == RBRACKET ==> ArrayTail(scan, s, pos, acc) == Ok(Parsed(acc, sep.next)))
      && (sep.value == COMMA && NextToken(s, sep.next) == Ok(Parsed(RBRACKET, SkipSpace(s, sep.next) + 1)) ==>
            ArrayTail(scan, s, pos, acc) == Err(UnexpectSymErr(RBRACKET)))
      && (sep.value == COMMA && SkipSpace(s, sep.next) == |s| ==> ArrayTail(scan, s, pos, acc) == Err(UnexpectedEof))
      && (sep.value != RBRACKET && sep.value != COMMA ==>
            ArrayTail(scan, s, pos, acc) == Err(UnexpectSymErr(sep.value)))
  {
  }

  /** The peek loop of `get_array` passes over whitespace. */
  lemma {:induction false} GetArraySkipsSpace(scan: Scan, s: seq<Byte>, pos: nat, q: nat)
    requires pos <= q <= |s| && AllWhitespace(s, pos, q)
    ensures GetArray(scan, s, pos) == GetArray(scan, s, q)
    decreases q - pos
  {
    if pos < q {
      GetArraySkipsSpace(scan, s, pos + 1, q);
    }
  }

  /** The elements already read stay in front, in order. */
  lemma {:induction false} ArrayTailExtends(scan: Scan, s: seq<Byte>, pos: nat, acc: seq<Value>)
    requires pos <= |s| && ArrayTail(scan, s, pos, acc).Ok?
    ensures acc <= ArrayTail(scan, s, pos, acc).value.value
    decreases |s| - pos
  {
    var sep := NextToken(s, pos).value;
    if sep.value == COMMA {
      var item := FromBytes(scan, s, sep.next).value;
      ArrayTailExtends(scan, s, item.next, acc + [item.value]);
    }
  }

  // ------------------------------------------------------------------- objects

  /** `{`, whitespace and `}` is the empty object. */
  lemma {:induction false} EmptyObject(scan: Scan, s: seq<Byte>, pos: nat, q: nat)
    requires pos <= q < |s| && AllWhitespace(s, pos, q) && s[q] == RBRACE
    ensures GetObject(scan, s, pos) == Ok(Parsed(map[], q + 1))
    decreases q - pos
  {
    if pos < q {
      EmptyObject(scan, s, pos + 1, q);
    }
  }

  /** The peek loop of `get_object` passes over whitespace. */
  lemma {:induction false} GetObjectSkipsSpace(scan: Scan, s: seq<Byte>, pos: nat, q: nat)
    requires pos <= q <= |s| && AllWhitespace(s, pos, q)
    ensures GetObject(scan, s, pos) == GetObject(scan, s, q)
    decreases q - pos
  {
    if pos < q {
      GetObjectSkipsSpace(scan, s, pos + 1, q);
    }
  }

  /**
   * After a member, the inner loop passes over whitespace to the next
   * significant byte: `}` ends the object, `,` goes back for another member,
   * any other byte is an error naming it, and the end of the input is
   * `UnexpectedEof`, as is a `,` with nothing but whitespace after it.
   */
  lemma {:induction false} MemberEndSeparators(scan: Scan, s: seq<Byte>, pos: nat, acc: map<Str, Value>)
    requires pos <= |s|
    ensures var q := SkipSpace(s, pos);
      && (q == |s| ==> MemberEnd(scan, s, pos, acc) == Err(UnexpectedEof))
      && (q < |s| && s[q] == RBRACE ==> MemberEnd(scan, s, pos, acc) == Ok(Parsed(acc, q + 1)))
      && (q < |s| && s[q] == COMMA ==> MemberEnd(scan, s, pos, acc) == ObjectMembers(scan, s, q + 1, acc))
      && (q < |s| && s[q] == COMMA && SkipSpace(s, q + 1) == |s| ==> MemberEnd(scan, s, pos, acc) == Err(UnexpectedEof))
      && (q < |s| && s[q] != RBRACE && s[q] != COMMA ==> MemberEnd(scan, s, pos, acc) == Err(UnexpectSymErr(s[q])))
    decreases |s| - pos
  {
    if pos < |s| && IsWhitespace(s[pos]) {
      MemberEndSeparators(scan, s, pos + 1, acc);
    }
  }

  /**
   * A member must start with a quoted key, so `,}` is an error naming `}`;
   * a key must be followed by `:`, else `DefaultErr`.
   */
  lemma MemberErrors(scan: Scan, s: seq<Byte>, pos: nat)
    requires pos <= |s|
    ensures NextToken(s, pos).Ok? && NextToken(s, pos).value.value != QUOTE ==>
      Member(scan, s, pos) == Err(UnexpectSymErr(NextToken(s, pos).value.value))
    ensures NextToken(s, pos).Ok? && NextToken(s, pos).value.value == QUOTE ==>
      var key := GetString(s, NextToken(s, pos).value.next);
      key.Ok? && NextToken(s, key.value.next).Ok? && NextToken(s, key.value.next).value.value != COLON ==>
        Member(scan, s, pos) == Err(DefaultErr)
  {
  }

  /** Every entry of `a` is in `b` with the same value. */
  predicate Keeps(a: map<Str, Value>, b: map<Str, Value>) {
    forall k :: k in a ==> k in b && b[k] == a[k]
  }

  /**
   * A key that was read keeps its first value: the members read later, even
   * with the same key, never replace it.
   */
  lemma {:induction false} FirstKeyWins(scan: Scan, s: seq<Byte>, pos: nat, acc: map<Str, Value>)
    requires pos <= |s| && ObjectMembers(scan, s, pos, acc).Ok?
    ensures Keeps(acc, ObjectMembers(scan, s, pos, acc).value.value)
    decreases |s| - pos, 1
  {
    var member := Member(scan, s, pos).value;
    var acc' := Insert(acc, member.value.0, member.value.1);
    FirstKeyWinsAtEnd(scan, s, member.next, acc');
  }

  lemma {:induction false} FirstKeyWinsAtEnd(scan: Scan, s: seq<Byte>, pos: nat, acc: map<Str, Value>)
    requires pos <= |s| && MemberEnd(scan, s, pos, acc).Ok?
    ensures Keeps(acc, MemberEnd(scan, s, pos, acc).value.value)
    decreases |s| - pos, 0
  {
    var c := s[pos];
    if IsWhitespace(c) {
      FirstKeyWinsAtEnd(scan, s, pos + 1, acc);
    } else if c == COMMA {
      FirstKeyWins(scan, s, pos + 1, acc);
    }
  }

  /**
   * `or_insert(Self::from_bytes(it)?)` decodes its argument before it looks
   * at the map: a member whose value fails makes the whole object fail, even
   * when its key is already in the map and its value would be dropped.
   */
  lemma DuplicateValueErrors(scan: Scan, s: seq<Byte>, pos: nat, acc: map<Str, Value>)
    requires pos <= |s|
    ensures Member(scan, s, pos).Err? ==> ObjectMembers(scan, s, pos, acc) == Err(Member(scan, s, pos).error)
    ensures Member(scan, s, pos).Panicked? ==> ObjectMembers(scan, s, pos, acc) == Panicked(Member(scan, s, pos).panic)
  {
  }

  /** A key read for the first time ends up in the decoded object with the value read for it. */
  lemma {:induction false} ObjectKeys(scan: Scan, s: seq<Byte>, pos: nat, acc: map<Str, Value>, k: Str)
    requires pos <= |s| && ObjectMembers(scan, s, pos, acc).Ok?
    requires k !in acc && Member(scan, s, pos).value.value.0 == k
    ensures var m := ObjectMembers(scan, s, pos, acc).value.value;
      k in m && m[k] == Member(scan, s, pos).value.value.1
  {
    var member := Member(scan, s, pos).value;
    FirstKeyWinsAtEnd(scan, s, member.next, Insert(acc, member.value.0, member.value.1));
  }
}
