/**
 * The decoder reads its input strictly forward with one byte of lookahead:
 * a successful decode that ends at position `p` has looked at no byte after
 * `s[p]`. Whatever follows a complete top-level value is therefore never
 * inspected, and a caller that wants to reject trailing content must look at
 * the end position itself.
 */
module JsonFrame {
  import opened Bytes
  import opened JsonSpec

  /**
   * `s` and `t` cannot be told apart by a reader that stops at `p` and may
   * peek at the byte there: same bytes before and at `p`, and both end at
   * `p` or neither does.
   */
  ghost predicate SameThrough(s: seq<Byte>, t: seq<Byte>, p: nat) {
    && p <= |s| && p <= |t|
    && (p < |s| <==> p < |t|)
    && forall i :: 0 <= i < |s| && i <= p ==> i < |t| && s[i] == t[i]
  }

  lemma {:induction false} SkipSpaceFrame(s: seq<Byte>, t: seq<Byte>, pos: nat, p: nat)
    requires pos <= |s| && SkipSpace(s, pos) <= p && SameThrough(s, t, p)
    ensures pos <= |t| && SkipSpace(t, pos) == SkipSpace(s, pos)
    decreases |s| - pos
  {
    if pos < |s| && IsWhitespace(s[pos]) {
      SkipSpaceFrame(s, t, pos + 1, p);
    }
  }

  lemma NextTokenFrame(s: seq<Byte>, t: seq<Byte>, pos: nat, p: nat)
    requires pos <= |s| && NextToken(s, pos).Ok? && NextToken(s, pos).value.next <= p
    requires SameThrough(s, t, p)
    ensures pos <= |t| && NextToken(t, pos) == NextToken(s, pos)
  {
    SkipSpaceFrame(s, t, pos, p);
  }

  lemma {:induction false} ScanStringFrame(s: seq<Byte>, t: seq<Byte>, pos: nat, esc: bool, buf: Str, p: nat)
    requires pos <= |s| && ScanString(s, pos, esc, buf).Ok?
    requires ScanString(s, pos, esc, buf).value.next <= p && SameThrough(s, t, p)
    ensures pos <= |t| && ScanString(t, pos, esc, buf) == ScanString(s, pos, esc, buf)
    decreases |s| - pos
  {
    var c := s[pos];
    assert t[pos] == c;
    if esc {
      if Unescape(c).Some? {
        ScanStringFrame(s, t, pos + 1, false, buf + [Unescape(c).value], p);
      }
    } else if c >= 0x20 && c != QUOTE {
      if c == BACKSLASH {
        ScanStringFrame(s, t, pos + 1, true, buf, p);
      } else {
        ScanStringFrame(s, t, pos + 1, false, buf + [c], p);
      }
    }
  }

  lemma {:induction false} NumberLoopFrame(scan: Scan, s: seq<Byte>, t: seq<Byte>, pos: nat, v: nat, p: nat)
    requires pos <= |s| && v <= I64_MAX && NumberLoop(scan, s, pos, v).Ok?
    requires NumberLoop(scan, s, pos, v).value.next <= p && SameThrough(s, t, p)
    ensures pos <= |t| && NumberLoop(scan, t, pos, v) == NumberLoop(scan, s, pos, v)
    decreases |s| - pos
  {
    assert pos < |s| <==> pos < |t|;
    if pos < |s| && IsDigit(s[pos]) {
      var w := 10 * v + DigitValue(s[pos]);
      assert AfterDigit(scan, t, pos) == AfterDigit(scan, s, pos);
      NumberLoopFrame(scan, s, t, AfterDigit(scan, s, pos), w, p);
    }
  }

  lemma MatchLitStrFrame(lit: seq<Byte>, s: seq<Byte>, t: seq<Byte>, pos: nat, p: nat)
    requires |lit| > 0 && pos <= |s| && MatchLitStr(lit, s, pos).Ok?
    requires MatchLitStr(lit, s, pos).value <= p && SameThrough(s, t, p)
    ensures pos <= |t| && MatchLitStr(lit, t, pos) == MatchLitStr(lit, s, pos)
  {
    var n := |lit| - 1;
    OccursIsSlice(lit[1..], s, pos);
    OccursIsSlice(lit[1..], t, pos);
    assert s[pos..pos + n] == t[pos..pos + n];
  }

  lemma {:induction false} FromBytesFrame(scan: Scan, s: seq<Byte>, t: seq<Byte>, pos: nat, p: nat)
    requires pos <= |s| && FromBytes(scan, s, pos).Ok?
    requires FromBytes(scan, s, pos).value.next <= p && SameThrough(s, t, p)
    ensures pos <= |t| && FromBytes(scan, t, pos) == FromBytes(scan, s, pos)
    decreases |s| - pos, 0
  {
    var tok := NextToken(s, pos).value;
    NextTokenFrame(s, t, pos, p);
    DispatchFrame(scan, tok.value, s, t, tok.next, p);
  }

  lemma {:induction false} DispatchFrame(scan: Scan, c: Byte, s: seq<Byte>, t: seq<Byte>, pos: nat, p: nat)
    requires pos <= |s| && Dispatch(scan, c, s, pos).Ok?
    requires Dispatch(scan, c, s, pos).value.next <= p && SameThrough(s, t, p)
    ensures pos <= |t| && Dispatch(scan, c, t, pos) == Dispatch(scan, c, s, pos)
    decreases |s| - pos, 4
  {
    if c == LBRACE {
      GetObjectFrame(scan, s, t, pos, p);
    } else if c == LBRACKET {
      GetArrayFrame(scan, s, t, pos, p);
    } else if c == QUOTE {
      ScanStringFrame(s, t, pos, false, [], p);
    } else if c == 't' as int {
      MatchLitStrFrame(LIT_TRUE, s, t, pos, p);
    } else if c == 'f' as int {
      MatchLitStrFrame(LIT_FALSE, s, t, pos, p);
    } else if c == 'n' as int {
      MatchLitStrFrame(LIT_NULL, s, t, pos, p);
    } else if IsDigit(c) {
      NumberLoopFrame(scan, s, t, pos, DigitValue(c), p);
    }
  }

  lemma {:induction false} GetArrayFrame(scan: Scan, s: seq<Byte>, t: seq<Byte>, pos: nat, p: nat)
    requires pos <= |s| && GetArray(scan, s, pos).Ok?
    requires GetArray(scan, s, pos).value.next <= p && SameThrough(s, t, p)
    ensures pos <= |t| && GetArray(scan, t, pos) == GetArray(scan, s, pos)
    decreases |s| - pos, 2
  {
    var c := s[pos];
    assert t[pos] == c;
    if IsValueStart(c) {
      GetArrayContentFrame(scan, s, t, pos, p);
    } else if IsWhitespace(c) {
      GetArrayFrame(scan, s, t, pos + 1, p);
    }
  }

  lemma {:induction false} GetArrayContentFrame(scan: Scan, s: seq<Byte>, t: seq<Byte>, pos: nat, p: nat)
    requires pos <= |s| && GetArrayContent(scan, s, pos).Ok?
    requires GetArrayContent(scan, s, pos).value.next <= p && SameThrough(s, t, p)
    ensures pos <= |t| && GetArrayContent(scan, t, pos) == GetArrayContent(scan, s, pos)
    decreases |s| - pos, 1
  {
    var first := FromBytes(scan, s, pos).value;
    FromBytesFrame(scan, s, t, pos, p);
    ArrayTailFrame(scan, s, t, first.next, [first.value], p);
  }

  lemma {:induction false} ArrayTailFrame(scan: Scan, s: seq<Byte>, t: seq<Byte>, pos: nat, acc: seq<Value>, p: nat)
    requires pos <= |s| && ArrayTail(scan, s, pos, acc).Ok?
    requires ArrayTail(scan, s, pos, acc).value.next <= p && SameThrough(s, t, p)
    ensures pos <= |t| && ArrayTail(scan, t, pos, acc) == ArrayTail(scan, s, pos, acc)
    decreases |s| - pos, 1
  {
    var sep := NextToken(s, pos).value;
    NextTokenFrame(s, t, pos, p);
    if sep.value == COMMA {
      var item := FromBytes(scan, s, sep.next).value;
      FromBytesFrame(scan, s, t, sep.next, p);
      ArrayTailFrame(scan, s, t, item.next, acc + [item.value], p);
    }
  }

  lemma {:induction false} GetObjectFrame(scan: Scan, s: seq<Byte>, t: seq<Byte>, pos: nat, p: nat)
    requires pos <= |s| && GetObject(scan, s, pos).Ok?
    requires GetObject(scan, s, pos).value.next <= p && SameThrough(s, t, p)
    ensures pos <= |t| && GetObject(scan, t, pos) == GetObject(scan, s, pos)
    decreases |s| - pos, 3
  {
    var c := s[pos];
    assert t[pos] == c;
    if IsWhitespace(c) {
      GetObjectFrame(scan, s, t, pos + 1, p);
    } else if c == QUOTE {
      ObjectMembersFrame(scan, s, t, pos, map[], p);
    }
  }

  lemma {:induction false} MemberFrame(scan: Scan, s: seq<Byte>, t: seq<Byte>, pos: nat, p: nat)
    requires pos <= |s| && Member(scan, s, pos).Ok?
    requires Member(scan, s, pos).value.next <= p && SameThrough(s, t, p)
    ensures pos <= |t| && Member(scan, t, pos) == Member(scan, s, pos)
    decreases |s| - pos, 0
  {
    var open := NextToken(s, pos).value;
    NextTokenFrame(s, t, pos, p);
    var key := GetString(s, open.next).value;
    ScanStringFrame(s, t, open.next, false, [], p);
    var colon := NextToken(s, key.next).value;
    NextTokenFrame(s, t, key.next, p);
    FromBytesFrame(scan, s, t, colon.next, p);
  }

  lemma {:induction false} ObjectMembersFrame(scan: Scan, s: seq<Byte>, t: seq<Byte>, pos: nat, acc: map<Str, Value>, p: nat)
    requires pos <= |s| && ObjectMembers(scan, s, pos, acc).Ok?
    requires ObjectMembers(scan, s, pos, acc).value.next <= p && SameThrough(s, t, p)
    ensures pos <= |t| && ObjectMembers(scan, t, pos, acc) == ObjectMembers(scan, s, pos, acc)
    decreases |s| - pos, 1
  {
    var member := Member(scan, s, pos).value;
    MemberFrame(scan, s, t, pos, p);
    MemberEndFrame(scan, s, t, member.next, Insert(acc, member.value.0, member.value.1), p);
  }

  lemma {:induction false} MemberEndFrame(scan: Scan, s: seq<Byte>, t: seq<Byte>, pos: nat, acc: map<Str, Value>, p: nat)
    requires pos <= |s| && MemberEnd(scan, s, pos, acc).Ok?
    requires MemberEnd(scan, s, pos, acc).value.next <= p && SameThrough(s, t, p)
    ensures pos <= |t| && MemberEnd(scan, t, pos, acc) == MemberEnd(scan, s, pos, acc)
    decreases |s| - pos, 1
  {
    var c := s[pos];
    assert t[pos] == c;
    if IsWhitespace(c) {
      MemberEndFrame(scan, s, t, pos + 1, acc, p);
    } else if c == COMMA {
      ObjectMembersFrame(scan, s, t, pos + 1, acc, p);
    }
  }

  /**
   * After a value decoded from `pos` that ends at `p`, everything past the
   * lookahead byte `s[p]` can be replaced without changing the outcome.
   */
  lemma TrailingBytesIgnored(scan: Scan, s: seq<Byte>, pos: nat, t: seq<Byte>)
    requires pos <= |s| && FromBytes(scan, s, pos).Ok?
    requires FromBytes(scan, s, pos).value.next < |s|
    ensures var p := FromBytes(scan, s, pos).value.next;
      FromBytes(scan, s[..p + 1] + t, pos) == FromBytes(scan, s, pos)
  {
    var p := FromBytes(scan, s, pos).value.next;
    var u := s[..p + 1] + t;
    assert SameThrough(s, u, p) by {
      forall i | 0 <= i < |s| && i <= p
        ensures i < |u| && s[i] == u[i]
      {
        assert u[i] == s[..p + 1][i];
      }
    }
    FromBytesFrame(scan, s, u, pos, p);
  }
}
