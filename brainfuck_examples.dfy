/**
 * Two small programs run by the model of brainfuck/src/lib.rs: `+[]`, which
 * never ends, and `,[.,]`, the program of the test `echo_back`.
 *
 * Because `,` at the end of the input leaves the cell as it was, `,[.,]`
 * copies its input to its output only up to a zero byte; on an input with no
 * zero byte it writes the last byte again and again, without end.
 */
module BrainfuckExamples {
  import opened Bytes
  import opened Brainfuck
  import opened BrainfuckProperties

  /** `+[]` */
  const PLUS_LOOP: seq<Byte> := [INC, OPEN, CLOSE]

  /** `,[.,]` */
  const ECHO: seq<Byte> := [GET, OPEN, PUT, GET, CLOSE]

  /** `+[]` at its `]`, with cell 0 holding 1. */
  function PlusLoopHeld(input: seq<Byte>): Config {
    Config(2, 0, ZEROS[0 := 1], input, [])
  }

  lemma {:induction false} PlusLoopStays(input: seq<Byte>, fuel: nat)
    ensures Exec(PLUS_LOOP, PlusLoopHeld(input), fuel) == Run(None, PlusLoopHeld(input))
    decreases fuel
  {
    var c := PlusLoopHeld(input);
    if fuel > 0 {
      assert FindOpen(PLUS_LOOP, 2) == Some(1);
      assert Step(PLUS_LOOP, c) == Next(c);
      PlusLoopStays(input, fuel - 1);
    }
  }

  /** `+[]` never ends, however much fuel it is given. */
  lemma PlusLoopNeverEnds(input: seq<Byte>, fuel: nat)
    ensures Exec(PLUS_LOOP, Start(ZEROS, input), fuel).status == None
  {
    var c0 := Start(ZEROS, input);
    var c1 := Config(1, 0, ZEROS[0 := 1], input, []);
    if fuel >= 2 {
      assert Step(PLUS_LOOP, c0) == Next(c1);
      assert Step(PLUS_LOOP, c1) == Next(PlusLoopHeld(input));
      PlusLoopStays(input, fuel - 2);
    }
  }

  /** The bracket scans of `,[.,]`: its `[` and `]` match each other. */
  lemma EchoScans()
    ensures FindClose(ECHO, 1) == 4 && FindOpen(ECHO, 4) == Some(1)
  {
    assert FindClose(ECHO, 3) == 4;
    assert FindOpen(ECHO, 2) == Some(1);
  }

  /** `,[.,]` on empty input ends at once with `Ok`, having written nothing. */
  lemma EchoEmptyInput(fuel: nat)
    requires fuel >= 2
    ensures Exec(ECHO, Start(ZEROS, []), fuel) == Run(Some(Ok), Config(5, 0, ZEROS, [], []))
  {
    var c1 := Config(1, 0, ZEROS, [], []);
    assert Step(ECHO, Start(ZEROS, [])) == Next(c1);
    ExecStep(ECHO, Start(ZEROS, []), c1, fuel);
    EchoScans();
    assert Step(ECHO, c1) == Next(c1.(ip := 5));
    ExecStep(ECHO, c1, c1.(ip := 5), fuel - 1);
  }

  /** `,[.,]` at its `.`, cell 0 holding `b`, with `rest` to read and `out` written. */
  function EchoAt(b: Byte, rest: seq<Byte>, out: seq<Byte>): Config {
    Config(2, 0, ZEROS[0 := b], rest, out)
  }

  predicate NoZero(w: seq<Byte>) {
    forall i :: 0 <= i < |w| ==> w[i] != 0
  }

  lemma {:induction false} EchoLoop(b: Byte, w: seq<Byte>, out: seq<Byte>, fuel: nat)
    requires b != 0 && NoZero(w) && fuel >= 3 * |w| + 3
    ensures var r := Exec(ECHO, EchoAt(b, w + [0], out), fuel);
      r.status == Some(Ok) && r.last.output == out + [b] + w
    decreases |w|
  {
    var c := EchoAt(b, w + [0], out);
    var c1 := c.(ip := 3, output := out + [b]);
    var c2 := c1.(ip := 4, tape := ZEROS[0 := (w + [0])[0]], input := (w + [0])[1..]);
    assert Step(ECHO, c) == Next(c1);
    ExecStep(ECHO, c, c1, fuel);
    assert Step(ECHO, c1) == Next(c2);
    ExecStep(ECHO, c1, c2, fuel - 1);
    if |w| == 0 {
      assert Step(ECHO, c2) == Next(c2.(ip := 5));
      ExecStep(ECHO, c2, c2.(ip := 5), fuel - 2);
    } else {
      EchoScans();
      assert c2.tape[0] == w[0];
      assert (w + [0])[1..] == w[1..] + [0];
      assert Step(ECHO, c2) == Next(EchoAt(w[0], w[1..] + [0], out + [b]));
      ExecStep(ECHO, c2, EchoAt(w[0], w[1..] + [0], out + [b]), fuel - 2);
      EchoLoop(w[0], w[1..], out + [b], fuel - 3);
      assert out + [b] + [w[0]] + w[1..] == out + [b] + w;
    }
  }

  /**
   * `,[.,]` on `w` followed by a zero byte, `w` holding no zero, writes `w`
   * and ends with `Ok`.
   */
  lemma EchoBack(w: seq<Byte>, fuel: nat)
    requires NoZero(w) && fuel >= 3 * |w| + 2
    ensures var r := Exec(ECHO, Start(ZEROS, w + [0]), fuel);
      r.status == Some(Ok) && r.last.output == w
  {
    var c0 := Start(ZEROS, w + [0]);
    var c1 := c0.(ip := 1, tape := ZEROS[0 := (w + [0])[0]], input := (w + [0])[1..]);
    assert Step(ECHO, c0) == Next(c1);
    ExecStep(ECHO, c0, c1, fuel);
    if |w| == 0 {
      EchoScans();
      assert Step(ECHO, c1) == Next(c1.(ip := 5));
      ExecStep(ECHO, c1, c1.(ip := 5), fuel - 1);
    } else {
      assert c1.tape[0] == w[0];
      assert (w + [0])[1..] == w[1..] + [0];
      assert Step(ECHO, c1) == Next(EchoAt(w[0], w[1..] + [0], []));
      ExecStep(ECHO, c1, EchoAt(w[0], w[1..] + [0], []), fuel - 1);
      EchoLoop(w[0], w[1..], [], fuel - 2);
      assert [] + [w[0]] + w[1..] == w;
    }
  }

  /**
   * At the end of the input `,` leaves the cell as it was, so `,[.,]` never
   * ends: every three turns it writes the last byte read once more and is
   * back at its `.`.
   */
  lemma {:induction false} EchoRepeats(b: Byte, out: seq<Byte>, fuel: nat)
    requires b != 0
    ensures Exec(ECHO, EchoAt(b, [], out), fuel).status == None
    ensures fuel % 3 == 0 ==>
      Exec(ECHO, EchoAt(b, [], out), fuel) == Run(None, EchoAt(b, [], out + Repeat(b, fuel / 3)))
    decreases fuel
  {
    var c := EchoAt(b, [], out);
    var c1 := c.(ip := 3, output := out + [b]);
    if fuel >= 3 {
      assert Step(ECHO, c) == Next(c1);
      ExecStep(ECHO, c, c1, fuel);
      assert Step(ECHO, c1) == Next(c1.(ip := 4));
      ExecStep(ECHO, c1, c1.(ip := 4), fuel - 1);
      EchoScans();
      assert Step(ECHO, c1.(ip := 4)) == Next(EchoAt(b, [], out + [b]));
      ExecStep(ECHO, c1.(ip := 4), EchoAt(b, [], out + [b]), fuel - 2);
      EchoRepeats(b, out + [b], fuel - 3);
      if fuel % 3 == 0 {
        assert Repeat(b, fuel / 3) == [b] + Repeat(b, (fuel - 3) / 3);
        assert out + [b] + Repeat(b, (fuel - 3) / 3) == out + Repeat(b, fuel / 3);
      }
    } else if fuel == 0 {
      assert out + Repeat(b, 0) == out;
    }
  }

  /**
   * `,[.,]` on one non-zero byte and then the end of the input never ends,
   * writing that byte once every three turns.
   */
  lemma EchoAtEndOfInput(b: Byte, fuel: nat)
    requires b != 0
    ensures Exec(ECHO, Start(ZEROS, [b]), fuel).status == None
    ensures fuel >= 2 && (fuel - 2) % 3 == 0 ==>
      Exec(ECHO, Start(ZEROS, [b]), fuel).last.output == Repeat(b, (fuel - 2) / 3)
  {
    var c0 := Start(ZEROS, [b]);
    var c1 := c0.(ip := 1, tape := ZEROS[0 := b], input := []);
    if fuel >= 2 {
      assert Step(ECHO, c0) == Next(c1);
      ExecStep(ECHO, c0, c1, fuel);
      assert Step(ECHO, c1) == Next(EchoAt(b, [], []));
      ExecStep(ECHO, c1, EchoAt(b, [], []), fuel - 1);
      EchoRepeats(b, [], fuel - 2);
      assert [] + Repeat(b, (fuel - 2) / 3) == Repeat(b, (fuel - 2) / 3);
    }
  }
}
