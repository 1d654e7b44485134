/**
 * What one turn of `run` in brainfuck/src/lib.rs changes and what it leaves
 * alone, and how runs of different lengths relate.
 */
module BrainfuckProperties {
  import opened Bytes
  import opened Brainfuck

  /** The commands that read or write the cell under `tp`. */
  predicate TouchesCell(b: Byte) {
    b in {OPEN, CLOSE, INC, DEC, PUT, GET}
  }

  /** A byte that is not a command only moves `ip` on. */
  lemma NonCommandSkips(text: seq<Byte>, c: Config)
    requires WellFormed(c) && c.ip < |text| && !IsCommand(text[c.ip])
    ensures Step(text, c) == Next(c.(ip := c.ip + 1))
  {
  }

  /**
   * `+` and `-` on a cell in range change that cell by one and nothing else,
   * or panic at the edge of the byte range.
   */
  lemma CellCommands(text: seq<Byte>, c: Config)
    requires WellFormed(c) && c.ip < |text| && c.tp < TAPE_LEN
    requires text[c.ip] == INC || text[c.ip] == DEC
    ensures var inc := text[c.ip] == INC;
      match Step(text, c)
      case Stop(s) => s == Panicked(if inc then CellOverflow else CellUnderflow) && c.tape[c.tp] == (if inc then 255 else 0)
      case Next(d) =>
        && d.ip == c.ip + 1 && d.tp == c.tp && d.input == c.input && d.output == c.output
        && d.tape[c.tp] == (if inc then c.tape[c.tp] + 1 else c.tape[c.tp] - 1)
        && forall i :: 0 <= i < TAPE_LEN && i != c.tp ==> d.tape[i] == c.tape[i]
  {
  }

  /** `<` and `>` move `tp` by one and leave the tape alone; `<` at 0 panics. */
  lemma PointerCommands(text: seq<Byte>, c: Config)
    requires WellFormed(c) && c.ip < |text|
    requires text[c.ip] == LEFT || text[c.ip] == RIGHT
    ensures var left := text[c.ip] == LEFT;
      match Step(text, c)
      case Stop(s) => s == Panicked(PointerUnderflow) && left && c.tp == 0
      case Next(d) =>
        && d == c.(ip := c.ip + 1, tp := d.tp)
        && d.tp == (if left then c.tp - 1 else c.tp + 1)
  {
  }

  /** `.` appends the cell under `tp` to the output; `,` moves the next input byte into it. */
  lemma InputOutput(text: seq<Byte>, c: Config)
    requires WellFormed(c) && c.ip < |text| && c.tp < TAPE_LEN
    requires text[c.ip] == PUT || text[c.ip] == GET
    ensures text[c.ip] == PUT ==> Step(text, c) == Next(c.(ip := c.ip + 1, output := c.output + [c.tape[c.tp]]))
    ensures text[c.ip] == GET && |c.input| == 0 ==> Step(text, c) == Next(c.(ip := c.ip + 1))
    ensures text[c.ip] == GET && |c.input| > 0 ==>
      Step(text, c) == Next(c.(ip := c.ip + 1, tape := c.tape[c.tp := c.input[0]], input := c.input[1..]))
  {
  }

  /** A turn fails with `SegErr` exactly when it touches a cell past the end of the tape. */
  lemma SegErrBounds(text: seq<Byte>, c: Config)
    requires WellFormed(c) && c.ip < |text|
    ensures Step(text, c) == Stop(Err(SegErr)) <==> c.tp >= TAPE_LEN && TouchesCell(text[c.ip])
  {
  }

  /** `[` on a zero cell goes on after the first `]` at or after it. */
  lemma OpenSkipsForward(text: seq<Byte>, c: Config, j: nat)
    requires WellFormed(c) && c.ip < |text| && text[c.ip] == OPEN && c.tp < TAPE_LEN && c.tape[c.tp] == 0
    requires c.ip <= j < |text| && text[j] == CLOSE && forall k :: c.ip <= k < j ==> text[k] != CLOSE
    ensures Step(text, c) == Next(c.(ip := j + 1))
  {
  }

  /** `[` on a zero cell with no `]` after it ends the run with `Ok`. */
  lemma OpenWithoutClose(text: seq<Byte>, c: Config, fuel: nat)
    requires WellFormed(c) && c.ip < |text| && text[c.ip] == OPEN && c.tp < TAPE_LEN && c.tape[c.tp] == 0
    requires forall k :: c.ip <= k < |text| ==> text[k] != CLOSE
    requires fuel > 0
    ensures Exec(text, c, fuel) == Run(Some(Ok), c.(ip := |text| + 1))
  {
    assert Step(text, c) == Next(c.(ip := |text| + 1));
  }

  /** `]` on a non-zero cell goes on just after the nearest `[` at or before it. */
  lemma CloseSkipsBack(text: seq<Byte>, c: Config, j: nat)
    requires WellFormed(c) && c.ip < |text| && text[c.ip] == CLOSE && c.tp < TAPE_LEN && c.tape[c.tp] != 0
    requires j <= c.ip && text[j] == OPEN && forall k :: j < k <= c.ip ==> text[k] != OPEN
    ensures Step(text, c) == Next(c.(ip := j + 1))
  {
  }

  /** `]` on a non-zero cell with no `[` before it panics. */
  lemma CloseWithoutOpen(text: seq<Byte>, c: Config)
    requires WellFormed(c) && c.ip < |text| && text[c.ip] == CLOSE && c.tp < TAPE_LEN && c.tape[c.tp] != 0
    requires forall k :: 0 <= k <= c.ip ==> text[k] != OPEN
    ensures Step(text, c) == Stop(Panicked(UnmatchedClose))
  {
  }

  /** A turn that goes on costs one unit of fuel and leaves the rest of the run to the next configuration. */
  lemma ExecStep(text: seq<Byte>, c: Config, d: Config, fuel: nat)
    requires WellFormed(c) && c.ip < |text| && fuel > 0 && Step(text, c) == Next(d)
    ensures Exec(text, c, fuel) == Exec(text, d, fuel - 1)
  {
  }

  /** A run ends `Ok` exactly when `ip` has passed the end of the program. */
  lemma {:induction false} OkIffPastEnd(text: seq<Byte>, c: Config, fuel: nat)
    requires WellFormed(c)
    ensures Exec(text, c, fuel).status == Some(Ok) <==> Exec(text, c, fuel).last.ip >= |text|
    decreases fuel
  {
    if c.ip < |text| && fuel > 0 {
      match Step(text, c)
      case Next(d) => OkIffPastEnd(text, d, fuel - 1);
      case Stop(s) =>
    }
  }

  /** A run that ended within `fuel` turns ends the same way with more fuel. */
  lemma {:induction false} MoreFuel(text: seq<Byte>, c: Config, fuel: nat, more: nat)
    requires WellFormed(c) && fuel <= more && Exec(text, c, fuel).status.Some?
    ensures Exec(text, c, more) == Exec(text, c, fuel)
    decreases fuel
  {
    if c.ip < |text| {
      match Step(text, c)
      case Next(d) => MoreFuel(text, d, fuel - 1, more - 1);
      case Stop(s) =>
    }
  }

  /** A run of `fuel + more` turns is a run of `fuel` turns followed by one of `more`. */
  lemma {:induction false} ExecSplit(text: seq<Byte>, c: Config, fuel: nat, more: nat)
    requires WellFormed(c)
    ensures var r := Exec(text, c, fuel);
      Exec(text, c, fuel + more) == if r.status.Some? then r else Exec(text, r.last, more)
    decreases fuel
  {
    if c.ip < |text| && fuel > 0 {
      match Step(text, c)
      case Next(d) => ExecSplit(text, d, fuel - 1, more);
      case Stop(s) =>
    }
  }

  /** `input` is what is left of `before` once a prefix of it has been consumed. */
  predicate Consumed(before: seq<Byte>, input: seq<Byte>) {
    |input| <= |before| && input == before[|before| - |input|..]
  }

  /** One turn only appends to the output and only consumes input from the front. */
  lemma StepGrows(text: seq<Byte>, c: Config)
    requires WellFormed(c) && c.ip < |text| && Step(text, c).Next?
    ensures c.output <= Step(text, c).next.output
    ensures Consumed(c.input, Step(text, c).next.input)
  {
  }

  /** Output is only ever appended to, and input only ever consumed from the front. */
  lemma {:induction false} OutputGrows(text: seq<Byte>, c: Config, fuel: nat)
    requires WellFormed(c)
    ensures c.output <= Exec(text, c, fuel).last.output
    ensures Consumed(c.input, Exec(text, c, fuel).last.input)
    decreases fuel
  {
    if c.ip < |text| && fuel > 0 {
      match Step(text, c)
      case Next(d) =>
        StepGrows(text, c);
        OutputGrows(text, d, fuel - 1);
        var e := Exec(text, d, fuel - 1).last;
        assert c.input[|c.input| - |d.input|..][|d.input| - |e.input|..] == c.input[|c.input| - |e.input|..];
      case Stop(s) =>
    }
  }
}
