/**
 * The Brainfuck interpreter of brainfuck/src/lib.rs: a program `text`, a tape
 * `st` of 3000 byte cells, a tape pointer `tp` and an instruction pointer `ip`.
 *
 * The functions below say what one turn of the main loop of `run` does
 * (`Step`) and what a run of at most `fuel` turns ends in (`Exec`). The class
 * `BF` is the interpreter itself, its tape an array updated in place, and its
 * method `Run` is proved to end exactly as `Exec` says.
 *
 * Standard input and output are sequences: `,` takes the next byte of `input`
 * and `.` appends to `output`. Arithmetic follows a debug build: a cell that
 * would go past 255 or below 0, `<` at cell 0, and a `]` with no `[` before it
 * panic instead of wrapping around.
 */
module Brainfuck {
  import opened Bytes

  const TAPE_LEN: nat := 3000

  const OPEN: Byte := '[' as int
  const CLOSE: Byte := ']' as int
  const LEFT: Byte := '<' as int
  const RIGHT: Byte := '>' as int
  const INC: Byte := '+' as int
  const DEC: Byte := '-' as int
  const PUT: Byte := '.' as int
  const GET: Byte := ',' as int

  /** `BFErr`. No operation of the model fails with `IOErr`: its input and output cannot fail. */
  datatype BFErr = IOErr | SegErr

  /** The arithmetic a debug build refuses. */
  datatype Panic =
    | CellOverflow      // `+` on a cell holding 255
    | CellUnderflow     // `-` on a cell holding 0
    | PointerUnderflow  // `<` with `tp` at 0
    | UnmatchedClose    // `]` scanning back past index 0

  /** How `run` ends: `Ok(())`, an error, or a panic. */
  datatype Status = Ok | Err(error: BFErr) | Panicked(panic: Panic)

  /** The interpreter between two turns of the main loop. */
  datatype Config = Config(ip: nat, tp: nat, tape: seq<Byte>, input: seq<Byte>, output: seq<Byte>)

  predicate WellFormed(c: Config) {
    |c.tape| == TAPE_LEN
  }

  /** The bytes `run` acts on; every other byte is skipped. */
  predicate IsCommand(b: Byte) {
    b in {OPEN, CLOSE, LEFT, RIGHT, INC, DEC, PUT, GET}
  }

  /** The forward scan of `[`: the first `]` at or after `i`, or `|text|` if there is none. */
  function FindClose(text: seq<Byte>, i: nat): (j: nat)
    requires i <= |text|
    ensures i <= j <= |text|
    ensures j < |text| ==> text[j] == CLOSE
    ensures forall k :: i <= k < j ==> text[k] != CLOSE
    decreases |text| - i
  {
    if i == |text| || text[i] == CLOSE then i else FindClose(text, i + 1)
  }

  /** The backward scan of `]`: the last `[` at or before `i`, if there is one. */
  function FindOpen(text: seq<Byte>, i: nat): (r: Option<nat>)
    requires i < |text|
    ensures r.Some? ==> r.value <= i && text[r.value] == OPEN && forall k :: r.value < k <= i ==> text[k] != OPEN
    ensures r.None? ==> forall k :: 0 <= k <= i ==> text[k] != OPEN
  {
    if text[i] == OPEN then Some(i)
    else if i == 0 then None
    else FindOpen(text, i - 1)
  }

  /** The result of one turn: the next configuration, or the end of the run. */
  datatype StepResult = Next(next: Config) | Stop(status: Status)

  /** One turn of the main loop of `run`, on the command at `ip`. */
  function Step(text: seq<Byte>, c: Config): (r: StepResult)
    requires WellFormed(c) && c.ip < |text|
    ensures r.Next? ==> WellFormed(r.next)
    ensures r.Stop? ==> r.status != Ok
  {
    var b := text[c.ip];
    if b == OPEN then
      if c.tp >= TAPE_LEN then Stop(Err(SegErr))
      else if c.tape[c.tp] == 0 then Next(c.(ip := FindClose(text, c.ip) + 1))
      else Next(c.(ip := c.ip + 1))
    else if b == CLOSE then
      if c.tp >= TAPE_LEN then Stop(Err(SegErr))
      else if c.tape[c.tp] != 0 then
        match FindOpen(text, c.ip)
        case None => Stop(Panicked(UnmatchedClose))
        case Some(j) => Next(c.(ip := j + 1))
      else Next(c.(ip := c.ip + 1))
    else if b == LEFT then
      if c.tp == 0 then Stop(Panicked(PointerUnderflow)) else Next(c.(ip := c.ip + 1, tp := c.tp - 1))
    else if b == RIGHT then
      Next(c.(ip := c.ip + 1, tp := c.tp + 1))
    else if b == INC then
      if c.tp >= TAPE_LEN then Stop(Err(SegErr))
      else if c.tape[c.tp] == 255 then Stop(Panicked(CellOverflow))
      else Next(c.(ip := c.ip + 1, tape := c.tape[c.tp := c.tape[c.tp] + 1]))
    else if b == DEC then
      if c.tp >= TAPE_LEN then Stop(Err(SegErr))
      else if c.tape[c.tp] == 0 then Stop(Panicked(CellUnderflow))
      else Next(c.(ip := c.ip + 1, tape := c.tape[c.tp := c.tape[c.tp] - 1]))
    else if b == PUT then
      if c.tp >= TAPE_LEN then Stop(Err(SegErr))
      else Next(c.(ip := c.ip + 1, output := c.output + [c.tape[c.tp]]))
    else if b == GET then
      if c.tp >= TAPE_LEN then Stop(Err(SegErr))
      else if |c.input| == 0 then Next(c.(ip := c.ip + 1))
      else Next(c.(ip := c.ip + 1, tape := c.tape[c.tp := c.input[0]], input := c.input[1..]))
    else Next(c.(ip := c.ip + 1))
  }

  /**
   * How a run of at most `fuel` turns from `c` ends: `status` is `None` when
   * the fuel runs out first, and `last` is the configuration the run ended in
   * (for an error or a panic, the one before the turn that failed).
   */
  datatype Run = Run(status: Option<Status>, last: Config)

  function Exec(text: seq<Byte>, c: Config, fuel: nat): (r: Run)
    requires WellFormed(c)
    ensures WellFormed(r.last)
    decreases fuel
  {
    if c.ip >= |text| then Run(Some(Ok), c)
    else if fuel == 0 then Run(None, c)
    else
      match Step(text, c)
      case Next(c') => Exec(text, c', fuel - 1)
      case Stop(s) => Run(Some(s), c)
  }

  /** The tape of a fresh interpreter. */
  const ZEROS: seq<Byte> := Repeat(0, TAPE_LEN)

  function Repeat(b: Byte, n: nat): (r: seq<Byte>)
    ensures |r| == n && forall i :: 0 <= i < n ==> r[i] == b
  {
    if n == 0 then [] else [b] + Repeat(b, n - 1)
  }

  /** The start of `run`: both pointers at 0, nothing read, nothing written. */
  function Start(tape: seq<Byte>, input: seq<Byte>): Config {
    Config(0, 0, tape, input, [])
  }

  class BF {
    var st: array<Byte>
    const text: seq<Byte>

    predicate Valid()
      reads this
    {
      st.Length == TAPE_LEN
    }

    /** `from_slice_u8`: the program is the given bytes, the tape 3000 zero cells. */
    constructor FromSliceU8(slc: seq<Byte>)
      ensures Valid() && fresh(st)
      ensures text == slc
      ensures forall i :: 0 <= i < st.Length ==> st[i] == 0
    {
      text := slc;
      st := new Byte[TAPE_LEN](_ => 0);
    }

    /** The inner loop of `[` on a zero cell: `ip` moves forward to the next `]`. */
    method SkipForward(i: nat) returns (ip: nat)
      requires i <= |text|
      ensures ip == FindClose(text, i)
    {
      ip := i;
      while ip < |text| && text[ip] != CLOSE
        invariant i <= ip <= |text|
        invariant FindClose(text, ip) == FindClose(text, i)
        decreases |text| - ip
      {
        ip := ip + 1;
      }
    }

    /**
     * The inner loop of `]` on a non-zero cell: `ip` moves back to the last
     * `[`; `None` where the source's `ip -= 1` would go below 0.
     */
    method SkipBack(i: nat) returns (r: Option<nat>)
      requires i < |text|
      ensures r == FindOpen(text, i)
    {
      var ip: nat := i;
      while text[ip] != OPEN
        invariant ip <= i
        invariant FindOpen(text, ip) == FindOpen(text, i)
        decreases ip
      {
        if ip == 0 {
          return None;
        }
        ip := ip - 1;
      }
      return Some(ip);
    }

    /**
     * `run`, reading `input` and writing `output`, for at most `fuel` turns of
     * its main loop; `status` is `None` when the fuel runs out first.
     */
    method Run(input: seq<Byte>, fuel: nat) returns (status: Option<Status>, output: seq<Byte>)
      requires Valid()
      modifies st
      ensures Valid()
      ensures var r := Exec(text, Start(old(st[..]), input), fuel);
        status == r.status && output == r.last.output && st[..] == r.last.tape
    {
      var ip: nat, tp: nat, rest := 0, 0, input;
      output := [];
      var left := fuel;
      ghost var goal := Exec(text, Start(st[..], input), fuel);
      while ip < |text| && left > 0
        invariant Valid()
        invariant goal == Exec(text, Config(ip, tp, st[..], rest, output), left)
        decreases left
      {
        ghost var c := Config(ip, tp, st[..], rest, output);
        var b := text[ip];
        if b == OPEN || b == CLOSE || b == INC || b == DEC || b == PUT || b == GET {
          if tp >= st.Length {
            return Some(Err(SegErr)), output;
          }
        }
        if b == OPEN {
          if st[tp] == 0 {
            ip := SkipForward(ip);
          }
        } else if b == CLOSE {
          if st[tp] != 0 {
            var j := SkipBack(ip);
            if j.None? {
              return Some(Panicked(UnmatchedClose)), output;
            }
            ip := j.value;
          }
        } else if b == LEFT {
          if tp == 0 {
            return Some(Panicked(PointerUnderflow)), output;
          }
          tp := tp - 1;
        } else if b == RIGHT {
          tp := tp + 1;
        } else if b == INC {
          if st[tp] == 255 {
            return Some(Panicked(CellOverflow)), output;
          }
          st[tp] := st[tp] + 1;
        } else if b == DEC {
          if st[tp] == 0 {
            return Some(Panicked(CellUnderflow)), output;
          }
          st[tp] := st[tp] - 1;
        } else if b == PUT {
          output := output + [st[tp]];
        } else if b == GET {
          if |rest| > 0 {
            st[tp] := rest[0];
            rest := rest[1..];
          }
        }
        ip := ip + 1;
        left := left - 1;
        assert Step(text, c) == Next(Config(ip, tp, st[..], rest, output));
      }
      status := if ip >= |text| then Some(Ok) else None;
    }
  }

  /**
   * What the tests of the source do: build an interpreter from `text` with
   * `from_slice_u8` and run it.
   */
  method Interpret(text: seq<Byte>, input: seq<Byte>, fuel: nat) returns (status: Option<Status>, output: seq<Byte>)
    ensures var r := Exec(text, Start(ZEROS, input), fuel);
      status == r.status && output == r.last.output
  {
    var bf := new BF.FromSliceU8(text);
    assert bf.st[..] == ZEROS;
    status, output := bf.Run(input, fuel);
  }
}
