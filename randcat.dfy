/** randcat's main: process the arguments, normalise the ranges, open the
    input, allocate the read buffer and run the copy loop. */
module Randcat {
  import opened Range
  import opened Random
  import opened Cli
  import opened Copy
  import opened Runs

  /** How a run ends. Unspecified: the argument "-", whose handling is
      undefined in C. Running: the run goes on past the system calls the
      model follows. */
  datatype Outcome = Exited(code: int) | Unspecified | Running

  /** The buffer main allocates: malloc(bmax). */
  function SourceBufferSize(c: Config): int
  {
    c.bmax
  }

  /** With -b 100:10, main allocates 10 bytes and may then ask read for 100:
      randn(100, 10) returns 100 when rand() returns 0. */
  lemma SourceBufferOverrun(randMax: nat)
    requires randMax > 0
    ensures Scan(Defaults, ["-b", "100:10"]).Proceed?
    ensures var c := Normalize(Scan(Defaults, ["-b", "100:10"]).config);
            c.bmin == 100 && c.bmax == 10
            && RandN(c.bmin, c.bmax, 0, randMax) == 100 > SourceBufferSize(c)
  {
    NumberPair(100, 10);
    assert Show(10) == "10";
    assert Show(100) == "100";
    assert Show(100) + ":" + Show(10) == "100:10";
    assert ["-b", "100:10"][2..] == [];
  }

  /** A buffer of BufferSize bytes holds every request randn can make, no
      smaller one does, and it is main's own size whenever bmin <= bmax. */
  lemma RequestFitsBuffer(c: Config, k: nat, randMax: nat)
    requires 0 < randMax && k <= randMax
    ensures RandN(c.bmin, c.bmax, k, randMax) <= BufferSize(c)
    ensures RandN(c.bmin, c.bmax, 0, randMax) == BufferSize(c)
            || RandN(c.bmin, c.bmax, randMax, randMax) == BufferSize(c)
    ensures c.bmin <= c.bmax ==> BufferSize(c) == SourceBufferSize(c)
  {
  }

  /** The exit a copy loop run ends with. */
  function Verdict(s: CopyStatus): Outcome
  {
    match s
    case Finished => Exited(0)
    case Failed => Exited(3)
    case Horizon => Running
  }

  /** What main does once the input is open: allocate the read buffer and
      run the copy loop; the outcome is CopyFrom's, which ends in exit 0
      only after read returned 0 with all input written, in exit 3 only
      after a write refused bytes a read returned, and goes on running after
      a read of -1. */
  method Serve(c: Config, env: Env, budget: nat)
    returns (result: Outcome, out: seq<Byte>, log: seq<ReadEvent>, naps: seq<int>, writes: nat)
    requires Honours(env)
    requires c.bmin > 0 && c.bmax > 0
    ensures var r := CopyFrom(c, env, 0, 0, 0, budget);
            result == Verdict(r.status) && out == r.out && log == r.log && naps == r.naps && writes == r.writes
    ensures result.Exited? ==> result.code in {0, 3}
    ensures out <= Received(log)
    ensures result == Exited(0) <==> log != [] && IsEnd(log[|log| - 1].reply)
    ensures result == Exited(0) ==> out == Received(log)
    ensures result == Exited(3) ==>
              log != [] && Count(log[|log| - 1].reply) > 0 && writes > 0
              && |out| <= |Received(log)| && env.write(writes - 1, Received(log)[|out|..]) < 0
    ensures result == Running ==> |log| + writes == budget
    ensures log != [] && log[|log| - 1].reply == ReadFailed ==> result == Running
    ensures Requests(log, 0, c, env) && NapsBetween(CopyRun(Horizon, out, log, naps, writes), c)
  {
    var size := BufferSize(c);
    var buf := new Byte[size];  // malloc(bmax), see BufferSize
    var status;
    status, out, log, naps, writes := CopyLoop(c, buf, env, budget);
    CopySound(c, env, 0, 0, 0, budget);
    result := Verdict(status);
  }

  /** main. Argument errors end the run before any output; an input that
      cannot be opened exits 4; otherwise Serve decides. */
  method Run(argv: seq<string>, env: Env, budget: nat)
    returns (result: Outcome, out: seq<Byte>, log: seq<ReadEvent>, naps: seq<int>, writes: nat)
    requires Honours(env)
    ensures var o := Scan(Defaults, Operands(argv));
            (o.Exit? ==> result == Exited(o.code) && out == [] && log == [] && naps == [] && writes == 0)
            && (o.Undefined? ==> result == Unspecified && out == [] && log == [] && naps == [] && writes == 0)
            && (o.Proceed? && o.config.file.Some? && !env.open(o.config.file.value)
                ==> result == Exited(4) && out == [] && log == [] && naps == [] && writes == 0)
    ensures var o := Scan(Defaults, Operands(argv));
            o.Proceed? && (o.config.file.Some? ==> env.open(o.config.file.value)) ==>
              var r := CopyFrom(Normalize(o.config), env, 0, 0, 0, budget);
              result == Verdict(r.status) && out == r.out && log == r.log && naps == r.naps && writes == r.writes
    ensures result.Exited? ==> result.code in {0, 1, 2, 3, 4}
    ensures out <= Received(log)
    ensures result == Exited(0) && log != [] ==> out == Received(log) && IsEnd(log[|log| - 1].reply)
    ensures result == Exited(3) ==>
              log != [] && Count(log[|log| - 1].reply) > 0 && writes > 0
              && |out| <= |Received(log)| && env.write(writes - 1, Received(log)[|out|..]) < 0
    ensures result == Running ==> |log| + writes == budget
    ensures log != [] && log[|log| - 1].reply == ReadFailed ==> result == Running
  {
    out, log, naps, writes := [], [], [], 0;
    var o := ProcessArgs(argv);
    match o
    case Undefined =>
      return Unspecified, out, log, naps, writes;
    case Exit(code) =>
      ExitCodes(Defaults, Operands(argv));
      return Exited(code), out, log, naps, writes;
    case Proceed(parsed) =>
      ScanNonNegative(Defaults, Operands(argv));
      NormalizePositive(parsed);
      var c := Normalize(parsed);
      if c.file.Some? && !env.open(c.file.value) {
        return Exited(4), out, log, naps, writes;
      }
      result, out, log, naps, writes := Serve(c, env, budget);
  }
}
