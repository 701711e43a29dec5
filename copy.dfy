/** The copy loop of randcat's main: read a randomly sized chunk, write all
    of it out across partial writes, sleep a random number of milliseconds,
    and start over until read reports the end of the input. The system
    calls are oracles, indexed by how many calls of their kind came before. */
module Copy {
  import opened Options
  import opened Cli
  import opened Random

  type Byte = b: int | 0 <= b < 256

  /** What read hands back: the bytes it stored (none at the end of the
      input) or -1. */
  datatype ReadReply = Bytes(data: seq<Byte>) | ReadFailed

  /** read's return value, nread. */
  function Count(r: ReadReply): int
  {
    if r.Bytes? then |r.data| else -1
  }

  /** The bytes a read delivered. */
  function Chunk(r: ReadReply): seq<Byte>
  {
    if r.Bytes? then r.data else []
  }

  /** nread == 0: the end of the input. */
  predicate IsEnd(r: ReadReply) { r == Bytes([]) }

  /** The environment of the loop: the replies of the system calls and of rand(). */
  datatype Env = Env(
    read: (nat, int) -> ReadReply,    // the i-th read, asked for `want` bytes
    write: (nat, seq<Byte>) -> int,   // the i-th write, offered `pending` bytes
    rand: nat -> nat,                 // the i-th value of rand()
    randMax: nat,                     // RAND_MAX
    open: string -> bool)             // whether open(path, O_RDONLY) succeeds

  /** write accepts at most what it was offered. */
  ghost predicate WritesBounded(write: (nat, seq<Byte>) -> int)
  {
    forall i: nat, p: seq<Byte> :: write(i, p) <= |p|
  }

  /** The contracts of the calls: read stores at most what it was asked for,
      write accepts at most what it was offered, rand() stays within RAND_MAX. */
  ghost predicate Honours(env: Env)
  {
    env.randMax > 0
    && (forall i: nat :: env.rand(i) <= env.randMax)
    && (forall i: nat, want: int :: env.read(i, want).Bytes? ==> |env.read(i, want).data| <= want)
    && WritesBounded(env.write)
  }

  /** Every write from call `from` on accepts at least one byte of a non-empty offer. */
  ghost predicate WritesProgress(write: (nat, seq<Byte>) -> int, from: nat)
  {
    forall i: nat, p: seq<Byte> :: from <= i && p != [] ==> write(i, p) != 0
  }

  /** Every write from call `from` on accepts nothing. */
  ghost predicate WritesStall(write: (nat, seq<Byte>) -> int, from: nat)
  {
    forall i: nat, p: seq<Byte> :: from <= i ==> write(i, p) == 0
  }

  /** No write from call `from` on fails. */
  ghost predicate WritesSucceed(write: (nat, seq<Byte>) -> int, from: nat)
  {
    forall i: nat, p: seq<Byte> :: from <= i ==> write(i, p) >= 0
  }

  datatype FlushStatus = Flushed | WriteRefused | WriteStalled

  /** How a partial-write loop ended: its status, the bytes written and the
      number of write calls made before it (and by it). */
  datatype FlushResult = FlushResult(status: FlushStatus, n: nat, calls: nat)

  /** The partial-write loop over `data` once `done` bytes of it are out: the
      next write, call number k, is offered data[done..]; a negative reply
      ends the loop (exit 3), any other reply advances `done`. `left` is the
      number of write calls the model still follows. */
  function Flush(write: (nat, seq<Byte>) -> int, data: seq<Byte>, done: nat, k: nat, left: nat): (r: FlushResult)
    requires done <= |data|
    requires WritesBounded(write)
    ensures done <= r.n <= |data|
    ensures k <= r.calls <= k + left
    ensures r.status == Flushed <==> r.n == |data|
    ensures r.status == WriteRefused ==> r.calls > k && write(r.calls - 1, data[r.n..]) < 0
    ensures r.status == WriteStalled ==> r.calls == k + left
    decreases left
  {
    if done == |data| then FlushResult(Flushed, done, k)
    else if left == 0 then FlushResult(WriteStalled, done, k)
    else
      var w := write(k, data[done..]);
      if w < 0 then FlushResult(WriteRefused, done, k + 1)
      else Flush(write, data, done + w, k + 1, left - 1)
  }

  /** When every write accepts something, the loop completes or fails within
      one call per pending byte. */
  lemma {:induction false} FlushProgresses(write: (nat, seq<Byte>) -> int, data: seq<Byte>, done: nat, k: nat, left: nat)
    requires done <= |data| && WritesBounded(write)
    requires WritesProgress(write, k) && left >= |data| - done
    ensures Flush(write, data, done, k, left).status != WriteStalled
    ensures Flush(write, data, done, k, left).calls <= k + |data| - done
    decreases left
  {
    if done < |data| && left > 0 {
      var w := write(k, data[done..]);
      if w >= 0 {
        assert w != 0;
        FlushProgresses(write, data, done + w, k + 1, left - 1);
      }
    }
  }

  /** When writes accept nothing, the loop writes nothing and never completes. */
  lemma {:induction false} FlushStalls(write: (nat, seq<Byte>) -> int, data: seq<Byte>, done: nat, k: nat, left: nat)
    requires done < |data| && WritesBounded(write)
    requires WritesStall(write, k)
    ensures Flush(write, data, done, k, left) == FlushResult(WriteStalled, done, k + left)
    decreases left
  {
    if left > 0 {
      FlushStalls(write, data, done, k + 1, left - 1);
    }
  }

  /** Without a failing write the loop never reports a refusal. */
  lemma {:induction false} FlushNeverRefused(write: (nat, seq<Byte>) -> int, data: seq<Byte>, done: nat, k: nat, left: nat)
    requires done <= |data| && WritesBounded(write)
    requires WritesSucceed(write, k)
    ensures Flush(write, data, done, k, left).status != WriteRefused
    decreases left
  {
    if done < |data| && left > 0 {
      var w := write(k, data[done..]);
      FlushNeverRefused(write, data, done + w, k + 1, left - 1);
    }
  }

  /** The partial-write loop of main, `for (n = 0; n < nread; ) ...`, over
      the bytes buf[0..nread) that read stored (write only reads them): it
      is Flush from the start, so what went out is data[..n]. */
  method WriteAll(data: seq<Byte>, write: (nat, seq<Byte>) -> int, calls0: nat, budget: nat)
    returns (status: FlushStatus, n: nat, calls: nat)
    requires WritesBounded(write)
    ensures FlushResult(status, n, calls) == Flush(write, data, 0, calls0, budget)
  {
    var left: nat := budget;  // write calls the model still follows
    n, calls := 0, calls0;
    while n < |data|
      invariant n <= |data|
      invariant calls + left == calls0 + budget
      invariant Flush(write, data, 0, calls0, budget) == Flush(write, data, n, calls, left)
      decreases left
    {
      if left == 0 {
        return WriteStalled, n, calls;
      }
      var nwrit := write(calls, data[n..]);  // write(1, buf + n, nread - n)
      calls, left := calls + 1, left - 1;
      if nwrit < 0 {
        return WriteRefused, n, calls;
      }
      n := n + nwrit;
    }
    status := Flushed;
  }

  /** The argument of nanosleep. */
  datatype Timespec = Timespec(sec: int, nsec: int)

  /** The milliseconds a timespec of whole milliseconds stands for. */
  function Millis(t: Timespec): int
  {
    t.sec * 1000 + t.nsec / 1000000
  }

  /** `want / 1000` seconds and `(want % 1000) * 1000 * 1000` nanoseconds,
      with C's truncating division and remainder. */
  function Nap(ms: int): (t: Timespec)
    ensures Millis(t) == ms
    ensures t.nsec % 1000000 == 0
    ensures ms >= 0 ==> t.sec >= 0 && 0 <= t.nsec < 1000000000
  {
    var q := TruncDiv(ms, 1000);
    var r := ms - q * 1000;
    assert -1000 < r < 1000 && (ms >= 0 ==> r >= 0);
    assert (r * 1000 * 1000) / 1000000 == r;
    Timespec(q, r * 1000 * 1000)
  }

  /** Nap is the inverse of Millis on the timespecs it can produce. */
  lemma NapOfMillis(t: Timespec)
    requires t.sec >= 0 && 0 <= t.nsec < 1000000000 && t.nsec % 1000000 == 0
    ensures Nap(Millis(t)) == t
  {
    var ms := Millis(t);
    var r := t.nsec / 1000000;
    assert t.nsec == r * 1000000;
    assert 0 <= r < 1000;
    assert ms == t.sec * 1000 + r;
    assert ms / 1000 == t.sec;
  }

  /** Size of the read buffer such that no request can overrun it. */
  function BufferSize(c: Config): int
  {
    if c.bmin <= c.bmax then c.bmax else c.bmin
  }

  /** randn over the bounds lo and hi, with the index of the next rand()
      value: randn only calls rand() when the bounds differ. */
  function Pick(lo: int, hi: int, env: Env, d: nat): (r: (int, nat))
    requires Honours(env)
    ensures Between(lo, hi, r.0)
    ensures lo == hi ==> r == (lo, d)
    ensures lo != hi ==> r.1 == d + 1
  {
    (RandN(lo, hi, env.rand(d), env.randMax), if lo == hi then d else d + 1)
  }

  datatype ReadEvent = ReadEvent(want: int, reply: ReadReply)

  /** Everything the reads delivered, in order. */
  function Received(log: seq<ReadEvent>): seq<Byte>
  {
    if log == [] then [] else Received(log[..|log| - 1]) + Chunk(log[|log| - 1].reply)
  }

  lemma {:induction false} ReceivedAppend(a: seq<ReadEvent>, b: seq<ReadEvent>)
    ensures Received(a + b) == Received(a) + Received(b)
    decreases |b|
  {
    if b == [] {
      assert a + b == a;
    } else {
      var b' := b[..|b| - 1];
      assert (a + b)[..|a + b| - 1] == a + b';
      ReceivedAppend(a, b');
    }
  }

  /** One pass of the loop body: the read, how its flush ended, the bytes
      written, the sleep drawn (none when the pass ends the loop) and the
      index of the next rand() value. */
  datatype PassResult = PassResult(ev: ReadEvent, flush: FlushResult, emitted: seq<Byte>,
                                   sleep: Option<int>, next: nat)

  /** The write loop that follows a read: none when read returned 0 (main
      breaks out first), otherwise Flush over the bytes read, with the
      system calls left after the read. */
  function Drain(env: Env, reply: ReadReply, w: nat, fuel: nat): (f: FlushResult)
    requires Honours(env) && fuel > 0
    ensures w <= f.calls < w + fuel && f.n <= |Chunk(reply)|
    ensures IsEnd(reply) ==> f == FlushResult(Flushed, 0, w)
    ensures f.status == Flushed <==> f.n == |Chunk(reply)|
    ensures f.status == WriteRefused ==> f.calls > w && env.write(f.calls - 1, Chunk(reply)[f.n..]) < 0
    ensures f.status == WriteStalled ==> f.calls == w + fuel - 1
  {
    if IsEnd(reply) then FlushResult(Flushed, 0, w)
    else Flush(env.write, Chunk(reply), 0, w, fuel - 1)
  }

  /** One pass of the loop body, as the i-th read with `w` writes and `d`
      rand() values before it and `fuel` system calls left to follow:
      want = randn(bmin, bmax); read; break on 0; the write loop; then, if
      the loop goes on, randn(smin, smax) milliseconds of sleep. */
  function Pass(c: Config, env: Env, i: nat, w: nat, d: nat, fuel: nat): (p: PassResult)
    requires Honours(env) && fuel > 0
    ensures p.ev.reply == env.read(i, p.ev.want)
    ensures Between(c.bmin, c.bmax, p.ev.want)
    ensures p.ev.reply.Bytes? ==> |p.ev.reply.data| <= p.ev.want
    ensures p.flush == Drain(env, p.ev.reply, w, fuel)
    ensures p.emitted == Chunk(p.ev.reply)[..p.flush.n] && p.emitted <= Chunk(p.ev.reply)
    ensures IsEnd(p.ev.reply) ==> p.emitted == []
    ensures p.sleep.Some? ==> p.emitted == Chunk(p.ev.reply)
    ensures p.sleep.Some? <==> !IsEnd(p.ev.reply) && p.flush.status == Flushed
    ensures p.sleep.Some? ==> Between(c.smin, c.smax, p.sleep.value)
  {
    var size := Pick(c.bmin, c.bmax, env, d);
    var ev := ReadEvent(size.0, env.read(i, size.0));
    var f := Drain(env, ev.reply, w, fuel);
    var nap := Pick(c.smin, c.smax, env, size.1);
    var goesOn := !IsEnd(ev.reply) && f.status == Flushed;
    PassResult(ev, f, Chunk(ev.reply)[..f.n],
               if goesOn then Some(nap.0) else None,
               if goesOn then nap.1 else size.1)
  }

  /** Finished: read returned 0 (exit 0). Failed: a write returned a negative
      count (exit 3). Horizon: the run goes on past the system calls followed. */
  datatype CopyStatus = Finished | Failed | Horizon

  /** How a pass that ends the loop ends it. */
  function Stop(p: PassResult): CopyStatus
  {
    if IsEnd(p.ev.reply) then Finished
    else if p.flush.status == WriteRefused then Failed
    else Horizon
  }

  /** A run of the copy loop: how it ended, the bytes written, the reads
      made, the sleeps taken and the number of write calls made. */
  datatype CopyRun = CopyRun(status: CopyStatus, out: seq<Byte>, log: seq<ReadEvent>,
                             naps: seq<int>, writes: nat)

  /** A run that a pass ends. */
  function Halt(p: PassResult): CopyRun
  {
    CopyRun(Stop(p), p.emitted, [p.ev], [], p.flush.calls)
  }

  /** A pass that goes on, followed by the rest of the run. */
  function Extend(p: PassResult, rest: CopyRun): CopyRun
    requires p.sleep.Some?
  {
    CopyRun(rest.status, p.emitted + rest.out, [p.ev] + rest.log, [p.sleep.value] + rest.naps, rest.writes)
  }

  /** The copy loop from its i-th read on, with `w` writes and `d` rand()
      values before it; it follows `fuel` more system calls (reads and
      writes) and then reports Horizon. */
  function CopyFrom(c: Config, env: Env, i: nat, w: nat, d: nat, fuel: nat): CopyRun
    requires Honours(env)
    decreases fuel
  {
    if fuel == 0 then CopyRun(Horizon, [], [], [], w)
    else
      var p := Pass(c, env, i, w, d, fuel);
      if p.sleep.None? then Halt(p)
      else Extend(p, CopyFrom(c, env, i + 1, p.flush.calls, p.next, fuel - 1 - (p.flush.calls - w)))
  }

  // ---- what every run satisfies

  /** The calls of a run that started with `w` writes stay within `fuel`, and
      it reports Horizon only once they are spent. */
  ghost predicate WithinBudget(r: CopyRun, w: nat, fuel: nat)
  {
    w <= r.writes && |r.log| + (r.writes - w) <= fuel
    && (r.status == Horizon ==> |r.log| + (r.writes - w) == fuel)
  }

  /** Each logged read, the from + j-th read call, is the read oracle's reply
      to a request drawn from the byte range, and no chunk exceeds its
      request. */
  ghost predicate Requests(log: seq<ReadEvent>, from: nat, c: Config, env: Env)
  {
    forall j :: 0 <= j < |log| ==>
      log[j].reply == env.read(from + j, log[j].want) && Between(c.bmin, c.bmax, log[j].want)
      && (log[j].reply.Bytes? ==> |log[j].reply.data| <= log[j].want)
  }

  /** Only the last read can return 0, and the run finishes exactly when it does. */
  ghost predicate EndsAtLast(r: CopyRun)
  {
    (forall j :: 0 <= j < |r.log| - 1 ==> !IsEnd(r.log[j].reply))
    && (r.status == Finished <==> r.log != [] && IsEnd(r.log[|r.log| - 1].reply))
  }

  /** The output is a prefix of what was read, in order, holding every chunk
      before the last in full, and all of them when the run finishes. */
  ghost predicate OutputPrefix(r: CopyRun)
  {
    r.out <= Received(r.log)
    && (r.log != [] ==> Received(r.log[..|r.log| - 1]) <= r.out)
    && (r.status == Finished ==> r.out == Received(r.log))
  }

  /** One sleep follows every read but the last, each within the sleep range. */
  ghost predicate NapsBetween(r: CopyRun, c: Config)
  {
    |r.naps| <= |r.log| <= |r.naps| + 1
    && forall j :: 0 <= j < |r.naps| ==> Between(c.smin, c.smax, r.naps[j])
  }

  /** A run that started with `w` writes fails only after a read that
      returned bytes and a write, its last write call, that refused the rest
      of them; a read of -1 neither ends nor fails it. */
  ghost predicate FailsOnWrite(r: CopyRun, env: Env, w: nat)
  {
    (r.status == Failed ==>
       r.log != [] && Count(r.log[|r.log| - 1].reply) > 0 && r.writes > w
       && |r.out| <= |Received(r.log)|
       && env.write(r.writes - 1, Received(r.log)[|r.out|..]) < 0)
    && (r.log != [] && r.log[|r.log| - 1].reply == ReadFailed ==> r.status == Horizon)
  }

  /** All of the above, for a run from the i-th read with `w` writes before it. */
  ghost predicate Sound(r: CopyRun, c: Config, env: Env, i: nat, w: nat, fuel: nat)
  {
    WithinBudget(r, w, fuel) && Requests(r.log, i, c, env) && EndsAtLast(r)
    && OutputPrefix(r) && NapsBetween(r, c) && FailsOnWrite(r, env, w)
  }

  lemma ReceivedOne(e: ReadEvent)
    ensures Received([e]) == Chunk(e.reply)
  {
    assert [e][..0] == [];
  }

  /** A pass that ends the loop is a sound run by itself. */
  lemma HaltSound(c: Config, env: Env, i: nat, w: nat, d: nat, fuel: nat)
    requires Honours(env) && fuel > 0
    requires Pass(c, env, i, w, d, fuel).sleep.None?
    ensures Sound(Halt(Pass(c, env, i, w, d, fuel)), c, env, i, w, fuel)
  {
    var p := Pass(c, env, i, w, d, fuel);
    var r := Halt(p);
    ReceivedOne(p.ev);
    assert r.log[..0] == [];
    assert r.log[0] == p.ev;
  }

  lemma ExtendRequests(p: PassResult, rest: CopyRun, from: nat, c: Config, env: Env)
    requires p.sleep.Some?
    requires p.ev.reply == env.read(from, p.ev.want) && Between(c.bmin, c.bmax, p.ev.want)
    requires p.ev.reply.Bytes? ==> |p.ev.reply.data| <= p.ev.want
    requires Requests(rest.log, from + 1, c, env)
    ensures Requests(Extend(p, rest).log, from, c, env)
  {
    var log := Extend(p, rest).log;
    forall j | 0 < j < |log| ensures log[j] == rest.log[j - 1] { }
  }

  lemma ExtendEnds(p: PassResult, rest: CopyRun)
    requires p.sleep.Some? && !IsEnd(p.ev.reply) && EndsAtLast(rest)
    ensures EndsAtLast(Extend(p, rest))
  {
    var log := Extend(p, rest).log;
    forall j | 0 < j < |log| ensures log[j] == rest.log[j - 1] { }
  }

  lemma ExtendOutput(p: PassResult, rest: CopyRun)
    requires p.sleep.Some? && p.emitted == Chunk(p.ev.reply) && OutputPrefix(rest)
    ensures OutputPrefix(Extend(p, rest))
  {
    var r := Extend(p, rest);
    ReceivedOne(p.ev);
    ReceivedAppend([p.ev], rest.log);
    if rest.log != [] {
      var front := rest.log[..|rest.log| - 1];
      assert r.log[..|r.log| - 1] == [p.ev] + front;
      ReceivedAppend([p.ev], front);
    } else {
      assert r.log == [p.ev];
      assert r.log[..|r.log| - 1] == [];
    }
  }

  lemma ExtendNaps(p: PassResult, rest: CopyRun, c: Config)
    requires p.sleep.Some? && Between(c.smin, c.smax, p.sleep.value) && NapsBetween(rest, c)
    ensures NapsBetween(Extend(p, rest), c)
  {
    var naps := Extend(p, rest).naps;
    forall j | 0 < j < |naps| ensures naps[j] == rest.naps[j - 1] { }
  }

  lemma ExtendFails(p: PassResult, rest: CopyRun, env: Env, w: nat)
    requires p.sleep.Some? && p.emitted == Chunk(p.ev.reply)
    requires w <= p.flush.calls && FailsOnWrite(rest, env, p.flush.calls) && EndsAtLast(rest)
    ensures FailsOnWrite(Extend(p, rest), env, w)
  {
    var r := Extend(p, rest);
    if rest.log != [] {
      assert r.log[|r.log| - 1] == rest.log[|rest.log| - 1];
    }
    if r.status == Failed {
      ReceivedAppend([p.ev], rest.log);
      ReceivedOne(p.ev);
      assert Received(r.log) == p.emitted + Received(rest.log);
      assert Received(r.log)[|r.out|..] == Received(rest.log)[|rest.out|..];
    }
  }

  /** A pass that goes on, followed by a sound run, is a sound run. */
  lemma ExtendSound(c: Config, env: Env, i: nat, w: nat, d: nat, fuel: nat, p: PassResult, rest: CopyRun)
    requires Honours(env) && fuel > 0
    requires p == Pass(c, env, i, w, d, fuel) && p.sleep.Some?
    requires Sound(rest, c, env, i + 1, p.flush.calls, fuel - 1 - (p.flush.calls - w))
    ensures Sound(Extend(p, rest), c, env, i, w, fuel)
  {
    ExtendRequests(p, rest, i, c, env);
    ExtendEnds(p, rest);
    ExtendOutput(p, rest);
    ExtendNaps(p, rest, c);
    ExtendFails(p, rest, env, w);
  }

  /** read(fd, buf, want): stores the reply's bytes at the front of buf. */
  method ReadInto(buf: array<Byte>, env: Env, i: nat, want: int) returns (reply: ReadReply)
    requires Honours(env)
    requires want <= buf.Length
    modifies buf
    ensures reply == env.read(i, want)
    ensures buf[..|Chunk(reply)|] == Chunk(reply)
    ensures forall k :: 0 <= k < buf.Length && k >= want ==> buf[k] == old(buf[k])
  {
    reply := env.read(i, want);
    var data := Chunk(reply);
    forall k | 0 <= k < |data| {
      buf[k] := data[k];
    }
  }

  /** One pass of the loop body on the buffer: it does what Pass says. */
  method Cycle(c: Config, buf: array<Byte>, env: Env, i: nat, writes: nat, d: nat, fuel: nat)
    returns (p: PassResult)
    requires Honours(env)
    requires BufferSize(c) <= buf.Length
    requires fuel > 0
    modifies buf
    ensures p == Pass(c, env, i, writes, d, fuel)
  {
    var size := Pick(c.bmin, c.bmax, env, d);     // want = randn(bmin, bmax)
    var reply := ReadInto(buf, env, i, size.0);   // nread = read(fd, buf, want)
    var ev := ReadEvent(size.0, reply);
    if IsEnd(reply) {
      return PassResult(ev, FlushResult(Flushed, 0, writes), [], None, size.1);
    }
    var data := buf[..|Chunk(reply)|];
    var status, n, calls := WriteAll(data, env.write, writes, fuel - 1);
    var f := FlushResult(status, n, calls);
    var emitted := data[..n];
    if status != Flushed {
      return PassResult(ev, f, emitted, None, size.1);
    }
    var draw := Pick(c.smin, c.smax, env, size.1);  // want = randn(smin, smax)
    // nanosleep(&nap, NULL) sleeps for Nap(want), which has no effect here
    p := PassResult(ev, f, emitted, Some(draw.0), draw.1);
  }

  /** A run preceded by the output, reads and sleeps of earlier passes. */
  function Prefixed(out: seq<Byte>, log: seq<ReadEvent>, naps: seq<int>, r: CopyRun): CopyRun
  {
    CopyRun(r.status, out + r.out, log + r.log, naps + r.naps, r.writes)
  }

  lemma PrefixedExtend(out: seq<Byte>, log: seq<ReadEvent>, naps: seq<int>, p: PassResult, rest: CopyRun)
    requires p.sleep.Some?
    ensures Prefixed(out, log, naps, Extend(p, rest))
         == Prefixed(out + p.emitted, log + [p.ev], naps + [p.sleep.value], rest)
  {
    assert out + (p.emitted + rest.out) == (out + p.emitted) + rest.out;
    assert log + ([p.ev] + rest.log) == (log + [p.ev]) + rest.log;
    assert naps + ([p.sleep.value] + rest.naps) == (naps + [p.sleep.value]) + rest.naps;
  }

  /** The read/write/sleep cycle of main: it is CopyFrom from the first read. */
  method CopyLoop(c: Config, buf: array<Byte>, env: Env, budget: nat)
    returns (status: CopyStatus, out: seq<Byte>, log: seq<ReadEvent>, naps: seq<int>, writes: nat)
    requires Honours(env)
    requires BufferSize(c) <= buf.Length
    modifies buf
    ensures CopyRun(status, out, log, naps, writes) == CopyFrom(c, env, 0, 0, 0, budget)
  {
    status, out, log, naps, writes := Horizon, [], [], [], 0;
    var fuel: nat := budget;  // system calls the model still follows
    var d: nat := 0;          // rand() values drawn so far
    assert CopyFrom(c, env, 0, 0, 0, budget) == Prefixed(out, log, naps, CopyFrom(c, env, 0, 0, 0, budget));
    while fuel > 0
      invariant CopyFrom(c, env, 0, 0, 0, budget) == Prefixed(out, log, naps, CopyFrom(c, env, |log|, writes, d, fuel))
    {
      var p := Cycle(c, buf, env, |log|, writes, d, fuel);
      if p.sleep.None? {
        // read returned 0 (break), a write failed (exit 3) or the writes stalled
        assert naps + [] == naps;
        return Stop(p), out + p.emitted, log + [p.ev], naps, p.flush.calls;
      }
      var calls, left := p.flush.calls, fuel - 1 - (p.flush.calls - writes);
      ghost var rest := CopyFrom(c, env, |log| + 1, calls, p.next, left);
      assert CopyFrom(c, env, |log|, writes, d, fuel) == Extend(p, rest);
      PrefixedExtend(out, log, naps, p, rest);
      out, log, naps := out + p.emitted, log + [p.ev], naps + [p.sleep.value];
      fuel, writes, d := left, calls, p.next;
    }
    assert out + [] == out && log + [] == log && naps + [] == naps;
  }

  /** The reads come from a file holding `input`: each one continues where
      the bytes delivered so far stop, and read returns 0 only at its end. */
  ghost predicate ReadsFrom(log: seq<ReadEvent>, input: seq<Byte>)
  {
    forall i :: 0 <= i < |log| ==>
      var pos := |Received(log[..i])|;
      pos <= |input|
      && (log[i].reply.Bytes? ==> log[i].reply.data <= input[pos..])
      && (IsEnd(log[i].reply) ==> pos == |input|)
  }

  /** Reading a file this way delivers a prefix of it, and all of it once
      read has returned 0: with CopyLoop's postconditions, a run that
      finishes writes out exactly the file. */
  lemma {:induction false} CopiesFile(log: seq<ReadEvent>, input: seq<Byte>)
    requires ReadsFrom(log, input)
    ensures Received(log) <= input
    ensures log != [] && IsEnd(log[|log| - 1].reply) ==> Received(log) == input
  {
    if log != [] {
      var n := |log| - 1;
      var prefix := log[..n];
      assert ReadsFrom(prefix, input) by {
        forall i | 0 <= i < |prefix| ensures prefix[..i] == log[..i] { }
      }
      CopiesFile(prefix, input);
      var pos := |Received(prefix)|;
      var chunk := Chunk(log[n].reply);
      assert Received(prefix) == input[..pos];
      assert chunk == input[pos..pos + |chunk|];
      assert Received(log) == input[..pos] + input[pos..pos + |chunk|];
      assert input[..pos] + input[pos..pos + |chunk|] == input[..pos + |chunk|];
    }
  }
}
