/** Argument processing in randcat's main: a left-to-right pass over argv that
    either yields a configuration or ends the process with an exit code,
    followed by the zero-as-unset normalisation of the two ranges. */
module Cli {
  import opened Options
  import opened Range

  /** The variables main sets from its arguments; a range bound of 0 means unset. */
  datatype Config = Config(
    debug: bool,
    bmin: int, bmax: int,    // bytes per read
    smin: int, smax: int,    // milliseconds per sleep
    file: Option<string>)    // None: read standard input

  const Defaults := Config(false, 1024, 2048, 100, 400, None)

  /** The outcome of the argument pass. Undefined stands for the argument "-",
      for which main reads past the end of the string. */
  datatype ArgsOutcome = Proceed(config: Config) | Exit(code: int) | Undefined

  /** The arguments after the program name. */
  function Operands(argv: seq<string>): seq<string>
  {
    if argv == [] then [] else argv[1..]
  }

  predicate IsFlag(a: string) { |a| > 0 && a[0] == '-' }

  /** Sets a range from a value accepted by parse_range. */
  function WithRange(c: Config, flag: char, r: (int, int)): Config
  {
    if flag == 'b' then c.(bmin := r.0, bmax := r.1) else c.(smin := r.0, smax := r.1)
  }

  /** The argument pass, continued from configuration c over the arguments left. */
  function Scan(c: Config, args: seq<string>): ArgsOutcome
    decreases |args|
  {
    if args == [] then Proceed(c)
    else
      var a := args[0];
      if IsFlag(a) then
        if |a| == 1 then Undefined
        else if |a| > 2 then Exit(2)
        else if a[1] == 'D' then Scan(c.(debug := true), args[1..])
        else if a[1] == 'b' || a[1] == 's' then
          if |args| == 1 then Exit(1)
          else match ParseOutcome(args[1])
            case None => Exit(2)
            case Some(r) => Scan(WithRange(c, a[1], r), args[2..])
        else if a[1] == '-' then Scan(c, args[1..])
        else if a[1] == 'h' then Exit(0)
        else Exit(1)
      else if c.file.Some? then Exit(2)
      else Scan(c.(file := Some(a)), args[1..])
  }

  /** The argv loop of main. args[i] is argv[i + 1]. */
  method ProcessArgs(argv: seq<string>) returns (o: ArgsOutcome)
    ensures o == Scan(Defaults, Operands(argv))
  {
    var args := Operands(argv);
    var c := Defaults;
    var idx := 0;
    while idx < |args|
      invariant 0 <= idx <= |args|
      invariant Scan(Defaults, args) == Scan(c, args[idx..])
    {
      var a := args[idx];
      if IsFlag(a) {
        if |a| == 1 {
          return Undefined;
        }
        if |a| > 2 {
          return Exit(2);
        }
        match a[1]
        case 'D' =>
          c := c.(debug := true);
        case 'b' =>
          idx := idx + 1;
          if idx == |args| {
            return Exit(1);
          }
          var rc, lo, hi := ParseRange(args[idx], 0, 0);
          if rc != 0 {
            return Exit(2);
          }
          assert args[idx - 1..][2..] == args[idx + 1..];
          c := c.(bmin := lo, bmax := hi);
        case 's' =>
          idx := idx + 1;
          if idx == |args| {
            return Exit(1);
          }
          var rc, lo, hi := ParseRange(args[idx], 0, 0);
          if rc != 0 {
            return Exit(2);
          }
          assert args[idx - 1..][2..] == args[idx + 1..];
          c := c.(smin := lo, smax := hi);
        case '-' =>
        case 'h' =>
          return Exit(0);
        case _ =>
          return Exit(1);
      } else {
        if c.file.Some? {
          return Exit(2);
        }
        c := c.(file := Some(a));
      }
      assert args[idx..][1..] == args[idx + 1..];
      idx := idx + 1;
    }
    o := Proceed(c);
  }

  /** The fix-up after the argument pass: a zero min takes the default
      minimum, then a zero max takes the (new) min. */
  function Normalize(c: Config): (r: Config)
    ensures r.bmin != 0 && r.bmax != 0 && r.smin != 0 && r.smax != 0
    ensures r.debug == c.debug && r.file == c.file
  {
    var bmin := if c.bmin == 0 then 1 else c.bmin;
    var smin := if c.smin == 0 then 100 else c.smin;
    c.(bmin := bmin,
       bmax := if c.bmax == 0 then bmin else c.bmax,
       smin := smin,
       smax := if c.smax == 0 then smin else c.smax)
  }

  /** A prefix the pass gets through without exiting can be resumed from:
      arguments are consumed strictly left to right. */
  lemma {:induction false} ScanAppend(c: Config, p: seq<string>, q: seq<string>)
    requires Scan(c, p).Proceed?
    ensures Scan(c, p + q) == Scan(Scan(c, p).config, q)
    decreases |p|
  {
    if p != [] {
      var a := p[0];
      assert (p + q)[0] == a;
      assert (p + q)[1..] == p[1..] + q;
      if IsFlag(a) && a[1] in "bs" {
        assert (p + q)[1] == p[1];
        assert (p + q)[2..] == p[2..] + q;
        ScanAppend(WithRange(c, a[1], ParseOutcome(p[1]).value), p[2..], q);
      } else if IsFlag(a) && a[1] == 'D' {
        ScanAppend(c.(debug := true), p[1..], q);
      } else if IsFlag(a) {
        ScanAppend(c, p[1..], q);
      } else {
        ScanAppend(c.(file := Some(a)), p[1..], q);
      }
    } else {
      assert p + q == q;
    }
  }

  /** A "-" argument longer than two characters exits 2, whatever follows. */
  lemma LongFlagExits(p: seq<string>, a: string, q: seq<string>)
    requires Scan(Defaults, p).Proceed?
    requires IsFlag(a) && |a| > 2
    ensures Scan(Defaults, p + [a] + q) == Exit(2)
  {
    assert p + [a] + q == p + ([a] + q);
    ScanAppend(Defaults, p, [a] + q);
  }

  /** A two-character flag whose letter is not D, b, s, - or h exits 1. */
  lemma UnknownFlagExits(p: seq<string>, x: char, q: seq<string>)
    requires Scan(Defaults, p).Proceed?
    requires x !in "Dbs-h"
    ensures Scan(Defaults, p + [['-', x]] + q) == Exit(1)
  {
    assert p + [['-', x]] + q == p + ([['-', x]] + q);
    ScanAppend(Defaults, p, [['-', x]] + q);
  }

  /** -h ends the pass with exit 0, whatever follows. */
  lemma HelpExits(p: seq<string>, q: seq<string>)
    requires Scan(Defaults, p).Proceed?
    ensures Scan(Defaults, p + ["-h"] + q) == Exit(0)
  {
    assert p + ["-h"] + q == p + (["-h"] + q);
    ScanAppend(Defaults, p, ["-h"] + q);
  }

  /** -b or -s as the last argument exits 1. */
  lemma MissingValueExits(p: seq<string>, x: char)
    requires Scan(Defaults, p).Proceed?
    requires x == 'b' || x == 's'
    ensures Scan(Defaults, p + [['-', x]]) == Exit(1)
  {
    ScanAppend(Defaults, p, [['-', x]]);
  }

  /** A value parse_range rejects exits 2, whatever follows. */
  lemma BadValueExits(p: seq<string>, x: char, v: string, q: seq<string>)
    requires Scan(Defaults, p).Proceed?
    requires x == 'b' || x == 's'
    requires !WellFormed(v)
    ensures Scan(Defaults, p + [['-', x], v] + q) == Exit(2)
  {
    assert p + [['-', x], v] + q == p + ([['-', x], v] + q);
    ScanAppend(Defaults, p, [['-', x], v] + q);
  }

  /** A second positional argument exits 2, whatever follows. */
  lemma SecondFileExits(p: seq<string>, f: string, q: seq<string>)
    requires Scan(Defaults, p).Proceed? && Scan(Defaults, p).config.file.Some?
    requires !IsFlag(f)
    ensures Scan(Defaults, p + [f] + q) == Exit(2)
  {
    assert p + [f] + q == p + ([f] + q);
    ScanAppend(Defaults, p, [f] + q);
  }

  /** "--" is skipped without effect. */
  lemma DoubleDashIsSkipped(p: seq<string>, q: seq<string>)
    requires Scan(Defaults, p).Proceed?
    ensures Scan(Defaults, p + ["--"] + q) == Scan(Defaults, p + q)
  {
    assert p + ["--"] + q == p + (["--"] + q);
    ScanAppend(Defaults, p, ["--"] + q);
    ScanAppend(Defaults, p, q);
    assert (["--"] + q)[1..] == q;
  }

  /** -b v or -s v replaces the whole range with what v parses to, so a later
      occurrence of the flag overrides an earlier one. */
  lemma RangeFlagReplaces(p: seq<string>, x: char, v: string, q: seq<string>)
    requires Scan(Defaults, p).Proceed?
    requires x == 'b' || x == 's'
    requires WellFormed(v)
    ensures Scan(Defaults, p + [['-', x], v] + q)
         == Scan(WithRange(Scan(Defaults, p).config, x, RangeValue(v, 0, 0)), q)
  {
    assert p + [['-', x], v] + q == p + ([['-', x], v] + q);
    ScanAppend(Defaults, p, [['-', x], v] + q);
    assert ([['-', x], v] + q)[2..] == q;
  }

  /** Two configurations that differ at most in the range `flag` sets. */
  predicate SameExcept(c1: Config, c2: Config, flag: char)
  {
    WithRange(c1, flag, (0, 0)) == WithRange(c2, flag, (0, 0))
  }

  /** Configurations that differ only in the range of flag x scan alike up to
      a later -x option: the arguments before it cannot read that range, and
      the option overwrites it. */
  lemma {:induction false} ResetAhead(c1: Config, c2: Config, x: char, m: seq<string>, v: string, q: seq<string>)
    requires x == 'b' || x == 's'
    requires SameExcept(c1, c2, x)
    ensures Scan(c1, m + [['-', x], v] + q) == Scan(c2, m + [['-', x], v] + q)
    decreases |m|
  {
    var f: string := ['-', x];
    var args := m + [f, v] + q;
    if m == [] {
      assert args == [f, v] + q;
      assert args[2..] == q;
      if WellFormed(v) {
        var r := RangeValue(v, 0, 0);
        assert WithRange(c1, x, r) == WithRange(c2, x, r);
      }
    } else {
      var a := m[0];
      assert args[0] == a;
      assert args[1..] == m[1..] + [f, v] + q;
      if IsFlag(a) && |a| == 2 && a[1] in "bs" {
        if |m| == 1 {
          assert args[1] == f;
          assert !IsRangeChar(f[0]);
        } else {
          assert args[1] == m[1];
          assert args[2..] == m[2..] + [f, v] + q;
          if WellFormed(m[1]) {
            var r := RangeValue(m[1], 0, 0);
            if a[1] == x {
              assert WithRange(c1, x, r) == WithRange(c2, x, r);
            } else {
              ResetAhead(WithRange(c1, a[1], r), WithRange(c2, a[1], r), x, m[2..], v, q);
            }
          }
        }
      } else if IsFlag(a) && |a| == 2 && a[1] == 'D' {
        ResetAhead(c1.(debug := true), c2.(debug := true), x, m[1..], v, q);
      } else if IsFlag(a) && |a| == 2 && a[1] == '-' {
        ResetAhead(c1, c2, x, m[1..], v, q);
      } else if !IsFlag(a) && c1.file.None? {
        ResetAhead(c1.(file := Some(a)), c2.(file := Some(a)), x, m[1..], v, q);
      }
    }
  }

  /** Of two -b (or two -s) options, the last one wins: the earlier one can be
      dropped, whatever comes before, between and after them. */
  lemma LastRangeWins(p: seq<string>, x: char, v1: string, m: seq<string>, v2: string, q: seq<string>)
    requires Scan(Defaults, p).Proceed?
    requires x == 'b' || x == 's'
    requires WellFormed(v1)
    ensures Scan(Defaults, p + [['-', x], v1] + m + [['-', x], v2] + q)
         == Scan(Defaults, p + m + [['-', x], v2] + q)
  {
    var f: string := ['-', x];
    var c := Scan(Defaults, p).config;
    var tail := m + [f, v2] + q;
    assert p + [f, v1] + m + [f, v2] + q == p + [f, v1] + tail;
    assert p + m + [f, v2] + q == p + tail;
    RangeFlagReplaces(p, x, v1, tail);
    ScanAppend(Defaults, p, tail);
    ResetAhead(WithRange(c, x, RangeValue(v1, 0, 0)), c, x, m, v2, q);
  }

  /** -D sets debug and nothing else. */
  lemma DebugFlagSetsDebug(p: seq<string>, q: seq<string>)
    requires Scan(Defaults, p).Proceed?
    ensures Scan(Defaults, p + ["-D"] + q) == Scan(Scan(Defaults, p).config.(debug := true), q)
  {
    assert p + ["-D"] + q == p + (["-D"] + q);
    ScanAppend(Defaults, p, ["-D"] + q);
    assert (["-D"] + q)[1..] == q;
  }

  predicate NonNegative(c: Config)
  {
    c.bmin >= 0 && c.bmax >= 0 && c.smin >= 0 && c.smax >= 0
  }

  /** The pass never produces a negative bound. */
  lemma {:induction false} ScanNonNegative(c: Config, args: seq<string>)
    requires NonNegative(c)
    requires Scan(c, args).Proceed?
    ensures NonNegative(Scan(c, args).config)
    decreases |args|
  {
    if args != [] {
      var a := args[0];
      if IsFlag(a) && a[1] in "bs" {
        AcceptedRangeNonNegative(args[1]);
        ScanNonNegative(WithRange(c, a[1], ParseOutcome(args[1]).value), args[2..]);
      } else if IsFlag(a) && a[1] == 'D' {
        ScanNonNegative(c.(debug := true), args[1..]);
      } else if IsFlag(a) {
        ScanNonNegative(c, args[1..]);
      } else {
        ScanNonNegative(c.(file := Some(a)), args[1..]);
      }
    }
  }

  /** Normalisation leaves a configuration alone exactly when no bound is
      zero: it only ever replaces a zero. */
  lemma NormalizeFixes(c: Config)
    ensures Normalize(c) == c <==> c.bmin != 0 && c.bmax != 0 && c.smin != 0 && c.smax != 0
  {
  }

  /** After normalisation every bound of a non-negative configuration is positive. */
  lemma NormalizePositive(c: Config)
    requires NonNegative(c)
    ensures var r := Normalize(c);
            r.bmin >= 1 && r.bmax >= 1 && r.smin >= 1 && r.smax >= 1
  {
  }

  /** Normalising twice changes nothing more. */
  lemma NormalizeIdempotent(c: Config)
    ensures Normalize(Normalize(c)) == Normalize(c)
  {
  }

  /** A single number N given to -b or -s fixes that range at N (a zero N
      takes the default minimum); the other range keeps its default. */
  lemma SingleNumberFixesRange(x: char, n: nat)
    requires x == 'b' || x == 's'
    ensures Scan(Defaults, [['-', x], Show(n)]).Proceed?
    ensures var r := Normalize(Scan(Defaults, [['-', x], Show(n)]).config);
            var fixed := if n != 0 then n else if x == 'b' then 1 else 100;
            if x == 'b' then r.bmin == r.bmax == fixed && r.smin == 100 && r.smax == 400
            else r.smin == r.smax == fixed && r.bmin == 1024 && r.bmax == 2048
  {
    SingleNumber(n);
    assert [['-', x], Show(n)][2..] == [];
  }

  /** The zero-as-unset rule on a concrete option: -b 0:0 reads one byte at a time. */
  lemma ZeroMeansUnset()
    ensures Scan(Defaults, ["-b", "0:0"]).Proceed?
    ensures var r := Normalize(Scan(Defaults, ["-b", "0:0"]).config); r.bmin == r.bmax == 1
  {
    NumberPair(0, 0);
    assert Show(0) + ":" + Show(0) == "0:0";
    assert ["-b", "0:0"][2..] == [];
  }

  /** The rule does not establish min <= max: -s 0:50 sleeps between 100 and 50. */
  lemma ZeroMinExceedsMax()
    ensures Scan(Defaults, ["-s", "0:50"]).Proceed?
    ensures var r := Normalize(Scan(Defaults, ["-s", "0:50"]).config); r.smin == 100 && r.smax == 50
  {
    NumberPair(0, 50);
    assert Show(50) == "50";
    assert Show(0) + ":" + Show(50) == "0:50";
    assert ["-s", "0:50"][2..] == [];
  }

  /** The argument pass exits only with 0 (help), 1 or 2. */
  lemma {:induction false} ExitCodes(c: Config, args: seq<string>)
    ensures Scan(c, args).Exit? ==> Scan(c, args).code in {0, 1, 2}
    decreases |args|
  {
    if args != [] {
      var a := args[0];
      if IsFlag(a) && |a| == 2 && a[1] in "bs" && |args| > 1 && WellFormed(args[1]) {
        ExitCodes(WithRange(c, a[1], ParseOutcome(args[1]).value), args[2..]);
      } else if IsFlag(a) && |a| == 2 && a[1] == 'D' {
        ExitCodes(c.(debug := true), args[1..]);
      } else if IsFlag(a) {
        ExitCodes(c, args[1..]);
      } else {
        ExitCodes(c.(file := Some(a)), args[1..]);
      }
    }
  }
}
