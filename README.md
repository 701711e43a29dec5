# randcat, modelled in Dafny

randcat (`aux/randcat.c` of braid) is a `cat` that copies its input, a named
file or standard input, to standard output. It reads in chunks whose size is
drawn at random from a byte range, and it sleeps a random number of
milliseconds drawn from a sleep range between chunks. Usage:
`randcat [-D] [-b N[:M]] [-s N[:M]] [-h] [FILE]`.

The model covers the whole program apart from its system calls:

- `options.dfy`, module `Options`: the `Option` type shared by the other modules.
- `range.dfy`, module `Range`: `parse_range`, as a method with a character
  loop. The `cur` pointer becomes a flag saying whether digits go to `max`.
  The module also proves what the method accepts and the values it yields,
  including round trips through decimal numerals.
- `random.dfy`, module `Random`: `randn`. The value `rand()` returned is a
  parameter.
- `cli.dfy`, module `Cli`: the argv loop of `main`. `ProcessArgs` is the loop
  and `Scan` is the left-to-right function it is proved equal to. `Normalize`
  is the zero-as-unset fix-up. The lemmas give each exit code and show that
  the first error wins and a later `-b`/`-s` replaces an earlier one.
- `copy.dfy`, module `Copy`: the copy loop. `WriteAll` is the partial-write
  loop, proved equal to the recursive `Flush`. `Cycle` is one
  read/write/sleep pass, proved equal to the function `Pass`. `CopyLoop` is
  the whole loop, proved equal to the recursive run `CopyFrom`.
  `Nap` is the millisecond-to-`timespec` conversion. `read`, `write`,
  `rand()` and `open` are oracles bundled in `Env` and indexed by call
  number. `Honours` states their contracts: read stores at most what was
  asked, write accepts at most what was offered, `rand()` stays within
  `RAND_MAX`.
- `runs.dfy`, module `Runs`: `CopySound`, the induction over `CopyFrom`
  that proves what every run of the copy loop satisfies.
- `randcat.dfy`, module `Randcat`: `main` as `Run`, the copy loop's part of
  it as `Serve`, and the buffer-size finding below.

Behaviour that is easy to misread, modelled as the code has it:

- `"N"` sets only the min; the max stays 0 until normalisation copies the min
  into it.
- Normalisation replaces only a zero min (by 1 or 100), not the whole range.
  So `-b 0:50` gives `(1, 50)` and `-s 0:50` gives `(100, 50)`: `min <= max`
  is not established.
- `--help` is three characters long and exits 2. Only `-h` prints help.
- The draw `rand() * 1.0 / RAND_MAX` reaches 1 when `rand()` returns
  `RAND_MAX`, so `randn` can return `max`.
- A read that returns -1 neither ends nor aborts the loop. The write loop is
  skipped and the program sleeps and reads again.
- An empty argument is a positional argument, so it is taken as the file name.

## Model

| member | source | states |
|---|---|---|
| `Range.ParseRange` | aux/randcat.c:38-59 | returns 0 or -1, and 0 exactly when every character is a digit or ':' and there is at most one ':'; on success min and max are the digits before and after the first ':' accumulated onto the incoming values |
| `Range.ParseOutcome` | aux/randcat.c:105-109 | parse_range from zeroed outputs, as main calls it, giving a pair exactly for the strings WellFormed accepts: both values of an accepted pair are non-negative |
| `Range.SingleNumber` | aux/randcat.c:41-58 | from zeroed outputs, "N" gives min = N and leaves max at 0 |
| `Range.NumberPair` | aux/randcat.c:44-58 | from zeroed outputs, "N:M" gives (N, M) for every pair of numerals |
| `Range.EmptySides` | aux/randcat.c:44-58 | an empty side yields 0: ":M" gives (0, M), "N:" gives (N, 0), "" and ":" give (0, 0) |
| `Range.SecondColonRejected` | aux/randcat.c:47-49 | any string with a second ':' is rejected |
| `Range.ForeignCharRejected` | aux/randcat.c:45-46 | any string with a character other than a digit or ':' is rejected |
| `Range.AccumulateShifts` | aux/randcat.c:53 | digits accumulated onto a non-zero start v give v * 10^len + value, which is why main zeroes the outputs first |
| `Range.AcceptedRangeNonNegative` | aux/randcat.c:51-53 | both values of an accepted range are non-negative |
| `Random.RandN` | aux/randcat.c:61-65 | the result lies between min and max in whichever order they fall; it is min when min == max or rand() is 0, and max when rand() is RAND_MAX |
| `Cli.ProcessArgs` | aux/randcat.c:80-153 | the argv loop yields exactly the outcome of the left-to-right pass Scan over the arguments after the program name |
| `Cli.ScanAppend` | aux/randcat.c:80-153 | arguments are consumed strictly left to right: the pass over p + q resumes after p from the configuration p produced |
| `Cli.LongFlagExits` | aux/randcat.c:84-88 | after a prefix that passes, an argument starting with '-' longer than two characters exits 2 whatever follows |
| `Cli.UnknownFlagExits` | aux/randcat.c:90-93 | a two-character flag whose letter is not D, b, s, - or h exits 1 whatever follows |
| `Cli.HelpExits` | aux/randcat.c:126-142 | -h exits 0 whatever follows |
| `Cli.MissingValueExits` | aux/randcat.c:99-117 | -b or -s as the last argument exits 1 |
| `Cli.BadValueExits` | aux/randcat.c:105-122 | a value parse_range rejects exits 2 whatever follows |
| `Cli.SecondFileExits` | aux/randcat.c:146-151 | a second positional argument exits 2 whatever follows |
| `Cli.DoubleDashIsSkipped` | aux/randcat.c:125 | "--" leaves the outcome exactly as if it were absent |
| `Cli.RangeFlagReplaces` | aux/randcat.c:99-123 | -b v (or -s v) replaces the whole range with the values v parses to, whatever the range was before |
| `Cli.ResetAhead` | aux/randcat.c:80-153 | two configurations that differ only in one range reach the same outcome on any arguments that are followed by a -b (or -s) option for that range |
| `Cli.LastRangeWins` | aux/randcat.c:99-123 | of two -b (or two -s) options the last one decides: after any prefix that passes, the earlier option (with a value parse_range accepts) can be dropped whatever lies between and after them |
| `Cli.DebugFlagSetsDebug` | aux/randcat.c:95-97 | -D sets debug and changes nothing else |
| `Cli.ExitCodes` | aux/randcat.c:80-153 | the argument pass exits only with 0, 1 or 2 |
| `Cli.ScanNonNegative` | aux/randcat.c:80-153 | the pass never produces a negative bound |
| `Cli.Normalize` | aux/randcat.c:155-158 | after normalisation no bound is 0, and debug and the file are unchanged |
| `Cli.NormalizeFixes` | aux/randcat.c:155-158 | normalisation leaves a configuration unchanged exactly when none of its four bounds is 0 |
| `Cli.NormalizePositive` | aux/randcat.c:155-158 | every bound of a non-negative configuration (which is all the argument pass produces) becomes positive |
| `Cli.NormalizeIdempotent` | aux/randcat.c:155-158 | normalising twice gives the same configuration as normalising once |
| `Cli.SingleNumberFixesRange` | aux/randcat.c:99-158 | -b N (or -s N) fixes that range at N, at 1 (or 100) when N is 0, and leaves the other range at its default |
| `Cli.ZeroMeansUnset` | aux/randcat.c:155-156 | -b 0:0 gives the byte range (1, 1) |
| `Cli.ZeroMinExceedsMax` | aux/randcat.c:157-158 | -s 0:50 gives the sleep range (100, 50), so min <= max is not established |
| `Copy.Flush` | aux/randcat.c:186-193 | the write loop over the pending bytes ends with 0 <= n <= nread; it completes exactly when n == nread; when it fails, its last write call returned a negative count for exactly the bytes still pending, buf[n..nread); it stops short of completion only once every write call it may make is spent |
| `Copy.FlushProgresses` | aux/randcat.c:186-193 | when every write accepts at least one byte, the loop completes or fails within nread calls |
| `Copy.FlushStalls` | aux/randcat.c:186-193 | when writes accept nothing, the loop writes nothing and never completes |
| `Copy.FlushNeverRefused` | aux/randcat.c:188-191 | without a negative write the loop never fails |
| `Copy.WriteAll` | aux/randcat.c:186-193 | the loop over the bytes read ends in the status, byte count and write-call count that Flush gives from n = 0 |
| `Copy.Pick` | aux/randcat.c:61-65 | a randn draw lies between its bounds and uses up a rand() value only when the bounds differ |
| `Copy.Drain` | aux/randcat.c:183-193 | after read returned 0 no write is made; otherwise the write loop runs over exactly the bytes read, and the write calls stay within those left |
| `Copy.Pass` | aux/randcat.c:176-201 | one pass asks read for a count within the byte range, gets at most that many bytes, writes out a prefix of them (all of them exactly when the write loop completes, none after read returned 0), and sleeps, within the sleep range, exactly when read did not return 0 and the write loop completed |
| `Copy.ReadInto` | aux/randcat.c:183 | the reply is the read oracle's, its bytes land at the front of the buffer, and nothing at or past the requested count changes |
| `Copy.Cycle` | aux/randcat.c:176-201 | one pass on the buffer does exactly what Pass says, with no sleep drawn once read returns 0 |
| `Copy.CopyLoop` | aux/randcat.c:174-202 | the loop's status, output, reads, sleeps and write-call count are exactly those of the run CopyFrom from the first read |
| `Runs.CopySound` | aux/randcat.c:174-202 | every run uses at most its system-call budget and is cut off only once it is spent; the j-th read is the read oracle's reply to a request within the byte range and returns at most that many bytes; only the last read can return 0, and the run finishes exactly when it does; the output is a prefix of the bytes read, holding all but the last chunk, and all of them when the run finishes; one sleep within the sleep range follows each read but the last; a run fails only after a read that returned bytes, its last write call having refused the bytes still pending; a read of -1 never ends a run |
| `Runs.FileRoundTrip` | aux/randcat.c:174-205 | a run whose reads continue through a file and that finishes (read returned 0) writes out exactly that file |
| `Copy.ReceivedAppend` | aux/randcat.c:175-204 | the bytes delivered by two runs of reads are the concatenation of the bytes each delivered |
| `Copy.CopiesFile` | aux/randcat.c:175-204 | reads that continue through a file deliver a prefix of it, and the whole file once a read returns 0 |
| `Copy.Nap` | aux/randcat.c:199-200 | the timespec stands for exactly the requested milliseconds, in whole milliseconds, and for a non-negative request has 0 <= tv_nsec < 1000000000 |
| `Copy.NapOfMillis` | aux/randcat.c:199-200 | every timespec of whole milliseconds with tv_nsec in range is the conversion of the milliseconds it stands for |
| `Randcat.SourceBufferOverrun` | aux/randcat.c:174-183 | with -b 100:10 the buffer is 10 bytes while randn can ask read for 100 |
| `Randcat.RequestFitsBuffer` | aux/randcat.c:174-183 | a buffer of max(bmin, bmax) bytes holds every request randn can make, no smaller buffer does, and it equals malloc(bmax) whenever bmin <= bmax |
| `Randcat.Serve` | aux/randcat.c:174-205 | the copy loop's run decides the outcome: exit 0 exactly when the last read returned 0, and then everything read was written; exit 3 only when the last read returned bytes and the last write call refused those still pending; a run still going has spent its budget; a read of -1 never ends the run; requests and sleeps stay within their ranges |
| `Randcat.Run` | aux/randcat.c:68-206 | argument errors exit with their code (0, 1 or 2) before any read, write or sleep; an input that cannot be opened exits 4, also before any of them; otherwise the outcome, output, reads, sleeps and writes are those of the copy loop over the normalised configuration, with exit 0 only after read returned 0 and all input was written, exit 3 only after a failed write, and a still-running result only once the budget is spent |

## Left out

- Text written to standard error: help, diagnostics and the `-D` traces. Only exit codes and outcomes are modelled, and the debug flag has no other effect.
- System calls `open`, `read`, `write`, `nanosleep`, `close`, `malloc`, `strerror` and `exit`. They are oracles in `Env` or outcomes of `Run`. Nothing of their behaviour is assumed beyond the contracts in `Honours`. A `malloc` failure and the effect of the sleep itself are not modelled.
- The global state of `rand()`. Its successive values are the oracle `Env.rand`, and `RAND_MAX` is a positive parameter.
- Random.RandN: the draw is computed in exact rational arithmetic, truncated toward zero as C does. The double-precision rounding of `rand() * 1.0 / RAND_MAX * (max - min)` can differ by one at a truncation boundary. The range bound and the `min == max` case hold under both.
- C `int` overflow in `*cur * 10 + digit` is undefined behaviour. Values are mathematical integers.
- The argument `"-"`: `main` reads `argv[idx][2]` past the end of the string, which is undefined behaviour. The model returns the outcome `Undefined`, and `Run` reports `Unspecified`.
- The `NULL` argv entry skip, which a well-formed argv never triggers. Strings are the characters before the terminating NUL.
- Cli.Scan and Cli.ProcessArgs: each `char` of an argument stands for one byte of the C string. A multi-byte character must be passed as its bytes, one `char` per byte. `-é` written as the three chars `-`, `\xC3`, `\xA9` exits 2, as in C. Written as the two chars `-`, `é`, it is a different argument and exits 1.
- Aliasing of the two `parse_range` output pointers, which `main` never does. `ParseRange` takes and returns the values.
- Copy.Flush, Copy.CopyFrom and Randcat.Run: the source loops forever when writes accept nothing or reads never return 0. The model follows a run for `budget` system calls (reads and writes), then reports that it is still going (`WriteStalled`, `Horizon`, `Running`).
- Copy.WriteAll: works on the sequence of bytes `read` stored at the front of the buffer, not on the buffer itself. `write` never changes the buffer, so the two agree.
- Randcat.Serve: allocates `max(bmin, bmax)` bytes rather than `malloc(bmax)`, following the finding below. The two agree whenever `bmin <= bmax`.

## Findings

| source | as written | input that shows it | evidently intended | confidence | as-written member | corrected member |
|---|---|---|---|---|---|---|
| aux/randcat.c:174-183 | the buffer is `malloc(bmax)` bytes, but `read` is asked for `randn(bmin, bmax)` bytes, which reaches `bmin` when `bmin > bmax`; nothing rejects such a range | `randcat -b 100:10` on an input longer than 10 bytes: a request of up to 100 bytes into a 10-byte buffer | no read request exceeds the buffer | high; not executed | `Randcat.SourceBufferOverrun` | `Randcat.RequestFitsBuffer` (with `Copy.BufferSize`, used by `Copy.CopyLoop` and `Randcat.Serve`) |
