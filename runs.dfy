/** What every run of randcat's copy loop satisfies, by induction over the
    passes of CopyFrom. */
module Runs {
  import opened Cli
  import opened Copy

  /** One pass that goes on, unfolded: a sound rest makes a sound run. */
  lemma SoundStep(c: Config, env: Env, i: nat, w: nat, d: nat, fuel: nat, p: PassResult, rest: CopyRun)
    requires Honours(env) && fuel > 0
    requires p == Pass(c, env, i, w, d, fuel) && p.sleep.Some?
    requires rest == CopyFrom(c, env, i + 1, p.flush.calls, p.next, fuel - 1 - (p.flush.calls - w))
    requires Sound(rest, c, env, i + 1, p.flush.calls, fuel - 1 - (p.flush.calls - w))
    ensures Sound(CopyFrom(c, env, i, w, d, fuel), c, env, i, w, fuel)
  {
    assert CopyFrom(c, env, i, w, d, fuel) == Extend(p, rest);
    ExtendSound(c, env, i, w, d, fuel, p, rest);
  }

  /** Every run of the copy loop is sound. */
  lemma {:induction false} CopySound(c: Config, env: Env, i: nat, w: nat, d: nat, fuel: nat)
    requires Honours(env)
    ensures Sound(CopyFrom(c, env, i, w, d, fuel), c, env, i, w, fuel)
    decreases fuel
  {
    if fuel > 0 {
      var p := Pass(c, env, i, w, d, fuel);
      if p.sleep.Some? {
        var calls, left := p.flush.calls, fuel - 1 - (p.flush.calls - w);
        var rest := CopyFrom(c, env, i + 1, calls, p.next, left);
        CopySound(c, env, i + 1, calls, p.next, left);
        SoundStep(c, env, i, w, d, fuel, p, rest);
      } else {
        HaltSound(c, env, i, w, d, fuel);
      }
    }
  }

  /** A run over reads that come from a file, and that finishes, writes out
      exactly the file. */
  lemma FileRoundTrip(c: Config, env: Env, budget: nat, input: seq<Byte>)
    requires Honours(env)
    requires ReadsFrom(CopyFrom(c, env, 0, 0, 0, budget).log, input)
    requires CopyFrom(c, env, 0, 0, 0, budget).status == Finished
    ensures CopyFrom(c, env, 0, 0, 0, budget).out == input
  {
    CopySound(c, env, 0, 0, 0, budget);
    CopiesFile(CopyFrom(c, env, 0, 0, 0, budget).log, input);
  }
}
