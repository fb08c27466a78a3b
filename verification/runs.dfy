/**
  Runs of a step function: a state is stepped at most `n` times, stopping
  early at the first state where `go` is false, and the outputs of the steps
  are concatenated.  The lemmas turn a fact about one step into the same fact
  about a whole run, so a property of a single interrupt-window exit becomes
  a property of any number of them.
 */
module Runs {
  import opened Traces

  /** At most `n` steps from `s`: the state reached and the outputs, in order. */
  function Run<S>(step: S -> (S, seq<bv8>), go: S -> bool, s: S, n: nat): (S, seq<bv8>)
    decreases n
  {
    if n == 0 || !go(s) then
      (s, [])
    else
      var r := Run(step, go, step(s).0, n - 1);
      (r.0, step(s).1 + r.1)
  }

  /** A run with no steps left, or from a state where `go` is false, stays put and outputs nothing. */
  lemma RunStop<S>(step: S -> (S, seq<bv8>), go: S -> bool, s: S, n: nat)
    requires n == 0 || !go(s)
    ensures Run(step, go, s, n) == (s, [])
  {
  }

  /** Otherwise a run is one step followed by a run of one step fewer. */
  lemma RunStep<S>(step: S -> (S, seq<bv8>), go: S -> bool, s: S, n: nat)
    requires n > 0 && go(s)
    ensures Run(step, go, s, n) == (Run(step, go, step(s).0, n - 1).0,
                                    step(s).1 + Run(step, go, step(s).0, n - 1).1)
  {
  }

  /** If every step appends its output to a log, a run appends all its outputs. */
  lemma {:induction false} RunLog<S>(step: S -> (S, seq<bv8>), go: S -> bool, log: S -> seq<bv8>, s: S, n: nat)
    requires forall x :: go(x) ==> log(step(x).0) == log(x) + step(x).1
    ensures log(Run(step, go, s, n).0) == log(s) + Run(step, go, s, n).1
    decreases n
  {
    if n > 0 && go(s) {
      var s1 := step(s).0;
      RunLog(step, go, log, s1, n - 1);
      AppendAssoc(log(s), step(s).1, Run(step, go, s1, n - 1).1);
    }
  }

  /** What no step changes, no run changes. */
  lemma {:induction false} RunKeeps<S, T>(step: S -> (S, seq<bv8>), go: S -> bool, obs: S -> T, s: S, n: nat)
    requires forall x :: go(x) ==> obs(step(x).0) == obs(x)
    ensures obs(Run(step, go, s, n).0) == obs(s)
    decreases n
  {
    if n > 0 && go(s) {
      RunKeeps(step, go, obs, step(s).0, n - 1);
    }
  }

  /**
    If `p` holds after every step, then it holds at the end of any run that
    takes a step, and at the end of any run that starts where it holds.
   */
  lemma {:induction false} RunEnds<S>(step: S -> (S, seq<bv8>), go: S -> bool, p: S -> bool, s: S, n: nat)
    requires forall x :: go(x) ==> p(step(x).0)
    ensures n > 0 && go(s) ==> p(Run(step, go, s, n).0)
    ensures p(s) ==> p(Run(step, go, s, n).0)
    decreases n
  {
    if n > 0 && go(s) {
      var s1 := step(s).0;
      RunEnds(step, go, p, s1, n - 1);
      if n == 1 || !go(s1) {
        assert Run(step, go, s1, n - 1).0 == s1;
      }
    }
  }

  /**
    If every step delivers its output out of the pending set `pend` into the
    in-service set `serv`, highest first, then so does every run.
   */
  lemma {:induction false} RunDelivers<S>(step: S -> (S, seq<bv8>), go: S -> bool,
                                          pend: S -> iset<bv8>, serv: S -> iset<bv8>, s: S, n: nat)
    requires forall x :: go(x) ==> Delivers(pend(x), pend(step(x).0), serv(x), serv(step(x).0), step(x).1)
    ensures Delivers(pend(s), pend(Run(step, go, s, n).0), serv(s), serv(Run(step, go, s, n).0), Run(step, go, s, n).1)
    decreases n
  {
    if n == 0 || !go(s) {
      TraceNil(pend(s), serv(s));
    } else {
      var s1 := step(s).0;
      var r := Run(step, go, s1, n - 1);
      RunDelivers(step, go, pend, serv, s1, n - 1);
      TraceStep(pend(s), pend(s1), pend(r.0), serv(s), serv(s1), serv(r.0), step(s).1, r.1);
    }
  }

  /**
    If a step that leaves `go` true lowers `rank`, then a run allowed more
    steps than the starting rank ends where `go` is false.
   */
  lemma {:induction false} RunHalts<S>(step: S -> (S, seq<bv8>), go: S -> bool, rank: S -> nat, s: S, n: nat)
    requires forall x :: go(x) && go(step(x).0) ==> rank(step(x).0) < rank(x)
    requires n > rank(s)
    ensures !go(Run(step, go, s, n).0)
    decreases n
  {
    if go(s) {
      var s1 := step(s).0;
      if go(s1) {
        RunHalts(step, go, rank, s1, n - 1);
      } else {
        assert Run(step, go, s1, n - 1).0 == s1;
      }
    }
  }

  /**
    Two step functions that agree wherever `p` holds, when `f` keeps `p`,
    give the same run from any state where `p` holds.
   */
  lemma {:induction false} RunAgree<S>(f: S -> (S, seq<bv8>), g: S -> (S, seq<bv8>), go: S -> bool,
                                       p: S -> bool, s: S, n: nat)
    requires forall x :: go(x) && p(x) ==> f(x) == g(x)
    requires forall x :: go(x) && p(x) ==> p(f(x).0)
    requires p(s)
    ensures Run(f, go, s, n) == Run(g, go, s, n)
    decreases n
  {
    if n > 0 && go(s) {
      RunAgree(f, g, go, p, f(s).0, n - 1);
    }
  }
}
