/** A run of the interpreter as a number of single instructions. */
module RunLaws {
  import opened Bytes
  import opened Machine
  import opened Interpreter

  // The state after n instructions, if none of them panics.
  function After(env: Env, s: Cpu, n: nat): Option<Cpu> {
    if n == 0 then Some(s)
    else
      match After(env, s, n - 1)
      case None => None
      case Some(t) => if Execute(env, t).Ok? then Some(Execute(env, t).s) else None
  }

  predicate Goes(s: Cpu) {
    !s.m.halted && !s.m.softHalted
  }

  // s runs n instructions, and not one of them before a halt.
  ghost predicate Ran(env: Env, s: Cpu, n: nat) {
    After(env, s, n).Some? && forall k: nat | k < n :: After(env, s, k).Some? && Goes(After(env, s, k).value)
  }

  // The first instruction of a run is its own.
  lemma {:induction false} AfterFirst(env: Env, s: Cpu, n: nat)
    requires Execute(env, s).Ok?
    ensures After(env, s, n + 1) == After(env, Execute(env, s).s, n)
  {
    hide Execute;
    if n > 0 {
      AfterFirst(env, s, n - 1);
    }
  }

  lemma RanFirst(env: Env, s: Cpu, n: nat)
    requires Goes(s) && Execute(env, s).Ok? && Ran(env, Execute(env, s).s, n)
    ensures Ran(env, s, n + 1) && After(env, s, n + 1) == After(env, Execute(env, s).s, n)
  {
    hide Execute, After;
    AfterFirst(env, s, n);
    Nothing(env, s);
    forall k: nat | k < n + 1 ensures After(env, s, k).Some? && Goes(After(env, s, k).value) {
      if k > 0 {
        AfterFirst(env, s, k - 1);
      }
    }
  }

  lemma Nothing(env: Env, s: Cpu)
    ensures After(env, s, 0) == Some(s)
  {
  }

  // From s, with room for `remaining` instructions after those executed so far: n more succeed.  Then the
  // room is used up, or the state is halted one way or the other, or the next instruction panics.
  lemma {:induction false} RunsFrom(env: Env, s: Cpu, remaining: nat, executed: nat) returns (n: nat)
    ensures n <= remaining && Ran(env, s, n)
    ensures var t, o := After(env, s, n).value, RunFrom(env, s, remaining, executed);
            if Goes(t) && n < remaining then
              Execute(env, t).Panic?
              && o == Finished(Execute(env, t).s.(m := Execute(env, t).s.m.(halted := true)), executed + n,
                               Failure(Execute(env, t).err))
            else o == Finished(t, executed + n, Success(()))
    decreases remaining
  {
    hide Execute;
    n := 0;
    if Goes(s) && remaining > 0 && Execute(env, s).Ok? {
      var m := RunsFrom(env, Execute(env, s).s, remaining - 1, executed + 1);
      RanFirst(env, s, m);
      n := m + 1;
    }
  }

  // vm_resume of `count` instructions: the halt is lifted, and then n instructions run.  They are `count`, or
  // the last one halted the processor, or the next one panics, which halts it; it reports n, and `count` after
  // a HALT.
  lemma ResumeRuns(env: Env, s: Cpu, count: nat) returns (n: nat)
    ensures var start := s.(m := s.m.(halted := false));
            && n <= count && Ran(env, start, n)
            && var t, o := After(env, start, n).value, Run(env, s, count);
               if Goes(t) && n < count then
                 Execute(env, t).Panic?
                 && o == Finished(Execute(env, t).s.(m := Execute(env, t).s.m.(halted := true)), n,
                                  Failure(Execute(env, t).err))
               else o == Finished(t, if t.m.softHalted then count else n, Success(()))
  {
    hide Execute, After, RunFrom;
    n := RunsFrom(env, s.(m := s.m.(halted := false)), count, 0);
  }
}
