/** __afl_persistent_loop of AFL/llvm_mode/afl-llvm-rt.o.c: how often a persistent target
    runs its loop body, with the 32-bit counter the runtime keeps. */
module PersistentLoop {

  const WRAP: nat := 0x1_0000_0000

  datatype Counter = Fresh | Counting(left: nat)

  /** One call: the new counter, whether the loop body runs once more, and whether the
      target stops itself first. */
  function Call(c: Counter, maxCnt: nat, persistent: bool): (r: (Counter, bool, bool))
    requires maxCnt < WRAP && (c.Counting? ==> c.left < WRAP)
    ensures r.0.Counting? && r.0.left < WRAP
  {
    if c.Fresh? then (Counting(maxCnt), true, false)
    else if !persistent then (c, false, false)
    else
      var left := Decremented(c.left);
      (Counting(left), left != 0, left != 0)
  }

  /** --cycle_cnt on an unsigned 32-bit counter. */
  function Decremented(n: nat): (r: nat)
    requires n < WRAP
    ensures r == (n + WRAP - 1) % WRAP
  {
    if n == 0 then WRAP - 1 else n - 1
  }

  /** The counter after `calls` calls. */
  function After(maxCnt: nat, persistent: bool, calls: nat): (c: Counter)
    requires maxCnt < WRAP
    ensures c.Counting? ==> c.left < WRAP
  {
    if calls == 0 then Fresh else Call(After(maxCnt, persistent, calls - 1), maxCnt, persistent).0
  }

  /** How often the body runs before a call first answers 0. */
  function Rounds(maxCnt: nat, persistent: bool): nat {
    if !persistent then 1 else if maxCnt == 0 then WRAP else maxCnt
  }

  lemma DecrementedMod(x: int)
    ensures Decremented(x % WRAP) == (x - 1) % WRAP
  {
  }

  /** The counter after any number of calls, for as long as the process lives. */
  lemma {:induction false} CounterAfter(maxCnt: nat, calls: nat)
    requires maxCnt < WRAP && calls >= 1
    ensures After(maxCnt, true, calls) == Counting((maxCnt - calls + 1) % WRAP)
  {
    if calls > 1 {
      CounterAfter(maxCnt, calls - 1);
      DecrementedMod(maxCnt - calls + 2);
    }
  }

  lemma {:induction false} IdleAfter(maxCnt: nat, calls: nat)
    requires maxCnt < WRAP && calls >= 1
    ensures After(maxCnt, false, calls) == Counting(maxCnt)
  {
    if calls > 1 {
      IdleAfter(maxCnt, calls - 1);
    }
  }

  /** Which calls answer 1, for every call number from 0 on: the first one, and in
      persistent mode each whose number differs from the limit modulo 2^32.  A program that
      calls again after the answer 0 is let in once more. */
  lemma {:induction false} AnswersExactly(maxCnt: nat, persistent: bool, call: nat)
    requires maxCnt < WRAP
    ensures var r := Call(After(maxCnt, persistent, call), maxCnt, persistent);
            && (r.1 <==> call == 0 || (persistent && (maxCnt - call) % WRAP != 0))
            && (r.2 <==> call > 0 && persistent && (maxCnt - call) % WRAP != 0)
  {
    if call > 0 {
      if persistent {
        CounterAfter(maxCnt, call);
        DecrementedMod(maxCnt - call + 1);
      } else {
        IdleAfter(maxCnt, call);
      }
    }
  }

  /** The first Rounds calls run the body, all but the first of them after a stop, and the
      next one does not: a limit of 0 means 2^32 rounds, and outside persistent mode the
      body runs exactly once. */
  lemma {:induction false} RoundsExactly(maxCnt: nat, persistent: bool, call: nat)
    requires maxCnt < WRAP && call <= Rounds(maxCnt, persistent)
    ensures Call(After(maxCnt, persistent, call), maxCnt, persistent).1 <==> call < Rounds(maxCnt, persistent)
    ensures Call(After(maxCnt, persistent, call), maxCnt, persistent).2 <==> 0 < call < Rounds(maxCnt, persistent)
  {
    AnswersExactly(maxCnt, persistent, call);
  }

  /** The static variables of the C function. */
  class Runtime {
    const persistent: bool
    var firstPass: bool
    var cycleCnt: nat

    ghost predicate Valid()
      reads this
    {
      cycleCnt < WRAP
    }

    ghost function State(): Counter
      reads this
    {
      if firstPass then Fresh else Counting(cycleCnt)
    }

    constructor (persistent: bool)
      ensures Valid() && State() == Fresh && this.persistent == persistent
    {
      this.persistent, firstPass, cycleCnt := persistent, true, 0;
    }

    method Loop(maxCnt: nat) returns (again: bool, stops: bool)
      requires Valid() && maxCnt < WRAP
      modifies this
      ensures Valid() && (State(), again, stops) == Call(old(State()), maxCnt, persistent)
    {
      if firstPass {
        cycleCnt := maxCnt;
        firstPass := false;
        return true, false;
      }
      if persistent {
        cycleCnt := Decremented(cycleCnt);
        return cycleCnt != 0, cycleCnt != 0;
      }
      return false, false;
    }
  }
}
