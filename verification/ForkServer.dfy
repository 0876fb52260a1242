/** The fork-server protocol of AFL/afl-fuzz.c and AFL/llvm_mode/afl-llvm-rt.o.c. */
module ForkServer {

  // On one side of two pipes are run_target and handle_timeout, on the other is
  // __afl_start_forkserver.  Every system call that the other side can observe is one
  // step.  The timer may fire after any step while it is armed, the child may stop itself
  // or die after any step, and a process id may be given out again as soon as its last
  // holder has been reaped.

  // ------------------------------------------------------------------ processes

  datatype Death = Exited(code: int) | Signaled(signal: int)

  /** A wait status. */
  datatype Status = Died(how: Death) | Stopped

  /** A process that has been reaped is remembered with the death it died. */
  datatype Life = Running | Halted | Zombie(how: Death) | Reaped(how: Death)

  /** A forked process.  `killed`: the timeout handler has sent it SIGKILL;
      `woken`: it was sent SIGCONT after that. */
  datatype Child = Child(pid: nat, life: Life, killed: bool, woken: bool)

  /** kill(pid, SIGKILL) from the timeout handler: reaches whoever holds the pid now. */
  function KillPid(cs: seq<Child>, pid: nat): (r: seq<Child>)
    ensures |r| == |cs|
  {
    seq(|cs|, i requires 0 <= i < |cs| =>
      if cs[i].pid == pid && !cs[i].life.Reaped? then cs[i].(killed := true) else cs[i])
  }

  /** kill(pid, SIGCONT) from the server. */
  function ContPid(cs: seq<Child>, pid: nat): (r: seq<Child>)
    ensures |r| == |cs|
  {
    seq(|cs|, i requires 0 <= i < |cs| =>
      if cs[i].pid == pid && !cs[i].life.Reaped? then
        cs[i].(life := if cs[i].life == Halted then Running else cs[i].life, woken := cs[i].woken || cs[i].killed)
      else cs[i])
  }

  // ---------------------------------------------------------------------- state

  /** A word in the status pipe, with the process it is about. */
  datatype Word = PidWord(pid: nat, about: nat) | StatusWord(status: Status, about: nat)

  datatype FuzzerPc =
    | Idle                         // between two calls of run_target
    | AwaitPid                     // the request is written
    | GotPid(about: nat)
    | AwaitStatus(about: nat)      // the timer has been set
    | GotStatus(about: nat, word: Word)
    | Settled(about: nat, word: Word)    // child_pid cleared unless the child stopped
    | Disarmed(about: nat, word: Word)   // the timer is off, the status is judged

  datatype ServerPc =
    | AwaitRequest
    | GotRequest(wasKilled: bool)
    | WriteOff                     // blocked waiting for the old child to go away
    | Starting
    | SendPid
    | Waiting                      // blocked waiting for the child
    | SendStatus(status: Status, reported: nat)

  datatype State = State(
    persistent: bool,
    children: seq<Child>,
    ctl: seq<bool>, st: seq<Word>,
    fuzzer: FuzzerPc, childPid: nat, timedOut: bool, prevTimedOut: bool, armed: bool,
    server: ServerPc, childStopped: bool, serverPid: nat,
    holder: nat)                   // the process the server's child_pid was obtained for

  predicate Initial(s: State) {
    && s.children == [] && s.ctl == [] && s.st == []
    && s.fuzzer == Idle && s.childPid == 0 && !s.timedOut && !s.prevTimedOut && !s.armed
    && s.server == AwaitRequest && !s.childStopped && s.serverPid == 0 && s.holder == 0
  }

  // ---------------------------------------------------------------------- steps

  datatype Step =
    | FRequest | FReadPid | FArm | FReadStatus | FSettle | FDisarm | FReturn
    | TimerFires
    | SReadRequest | SDecide | SReapOld(i: nat) | SFork(pid: nat) | SContinue | SWritePid | SReport(i: nat)
    | SWriteStatus
    | CHalts(i: nat) | CDies(i: nat, how: Death)

  /** waitpid(pid) may report child i. */
  predicate CanReap(s: State, i: nat) {
    i < |s.children| && s.children[i].pid == s.serverPid && s.children[i].life.Zombie?
  }

  predicate Enabled(s: State, step: Step) {
    match step
    case FRequest => s.fuzzer == Idle
    case FReadPid => s.fuzzer == AwaitPid && s.st != []
    case FArm => s.fuzzer.GotPid?
    case FReadStatus => s.fuzzer.AwaitStatus? && s.st != []
    case FSettle => s.fuzzer.GotStatus?
    case FDisarm => s.fuzzer.Settled?
    case FReturn => s.fuzzer.Disarmed?
    case TimerFires => s.armed
    case SReadRequest => s.server == AwaitRequest && s.ctl != []
    case SDecide => s.server.GotRequest?
    case SReapOld(i) => s.server == WriteOff && CanReap(s, i)
    case SFork(pid) => s.server == Starting && !s.childStopped && pid > 0
                       && forall i | 0 <= i < |s.children| :: !s.children[i].life.Reaped? ==> s.children[i].pid != pid
    case SContinue => s.server == Starting && s.childStopped
    case SWritePid => s.server == SendPid
    case SReport(i) => s.server == Waiting &&
                       (CanReap(s, i) || (s.persistent && i < |s.children| &&
                                          s.children[i].pid == s.serverPid && s.children[i].life == Halted))
    case SWriteStatus => s.server.SendStatus?
    case CHalts(i) => i < |s.children| && s.children[i].life == Running
    case CDies(i, how) => i < |s.children| && (s.children[i].life == Running || s.children[i].life == Halted)
  }

  function SetLife(s: State, i: nat, life: Life): State
    requires i < |s.children|
  {
    s.(children := s.children[i := s.children[i].(life := life)])
  }

  /** The interpretation run_target gives to a word: whatever comes first is a pid, whatever
      comes second is a wait status. */
  function AsPid(w: Word): nat { if w.PidWord? then w.pid else 0 }

  predicate StoppedWord(w: Word) { w.StatusWord? && w.status.Stopped? }

  function Apply(s: State, step: Step): State
    requires Enabled(s, step)
  {
    match step
    case FRequest => s.(timedOut := false, ctl := s.ctl + [s.prevTimedOut], fuzzer := AwaitPid)
    case FReadPid => s.(childPid := AsPid(s.st[0]), fuzzer := GotPid(s.st[0].about), st := s.st[1..])
    case FArm => s.(armed := true, fuzzer := AwaitStatus(s.fuzzer.about))
    case FReadStatus => s.(fuzzer := GotStatus(s.fuzzer.about, s.st[0]), st := s.st[1..])
    case FSettle => s.(childPid := if StoppedWord(s.fuzzer.word) then s.childPid else 0,
                       fuzzer := Settled(s.fuzzer.about, s.fuzzer.word))
    case FDisarm => s.(armed := false, fuzzer := Disarmed(s.fuzzer.about, s.fuzzer.word))
    case FReturn => s.(prevTimedOut := s.timedOut, fuzzer := Idle)
    case TimerFires =>
      if s.childPid > 0 then s.(armed := false, timedOut := true, children := KillPid(s.children, s.childPid))
      else s.(armed := false)
    case SReadRequest => s.(server := GotRequest(s.ctl[0]), ctl := s.ctl[1..])
    case SDecide =>
      if s.childStopped && s.server.wasKilled then s.(childStopped := false, server := WriteOff)
      else s.(server := Starting)
    case SReapOld(i) => SetLife(s, i, Reaped(s.children[i].life.how)).(server := Starting)
    case SFork(pid) => s.(children := s.children + [Child(pid, Running, false, false)], serverPid := pid,
                          holder := |s.children|, server := SendPid)
    case SContinue => s.(children := ContPid(s.children, s.serverPid), childStopped := false, server := SendPid)
    case SWritePid => s.(st := s.st + [PidWord(s.serverPid, s.holder)], server := Waiting)
    case SReport(i) =>
      var life := s.children[i].life;
      if life == Halted then s.(childStopped := true, server := SendStatus(Stopped, i))
      else if life.Zombie? then SetLife(s, i, Reaped(life.how)).(server := SendStatus(Died(life.how), i))
      else assert false; s
    case SWriteStatus => s.(st := s.st + [StatusWord(s.server.status, s.server.reported)], server := AwaitRequest)
    case CHalts(i) => SetLife(s, i, Halted)
    case CDies(i, how) => SetLife(s, i, Zombie(how))
  }

  // ------------------------------------------------------------------- invariant

  ghost predicate Unreaped(s: State, i: nat) {
    i < |s.children| && !s.children[i].life.Reaped?
  }

  /** The newest process, the only one that can be unreaped. */
  ghost predicate Live(s: State) {
    Unreaped(s, s.holder)
  }

  /** The server holds the newest process, every older one has been reaped, nobody killed
      has been woken. */
  ghost predicate Processes(s: State) {
    && (s.children != [] ==> s.holder == |s.children| - 1 && s.children[s.holder].pid == s.serverPid > 0)
    && (s.children == [] ==> !s.childStopped && s.serverPid == 0)
    && (forall i | 0 <= i < |s.children| - 1 :: s.children[i].life.Reaped?)
    && (forall i | 0 <= i < |s.children| :: !s.children[i].woken)
    && (s.childStopped ==> Live(s) && s.persistent)
  }

  /** No request is under way on the server's side: its child is gone unless it stopped. */
  ghost predicate ServerIdle(s: State) {
    s.server == AwaitRequest && s.ctl == [] && (Live(s) ==> s.childStopped)
  }

  /** Does the fuzzer know whether the live process has been killed? */
  ghost predicate KillKnown(s: State, known: bool) {
    Live(s) ==> (s.children[s.holder].killed <==> known)
  }

  ghost predicate Spoken(s: State, w: Word, about: nat) {
    && about == s.holder < |s.children|
    && (if w.PidWord? then w == PidWord(s.serverPid, about)
        else w.about == about && (w.status.Stopped? <==> s.childStopped))
  }

  /** The server is between the request and its answer; `sent` are the words still in the pipe. */
  ghost predicate Answering(s: State) {
    match s.server
    case SendPid => s.st == [] && Live(s) && !s.childStopped && s.ctl == []
    case Waiting => Live(s) && !s.childStopped && s.ctl == []
    case SendStatus(status, reported) =>
      && s.ctl == [] && reported == s.holder < |s.children|
      && (status.Stopped? <==> s.childStopped) && (Live(s) ==> s.childStopped)
    case AwaitRequest => s.ctl == [] && (Live(s) ==> s.childStopped)
    case _ => false
  }

  /** The status word: in the pipe exactly when the server has gone back to waiting. */
  ghost predicate StatusDue(s: State, words: seq<Word>, about: nat) {
    && Answering(s) && s.server != SendPid && about == s.holder < |s.children|
    && (if s.server == AwaitRequest then |words| == 1 && words[0].StatusWord? && Spoken(s, words[0], about)
        else words == [])
  }

  ghost predicate Inv(s: State) {
    && Processes(s)
    && (s.armed ==> s.fuzzer.AwaitStatus? || s.fuzzer.GotStatus? || s.fuzzer.Settled?)
    && match s.fuzzer
       case Idle => ServerIdle(s) && s.st == [] && KillKnown(s, s.prevTimedOut)
       case AwaitPid =>
         && !s.timedOut
         && (match s.server
             case AwaitRequest =>
               if s.ctl != [] then |s.ctl| == 1 && s.st == [] && (Live(s) ==> s.childStopped) && KillKnown(s, s.ctl[0])
               else PidThenStatus(s)
             case GotRequest(w) => s.ctl == [] && s.st == [] && (Live(s) ==> s.childStopped) && KillKnown(s, w)
             case WriteOff => s.ctl == [] && s.st == [] && Live(s) && s.children[s.holder].killed && !s.childStopped
             case Starting => s.ctl == [] && s.st == [] && (Live(s) ==> s.childStopped) && KillKnown(s, false)
             case SendPid => Answering(s) && KillKnown(s, false)
             case _ => PidThenStatus(s))
       case GotPid(about) =>
         StatusDue(s, s.st, about) && s.childPid == s.serverPid && !s.timedOut && KillKnown(s, false)
       case AwaitStatus(about) =>
         && StatusDue(s, s.st, about) && s.childPid == s.serverPid && KillKnown(s, s.timedOut)
         && (s.armed || s.timedOut)
       case GotStatus(about, word) =>
         ServerIdle(s) && s.st == [] && word.StatusWord? && Spoken(s, word, about) && s.childPid == s.serverPid &&
             KillKnown(s, s.timedOut)
       case Settled(about, word) =>
         && ServerIdle(s) && s.st == [] && word.StatusWord? && Spoken(s, word, about) && KillKnown(s, s.timedOut)
         && s.childPid == (if s.childStopped then s.serverPid else 0)
       case Disarmed(about, word) =>
         ServerIdle(s) && s.st == [] && word.StatusWord? && Spoken(s, word, about) && KillKnown(s, s.timedOut)
  }

  ghost predicate PidThenStatus(s: State) {
    && |s.st| > 0 && s.st[0].PidWord? && Spoken(s, s.st[0], s.holder)
    && StatusDue(s, s.st[1..], s.holder) && KillKnown(s, false)
  }

  lemma InitialInv(s: State)
    requires Initial(s)
    ensures Inv(s)
  {
  }

  predicate FuzzerStep(step: Step) {
    step.FRequest? || step.FReadPid? || step.FArm? || step.FReadStatus? || step.FSettle? || step.FDisarm? ||
        step.FReturn?
  }

  predicate ServerPipeStep(step: Step) {
    step.SReadRequest? || step.SDecide? || step.SWritePid? || step.SWriteStatus?
  }

  predicate ServerStartStep(step: Step) {
    step.SFork? || step.SContinue?
  }

  lemma FuzzerStepInv(s: State, step: Step)
    requires Inv(s) && Enabled(s, step) && FuzzerStep(step)
    ensures Inv(Apply(s, step))
  {
  }

  lemma ServerReadStepInv(s: State, step: Step)
    requires Inv(s) && Enabled(s, step) && (step.SReadRequest? || step.SDecide?)
    ensures Inv(Apply(s, step))
  {
  }

  lemma ServerWriteStepInv(s: State, step: Step)
    requires Inv(s) && Enabled(s, step) && (step.SWritePid? || step.SWriteStatus?)
    ensures Inv(Apply(s, step))
  {
  }

  lemma ServerPipeStepInv(s: State, step: Step)
    requires Inv(s) && Enabled(s, step) && ServerPipeStep(step)
    ensures Inv(Apply(s, step))
  {
    if step.SReadRequest? || step.SDecide? {
      ServerReadStepInv(s, step);
    } else {
      ServerWriteStepInv(s, step);
    }
  }

  lemma ServerStartStepInv(s: State, step: Step)
    requires Inv(s) && Enabled(s, step) && ServerStartStep(step)
    ensures Inv(Apply(s, step))
  {
  }

  lemma WriteOffStepInv(s: State, i: nat)
    requires Inv(s) && Enabled(s, SReapOld(i))
    ensures Inv(Apply(s, SReapOld(i)))
  {
  }

  /** A report is about the newest process, before its pid or its status has been read. */
  lemma ReportsAreExpected(s: State, i: nat)
    requires Inv(s) && Enabled(s, SReport(i))
    ensures i == s.holder == |s.children| - 1 && s.ctl == [] && Live(s) && !s.childStopped
    ensures s.fuzzer.AwaitPid? || s.fuzzer.GotPid? || s.fuzzer.AwaitStatus?
  {
  }

  lemma ReportKeepsProcesses(s: State, i: nat)
    requires Inv(s) && Enabled(s, SReport(i))
    ensures Processes(Apply(s, SReport(i)))
  {
    ReportsAreExpected(s, i);
  }

  lemma ReportKeepsStatusDue(s: State, i: nat, words: seq<Word>)
    requires Inv(s) && Enabled(s, SReport(i)) && StatusDue(s, words, s.holder)
    ensures StatusDue(Apply(s, SReport(i)), words, s.holder)
  {
    ReportsAreExpected(s, i);
  }

  lemma ReportKeepsKillKnown(s: State, i: nat, known: bool)
    requires Inv(s) && Enabled(s, SReport(i)) && KillKnown(s, known)
    ensures KillKnown(Apply(s, SReport(i)), known)
  {
    ReportsAreExpected(s, i);
  }

  lemma ReportStepInv(s: State, i: nat)
    requires Inv(s) && Enabled(s, SReport(i))
    ensures Inv(Apply(s, SReport(i)))
  {
    ReportsAreExpected(s, i);
    ReportKeepsProcesses(s, i);
    ReportKeepsKillKnown(s, i, s.fuzzer.AwaitStatus? && s.timedOut);
    ReportKeepsStatusDue(s, i, if s.fuzzer.AwaitPid? then s.st[1..] else s.st);
  }

  lemma TimerInv(s: State)
    requires Inv(s) && s.armed
    ensures Inv(Apply(s, TimerFires))
  {
  }

  lemma LivingOnKeepsProcesses(s: State, i: nat, life: Life)
    requires Processes(s) && Unreaped(s, i) && !life.Reaped?
    ensures Processes(SetLife(s, i, life))
  {
  }

  lemma ChildStepInv(s: State, step: Step)
    requires Inv(s) && Enabled(s, step) && (step.CHalts? || step.CDies?)
    ensures Inv(Apply(s, step))
  {
    LivingOnKeepsProcesses(s, step.i, if step.CHalts? then Halted else Zombie(step.how));
  }

  lemma StepInv(s: State, step: Step)
    requires Inv(s) && Enabled(s, step)
    ensures Inv(Apply(s, step))
  {
    if FuzzerStep(step) {
      FuzzerStepInv(s, step);
    } else if ServerPipeStep(step) {
      ServerPipeStepInv(s, step);
    } else if ServerStartStep(step) {
      ServerStartStepInv(s, step);
    } else if step.SReapOld? {
      WriteOffStepInv(s, step.i);
    } else if step.SReport? {
      ReportStepInv(s, step.i);
    } else if step == TimerFires {
      TimerInv(s);
    } else {
      ChildStepInv(s, step);
    }
  }

  // ----------------------------------------------------------------- whole runs

  predicate IsRun(s: State, steps: seq<Step>)
    decreases |steps|
  {
    steps == [] || (Enabled(s, steps[0]) && IsRun(Apply(s, steps[0]), steps[1..]))
  }

  function After(s: State, steps: seq<Step>): State
    requires IsRun(s, steps)
    decreases |steps|
  {
    if steps == [] then s else After(Apply(s, steps[0]), steps[1..])
  }

  ghost predicate Reachable(s: State) {
    exists init: State, steps: seq<Step> :: Initial(init) && IsRun(init, steps) && After(init, steps) == s
  }

  lemma {:induction false} RunInv(s: State, steps: seq<Step>)
    requires Inv(s) && IsRun(s, steps)
    ensures Inv(After(s, steps))
    decreases |steps|
  {
    if steps != [] {
      StepInv(s, steps[0]);
      RunInv(Apply(s, steps[0]), steps[1..]);
    }
  }

  lemma ReachableInv(s: State)
    requires Reachable(s)
    ensures Inv(s)
  {
    var init: State, steps: seq<Step> :| Initial(init) && IsRun(init, steps) && After(init, steps) == s;
    InitialInv(init);
    RunInv(init, steps);
  }

  /** The second word is a wait status of process `about`, and says that it stopped exactly
      when that process still exists. */
  ghost predicate TrueStatus(s: State, about: nat, word: Word) {
    about < |s.children| && word.StatusWord? && word.about == about && (word.status.Stopped? <==> Unreaped(s, about))
  }

  /** The two words of a request are read in the right roles and are about one process. */
  ghost predicate WordsAgree(s: State) {
    match s.fuzzer
    case GotPid(about) => about < |s.children| && s.childPid == s.children[about].pid > 0
    case AwaitStatus(about) => about < |s.children| && s.childPid == s.children[about].pid > 0
    case GotStatus(about, word) =>
      TrueStatus(s, about, word) && s.childPid == s.children[about].pid > 0
    case Settled(about, word) => TrueStatus(s, about, word)
    case Disarmed(about, word) => TrueStatus(s, about, word)
    case _ => true
  }

  /** At most one forked process is unreaped. */
  ghost predicate OneUnreaped(s: State) {
    forall i: nat, j: nat | Unreaped(s, i) && Unreaped(s, j) :: i == j
  }

  /** No process killed by the timeout handler has been sent SIGCONT. */
  ghost predicate NoneWoken(s: State) {
    forall i | 0 <= i < |s.children| :: !s.children[i].woken
  }

  /** A server blocked in the write-off waits for a process already sent SIGKILL, and it
      never waits for a process that does not exist. */
  ghost predicate WaitsWell(s: State) {
    && (s.server == WriteOff ==>
          exists i: nat :: Unreaped(s, i) && s.children[i].pid == s.serverPid && s.children[i].killed)
    && (s.server == Waiting ==> exists i: nat :: Unreaped(s, i) && s.children[i].pid == s.serverPid)
  }

  // ------------------------------------------------------------- what the words say

  /** The fuzzer has been sent this word: it is in the pipe or has been read. */
  ghost predicate Told(s: State, w: Word) {
    w in s.st ||
    match s.fuzzer
    case GotStatus(_, word) => word == w
    case Settled(_, word) => word == w
    case Disarmed(_, word) => word == w
    case _ => false
  }

  /** A death reported is the one that the process, now reaped, has died; only in persistent
      mode is a process reported as stopped. */
  ghost predicate StatusTrue(s: State, status: Status, about: nat) {
    match status
    case Died(how) => about < |s.children| && s.children[about].life == Reaped(how)
    case Stopped => s.persistent
  }

  ghost predicate WordsTrue(s: State) {
    && (forall w | Told(s, w) && w.StatusWord? :: StatusTrue(s, w.status, w.about))
    && (s.server.SendStatus? ==> StatusTrue(s, s.server.status, s.server.reported))
  }

  lemma StepKeepsTrue(s: State, step: Step, status: Status, about: nat)
    requires Enabled(s, step) && StatusTrue(s, status, about)
    ensures StatusTrue(Apply(s, step), status, about)
  {
  }

  /** A word told after a step was told before it, or has just been sent by the server. */
  lemma ToldBefore(s: State, step: Step, w: Word)
    requires Enabled(s, step) && Told(Apply(s, step), w) && w.StatusWord?
    ensures Told(s, w) || (s.server.SendStatus? && w == StatusWord(s.server.status, s.server.reported))
  {
  }

  lemma ReportTrue(s: State, i: nat)
    requires Enabled(s, SReport(i))
    ensures var r := Apply(s, SReport(i)); r.server.SendStatus? && StatusTrue(r, r.server.status, r.server.reported)
  {
  }

  lemma OnlyReports(s: State, step: Step)
    requires Enabled(s, step) && !step.SReport?
    ensures Apply(s, step).server.SendStatus? ==> Apply(s, step).server == s.server
  {
  }

  lemma StepKeepsWords(s: State, step: Step)
    requires WordsTrue(s) && Enabled(s, step)
    ensures WordsTrue(Apply(s, step))
  {
    var r := Apply(s, step);
    forall w | Told(r, w) && w.StatusWord?
      ensures StatusTrue(r, w.status, w.about)
    {
      ToldBefore(s, step, w);
      StepKeepsTrue(s, step, w.status, w.about);
    }
    if r.server.SendStatus? {
      if step.SReport? {
        ReportTrue(s, step.i);
      } else {
        OnlyReports(s, step);
        StepKeepsTrue(s, step, s.server.status, s.server.reported);
      }
    }
  }

  lemma {:induction false} RunKeepsWords(s: State, steps: seq<Step>)
    requires WordsTrue(s) && IsRun(s, steps)
    ensures WordsTrue(After(s, steps))
    decreases |steps|
  {
    if steps != [] {
      StepKeepsWords(s, steps[0]);
      RunKeepsWords(Apply(s, steps[0]), steps[1..]);
    }
  }

  /** The process has died this death, whether it has been reaped or not. */
  ghost predicate DiedOf(s: State, i: nat, how: Death) {
    i < |s.children| && (s.children[i].life == Zombie(how) || s.children[i].life == Reaped(how))
  }

  lemma ReapDeaths(s: State, step: Step, i: nat, how: Death)
    requires Enabled(s, step) && (step.SReapOld? || step.SReport?)
    ensures DiedOf(Apply(s, step), i, how) <==> DiedOf(s, i, how)
  {
  }

  lemma SignalDeaths(s: State, step: Step, i: nat, how: Death)
    requires Enabled(s, step) && (step == TimerFires || step.SFork? || step.SContinue?)
    ensures DiedOf(Apply(s, step), i, how) <==> DiedOf(s, i, how)
  {
  }

  lemma StepDeaths(s: State, step: Step, i: nat, how: Death)
    requires Enabled(s, step)
    ensures DiedOf(Apply(s, step), i, how) <==> DiedOf(s, i, how) || step == CDies(i, how)
  {
    if step.SReapOld? || step.SReport? {
      ReapDeaths(s, step, i, how);
    } else if step == TimerFires || step.SFork? || step.SContinue? {
      SignalDeaths(s, step, i, how);
    }
  }

  lemma {:induction false} RunDeaths(s: State, steps: seq<Step>, i: nat, how: Death)
    requires IsRun(s, steps)
    ensures DiedOf(After(s, steps), i, how) <==> DiedOf(s, i, how) || CDies(i, how) in steps
    decreases |steps|
  {
    if steps != [] {
      StepDeaths(s, steps[0], i, how);
      RunDeaths(Apply(s, steps[0]), steps[1..], i, how);
    }
  }

  /** Main result: a death that the fuzzer is told of is the one which that process died in
      the course of the run, and it died no other. */
  lemma TrueDeaths(init: State, steps: seq<Step>, i: nat, how: Death)
    requires Initial(init) && IsRun(init, steps)
    requires Told(After(init, steps), StatusWord(Died(how), i))
    ensures CDies(i, how) in steps && forall other | CDies(i, other) in steps :: other == how
  {
    RunKeepsWords(init, steps);
    RunDeaths(init, steps, i, how);
    forall other | CDies(i, other) in steps
      ensures other == how
    {
      RunDeaths(init, steps, i, other);
    }
  }

  lemma ReachableWords(s: State)
    requires Reachable(s)
    ensures WordsTrue(s)
  {
    var init: State, steps: seq<Step> :| Initial(init) && IsRun(init, steps) && After(init, steps) == s;
    RunKeepsWords(init, steps);
  }

  /** Main result: what holds in every interleaving. */
  lemma Safety(s: State)
    requires Reachable(s)
    ensures WordsAgree(s) && OneUnreaped(s) && NoneWoken(s) && WaitsWell(s) && WordsTrue(s)
  {
    ReachableInv(s);
    ReachableWords(s);
    assert s.server == WriteOff || s.server == Waiting ==> Unreaped(s, s.holder);
  }

  /** The timeout handler can only ever reach the process of the request under way, even
      when it fires after that process is gone and its pid may have been given out again. */
  lemma TimerHitsOnlyCurrent(s: State, i: nat)
    requires Reachable(s) && s.armed && i < |s.children| && Apply(s, TimerFires).children[i] != s.children[i]
    ensures s.childPid > 0 && s.children[i].pid == s.childPid && Unreaped(s, i)
    ensures match s.fuzzer
            case AwaitStatus(about) => about == i
            case GotStatus(about, _) => about == i
            case Settled(about, _) => about == i
            case _ => false
  {
    ReachableInv(s);
  }

  // ------------------------------------------------------------------- progress

  /** How many steps of its own the system still needs to complete the request under way. */
  ghost function Remaining(s: State): nat {
    match s.fuzzer
    case Idle => 0
    case Disarmed(_, _) => 1
    case Settled(_, _) => 2
    case GotStatus(_, _) => 3
    case AwaitStatus(_) =>
      if s.server == AwaitRequest then 4
      else if s.server.SendStatus? then 5
      else if s.holder >= |s.children| then 8
      else if s.children[s.holder].life.Zombie? || (s.children[s.holder].life.Halted? && s.persistent) then 6
      else if s.children[s.holder].killed then 7
      else 8
    case GotPid(_) => 9
    case AwaitPid =>
      if s.st != [] then 10
      else if s.ctl != [] then 16
      else match s.server
           case SendPid => 11
           case Starting => 12
           case WriteOff => if s.holder < |s.children| && s.children[s.holder].life.Zombie? then 13 else 14
           case _ => 15
  }

  /** Steps the system takes without any cooperation of the target: the target itself may
      hang for ever unless it has been sent SIGKILL. */
  predicate OwnStep(s: State, step: Step) {
    match step
    case CHalts(_) => false
    case CDies(i, how) => i < |s.children| && s.children[i].killed
    case _ => true
  }

  function NextOwnStep(s: State): Step {
    var death := CDies(s.holder, Signaled(9));
    match s.fuzzer
    case Idle => FRequest
    case Disarmed(_, _) => FReturn
    case Settled(_, _) => FDisarm
    case GotStatus(_, _) => FSettle
    case GotPid(_) => FArm
    case AwaitStatus(_) =>
      if s.st != [] then FReadStatus
      else if s.server.SendStatus? then SWriteStatus
      else if s.holder < |s.children| &&
              (s.children[s.holder].life.Zombie? || (s.children[s.holder].life.Halted? && s.persistent))
        then SReport(s.holder)
      else if s.holder < |s.children| && s.children[s.holder].killed then death
      else TimerFires
    case AwaitPid =>
      if s.st != [] then FReadPid
      else match s.server
           case AwaitRequest => SReadRequest
           case GotRequest(_) => SDecide
           case WriteOff =>
             if s.holder < |s.children| && s.children[s.holder].life.Zombie? then SReapOld(s.holder) else death
           case Starting => if s.childStopped then SContinue else SFork(1)
           case _ => SWritePid
  }

  /** Main result: no reachable state is stuck.  While a request is under way, some step
      that needs nothing from the target is enabled and brings the request closer to
      completion, so a target that never returns cannot block the fuzzer or the server. */
  lemma AlwaysProgress(s: State)
    requires Reachable(s) && s.fuzzer != Idle
    ensures var step := NextOwnStep(s);
            Enabled(s, step) && OwnStep(s, step) && Remaining(Apply(s, step)) < Remaining(s)
  {
    ReachableInv(s);
    if s.fuzzer.AwaitPid? {
      ProgressToPid(s);
    } else if s.fuzzer.AwaitStatus? {
      ProgressToStatus(s);
    }
  }

  lemma ProgressToPid(s: State)
    requires Inv(s) && s.fuzzer.AwaitPid?
    ensures var step := NextOwnStep(s);
            Enabled(s, step) && OwnStep(s, step) && Remaining(Apply(s, step)) < Remaining(s)
  {
  }

  lemma ProgressToStatus(s: State)
    requires Inv(s) && s.fuzzer.AwaitStatus?
    ensures var step := NextOwnStep(s);
            Enabled(s, step) && OwnStep(s, step) && Remaining(Apply(s, step)) < Remaining(s)
  {
  }

  lemma FuzzerNeverSetBack(s: State, step: Step)
    requires Inv(s) && s.fuzzer != Idle && Enabled(s, step) && FuzzerStep(step)
    ensures Remaining(Apply(s, step)) <= Remaining(s)
  {
  }

  lemma ServerPipeNeverSetBack(s: State, step: Step)
    requires Inv(s) && s.fuzzer != Idle && Enabled(s, step) && ServerPipeStep(step)
    ensures Remaining(Apply(s, step)) <= Remaining(s)
  {
  }

  lemma ServerStartNeverSetBack(s: State, step: Step)
    requires Inv(s) && s.fuzzer != Idle && Enabled(s, step) && ServerStartStep(step)
    ensures Remaining(Apply(s, step)) <= Remaining(s)
  {
  }

  lemma ServerWaitNeverSetBack(s: State, step: Step)
    requires Inv(s) && s.fuzzer != Idle && Enabled(s, step) && (step.SReapOld? || step.SReport?)
    ensures Remaining(Apply(s, step)) <= Remaining(s)
  {
  }

  lemma TimerNeverSetsBack(s: State)
    requires Inv(s) && s.armed
    ensures Remaining(Apply(s, TimerFires)) <= Remaining(s)
  {
  }

  lemma ChildNeverSetsBack(s: State, step: Step)
    requires Inv(s) && s.fuzzer != Idle && Enabled(s, step) && (step.CHalts? || step.CDies?)
    ensures Remaining(Apply(s, step)) <= Remaining(s)
  {
  }

  /** And no step of anybody moves a request under way further from completion. */
  lemma NeverSetBack(s: State, step: Step)
    requires Reachable(s) && s.fuzzer != Idle && Enabled(s, step)
    ensures Remaining(Apply(s, step)) <= Remaining(s)
  {
    ReachableInv(s);
    if FuzzerStep(step) {
      FuzzerNeverSetBack(s, step);
    } else if ServerPipeStep(step) {
      ServerPipeNeverSetBack(s, step);
    } else if ServerStartStep(step) {
      ServerStartNeverSetBack(s, step);
    } else if step == TimerFires {
      TimerNeverSetsBack(s);
    } else if step.CHalts? || step.CDies? {
      ChildNeverSetsBack(s, step);
    } else {
      ServerWaitNeverSetBack(s, step);
    }
  }
}
