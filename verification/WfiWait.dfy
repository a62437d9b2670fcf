/** Waiting for an interrupt without losing the wake-up (`wfi.h`): the hart runs WFI_WAIT,
  * the device raises its interrupt once, the handler makes the condition true. */
module WfiWait {

  /** The instruction the hart is at. Check1, Check2 evaluate the condition; ClearMie and
    * SetMie are the `csrc` and `csrs` on mstatus.MIE. */
  datatype Pc = Check1 | ClearMie | Check2 | Wfi | SetMie | Done

  datatype Isr = Idle | Running | Ending

  /** `mie` is mstatus.MIE; `pending`: the interrupt is pending and enabled in the mie
    * register; `afterCsr`: the last step ended in an explicit write of mstatus or an xRET;
    * `direct`: the device makes the condition true itself, as when it is a status register. */
  datatype State = State(pc: Pc, mie: bool, cond: bool, pending: bool, fired: bool, isr: Isr, afterCsr: bool,
                         direct: bool)

  /** Any moment before the wait: the device may have raised its interrupt already, and it
    * may have been served. */
  predicate Init(s: State) {
    s.pc == Check1 && s.isr == Idle && !s.afterCsr && (s.pending ==> s.fired) && (s.fired ==> s.cond || s.pending)
  }

  /** An interrupt may be taken: it is pending, enabled, and no handler is running. */
  predicate CanTrap(s: State) { s.mie && s.pending && s.isr == Idle }

  /** One instruction of WFI_WAIT. A pending interrupt may be recognised late, but not later
    * than right after a write of mstatus or an xRET (section 3.1.9 of the RISC-V privileged
    * architecture). The wfi may end for any reason, and must end when an interrupt is
    * pending, whether or not mstatus.MIE is set (section 3.3.3). */
  predicate HartStep(s: State, s': State) {
    && s.isr == Idle && !(s.afterCsr && CanTrap(s))
    && match s.pc
       case Check1 => s' == s.(pc := if s.cond then Done else ClearMie, afterCsr := false)
       case ClearMie => s' == s.(pc := Check2, mie := false, afterCsr := true)
       case Check2 => s' == s.(pc := if s.cond then SetMie else Wfi, afterCsr := false)
       case Wfi => s' == s.(pc := SetMie, afterCsr := false)
       case SetMie => s' == s.(pc := Check1, mie := true, afterCsr := true)
       case Done => false
  }

  /** The handler: entered with interrupts disabled, makes the condition true and clears the
    * interrupt, and returns with interrupts enabled. */
  predicate IsrStep(s: State, s': State) {
    match s.isr
    case Idle => CanTrap(s) && s' == s.(isr := Running, mie := false, afterCsr := false)
    case Running => s' == s.(isr := Ending, cond := true, pending := false)
    case Ending => s' == s.(isr := Idle, mie := true, afterCsr := true)
  }

  predicate DeviceStep(s: State, s': State) {
    !s.fired && s' == s.(fired := true, pending := true, cond := s.cond || s.direct)
  }

  /** The hart stays in the wfi. */
  predicate Suspended(s: State) { s.pc == Wfi && s.isr == Idle && !s.pending }

  predicate Next(s: State, s': State) {
    HartStep(s, s') || IsrStep(s, s') || DeviceStep(s, s') || (Suspended(s) && s' == s)
  }

  ghost predicate Run(r: seq<State>) {
    r != [] && Init(r[0]) && forall i | 0 < i < |r| :: Next(r[i - 1], r[i])
  }

  /** What every step keeps. */
  predicate Inv(s: State) {
    && (s.pending ==> s.fired)
    && (s.fired ==> s.cond || s.pending)
    && (s.isr != Idle ==> !s.mie && s.fired && s.pc in {Check1, ClearMie, Done})
    && (s.isr == Running ==> s.pending)
    && (s.isr == Ending ==> s.cond && !s.pending)
    && (s.pc in {Check2, Wfi, SetMie} ==> !s.mie)
    && (s.pc == Wfi ==> s.cond ==> s.pending)
    && (s.pc == Done ==> s.cond)
    && (s.afterCsr ==> s.cond || s.pc == Check2 || (s.pc == Check1 && s.mie))
  }

  lemma StepKeepsInv(s: State, s': State)
    requires Inv(s) && Next(s, s')
    ensures Inv(s')
  {
  }

  lemma {:induction false} RunKeepsInv(r: seq<State>, i: nat)
    requires Run(r) && i < |r|
    ensures Inv(r[i])
  {
    if i > 0 {
      RunKeepsInv(r, i - 1);
      StepKeepsInv(r[i - 1], r[i]);
    }
  }

  /** In no interleaving is the hart asleep with the condition true, with the interrupt
    * pending, or after the device has fired. */
  lemma NeverLost(r: seq<State>, i: nat)
    requires Run(r) && i < |r| && Suspended(r[i])
    ensures !r[i].cond && !r[i].pending && !r[i].fired
  {
    RunKeepsInv(r, i);
  }

  // ----- The wait ends ---------------------------------------------------------------

  /** Instructions the hart still has to execute once the device has fired. */
  function HartWork(s: State): nat {
    match s.pc
    case Done => 0
    case Check1 => if s.cond || s.afterCsr || s.isr != Idle then 1 else 6
    case SetMie => 2
    case Wfi => 3
    case Check2 => if s.cond then 3 else 4
    case ClearMie => if s.cond then 4 else 5
  }

  /** Steps of the handler still to come. */
  function IsrWork(s: State): nat {
    match s.isr
    case Idle => if s.pending then 3 else 0
    case Running => 2
    case Ending => 1
  }

  function Rank(s: State): nat { HartWork(s) + IsrWork(s) }

  const BOUND := 9

  /** After the device has fired every step of the hart or the handler brings the end nearer. */
  lemma RankDecreases(s: State, s': State)
    requires Inv(s) && s.fired && Next(s, s')
    ensures s'.fired && Rank(s') < Rank(s) <= BOUND
  {
  }

  /** Until the wait is over some step is possible. */
  lemma NotStuck(s: State)
    requires Inv(s) && s.fired && s.pc != Done
    ensures exists s' :: Next(s, s')
  {
    var s' :=
      if s.isr == Running then s.(isr := Ending, cond := true, pending := false)
      else if s.isr == Ending then s.(isr := Idle, mie := true, afterCsr := true)
      else if CanTrap(s) then s.(isr := Running, mie := false, afterCsr := false)
      else match s.pc
        case Check1 => s.(pc := if s.cond then Done else ClearMie, afterCsr := false)
        case ClearMie => s.(pc := Check2, mie := false, afterCsr := true)
        case Check2 => s.(pc := if s.cond then SetMie else Wfi, afterCsr := false)
        case Wfi => s.(pc := SetMie, afterCsr := false)
        case SetMie => s.(pc := Check1, mie := true, afterCsr := true);
    assert Next(s, s');
  }

  /** Once the device has fired, in every run the wait is over within nine steps. */
  lemma {:induction false} EndsInTime(r: seq<State>, i: nat, k: nat)
    requires Run(r) && i + k < |r| && r[i].fired && Rank(r[i]) <= k
    ensures exists j | i <= j <= i + k :: r[j].pc == Done
    decreases k
  {
    RunKeepsInv(r, i);
    if r[i].pc != Done {
      RankDecreases(r[i], r[i + 1]);
      EndsInTime(r, i + 1, k - 1);
    }
  }

  lemma EndsWithinBound(r: seq<State>, i: nat)
    requires Run(r) && i + BOUND < |r| && r[i].fired
    ensures exists j | i <= j <= i + BOUND :: r[j].pc == Done && r[j].cond
  {
    RunKeepsInv(r, i);
    if r[i].pc != Done {
      RankDecreases(r[i], r[i + 1]);
    }
    EndsInTime(r, i, BOUND);
    var j :| i <= j <= i + BOUND && r[j].pc == Done;
    RunKeepsInv(r, j);
  }

  // ----- Why the check is repeated with interrupts disabled --------------------------

  /** `while (!cond) wfi;`, with interrupts enabled throughout. */
  predicate PlainStep(s: State, s': State) {
    && s.isr == Idle && !(s.afterCsr && CanTrap(s))
    && match s.pc
       case Check1 => s' == s.(pc := if s.cond then Done else Wfi, afterCsr := false)
       case Wfi => s' == s.(pc := Check1, afterCsr := false)
       case _ => false
  }

  /** Runs of the plain loop from a given moment. */
  ghost predicate PlainRun(s: State, r: seq<State>) {
    r != [] && r[0] == s && forall i | 0 < i < |r| :: PlainNext(r[i - 1], r[i])
  }

  predicate PlainNext(s: State, s': State) {
    PlainStep(s, s') || IsrStep(s, s') || DeviceStep(s, s') || (Suspended(s) && s' == s)
  }

  /** Asleep with the condition true and nothing pending: the wake-up has been lost. */
  predicate Lost(s: State) { Suspended(s) && s.cond }

  /** From here no run of the plain loop loses the wake-up. */
  ghost predicate PlainSafe(s: State) {
    forall r, i: nat | PlainRun(s, r) && i < |r| :: !Lost(r[i])
  }

  /** What the plain loop keeps when the condition holds at the start, and when interrupts are disabled then. */
  predicate PlainInv(s: State) {
    || (s.cond && s.pc in {Check1, Done})
    || (!s.mie && s.isr == Idle && (s.fired ==> s.pending) && (s.cond ==> s.fired))
  }

  lemma PlainStepKeepsInv(s: State, s': State)
    requires PlainInv(s) && PlainNext(s, s')
    ensures PlainInv(s')
  {
  }

  lemma {:induction false} PlainRunKeepsInv(s: State, r: seq<State>, i: nat)
    requires Init(s) && (s.cond || !s.mie) && PlainRun(s, r) && i < |r|
    ensures PlainInv(r[i])
  {
    if i > 0 {
      PlainRunKeepsInv(s, r, i - 1);
      PlainStepKeepsInv(r[i - 1], r[i]);
    }
  }

  /** Started with interrupts enabled and the condition false, the plain loop can fall asleep after the only interrupt
    * has been served, and then nothing has to wake it: it may sleep for any number of steps. */
  lemma PlainLosesWakeup(s: State, n: nat) returns (r: seq<State>)
    requires Init(s) && s.mie && !s.cond
    ensures PlainRun(s, r) && |r| > n
    ensures forall i | |r| - 1 - n <= i < |r| :: Lost(r[i]) && r[i].fired
  {
    var s1 := s.(pc := Wfi);
    var s2 := if s.fired then s1 else s1.(fired := true, pending := true, cond := s.cond || s.direct);
    var s3 := s2.(isr := Running, mie := false, afterCsr := false);
    var s4 := s3.(isr := Ending, cond := true, pending := false);
    var s5 := s4.(isr := Idle, mie := true, afterCsr := true);
    r := [s, s1] + (if s.fired then [] else [s2]) + [s3, s4] + seq(n + 1, _ => s5);
  }

  /** The plain loop never loses the wake-up exactly if it starts with the condition true or with interrupts
    * disabled. */
  lemma PlainSafeIff(s: State)
    requires Init(s)
    ensures PlainSafe(s) <==> s.cond || !s.mie
  {
    if s.cond || !s.mie {
      forall r, i: nat | PlainRun(s, r) && i < |r| ensures !Lost(r[i]) {
        PlainRunKeepsInv(s, r, i);
      }
    } else {
      var r := PlainLosesWakeup(s, 0);
      assert Lost(r[|r| - 1]);
    }
  }
}
