/** The task states of hrp3_wo_tecs/kernel/task.h and their encoding in one byte. */
module TaskState {

  /** Why a task waits. Waits for an object name the wait queue, among all queues of all objects. */
  datatype Cause = Sleep | Delay | Object(q: nat)

  datatype Tstat = Dormant | Runnable | Suspended | Waiting(cause: Cause, suspended: bool)

  /** The kinds of waits, in the order of the TS_WAITING constants. */
  datatype Kind = SLP | DLY | RDTQ | RPDQ | RMBF | SEM | FLG | SDTQ | SPDQ | MTX | SMBF | MPF

  datatype Coded = CDormant | CRunnable | CSuspended | CWaiting(kind: Kind, suspended: bool)

  const TS_DORMANT: bv8 := 0x00
  const TS_RUNNABLE: bv8 := 0x01
  const TS_SUSPENDED: bv8 := 0x02
  const TS_WAITING_MASK: bv8 := 0x1f << 2

  function WaitCode(k: Kind): bv8 {
    match k
    case SLP => 0x01 << 2
    case DLY => 0x02 << 2
    case RDTQ => 0x08 << 2
    case RPDQ => 0x09 << 2
    case RMBF => 0x0a << 2
    case SEM => 0x10 << 2
    case FLG => 0x11 << 2
    case SDTQ => 0x12 << 2
    case SPDQ => 0x13 << 2
    case MTX => 0x14 << 2
    case SMBF => 0x15 << 2
    case MPF => 0x16 << 2
  }

  /** A double wait is the wait's code with the suspension bit. */
  function Encode(s: Coded): bv8 {
    match s
    case CDormant => TS_DORMANT
    case CRunnable => TS_RUNNABLE
    case CSuspended => TS_SUSPENDED
    case CWaiting(k, suspended) => WaitCode(k) | (if suspended then TS_SUSPENDED else 0)
  }

  /** The queues of the waiting tasks of a control block: those of objects other than the receivers'. */
  predicate HasControlBlock(k: Kind) {
    k in {SEM, FLG, SDTQ, SPDQ, MTX, SMBF, MPF}
  }

  /** The tests that the kernel makes on the byte say what they are named for, for every state. */
  lemma TestsAgree(s: Coded)
    ensures Encode(s) == TS_DORMANT <==> s.CDormant?
    ensures Encode(s) & TS_RUNNABLE != 0 <==> s.CRunnable?
    ensures Encode(s) & TS_WAITING_MASK != 0 <==> s.CWaiting?
    ensures Encode(s) & TS_SUSPENDED != 0 <==> s.CSuspended? || (s.CWaiting? && s.suspended)
    ensures forall k: Kind :: (Encode(s) & !TS_SUSPENDED == WaitCode(k) <==> s.CWaiting? && s.kind == k)
    ensures Encode(s) & (0x18 << 2) != 0 <==> s.CWaiting? && s.kind != SLP && s.kind != DLY
    ensures Encode(s) & (0x10 << 2) != 0 <==> s.CWaiting? && HasControlBlock(s.kind)
  {
  }

  /** The coded state of a task, where a wait for an object names its queue and kinds says what the queues
      are for. */
  function CodeOf(s: Tstat, kinds: seq<Kind>): Coded
    requires s.Waiting? && s.cause.Object? ==> s.cause.q < |kinds|
  {
    match s
    case Dormant => CDormant
    case Runnable => CRunnable
    case Suspended => CSuspended
    case Waiting(Sleep, suspended) => CWaiting(SLP, suspended)
    case Waiting(Delay, suspended) => CWaiting(DLY, suspended)
    case Waiting(Object(q), suspended) => CWaiting(kinds[q], suspended)
  }

  /** The tests on the byte, for tasks as the scheduler and the wait machinery see them. */
  lemma TestsAgreeWithState(s: Tstat, kinds: seq<Kind>)
    requires s.Waiting? && s.cause.Object? ==> s.cause.q < |kinds| && kinds[s.cause.q] !in {SLP, DLY}
    ensures var b := Encode(CodeOf(s, kinds)); var onObject := s.Waiting? && s.cause.Object?;
            && (b == TS_DORMANT <==> s.Dormant?)
            && (b & TS_RUNNABLE != 0 <==> s.Runnable?)
            && (b & TS_WAITING_MASK != 0 <==> s.Waiting?)
            && (b & TS_SUSPENDED != 0 <==> s.Suspended? || (s.Waiting? && s.suspended))
            && (b & !TS_SUSPENDED == WaitCode(SLP) <==> s.Waiting? && s.cause.Sleep?)
            && (b & !TS_SUSPENDED == WaitCode(MTX) <==> onObject && kinds[s.cause.q] == MTX)
            && (b & !TS_SUSPENDED == WaitCode(SMBF) <==> onObject && kinds[s.cause.q] == SMBF)
            && (b & (0x18 << 2) != 0 <==> onObject)
            && (b & (0x10 << 2) != 0 <==> onObject && HasControlBlock(kinds[s.cause.q]))
  {
    hide Encode, WaitCode;
    TestsAgree(CodeOf(s, kinds));
  }

  /** The two ways in which the code changes the byte of a waiting task. */
  lemma SuspendAndResume(k: Kind)
    ensures Encode(CWaiting(k, false)) | TS_SUSPENDED == Encode(CWaiting(k, true))
    ensures Encode(CWaiting(k, true)) & !TS_SUSPENDED == Encode(CWaiting(k, false))
  {
  }

  lemma EncodingIsInjective(s: Coded, t: Coded)
    requires Encode(s) == Encode(t)
    ensures s == t
  {
    TestsAgree(s);
    TestsAgree(t);
  }
}
