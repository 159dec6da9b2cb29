/** Admission of administrative membership operations, as a state machine over the steps
    of any number of concurrent operations (`ais/prxcycle.go`, `ais/pclupost.go`,
    `ais/prxclu.go`). Admission is a flag taken by compare-and-swap; the cluster map has
    its own lock; a rebalance counts as running for as long as its listener does. */
module Membership {

  import opened Basics

  /** Batch operations (maintenance, removal, and back), joins on behalf of an administrator
      and cluster-wide rebalance are subject to admission. Joins by the nodes themselves are
      not, and neither are other updates: keepalive, nodes that remove themselves, and the
      completion of an operation after its rebalance. */
  datatype Kind = Batch(hasTarget: bool) | AdminJoin | RebCluster | SelfJoin | Other

  /** A batch that has published without starting a rebalance is `Finalizing`: it may publish
      once more, to remove its nodes. */
  datatype Phase = Idle | Begun | Admitted | Locked | Checked | Published | Finalizing | Relocked | Ending | Finished

  datatype Op = Op(kind: Kind, phase: Phase)

  /** A publication of the cluster map, the second one of an operation or not, and how many
      rebalance listeners ran at the time. */
  datatype Event = Event(kind: Kind, isFinal: bool, running: nat)

  datatype State = State(flag: bool, lock: Option<nat>, running: nat, ops: seq<Op>, log: seq<Event>)

  datatype Act =
    | Cas(i: nat)
    | CheckBegin(i: nat)
    | Lock(i: nat)
    | CheckPre(i: nat)
    | Abort(i: nat)
    | Publish(i: nat)
    | Post(i: nat, listens: bool)
    | Relock(i: nat)
    | PublishFinal(i: nat)
    | Listen(i: nat)
    | End(i: nat)
    | ListenerDone

  function Move(s: State, i: nat, phase: Phase): State
    requires i < |s.ops|
  {
    s.(ops := s.ops[i := Op(s.ops[i].kind, phase)])
  }

  /** The kinds that are subject to admission. */
  predicate Gated(k: Kind) { k.Batch? || k.AdminJoin? || k.RebCluster? }

  predicate Enabled(s: State, a: Act) {
    if a.ListenerDone? then s.running > 0
    else
      && a.i < |s.ops|
      && var op := s.ops[a.i];
         match a
         case Cas(_) => op.phase.Idle? && Gated(op.kind)
         case CheckBegin(_) => op.phase.Begun?
         case Lock(_) =>
           && s.lock == None && !op.kind.RebCluster?
           && if Gated(op.kind) then op.phase.Admitted? else op.phase.Idle?
         case CheckPre(_) => op.phase.Locked?
         case Abort(_) => op.phase.Admitted? || op.phase.Locked? || op.phase.Checked? || op.phase.Relocked?
         case Publish(_) => op.phase.Checked?
         case Post(_, listens) => op.phase.Published? && !(listens && op.kind.Other?)
         case Relock(_) => s.lock == None && op.phase.Finalizing?
         case PublishFinal(_) => op.phase.Relocked?
         case Listen(_) => op.phase.Admitted? && op.kind.RebCluster?
         case End(_) => op.phase.Ending? || op.phase.Finalizing?
  }

  function Unlocked(s: State, i: nat): Option<nat> { if s.lock == Some(i) then None else s.lock }

  /** One step. A failed compare-and-swap ends the operation; a running rebalance seen
      right after it gives the flag back; a running rebalance seen by `pre` fails a batch
      that has targets; listeners start under the map's lock, except that of the
      cluster-wide rebalance. The second publication of a batch checks nothing. */
  function Next(s: State, a: Act): State
    requires Enabled(s, a)
  {
    match a
    case Cas(i) => if s.flag then Move(s, i, Finished) else Move(s, i, Begun).(flag := true)
    case CheckBegin(i) => if s.running > 0 then Move(s, i, Finished).(flag := false) else Move(s, i, Admitted)
    case Lock(i) => Move(s, i, Locked).(lock := Some(i))
    case CheckPre(i) =>
      if s.ops[i].kind == Batch(true) && s.running > 0 then Move(s, i, Ending).(lock := None) else Move(s, i, Checked)
    case Abort(i) => Move(s, i, Ending).(lock := Unlocked(s, i))
    case Publish(i) => Move(s, i, Published).(log := s.log + [Event(s.ops[i].kind, false, s.running)])
    case Post(i, listens) =>
      Move(s, i, if s.ops[i].kind.Batch? && !listens then Finalizing else Ending).(
        lock := None, running := s.running + if listens then 1 else 0)
    case Relock(i) => Move(s, i, Relocked).(lock := Some(i))
    case PublishFinal(i) => Move(s, i, Ending).(lock := None, log := s.log + [Event(s.ops[i].kind, true, s.running)])
    case Listen(i) => Move(s, i, Ending).(running := s.running + 1)
    case End(i) => Move(s, i, Finished).(flag := if Gated(s.ops[i].kind) then false else s.flag)
    case ListenerDone => s.(running := s.running - 1)
  }

  ghost predicate Init(s: State) {
    !s.flag && s.lock == None && s.log == [] && forall i :: 0 <= i < |s.ops| ==> s.ops[i].phase.Idle?
  }

  ghost predicate Holds(op: Op) { Gated(op.kind) && !op.phase.Idle? && !op.phase.Finished? }

  ghost predicate InLock(op: Op) { op.phase.Locked? || op.phase.Checked? || op.phase.Published? || op.phase.Relocked? }

  /** The flag is up exactly while one administrative operation holds it. */
  ghost predicate OneHolder(s: State) {
    && (s.flag <==> exists i :: 0 <= i < |s.ops| && Holds(s.ops[i]))
    && (forall i, j :: 0 <= i < |s.ops| && 0 <= j < |s.ops| && Holds(s.ops[i]) && Holds(s.ops[j]) ==> i == j)
    && (forall i :: 0 <= i < |s.ops| && !Gated(s.ops[i].kind) ==> !s.ops[i].phase.Begun? && !s.ops[i].phase.Admitted?)
  }

  ghost predicate LockHeld(s: State) {
    forall i :: 0 <= i < |s.ops| ==> (InLock(s.ops[i]) <==> s.lock == Some(i))
  }

  ghost predicate ChecksHold(s: State) {
    && (forall i :: 0 <= i < |s.ops| && s.ops[i] == Op(Batch(true), Checked) ==> s.running == 0)
    && (forall e :: e in s.log && e.kind == Batch(true) && !e.isFinal ==> e.running == 0)
  }

  ghost predicate Inv(s: State) { OneHolder(s) && LockHeld(s) && ChecksHold(s) }

  lemma HolderMoves(s: State, t: State, i: nat)
    requires OneHolder(s) && i < |s.ops| && |t.ops| == |s.ops|
    requires forall j :: 0 <= j < |s.ops| && j != i ==> t.ops[j] == s.ops[j]
    requires !Gated(t.ops[i].kind) ==> !t.ops[i].phase.Begun? && !t.ops[i].phase.Admitted?
    requires if Holds(t.ops[i]) then t.flag && (Holds(s.ops[i]) || !s.flag) else t.flag == (s.flag && !Holds(s.ops[i]))
    ensures OneHolder(t)
  {
  }

  lemma OneHolderStep(s: State, a: Act)
    requires OneHolder(s) && Enabled(s, a)
    ensures OneHolder(Next(s, a))
  {
    if !a.ListenerDone? { HolderMoves(s, Next(s, a), a.i); }
  }

  lemma LockHeldStep(s: State, a: Act)
    requires LockHeld(s) && Enabled(s, a)
    ensures LockHeld(Next(s, a))
  {
  }

  lemma ChecksHoldStep(s: State, a: Act)
    requires Inv(s) && Enabled(s, a)
    ensures ChecksHold(Next(s, a))
  {
  }

  /** Every step keeps the invariant. */
  lemma StepInv(s: State, a: Act)
    requires Inv(s) && Enabled(s, a)
    ensures Inv(Next(s, a))
  {
    OneHolderStep(s, a);
    LockHeldStep(s, a);
    ChecksHoldStep(s, a);
  }

  function After(s: State, acts: seq<Act>, n: nat): Option<State>
    requires n <= |acts|
  {
    if n == 0 then Some(s)
    else
      match After(s, acts, n - 1)
      case None => None
      case Some(t) => if Enabled(t, acts[n - 1]) then Some(Next(t, acts[n - 1])) else None
  }

  lemma {:induction false} RunInv(s: State, acts: seq<Act>, n: nat)
    requires Init(s) && n <= |acts| && After(s, acts, n).Some?
    ensures Inv(After(s, acts, n).value)
  {
    if n > 0 {
      RunInv(s, acts, n - 1);
      StepInv(After(s, acts, n - 1).value, acts[n - 1]);
    }
  }

  /** Over every run: at most one administrative operation is in flight, and the flag says
      so; and no target is put in or taken out of maintenance, or removed unsafely, by a
      first publication while a rebalance is running. */
  lemma AdmissionIsSafe(s: State, acts: seq<Act>)
    requires Init(s) && After(s, acts, |acts|).Some?
    ensures var t := After(s, acts, |acts|).value;
            && OneHolder(t)
            && (forall e :: e in t.log && e.kind == Batch(true) && !e.isFinal ==> e.running == 0)
  {
    RunInv(s, acts, |acts|);
  }

  // ----- giving up, and the count of rebalances ------------------------------------------

  /** Until it has published, an operation can be given up at any point: two steps later it
      has finished, has let go of the lock and of the flag, and has changed nothing else. */
  lemma GivesUp(s: State, i: nat)
    requires Inv(s) && i < |s.ops|
    requires match s.ops[i].phase { case Admitted | Locked | Checked | Relocked => true case _ => false }
    ensures Enabled(s, Abort(i)) && Enabled(Next(s, Abort(i)), End(i))
    ensures var t := Next(Next(s, Abort(i)), End(i));
            && t.ops == s.ops[i := s.ops[i].(phase := Finished)]
            && t.lock == (if s.lock == Some(i) then None else s.lock)
            && t.flag == (s.flag && !Gated(s.ops[i].kind))
            && t.running == s.running && t.log == s.log
  {
  }

  /** Once it has published without a rebalance of its own, it can end right away. */
  lemma EndsAfterPublishing(s: State, i: nat)
    requires Inv(s) && i < |s.ops| && (s.ops[i].phase.Finalizing? || s.ops[i].phase.Ending?)
    ensures Enabled(s, End(i)) && Next(s, End(i)).ops[i].phase.Finished?
    ensures Gated(s.ops[i].kind) ==> !Next(s, End(i)).flag
  {
  }

  /** How a step changes the number of running rebalances. */
  ghost function Change(a: Act): int {
    match a
    case Post(_, listens) => if listens then 1 else 0
    case Listen(_) => 1
    case ListenerDone => -1
    case _ => 0
  }

  ghost function Sum(acts: seq<Act>, n: nat): int
    requires n <= |acts|
  {
    if n == 0 then 0 else Sum(acts, n - 1) + Change(acts[n - 1])
  }

  /** Over every run the rebalances that run are those started and not done, and each of
      them can be done. */
  lemma {:induction false} RunningIs(s: State, acts: seq<Act>, n: nat)
    requires n <= |acts| && After(s, acts, n).Some?
    ensures After(s, acts, n).value.running == s.running + Sum(acts, n)
    ensures s.running + Sum(acts, n) > 0 <==> Enabled(After(s, acts, n).value, ListenerDone)
  {
    if n > 0 { RunningIs(s, acts, n - 1); }
  }

  // ----- exclusive rebalances ----------------------------------------------------------

  /** The operation is admitted and has not started a rebalance. */
  ghost predicate IsOpen(op: Op) { Holds(op) && !op.phase.Begun? && !op.phase.Ending? }

  /** No rebalance is running while an operation is admitted, other than one it has started. */
  ghost predicate Quiet(s: State) { forall i :: 0 <= i < |s.ops| && IsOpen(s.ops[i]) ==> s.running == 0 }

  /** A node that joins on its own starts a rebalance while an operation is admitted. */
  ghost predicate Slips(s: State, a: Act) {
    && a.Post? && a.listens && a.i < |s.ops| && s.ops[a.i].kind.SelfJoin?
    && exists j :: 0 <= j < |s.ops| && IsOpen(s.ops[j])
  }

  lemma QuietStepIff(s: State, a: Act)
    requires OneHolder(s) && Quiet(s) && Enabled(s, a)
    ensures Quiet(Next(s, a)) <==> !Slips(s, a)
  {
    var t := Next(s, a);
    if !a.ListenerDone? {
      assert forall j :: 0 <= j < |s.ops| && j != a.i ==> t.ops[j] == s.ops[j];
      if Slips(s, a) {
        var j :| 0 <= j < |s.ops| && IsOpen(s.ops[j]);
        assert IsOpen(t.ops[j]) && t.running > 0;
      }
    }
  }

  ghost predicate AlwaysQuiet(s: State, acts: seq<Act>, n: nat)
    requires n <= |acts|
  {
    (After(s, acts, n).Some? ==> Quiet(After(s, acts, n).value)) && (n > 0 ==> AlwaysQuiet(s, acts, n - 1))
  }

  ghost predicate NeverSlips(s: State, acts: seq<Act>, n: nat)
    requires n <= |acts|
  {
    n > 0 ==>
      && NeverSlips(s, acts, n - 1)
      && (After(s, acts, n - 1).Some? ==> !Slips(After(s, acts, n - 1).value, acts[n - 1]))
  }

  /** Exactly when admission keeps rebalances apart throughout a run: when no node starts one
      by joining on its own while an operation is admitted. */
  lemma {:induction false} AdmissionIsExclusiveIff(s: State, acts: seq<Act>, n: nat)
    requires Init(s) && n <= |acts| && After(s, acts, n).Some?
    ensures AlwaysQuiet(s, acts, n) <==> NeverSlips(s, acts, n)
  {
    if n > 0 {
      AdmissionIsExclusiveIff(s, acts, n - 1);
      RunInv(s, acts, n - 1);
      var before := After(s, acts, n - 1).value;
      if Quiet(before) { QuietStepIff(before, acts[n - 1]); }
      if NeverSlips(s, acts, n - 1) { QuietNow(s, acts, n - 1); }
    }
  }

  lemma QuietNow(s: State, acts: seq<Act>, n: nat)
    requires n <= |acts| && AlwaysQuiet(s, acts, n) && After(s, acts, n).Some?
    ensures Quiet(After(s, acts, n).value)
  {
  }

  /** So in such a run neither publication of a batch happens during a rebalance. */
  lemma {:induction false} BatchesAreQuiet(s: State, acts: seq<Act>, n: nat)
    requires Init(s) && n <= |acts| && After(s, acts, n).Some? && NeverSlips(s, acts, n)
    ensures forall e :: e in After(s, acts, n).value.log && e.kind.Batch? ==> e.running == 0
  {
    if n > 0 {
      BatchesAreQuiet(s, acts, n - 1);
      AdmissionIsExclusiveIff(s, acts, n - 1);
      var before := After(s, acts, n - 1).value;
      QuietNow(s, acts, n - 1);
      var a := acts[n - 1];
      if a.Publish? || a.PublishFinal? { assert before.ops[a.i].kind.Batch? ==> IsOpen(before.ops[a.i]); }
    }
  }

  /** In others the second one may: a batch marks its nodes without a rebalance, a self-join
      starts one, and the batch removes its nodes all the same. */
  lemma SelfJoinSlipsIn() returns (s: State, acts: seq<Act>)
    ensures Init(s) && s.running == 0 && After(s, acts, |acts|).Some?
    ensures Event(Batch(true), true, 1) in After(s, acts, |acts|).value.log
  {
    s := Two(false, None, 0, Idle, Idle, []);
    acts := BatchMarks(s, []);
    var first, joined, last := Event(Batch(true), false, 0), Event(SelfJoin, false, 0), Event(Batch(true), true, 1);
    acts := JoinSlips(s, acts, first, joined);
    acts := Then(s, acts, Two(true, None, 1, Finalizing, Ending, [first, joined]), Relock(0),
                 Two(true, Some(0), 1, Relocked, Ending, [first, joined]));
    acts := Then(s, acts, Two(true, Some(0), 1, Relocked, Ending, [first, joined]), PublishFinal(0),
                 Two(true, None, 1, Ending, Ending, [first, joined, last]));
  }

  lemma BatchMarks(s: State, start: seq<Act>) returns (acts: seq<Act>)
    requires After(s, start, |start|) == Some(Two(false, None, 0, Idle, Idle, []))
    ensures After(s, acts, |acts|) == Some(Two(true, None, 0, Finalizing, Idle, [Event(Batch(true), false, 0)]))
  {
    acts := Admits(s, start);
    var first := Event(Batch(true), false, 0);
    acts := Then(s, acts, Two(true, Some(0), 0, Locked, Idle, []), CheckPre(0),
                 Two(true, Some(0), 0, Checked, Idle, []));
    acts := Then(s, acts, Two(true, Some(0), 0, Checked, Idle, []), Publish(0),
                 Two(true, Some(0), 0, Published, Idle, [first]));
    acts := Then(s, acts, Two(true, Some(0), 0, Published, Idle, [first]), Post(0, false),
                 Two(true, None, 0, Finalizing, Idle, [first]));
  }

  lemma Admits(s: State, start: seq<Act>) returns (acts: seq<Act>)
    requires After(s, start, |start|) == Some(Two(false, None, 0, Idle, Idle, []))
    ensures After(s, acts, |acts|) == Some(Two(true, Some(0), 0, Locked, Idle, []))
  {
    acts := Then(s, start, Two(false, None, 0, Idle, Idle, []), Cas(0), Two(true, None, 0, Begun, Idle, []));
    acts := Then(s, acts, Two(true, None, 0, Begun, Idle, []), CheckBegin(0), Two(true, None, 0, Admitted, Idle, []));
    acts := Then(s, acts, Two(true, None, 0, Admitted, Idle, []), Lock(0), Two(true, Some(0), 0, Locked, Idle, []));
  }

  lemma JoinSlips(s: State, start: seq<Act>, first: Event, joined: Event) returns (acts: seq<Act>)
    requires After(s, start, |start|) == Some(Two(true, None, 0, Finalizing, Idle, [first]))
    requires joined == Event(SelfJoin, false, 0)
    ensures After(s, acts, |acts|) == Some(Two(true, None, 1, Finalizing, Ending, [first, joined]))
  {
    acts := Then(s, start, Two(true, None, 0, Finalizing, Idle, [first]), Lock(1),
                 Two(true, Some(1), 0, Finalizing, Locked, [first]));
    acts := Then(s, acts, Two(true, Some(1), 0, Finalizing, Locked, [first]), CheckPre(1),
                 Two(true, Some(1), 0, Finalizing, Checked, [first]));
    acts := Then(s, acts, Two(true, Some(1), 0, Finalizing, Checked, [first]), Publish(1),
                 Two(true, Some(1), 0, Finalizing, Published, [first, joined]));
    acts := Then(s, acts, Two(true, Some(1), 0, Finalizing, Published, [first, joined]), Post(1, true),
                 Two(true, None, 1, Finalizing, Ending, [first, joined]));
  }

  /** A batch with targets and a self-join. */
  function Two(flag: bool, lock: Option<nat>, running: nat, batch: Phase, join: Phase, log: seq<Event>): State {
    State(flag, lock, running, [Op(Batch(true), batch), Op(SelfJoin, join)], log)
  }

  /** One more step. */
  lemma Then(s: State, acts: seq<Act>, t: State, a: Act, u: State) returns (more: seq<Act>)
    requires After(s, acts, |acts|) == Some(t) && Enabled(t, a) && Next(t, a) == u
    ensures more == acts + [a] && After(s, more, |more|) == Some(u)
  {
    more := acts + [a];
    SamePrefix(s, acts, more, |acts|);
  }

  lemma {:induction false} SamePrefix(s: State, acts: seq<Act>, more: seq<Act>, n: nat)
    requires acts <= more && n <= |acts|
    ensures After(s, acts, n) == After(s, more, n)
  {
    if n > 0 { SamePrefix(s, acts, more, n - 1); }
  }
}
