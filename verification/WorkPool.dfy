/**
 The worker pool that computes digests and copies files.  Threads take items from a shared iterator under a mutex
 until there are none left or one of them has asked to cancel; the thread that started them works as well, waits
 for the others and returns the first error.  A run is any sequence of steps, so all interleavings are covered.
 */
module WorkPool {
  import opened Common

  // ---------- the shared iterator ----------

  datatype Shared = Shared(current: nat, cancel: bool, errorcode: int)

  function Taken(sh: Shared, n: nat): Shared {
    if !sh.cancel && sh.current < n then sh.(current := sh.current + 1) else sh
  }

  function Handed(sh: Shared, n: nat): Option<nat> {
    if !sh.cancel && sh.current < n then Some(sh.current) else None
  }

  function Cancelled(sh: Shared, code: int): Shared {
    if sh.cancel then sh else Shared(sh.current, true, code)
  }

  /** What the mutex protects; each method is one critical section. */
  class Iterator {
    var current: nat
    var cancelRequest: bool
    var errorcode: int

    constructor ()
      ensures State() == Shared(0, false, 0)
    {
      current, cancelRequest, errorcode := 0, false, 0;
    }

    ghost function State(): Shared
      reads this
    {
      Shared(current, cancelRequest, errorcode)
    }

    method GetNext(count: nat) returns (item: Option<nat>)
      modifies this
      ensures State() == Taken(old(State()), count) && item == Handed(old(State()), count)
      ensures cancelRequest == old(cancelRequest) && errorcode == old(errorcode)
      ensures if !old(cancelRequest) && old(current) < count
              then item == Some(old(current)) && current == old(current) + 1
              else item.None? && current == old(current)
    {
      var cancel := false;
      item := None;
      if cancelRequest {
        cancel := true;
      } else if current < count {
        item := Some(current);
        current := current + 1;
      }
      item := if cancel then None else item;
    }

    method RequestCancel(code: int)
      modifies this
      ensures State() == Cancelled(old(State()), code) && cancelRequest && current == old(current)
      ensures errorcode == if old(cancelRequest) then old(errorcode) else code
    {
      if !cancelRequest {
        cancelRequest := true;
        errorcode := code;
      }
    }
  }

  // ---------- the pool ----------

  datatype Thread = Idle | Asking | Working(item: nat) | Failing(code: int) | Finished

  /** The starting thread: creates the others, works itself, joins them; when a creation fails it joins and gives up. */
  datatype Starter = Creating(k: nat) | Running | Joining(k: nat) | GivingUp(k: nat, made: nat,
      code: int) | Returned(failed: bool, code: int)

  /** What has become of an item, and by whom. */
  datatype Status = Waiting | InHand(thread: nat) | Succeeded | Failed

  /** `failures` counts everything that went wrong so far: items, creations and joins. */
  datatype Pool = Pool(sh: Shared, starter: Starter, threads: seq<Thread>, items: seq<Status>, failures: nat)

  /** Number of items, of additional threads, which items fail to be processed, and the error code then found. */
  datatype Config = Config(n: nat, t: nat, fails: nat -> bool, errno: nat -> int)

  ghost function Init(c: Config): Pool {
    Pool(Shared(0, false, 0), Creating(0), seq(c.t + 1, _ => Idle), seq(c.n, _ => Waiting), 0)
  }

  ghost predicate Sized(c: Config, s: Pool) {
    |s.threads| == c.t + 1 && |s.items| == c.n
  }

  ghost function Move(s: Pool, i: nat, th: Thread): Pool
    requires i < |s.threads|
  {
    s.(threads := s.threads[i := th])
  }

  /** A thread asks for its next item. */
  ghost predicate Ask(c: Config, s: Pool, s': Pool, i: nat) {
    && i < |s.threads| && s.threads[i].Asking?
    && match Handed(s.sh, c.n)
       case None => s' == Move(s, i, Finished)
       case Some(k) => k < |s.items| && s' == Move(s, i, Working(k)).(sh := Taken(s.sh, c.n),
           items := s.items[k := InHand(i)])
  }

  /** A thread is done with its item. */
  ghost predicate Complete(c: Config, s: Pool, s': Pool, i: nat) {
    && i < |s.threads| && s.threads[i].Working? && s.threads[i].item < |s.items|
    && var k := s.threads[i].item;
       if !c.fails(k) then s' == Move(s, i, Asking).(items := s.items[k := Succeeded])
       else s' == Move(s, i, Failing(c.errno(k))).(items := s.items[k := Failed], failures := s.failures + 1)
  }

  /** A thread whose item failed asks to cancel and ends. */
  ghost predicate Stop(s: Pool, s': Pool, i: nat) {
    && i < |s.threads| && s.threads[i].Failing?
    && s' == Move(s, i, Finished).(sh := Cancelled(s.sh, s.threads[i].code))
  }

  /** The starting thread; `code` is what the system call it makes returns. */
  ghost predicate Start(c: Config, s: Pool, s': Pool, code: int) {
    match s.starter
    case Creating(k) =>
      if k < c.t then
        && k < |s.threads|
        && (if code == 0 then s' == Move(s, k, Asking).(starter := Creating(k + 1))
            else s' == s.(sh := Cancelled(s.sh, code), starter := GivingUp(0, k, code), failures := s.failures + 1))
      else c.t < |s.threads| && s' == Move(s, c.t, Asking).(starter := Running)
    case Running => c.t < |s.threads| && s.threads[c.t].Finished? && s' == s.(starter := Joining(0))
    case Joining(k) =>
      if k < c.t then
        && k < |s.threads|
        && (if code == 0 then s.threads[k].Finished? && s' == s.(starter := Joining(k + 1))
            else s' == s.(sh := Cancelled(s.sh, code), starter := Joining(k + 1), failures := s.failures + 1))
      else s' == s.(starter := Returned(s.sh.cancel, s.sh.errorcode))
    case GivingUp(k, made, e) =>
      if k < made then k < |s.threads| && (code == 0 ==>
        s.threads[k].Finished?) && s' == s.(starter := GivingUp(k + 1, made, e))
      else s' == s.(starter := Returned(true, e))
    case Returned(_, _) => false
  }

  ghost predicate Next(c: Config, s: Pool, s': Pool) {
    || (exists i: nat :: Ask(c, s, s', i)) || (exists i: nat :: Complete(c, s, s', i)) || (exists i: nat ::
      Stop(s, s', i))
    || (exists code: int :: Start(c, s, s', code))
  }

  ghost predicate StepAt(c: Config, run: seq<Pool>, k: nat) {
    k + 1 < |run| && Next(c, run[k], run[k + 1])
  }

  /** A run from the start, one state after the other. */
  ghost predicate IsRun(c: Config, run: seq<Pool>) {
    run != [] && run[0] == Init(c) && forall k: nat {:trigger StepAt(c, run, k)} :: k + 1 < |run| ==> StepAt(c, run, k)
  }

  // ---------- what every state keeps ----------

  ghost predicate ItemsOk(s: Pool) {
    forall k {:trigger s.items[k]} :: 0 <= k < |s.items| ==>
      && (s.items[k].Waiting? <==> k >= s.sh.current)
      && (s.items[k].InHand? ==> s.items[k].thread < |s.threads| && s.threads[s.items[k].thread] == Working(k))
      && (s.items[k].Failed? ==> s.failures > 0)
  }

  ghost predicate ThreadsOk(s: Pool) {
    forall i {:trigger s.threads[i]} :: 0 <= i < |s.threads| ==>
      && (s.threads[i].Working? ==> s.threads[i].item < |s.items| && s.items[s.threads[i].item] == InHand(i))
      && (s.threads[i].Finished? ==> s.sh.cancel || s.sh.current == |s.items|)
      && (s.threads[i].Failing? ==> s.failures > 0)
  }

  /** Nothing that went wrong is lost: it is on record or about to be. */
  ghost predicate FailuresOk(s: Pool) {
    && (s.sh.cancel ==> s.failures > 0)
    && (s.failures > 0 ==> s.sh.cancel || exists i :: 0 <= i < |s.threads| && s.threads[i].Failing?)
  }

  ghost predicate AllFinished(s: Pool) {
    forall i {:trigger s.threads[i]} :: 0 <= i < |s.threads| ==> s.threads[i].Finished?
  }

  ghost predicate StarterOk(c: Config, s: Pool)
    requires Sized(c, s)
  {
    match s.starter
    case Creating(k) => k <= c.t && forall j {:trigger s.threads[j]} :: 0 <= j <= c.t ==>
      (s.threads[j].Idle? <==> j >= k)
    case Running => forall j {:trigger s.threads[j]} :: 0 <= j <= c.t ==> !s.threads[j].Idle?
    case Joining(k) =>
      && k <= c.t && s.threads[c.t].Finished?
      && forall j {:trigger s.threads[j]} :: 0 <= j <= c.t ==> !s.threads[j].Idle? && (j < k ==>
           s.threads[j].Finished? || s.sh.cancel)
    case GivingUp(k, made, _) =>
      k <= made <= c.t && s.sh.cancel && forall j {:trigger s.threads[j]} :: 0 <= j < made ==>
          !s.threads[j].Idle?
    case Returned(failed, _) => failed == s.sh.cancel && (!failed ==> AllFinished(s))
  }

  ghost predicate Inv(c: Config, s: Pool) {
    Sized(c, s) && s.sh.current <= c.n && ItemsOk(s) && ThreadsOk(s) && FailuresOk(s) && StarterOk(c, s)
  }

  lemma {:induction false} InitInv(c: Config)
    ensures Inv(c, Init(c))
  {
  }

  lemma {:induction false} AskInv(c: Config, s: Pool, s': Pool, i: nat)
    requires Inv(c, s) && Ask(c, s, s', i)
    ensures Inv(c, s')
  {
    if s.failures > 0 && !s.sh.cancel {
      var j :| 0 <= j < |s.threads| && s.threads[j].Failing?;
      assert s'.threads[j].Failing?;
    }
  }

  lemma {:induction false} CompleteInv(c: Config, s: Pool, s': Pool, i: nat)
    requires Inv(c, s) && Complete(c, s, s', i)
    ensures Inv(c, s')
  {
    if c.fails(s.threads[i].item) {
      assert s'.threads[i].Failing?;
    } else if s.failures > 0 && !s.sh.cancel {
      var j :| 0 <= j < |s.threads| && s.threads[j].Failing?;
      assert s'.threads[j].Failing?;
    }
  }

  lemma {:induction false} StopInv(c: Config, s: Pool, s': Pool, i: nat)
    requires Inv(c, s) && Stop(s, s', i)
    ensures Inv(c, s')
  {
  }

  lemma {:induction false} StartInv(c: Config, s: Pool, s': Pool, code: int)
    requires Inv(c, s) && Start(c, s, s', code)
    ensures Inv(c, s')
  {
    if s.failures > 0 && !s.sh.cancel {
      var j :| 0 <= j < |s.threads| && s.threads[j].Failing?;
      assert s'.threads[j].Failing?;
    }
  }

  lemma {:induction false} NextInv(c: Config, s: Pool, s': Pool)
    requires Inv(c, s) && Next(c, s, s')
    ensures Inv(c, s')
  {
    if i: nat :| Ask(c, s, s', i) {
      AskInv(c, s, s', i);
    } else if i: nat :| Complete(c, s, s', i) {
      CompleteInv(c, s, s', i);
    } else if i: nat :| Stop(s, s', i) {
      StopInv(c, s, s', i);
    } else {
      var code :| Start(c, s, s', code);
      StartInv(c, s, s', code);
    }
  }

  lemma {:induction false} RunInv(c: Config, run: seq<Pool>, k: nat)
    requires IsRun(c, run) && k < |run|
    ensures Inv(c, run[k])
  {
    if k == 0 {
      InitInv(c);
    } else {
      RunInv(c, run, k - 1);
      assert StepAt(c, run, k - 1);
      NextInv(c, run[k - 1], run[k]);
    }
  }

  // ---------- safety ----------

  /** A thread that is processing an item is the only one to have it. */
  lemma {:induction false} ItemsNotShared(c: Config, run: seq<Pool>, k: nat, i: nat, j: nat)
    requires IsRun(c, run) && k < |run| && i < |run[k].threads| && j < |run[k].threads|
    requires run[k].threads[i].Working? && run[k].threads[i] == run[k].threads[j]
    ensures i == j
  {
    RunInv(c, run, k);
  }

  lemma {:induction false} SharedSteps(c: Config, s: Pool, s': Pool)
    requires Next(c, s, s')
    ensures s.sh.current <= s'.sh.current
    ensures s.sh.cancel ==> s'.sh == s.sh
  {
    if i: nat :| Ask(c, s, s', i) {
    } else if i: nat :| Complete(c, s, s', i) {
    } else if i: nat :| Stop(s, s', i) {
    } else {
      var code :| Start(c, s, s', code);
    }
  }

  /** After a cancel no item is handed out any more and the first error code stays. */
  lemma {:induction false} CancelIsFinal(c: Config, run: seq<Pool>, a: nat, b: nat)
    requires IsRun(c, run) && a <= b < |run| && run[a].sh.cancel
    ensures run[b].sh == run[a].sh
  {
    if a < b {
      CancelIsFinal(c, run, a, b - 1);
      assert StepAt(c, run, b - 1);
      SharedSteps(c, run[b - 1], run[b]);
    }
  }

  lemma {:induction false} CurrentGrows(c: Config, run: seq<Pool>, a: nat, b: nat)
    requires IsRun(c, run) && a <= b < |run|
    ensures run[a].sh.current <= run[b].sh.current
  {
    if a < b {
      CurrentGrows(c, run, a, b - 1);
      assert StepAt(c, run, b - 1);
      SharedSteps(c, run[b - 1], run[b]);
    }
  }

  /** Step `a` of the run hands out item `item` to thread `i`. */
  ghost predicate HandsOut(c: Config, run: seq<Pool>, a: nat, i: nat, item: nat) {
    a + 1 < |run| && Ask(c, run[a], run[a + 1], i) && Handed(run[a].sh, c.n) == Some(item)
  }

  /** Over a whole run no item is handed out twice. */
  lemma {:induction false} HandedOnce(c: Config, run: seq<Pool>, a: nat, b: nat, i: nat, j: nat, item: nat)
    requires IsRun(c, run) && HandsOut(c, run, a, i, item) && HandsOut(c, run, b, j, item)
    ensures a == b
  {
    if a < b {
      CurrentGrows(c, run, a + 1, b);
    } else if b < a {
      CurrentGrows(c, run, b + 1, a);
    }
  }

  /** Success is returned exactly when nothing went wrong; then every item was processed, once, and succeeded. */
  lemma {:induction false} SuccessMeans(c: Config, run: seq<Pool>, k: nat)
    requires IsRun(c, run) && k < |run| && run[k].starter.Returned?
    ensures !run[k].starter.failed <==> run[k].failures == 0
    ensures |run[k].items| == c.n
    ensures !run[k].starter.failed ==> forall m {:trigger run[k].items[m]} :: 0 <= m < c.n ==>
              run[k].items[m] == Succeeded
  {
    RunInv(c, run, k);
    var s := run[k];
    if !s.starter.failed {
      assert s.threads[c.t].Finished?;
    }
  }

  // ---------- which error is reported ----------

  /** A thread that is about to cancel has the error of an item that failed. */
  ghost predicate CodesOk(c: Config, s: Pool) {
    && (forall k {:trigger s.items[k]} :: 0 <= k < |s.items| && s.items[k].Failed? ==> c.fails(k))
    && forall i {:trigger s.threads[i]} :: 0 <= i < |s.threads| && s.threads[i].Failing? ==>
         ItemCode(c, s, s.threads[i].code)
  }

  /** Some item has failed with this error. */
  ghost predicate ItemCode(c: Config, s: Pool, code: int) {
    exists k :: 0 <= k < |s.items| && s.items[k].Failed? && c.fails(k) && c.errno(k) == code
  }

  lemma {:induction false} FailedStays(c: Config, s: Pool, s': Pool, code: int)
    requires Inv(c, s) && Next(c, s, s') && ItemCode(c, s, code)
    ensures ItemCode(c, s', code)
  {
    var k :| 0 <= k < |s.items| && s.items[k].Failed? && c.fails(k) && c.errno(k) == code;
    assert s'.items[k].Failed? by { StatusStays(c, s, s', k); }
  }

  lemma {:induction false} StatusStays(c: Config, s: Pool, s': Pool, k: nat)
    requires Inv(c, s) && Next(c, s, s') && k < |s.items| && s.items[k].Failed?
    ensures k < |s'.items| && s'.items[k].Failed?
  {
    if i: nat :| Ask(c, s, s', i) {
    } else if i: nat :| Complete(c, s, s', i) {
    } else if i: nat :| Stop(s, s', i) {
    } else {
      var code :| Start(c, s, s', code);
    }
  }

  lemma {:induction false} ItemsFail(c: Config, s: Pool, s': Pool)
    requires Inv(c, s) && Next(c, s, s') && CodesOk(c, s)
    ensures forall k {:trigger s'.items[k]} :: 0 <= k < |s'.items| && s'.items[k].Failed? ==> c.fails(k)
  {
    if i: nat :| Ask(c, s, s', i) {
    } else if i: nat :| Complete(c, s, s', i) {
    } else if i: nat :| Stop(s, s', i) {
    } else {
      var code :| Start(c, s, s', code);
    }
  }

  /** A thread that starts to fail does so for its item. */
  lemma {:induction false} NewlyFailing(c: Config, s: Pool, s': Pool, j: nat)
    requires Inv(c, s) && Next(c, s, s') && j < |s'.threads| && s'.threads[j].Failing?
    ensures j < |s.threads| && (s.threads[j] == s'.threads[j] || ItemCode(c, s', s'.threads[j].code))
  {
    if i: nat :| Ask(c, s, s', i) {
    } else if i: nat :| Complete(c, s, s', i) {
      if s.threads[j] != s'.threads[j] { assert s'.items[s.threads[j].item].Failed?; }
    } else if i: nat :| Stop(s, s', i) {
    } else {
      var code :| Start(c, s, s', code);
    }
  }

  lemma {:induction false} NextCodes(c: Config, s: Pool, s': Pool)
    requires Inv(c, s) && Next(c, s, s') && CodesOk(c, s)
    ensures CodesOk(c, s')
  {
    ItemsFail(c, s, s');
    forall j | 0 <= j < |s'.threads| && s'.threads[j].Failing?
      ensures ItemCode(c, s', s'.threads[j].code)
    {
      NewlyFailing(c, s, s', j);
      if s.threads[j] == s'.threads[j] { FailedStays(c, s, s', s'.threads[j].code); }
    }
  }

  lemma {:induction false} RunCodes(c: Config, run: seq<Pool>, k: nat)
    requires IsRun(c, run) && k < |run|
    ensures CodesOk(c, run[k])
  {
    if k > 0 {
      RunCodes(c, run, k - 1);
      RunInv(c, run, k - 1);
      assert StepAt(c, run, k - 1);
      NextCodes(c, run[k - 1], run[k]);
    }
  }

  /** The starting thread cannot create a thread, or cannot join one. */
  ghost predicate CreationFails(c: Config, s: Pool, s': Pool, code: int) {
    s.starter.Creating? && s.starter.k < c.t && code != 0 && s'.starter == GivingUp(0, s.starter.k, code)
  }

  ghost predicate JoinFails(c: Config, s: Pool, s': Pool, code: int) {
    s.starter.Joining? && s.starter.k < c.t && code != 0 && s'.starter == Joining(s.starter.k + 1)
  }

  /** A step that is the first to cancel, with the error of what went wrong: an item, a creation or a join. */
  ghost predicate FirstCancel(c: Config, s: Pool, s': Pool, code: int) {
    && !s.sh.cancel && s'.sh.cancel && s'.sh.errorcode == code
    && (ItemCode(c, s, code) || CreationFails(c, s, s', code) || JoinFails(c, s, s', code))
  }

  lemma {:induction false} CancelHasCode(c: Config, s: Pool, s': Pool)
    requires Inv(c, s) && CodesOk(c, s) && Next(c, s, s') && !s.sh.cancel && s'.sh.cancel
    ensures FirstCancel(c, s, s', s'.sh.errorcode)
  {
    if i: nat :| Ask(c, s, s', i) {
    } else if i: nat :| Complete(c, s, s', i) {
    } else if i: nat :| Stop(s, s', i) {
    } else {
      var code :| Start(c, s, s', code);
    }
  }

  ghost predicate FirstCancelAt(c: Config, run: seq<Pool>, m: nat, code: int) {
    m + 1 < |run| && FirstCancel(c, run[m], run[m + 1], code)
  }

  /** The code on record is that of the first step to cancel. */
  lemma {:induction false} RecordedCode(c: Config, run: seq<Pool>, k: nat) returns (m: nat)
    requires IsRun(c, run) && k < |run| && run[k].sh.cancel
    ensures m < k && FirstCancelAt(c, run, m, run[k].sh.errorcode)
  {
    assert StepAt(c, run, k - 1);
    if run[k - 1].sh.cancel {
      m := RecordedCode(c, run, k - 1);
      SharedSteps(c, run[k - 1], run[k]);
    } else {
      RunInv(c, run, k - 1);
      RunCodes(c, run, k - 1);
      CancelHasCode(c, run[k - 1], run[k]);
      m := k - 1;
    }
  }

  ghost predicate CreationFailsAt(c: Config, run: seq<Pool>, m: nat, code: int) {
    m + 1 < |run| && CreationFails(c, run[m], run[m + 1], code)
  }

  /** Whether the starting thread has gone the way of a failed creation, and with which error. */
  ghost predicate GaveUp(s: Pool, code: int) {
    match s.starter
    case GivingUp(_, _, e) => e == code
    case Returned(failed, e) => failed && e == code
    case _ => false
  }

  lemma {:induction false} StarterStep(c: Config, s: Pool, s': Pool)
    requires Inv(c, s) && Next(c, s, s')
    ensures s'.starter.GivingUp? ==>
              GaveUp(s, s'.starter.code) || CreationFails(c, s, s', s'.starter.code)
    ensures s.starter.GivingUp? ==> GaveUp(s', s.starter.code)
    ensures s.starter.Returned? ==> s'.starter == s.starter && s'.sh.cancel == s.sh.cancel
    ensures s'.starter.Returned? && !s.starter.Returned? && !s.starter.GivingUp? ==>
              s.starter.Joining? && s'.starter == Returned(s'.sh.cancel, s'.sh.errorcode)
  {
    if i: nat :| Ask(c, s, s', i) {
    } else if i: nat :| Complete(c, s, s', i) {
    } else if i: nat :| Stop(s, s', i) {
    } else {
      var code :| Start(c, s, s', code);
    }
  }

  lemma {:induction false} GaveUpStays(c: Config, run: seq<Pool>, m: nat, k: nat, code: int)
    requires IsRun(c, run) && m < k < |run| && CreationFailsAt(c, run, m, code)
    ensures GaveUp(run[k], code)
  {
    if m + 1 < k {
      GaveUpStays(c, run, m, k - 1, code);
      RunInv(c, run, k - 1);
      assert StepAt(c, run, k - 1);
      StarterStep(c, run[k - 1], run[k]);
    }
  }

  lemma {:induction false} NeverGaveUp(c: Config, run: seq<Pool>, k: nat)
    requires IsRun(c, run) && k < |run|
    requires forall m: nat, code {:trigger CreationFailsAt(c, run, m, code)} :: m < k ==>
               !CreationFailsAt(c, run, m, code)
    ensures !run[k].starter.GivingUp?
    ensures run[k].starter.Returned? ==> run[k].starter == Returned(run[k].sh.cancel, run[k].sh.errorcode)
  {
    if k > 0 {
      NeverGaveUp(c, run, k - 1);
      RunInv(c, run, k - 1);
      assert StepAt(c, run, k - 1);
      StarterStep(c, run[k - 1], run[k]);
      SharedSteps(c, run[k - 1], run[k]);
      assert run[k].starter.GivingUp? ==> CreationFailsAt(c, run, k - 1, run[k].starter.code);
      if run[k - 1].starter.Returned? { ReturnedShared(c, run[k - 1], run[k]); }
    }
  }

  /** After the call has returned nothing is recorded any more. */
  lemma {:induction false} ReturnedShared(c: Config, s: Pool, s': Pool)
    requires Inv(c, s) && Next(c, s, s') && s.starter.Returned?
    ensures s'.sh.errorcode == s.sh.errorcode && s'.sh.cancel == s.sh.cancel
  {
    if i: nat :| Ask(c, s, s', i) {
    } else if i: nat :| Complete(c, s, s', i) {
    } else if i: nat :| Stop(s, s', i) {
    }
  }

  /**
   A run that returns failure reports the error of the first step to cancel: that of a failed item or of a failed join.
   If a thread could not be created it reports that error instead, whether or not it came first.
   */
  lemma {:induction false} FailureCode(c: Config, run: seq<Pool>, k: nat) returns (m: nat)
    requires IsRun(c, run) && k < |run| && run[k].starter.Returned? && run[k].starter.failed
    ensures m < k && FirstCancelAt(c, run, m, run[k].sh.errorcode)
    ensures forall j: nat, code {:trigger CreationFailsAt(c, run, j, code)} ::
              j < k && CreationFailsAt(c, run, j, code) ==> run[k].starter.code == code
    ensures run[k].starter.code == run[k].sh.errorcode <==>
            forall j: nat, code {:trigger CreationFailsAt(c, run, j, code)} ::
              j < k && CreationFailsAt(c, run, j, code) ==> code == run[k].sh.errorcode
  {
    RunInv(c, run, k);
    m := RecordedCode(c, run, k);
    forall j: nat, code | j < k && CreationFailsAt(c, run, j, code)
      ensures run[k].starter.code == code
    {
      GaveUpStays(c, run, j, k, code);
    }
    if forall j: nat, code {:trigger CreationFailsAt(c, run, j, code)} :: j < k ==> !CreationFailsAt(c, run, j, code) {
      NeverGaveUp(c, run, k);
    }
  }

  // ---------- a later error is reported ----------

  /** One item, which fails with error 5, and two additional threads, the second of which cannot be created. */
  ghost function LateConfig(): Config { Config(1, 2, (k: nat) => true, (k: nat) => 5) }

  ghost function LateState(sh: Shared, starter: Starter, th: Thread, item: Status, failures: nat): Pool {
    Pool(sh, starter, [th, Idle, Idle], [item], failures)
  }

  ghost function LateRun(): seq<Pool> {
    [LateState(Shared(0, false, 0), Creating(0), Idle, Waiting, 0),
     LateState(Shared(0, false, 0), Creating(1), Asking, Waiting, 0),
     LateState(Shared(1, false, 0), Creating(1), Working(0), InHand(0), 0),
     LateState(Shared(1, false, 0), Creating(1), Failing(5), Failed, 1),
     LateState(Shared(1, true, 5), Creating(1), Finished, Failed, 1),
     LateState(Shared(1, true, 5), GivingUp(0, 1, 11), Finished, Failed, 2),
     LateState(Shared(1, true, 5), GivingUp(1, 1, 11), Finished, Failed, 2),
     LateState(Shared(1, true, 5), Returned(true, 11), Finished, Failed, 2)]
  }

  /** The item fails with 5 and cancels, then a thread cannot be created for error 11: 11 is reported. */
  lemma {:induction false} LaterCodeReported()
    ensures IsRun(LateConfig(), LateRun()) && |LateRun()| == 8
    ensures LateRun()[7].starter == Returned(true, 11) && LateRun()[7].sh.errorcode == 5
  {
    var c, run := LateConfig(), LateRun();
    assert seq(3, _ => Idle) == [Idle, Idle, Idle] && seq(1, _ => Waiting) == [Waiting];
    assert run[0] == Init(c);
    assert Start(c, run[0], run[1], 0);
    assert Ask(c, run[1], run[2], 0);
    assert Complete(c, run[2], run[3], 0);
    assert Stop(run[3], run[4], 0);
    assert Start(c, run[4], run[5], 11);
    assert Start(c, run[5], run[6], 0);
    assert Start(c, run[6], run[7], 0);
    forall k: nat | k + 1 < |run|
      ensures StepAt(c, run, k)
    {
    }
  }

  // ---------- every run ends ----------

  function Rank(th: Thread): nat {
    match th
    case Idle => 2
    case Asking => 1
    case Working(_) => 3
    case Failing(_) => 2
    case Finished => 0
  }

  ghost function Ranks(ts: seq<Thread>): nat {
    if ts == [] then 0 else Ranks(ts[..|ts| - 1]) + Rank(ts[|ts| - 1])
  }

  ghost function StarterRank(c: Config, m: Starter): nat {
    match m
    case Creating(k) => 2 * c.t + 3 - Min(k, c.t)
    case Running => c.t + 2
    case Joining(k) => c.t + 1 - Min(k, c.t)
    case GivingUp(k, _, _) => c.t + 1 - Min(k, c.t)
    case Returned(_, _) => 0
  }

  ghost function Measure(c: Config, s: Pool): int {
    3 * (c.n - s.sh.current) + Ranks(s.threads) + StarterRank(c, s.starter)
  }

  lemma {:induction false} RanksUpdate(ts: seq<Thread>, i: nat, th: Thread)
    requires i < |ts|
    ensures Ranks(ts[i := th]) == Ranks(ts) - Rank(ts[i]) + Rank(th)
  {
    var n := |ts| - 1;
    if i < n {
      RanksUpdate(ts[..n], i, th);
      assert ts[i := th][..n] == ts[..n][i := th];
    } else {
      assert ts[i := th][..n] == ts[..n];
    }
  }

  lemma {:induction false} AskDrops(c: Config, s: Pool, s': Pool, i: nat)
    requires Ask(c, s, s', i)
    ensures Measure(c, s') < Measure(c, s)
  {
    RanksUpdate(s.threads, i, s'.threads[i]);
  }

  lemma {:induction false} CompleteDrops(c: Config, s: Pool, s': Pool, i: nat)
    requires Complete(c, s, s', i)
    ensures Measure(c, s') < Measure(c, s)
  {
    RanksUpdate(s.threads, i, s'.threads[i]);
  }

  lemma {:induction false} StopDrops(c: Config, s: Pool, s': Pool, i: nat)
    requires Stop(s, s', i)
    ensures Measure(c, s') < Measure(c, s)
  {
    RanksUpdate(s.threads, i, Finished);
  }

  lemma {:induction false} StartDrops(c: Config, s: Pool, s': Pool, code: int)
    requires Sized(c, s) && StarterOk(c, s) && Start(c, s, s', code)
    ensures Measure(c, s') < Measure(c, s)
  {
    match s.starter {
      case Creating(k) => RanksUpdate(s.threads, k, Asking);
      case _ =>
    }
  }

  lemma {:induction false} MeasureDrops(c: Config, s: Pool, s': Pool)
    requires Inv(c, s) && Next(c, s, s')
    ensures Measure(c, s') < Measure(c, s)
  {
    if i: nat :| Ask(c, s, s', i) {
      AskDrops(c, s, s', i);
    } else if i: nat :| Complete(c, s, s', i) {
      CompleteDrops(c, s, s', i);
    } else if i: nat :| Stop(s, s', i) {
      StopDrops(c, s, s', i);
    } else {
      var code :| Start(c, s, s', code);
      StartDrops(c, s, s', code);
    }
  }

  lemma {:induction false} RunMeasure(c: Config, run: seq<Pool>, k: nat)
    requires IsRun(c, run) && k < |run|
    ensures Measure(c, run[k]) + k <= Measure(c, Init(c))
  {
    if k > 0 {
      RunMeasure(c, run, k - 1);
      RunInv(c, run, k - 1);
      assert StepAt(c, run, k - 1);
      MeasureDrops(c, run[k - 1], run[k]);
    }
  }

  lemma {:induction false} IdleRanks(n: nat)
    ensures Ranks(seq(n, _ => Idle)) == 2 * n
  {
    if n > 0 {
      IdleRanks(n - 1);
      assert seq(n, _ => Idle)[..n - 1] == seq(n - 1, _ => Idle);
    }
  }

  /** No run is longer than this. */
  lemma {:induction false} RunsEnd(c: Config, run: seq<Pool>)
    requires IsRun(c, run)
    ensures |run| <= 3 * c.n + 4 * c.t + 6
  {
    var k := |run| - 1;
    RunMeasure(c, run, k);
    RunInv(c, run, k);
    IdleRanks(c.t + 1);
  }

  lemma {:induction false} ThreadMoves(c: Config, s: Pool, i: nat) returns (s': Pool)
    requires Inv(c, s) && i < |s.threads| && !s.threads[i].Idle? && !s.threads[i].Finished?
    ensures Next(c, s, s')
  {
    match s.threads[i] {
      case Asking =>
        s' := match Handed(s.sh, c.n)
          case None => Move(s, i, Finished)
          case Some(k) => Move(s, i, Working(k)).(sh := Taken(s.sh, c.n), items := s.items[k := InHand(i)]);
        assert Ask(c, s, s', i);
      case Working(k) =>
        s' := if !c.fails(k) then Move(s, i, Asking).(items := s.items[k := Succeeded])
              else Move(s, i, Failing(c.errno(k))).(items := s.items[k := Failed], failures := s.failures + 1);
        assert Complete(c, s, s', i);
      case Failing(code) =>
        s' := Move(s, i, Finished).(sh := Cancelled(s.sh, code));
        assert Stop(s, s', i);
    }
  }

  /** There is no deadlock: until the call returns, some thread can go on. */
  lemma {:induction false} NoDeadlock(c: Config, run: seq<Pool>, k: nat) returns (s': Pool)
    requires IsRun(c, run) && k < |run| && !run[k].starter.Returned?
    ensures Next(c, run[k], s')
  {
    RunInv(c, run, k);
    var s := run[k];
    match s.starter {
      case Creating(j) =>
        s' := if j < c.t then Move(s, j, Asking).(starter := Creating(j + 1)) else
          Move(s, c.t, Asking).(starter := Running);
        assert Start(c, s, s', 0);
      case Running =>
        if s.threads[c.t].Finished? {
          s' := s.(starter := Joining(0));
          assert Start(c, s, s', 0);
        } else {
          s' := ThreadMoves(c, s, c.t);
        }
      case Joining(j) =>
        if j < c.t && !s.threads[j].Finished? {
          s' := ThreadMoves(c, s, j);
        } else {
          s' := if j < c.t then s.(starter := Joining(j + 1)) else s.(starter := Returned(s.sh.cancel, s.sh.errorcode));
          assert Start(c, s, s', 0);
        }
      case GivingUp(j, made, e) =>
        if j < made && !s.threads[j].Finished? {
          s' := ThreadMoves(c, s, j);
        } else {
          s' := if j < made then s.(starter := GivingUp(j + 1, made, e)) else s.(starter := Returned(true, e));
          assert Start(c, s, s', 0);
        }
    }
  }
}
