/** Fork and join in parlib.h and parlib.c as a step system: a master that hands work to its
    workers through one ring each and wakes those that may sleep, and a barrier they all meet at.
    Rounds repeat without bound; every interleaving of shared-memory accesses is allowed.

    A ring is the queue it stands for.  cos_ainv_wait and cos_ainv_send are a counting semaphore:
    `pend` for a worker, `bar` for the master's barrier wake-up. */
module Parlib {

  datatype WorkerPc =
    | Starting      // about to set the active flag for the first time
    | Clearing      // about to clear the active flag
    | Polling       // about to dequeue
    | Sleeping      // in cos_ainv_wait
    | Rousing       // has an invocation, about to set the active flag
    | Running       // about to run it
    | Arriving      // has run it, about to fetch-and-add `finished`
    | Posting       // was the last to arrive, about to send the barrier wake-up

  /** `blocks` says whether the worker sleeps (acap > 0) or spins on its ring.
      `sent`, `ran` and `arrived` record its history and influence nothing. */
  datatype Worker<V> = Worker(pc: WorkerPc, blocks: bool, active: bool, pend: nat, ring: seq<V>, cur: seq<V>,
                              sent: seq<V>, ran: seq<V>, arrived: nat)

  datatype MasterPc<V> =
    | Serial                       // between parallel sections
    | Sending(v: V, i: nat)        // parallel_send: about to enqueue for worker i
    | Checking(v: V, i: nat)       // enqueued; about to look at the worker's active flag
    | Waking(v: V, i: nat)         // saw it inactive; about to send
    | Working                      // doing its own share
    | Joining                      // about to fetch-and-add `finished` in ainv_parallel_end
    | Waiting                      // in the barrier

  /** `barBlocks` says whether the master sleeps in the barrier (wait_acap > 0) or spins on `finished`. */
  datatype State<V> = State(ws: seq<Worker<V>>, m: MasterPc<V>, finished: nat, bar: nat, barBlocks: bool, round: nat)

  datatype Step<V> =
    | Fork(v: V)       // parallel_create: reset `finished`
    | MasterStep
    | WorkerStep(i: nat)

  function NCpu(s: State): nat {
    |s.ws| + 1
  }

  predicate Enabled<V>(s: State<V>, step: Step<V>) {
    match step
    case Fork(_) => s.m.Serial?
    case MasterStep =>
      (match s.m
       case Serial => false
       case Sending(_, i) => i <= |s.ws|
       case Checking(_, i) => i < |s.ws|
       case Waking(_, i) => i < |s.ws|
       case Waiting => if s.barBlocks then s.bar > 0 else s.finished >= NCpu(s)
       case _ => true)
    case WorkerStep(i) => i < |s.ws| && (s.ws[i].pc.Sleeping? ==> s.ws[i].pend > 0)
  }

  function AfterJoin<V>(s: State<V>, ret: nat): MasterPc<V> {
    if ret < NCpu(s) - 1 then Waiting else Serial
  }

  function ApplyMaster<V>(s: State<V>): State<V>
    requires Enabled(s, MasterStep)
  {
    match s.m
    case Sending(v, i) =>
      if i == |s.ws| then s.(m := Working)
      else s.(ws := s.ws[i := s.ws[i].(ring := s.ws[i].ring + [v], sent := s.ws[i].sent + [v])], m := Checking(v, i))
    case Checking(v, i) =>
      s.(m := if s.ws[i].active || !s.ws[i].blocks then Sending(v, i + 1) else Waking(v, i))
    case Waking(v, i) => s.(ws := s.ws[i := s.ws[i].(pend := s.ws[i].pend + 1)], m := Sending(v, i + 1))
    case Working => s.(m := Joining)
    case Joining =>
      if |s.ws| == 0 then s.(m := Serial)
      else s.(finished := s.finished + 1, m := AfterJoin(s, s.finished))
    case Waiting => s.(bar := if s.barBlocks then s.bar - 1 else s.bar, m := Serial)
  }

  /** One turn of a worker's loop; `last` says that its fetch-and-add completes the barrier. */
  function Turn<V>(w: Worker<V>, last: bool): Worker<V>
    requires w.pc.Sleeping? ==> w.pend > 0
  {
    var again := if w.blocks then Clearing else Polling;
    match w.pc
    case Starting => w.(active := true, pc := again)
    case Clearing => w.(active := false, pc := Polling)
    case Polling =>
      if |w.ring| == 0 then w.(pc := if w.blocks then Sleeping else Polling)
      else w.(cur := [w.ring[0]], ring := w.ring[1..], pc := if w.blocks then Rousing else Running)
    case Sleeping => w.(pend := w.pend - 1, pc := Polling)
    case Rousing => w.(active := true, pc := Running)
    case Running => w.(ran := w.ran + w.cur, cur := [], pc := Arriving)
    case Arriving => w.(arrived := w.arrived + 1, pc := if last then Posting else again)
    case Posting => w.(pc := again)
  }

  function ApplyWorker<V>(s: State<V>, i: nat): State<V>
    requires Enabled(s, WorkerStep(i))
  {
    var w := s.ws[i];
    var last := s.barBlocks && s.finished == NCpu(s) - 1;
    s.(ws := s.ws[i := Turn(w, last)],
       finished := if w.pc.Arriving? then s.finished + 1 else s.finished,
       bar := if w.pc.Posting? then s.bar + 1 else s.bar)
  }

  function Apply<V>(s: State<V>, step: Step<V>): State<V>
    requires Enabled(s, step)
  {
    match step
    case Fork(v) => s.(finished := 0, m := if |s.ws| > 0 then Sending(v, 0) else Working, round := s.round + 1)
    case MasterStep => ApplyMaster(s)
    case WorkerStep(i) => ApplyWorker(s, i)
  }

  // What every interleaving keeps

  /** Invocations handed to the worker for which it has not yet arrived at the barrier. */
  function Owed<V>(w: Worker<V>): nat {
    |w.ring| + if w.pc.Rousing? || w.pc.Running? || w.pc.Arriving? then 1 else 0
  }

  function Tally<V>(ws: seq<Worker<V>>, f: Worker<V> -> nat): nat {
    if ws == [] then 0 else f(ws[0]) + Tally(ws[1..], f)
  }

  function Quit<V>(): Worker<V> -> nat {
    (w: Worker<V>) => if Owed(w) == 0 then 1 else 0
  }

  function Posts<V>(): Worker<V> -> nat {
    (w: Worker<V>) => if w.pc.Posting? then 1 else 0
  }

  lemma TallyUpdate<V>(ws: seq<Worker<V>>, f: Worker<V> -> nat, i: nat, w: Worker<V>)
    requires i < |ws|
    ensures Tally(ws[i := w], f) == Tally(ws, f) - f(ws[i]) + f(w)
  {
    if i > 0 {
      assert ws[i := w][1..] == ws[1..][i - 1 := w];
      TallyUpdate(ws[1..], f, i - 1, w);
    }
  }

  lemma {:induction false} TallyAll<V>(ws: seq<Worker<V>>, f: Worker<V> -> nat)
    requires forall w :: w in ws ==> f(w) <= 1
    ensures Tally(ws, f) <= |ws|
    ensures Tally(ws, f) == |ws| ==> forall w :: w in ws ==> f(w) == 1
    ensures Tally(ws, f) == 0 ==> forall w :: w in ws ==> f(w) == 0
  {
    if ws != [] {
      assert ws == [ws[0]] + ws[1..];
      TallyAll(ws[1..], f);
    }
  }

  /** How many workers have been handed this round's invocation. */
  function Reached<V>(s: State<V>): nat {
    match s.m
    case Serial => |s.ws|
    case Sending(_, i) => i
    case Checking(_, i) => i + 1
    case Waking(_, i) => i + 1
    case _ => |s.ws|
  }

  /** The worker needs no wake-up to get to its next invocation. */
  ghost predicate Awake<V>(w: Worker<V>) {
    if w.blocks then w.pc.Clearing? || w.pc.Running? || w.pc.Arriving? || w.pc.Posting? else !w.pc.Starting?
  }

  /** Nothing handed to a worker is lost, duplicated or reordered, and its active flag is up exactly
      while it is awake: a worker that may fall asleep has first cleared it. */
  ghost predicate Intact<V>(w: Worker<V>) {
    && w.sent == w.ran + w.cur + w.ring && |w.sent| == w.arrived + Owed(w)
    && |w.cur| == (if w.pc.Rousing? || w.pc.Running? then 1 else 0)
    && (!w.blocks ==> !w.pc.Clearing? && !w.pc.Sleeping? && !w.pc.Rousing?)
    && w.active == Awake(w)
  }

  /** A worker has been handed one invocation per round, and is at most one behind. */
  ghost predicate InRound<V>(w: Worker<V>, reached: bool, round: int) {
    |w.sent| == (if reached then round else round - 1) && round - 1 <= w.arrived
  }

  /** A worker never sleeps on a non-empty ring unless a wake-up is pending, or the master is about
      to find it inactive and send one. */
  ghost predicate WillWake<V>(w: Worker<V>, i: nat, m: MasterPc<V>) {
    w.pc.Sleeping? && |w.ring| > 0 ==> w.pend > 0 || ((m.Checking? || m.Waking?) && m.i == i)
  }

  ghost predicate WorkerOk<V>(s: State<V>, i: nat)
    requires i < |s.ws|
  {
    Intact(s.ws[i]) && InRound(s.ws[i], i < Reached(s), s.round) && WillWake(s.ws[i], i, s.m)
  }

  lemma TurnKeepsIntact<V>(w: Worker<V>, last: bool)
    requires Intact(w) && (w.pc.Sleeping? ==> w.pend > 0)
    ensures Intact(Turn(w, last)) && Turn(w, last).sent == w.sent && w.arrived <= Turn(w, last).arrived
    ensures Owed(Turn(w, last)) == if w.pc.Arriving? then Owed(w) - 1 else Owed(w)
  {
    if w.pc.Polling? && |w.ring| > 0 {
      assert w.ring == [w.ring[0]] + w.ring[1..];
      assert w.ran + w.cur + w.ring == w.ran + [w.ring[0]] + w.ring[1..];
    }
  }

  /** The barrier: `finished` counts those who have arrived this round, all have arrived between
      rounds, and a wake-up for the master is posted or about to be exactly when it waits for one. */
  ghost predicate BarrierOk<V>(s: State<V>) {
    var quit, posts := Tally(s.ws, Quit()), Tally(s.ws, Posts());
    && (match s.m
        case Serial => quit == |s.ws|
        case Waiting => s.finished == quit + 1
        case Sending(_, i) => i <= |s.ws| && s.finished == quit + i - |s.ws|
        case Checking(_, i) => i < |s.ws| && s.finished == quit + i + 1 - |s.ws|
        case Waking(_, i) => i < |s.ws| && s.finished == quit + i + 1 - |s.ws|
        case _ => s.finished == quit)
    && (!s.m.Serial? ==> s.round > 0)
    && s.bar + posts == if s.m.Waiting? && s.barBlocks && s.finished == NCpu(s) then 1 else 0
  }

  ghost predicate Inv<V(!new)>(s: State<V>) {
    && (forall i: nat {:trigger WorkerOk(s, i)} :: i < |s.ws| ==> WorkerOk(s, i))
    && BarrierOk(s)
  }

  ghost predicate Initial<V>(s: State<V>) {
    && s.m.Serial? && s.round == 0 && s.bar == 0
    && (forall i :: 0 <= i < |s.ws| ==>
         var w := s.ws[i];
         w.pc.Starting? && !w.active && w.ring == w.cur == w.sent == w.ran == [] && w.arrived == 0)
  }

  lemma InitialTally<V>(ws: seq<Worker<V>>)
    requires forall w :: w in ws ==> w.pc.Starting? && w.ring == []
    ensures Tally(ws, Quit()) == |ws| && Tally(ws, Posts()) == 0
  {
    if ws != [] {
      assert ws == [ws[0]] + ws[1..];
      InitialTally(ws[1..]);
    }
  }

  lemma InitialInv<V(!new)>(s: State<V>)
    requires Initial(s)
    ensures Inv(s)
  {
    InitialTally(s.ws);
    forall i: nat | i < |s.ws| ensures WorkerOk(s, i) {}
  }

  /** Everyone has arrived exactly when no worker owes anything. */
  lemma AllQuit<V(!new)>(s: State<V>)
    requires forall i: nat {:trigger WorkerOk(s, i)} :: i < |s.ws| ==> WorkerOk(s, i)
    ensures Tally(s.ws, Quit()) <= |s.ws|
    ensures Tally(s.ws, Quit()) == |s.ws| ==> forall i :: 0 <= i < |s.ws| ==> Owed(s.ws[i]) == 0
  {
    TallyAll(s.ws, Quit());
    assert forall i :: 0 <= i < |s.ws| ==> s.ws[i] in s.ws;
  }

  lemma ForkKeepsInv<V(!new)>(s: State<V>, v: V)
    requires Inv(s) && s.m.Serial?
    ensures Inv(Apply(s, Fork(v)))
  {
    var s' := Apply(s, Fork(v));
    AllQuit(s);
    forall i: nat | i < |s'.ws| ensures WorkerOk(s', i) {
      assert WorkerOk(s, i);
    }
  }

  lemma MasterKeepsWorker<V(!new)>(s: State<V>, i: nat)
    requires Enabled(s, MasterStep) && BarrierOk(s) && i < |s.ws| && WorkerOk(s, i)
    requires s.m.Waiting? || s.m.Joining? ==> ApplyMaster(s).m.Serial? ==> Owed(s.ws[i]) == 0
    ensures WorkerOk(ApplyMaster(s), i)
  {
  }

  /** Handing out an invocation makes one worker owe it. */
  lemma MasterTallies<V(!new)>(s: State<V>)
    requires Inv(s) && Enabled(s, MasterStep)
    ensures Tally(ApplyMaster(s).ws, Posts()) == Tally(s.ws, Posts())
    ensures Tally(ApplyMaster(s).ws, Quit()) ==
      Tally(s.ws, Quit()) - if s.m.Sending? && s.m.i < |s.ws| then 1 else 0
  {
    var s' := ApplyMaster(s);
    if (s.m.Sending? || s.m.Waking?) && s.m.i < |s.ws| {
      assert WorkerOk(s, s.m.i);
      TallyUpdate(s.ws, Quit(), s.m.i, s'.ws[s.m.i]);
      TallyUpdate(s.ws, Posts(), s.m.i, s'.ws[s.m.i]);
    }
  }

  lemma MasterKeepsBarrier<V(!new)>(s: State<V>)
    requires Inv(s) && Enabled(s, MasterStep)
    ensures BarrierOk(ApplyMaster(s))
    ensures (s.m.Waiting? || s.m.Joining?) && ApplyMaster(s).m.Serial? ==> Tally(s.ws, Quit()) == |s.ws|
  {
    AllQuit(s);
    MasterTallies(s);
  }

  lemma MasterKeepsInv<V(!new)>(s: State<V>)
    requires Inv(s) && Enabled(s, MasterStep)
    ensures Inv(ApplyMaster(s))
  {
    MasterKeepsBarrier(s);
    AllQuit(s);
    forall i: nat | i < |s.ws| ensures WorkerOk(ApplyMaster(s), i) {
      assert WorkerOk(s, i);
      MasterKeepsWorker(s, i);
    }
  }

  lemma WorkerKeepsItself<V(!new)>(s: State<V>, i: nat)
    requires Enabled(s, WorkerStep(i)) && WorkerOk(s, i)
    ensures WorkerOk(ApplyWorker(s, i), i)
  {
    TurnKeepsIntact(s.ws[i], s.barBlocks && s.finished == NCpu(s) - 1);
  }

  lemma WorkerKeepsBarrier<V(!new)>(s: State<V>, i: nat)
    requires Enabled(s, WorkerStep(i)) && BarrierOk(s) && WorkerOk(s, i) && Tally(s.ws, Quit()) <= |s.ws|
    requires Owed(s.ws[i]) > 0 ==> Tally(s.ws, Quit()) < |s.ws|
    ensures BarrierOk(ApplyWorker(s, i))
  {
    var s' := ApplyWorker(s, i);
    TurnKeepsIntact(s.ws[i], s.barBlocks && s.finished == NCpu(s) - 1);
    TallyUpdate(s.ws, Quit(), i, s'.ws[i]);
    TallyUpdate(s.ws, Posts(), i, s'.ws[i]);
  }

  lemma WorkerKeepsInv<V(!new)>(s: State<V>, i: nat)
    requires Inv(s) && Enabled(s, WorkerStep(i))
    ensures Inv(ApplyWorker(s, i))
  {
    var s' := ApplyWorker(s, i);
    assert WorkerOk(s, i);
    AllQuit(s);
    WorkerKeepsBarrier(s, i);
    forall j: nat | j < |s'.ws| ensures WorkerOk(s', j) {
      assert WorkerOk(s, j);
      if j == i {
        WorkerKeepsItself(s, i);
      } else {
        WorkerKeepsOther(s, i, j);
      }
    }
  }

  lemma WorkerKeepsOther<V(!new)>(s: State<V>, i: nat, j: nat)
    requires Enabled(s, WorkerStep(i)) && j < |s.ws| && j != i && WorkerOk(s, j)
    ensures WorkerOk(ApplyWorker(s, i), j)
  {
  }

  lemma StepKeepsInv<V(!new)>(s: State<V>, step: Step<V>)
    requires Inv(s) && Enabled(s, step)
    ensures Inv(Apply(s, step))
  {
    match step
    case Fork(v) => ForkKeepsInv(s, v);
    case MasterStep => MasterKeepsInv(s);
    case WorkerStep(i) => WorkerKeepsInv(s, i);
  }

  predicate Possible<V>(s: State<V>, steps: seq<Step<V>>)
    decreases |steps|
  {
    steps == [] || (Enabled(s, steps[0]) && Possible(Apply(s, steps[0]), steps[1..]))
  }

  function Run<V>(s: State<V>, steps: seq<Step<V>>): State<V>
    requires Possible(s, steps)
    decreases |steps|
  {
    if steps == [] then s else Run(Apply(s, steps[0]), steps[1..])
  }

  /** In every run, over any number of rounds: no worker sleeps on work without a wake-up under way,
      each worker has run what it was sent in order and holds at most one invocation more, and
      between rounds there is neither unfinished work nor a barrier wake-up left over. */
  lemma {:induction false} RunIsSafe<V(!new)>(s: State<V>, steps: seq<Step<V>>)
    requires Inv(s) && Possible(s, steps)
    ensures var s' := Run(s, steps);
      && Inv(s')
      && (forall i: nat :: i < |s'.ws| ==>
           WillWake(s'.ws[i], i, s'.m) && s'.ws[i].ran <= s'.ws[i].sent && Owed(s'.ws[i]) <= 1)
      && (s'.m.Serial? ==> s'.bar == 0 && forall i :: 0 <= i < |s'.ws| ==>
           s'.ws[i].ran == s'.ws[i].sent && |s'.ws[i].ran| == s'.ws[i].arrived == s'.round && !s'.ws[i].pc.Posting?)
    decreases |steps|
  {
    if steps == [] {
      InvIsSafe(s);
    } else {
      StepKeepsInv(s, steps[0]);
      RunIsSafe(Apply(s, steps[0]), steps[1..]);
    }
  }

  lemma InvIsSafe<V(!new)>(s: State<V>)
    requires Inv(s)
    ensures forall i: nat :: i < |s.ws| ==>
      WillWake(s.ws[i], i, s.m) && s.ws[i].ran <= s.ws[i].sent && Owed(s.ws[i]) <= 1
    ensures s.m.Serial? ==> s.bar == 0 && forall i :: 0 <= i < |s.ws| ==>
      s.ws[i].ran == s.ws[i].sent && |s.ws[i].ran| == s.ws[i].arrived == s.round && !s.ws[i].pc.Posting?
  {
    AllQuit(s);
    TallyAll(s.ws, Posts());
    forall i: nat | i < |s.ws|
      ensures WillWake(s.ws[i], i, s.m) && s.ws[i].ran <= s.ws[i].sent && Owed(s.ws[i]) <= 1
      ensures s.m.Serial? ==> s.ws[i].ran == s.ws[i].sent && |s.ws[i].ran| == s.ws[i].arrived == s.round
    {
      assert WorkerOk(s, i);
    }
    assert forall i :: 0 <= i < |s.ws| ==> s.ws[i] in s.ws;
  }

  // What the workers run

  /** The invocations that a run forks. */
  function Forked<V>(steps: seq<Step<V>>): seq<V> {
    if steps == [] then [] else ForkedBy(steps[0]) + Forked(steps[1..])
  }

  function ForkedBy<V>(step: Step<V>): seq<V> {
    if step.Fork? then [step.v] else []
  }

  /** `vs` are the invocations forked so far: the master is handing out the last of them, and each
      worker has been sent all of them, or all but the last if its turn is still to come. */
  ghost predicate Sent<V>(s: State<V>, vs: seq<V>) {
    && (!s.m.Serial? ==> vs != [])
    && (s.m.Sending? || s.m.Checking? || s.m.Waking? ==> s.m.v == vs[|vs| - 1] && s.m.i <= |s.ws|)
    && forall i: nat {:trigger s.ws[i]} :: i < |s.ws| ==> SentTo(s.ws[i], i < Reached(s), vs)
  }

  ghost predicate SentTo<V>(w: Worker<V>, reached: bool, vs: seq<V>) {
    if reached then w.sent == vs else vs != [] && w.sent == vs[..|vs| - 1]
  }

  lemma ForkSends<V>(s: State<V>, vs: seq<V>, v: V)
    requires Sent(s, vs) && s.m.Serial?
    ensures Sent(Apply(s, Fork(v)), vs + [v])
  {
    var s', us := Apply(s, Fork(v)), vs + [v];
    assert us[..|us| - 1] == vs;
    forall i: nat | i < |s'.ws| ensures SentTo(s'.ws[i], i < Reached(s'), us) {
      assert SentTo(s.ws[i], i < Reached(s), vs);
    }
  }

  lemma MasterSends<V>(s: State<V>, vs: seq<V>)
    requires Sent(s, vs) && Enabled(s, MasterStep)
    ensures Sent(ApplyMaster(s), vs)
  {
    var s' := ApplyMaster(s);
    assert vs == vs[..|vs| - 1] + [vs[|vs| - 1]];
    forall i: nat | i < |s'.ws| ensures SentTo(s'.ws[i], i < Reached(s'), vs) {
      assert SentTo(s.ws[i], i < Reached(s), vs);
    }
  }

  lemma WorkerSends<V>(s: State<V>, vs: seq<V>, j: nat)
    requires Sent(s, vs) && Enabled(s, WorkerStep(j))
    ensures Sent(ApplyWorker(s, j), vs)
  {
    var s' := ApplyWorker(s, j);
    forall i: nat | i < |s'.ws| ensures SentTo(s'.ws[i], i < Reached(s'), vs) {
      assert SentTo(s.ws[i], i < Reached(s), vs);
    }
  }

  /** In every run each worker is sent exactly what is forked, in order. */
  lemma {:induction false} RunSends<V(!new)>(s: State<V>, vs: seq<V>, steps: seq<Step<V>>)
    requires Sent(s, vs) && Possible(s, steps)
    ensures Sent(Run(s, steps), vs + Forked(steps))
    decreases |steps|
  {
    if steps == [] {
      assert vs + [] == vs;
    } else {
      StepSends(s, vs, steps[0]);
      RunSends(Apply(s, steps[0]), vs + ForkedBy(steps[0]), steps[1..]);
      Regroup(vs, ForkedBy(steps[0]), Forked(steps[1..]));
    }
  }

  lemma StepSends<V>(s: State<V>, vs: seq<V>, step: Step<V>)
    requires Sent(s, vs) && Enabled(s, step)
    ensures Sent(Apply(s, step), vs + ForkedBy(step))
  {
    assert vs + [] == vs;
    match step
    case Fork(v) => ForkSends(s, vs, v);
    case MasterStep => MasterSends(s, vs);
    case WorkerStep(j) => WorkerSends(s, vs, j);
  }

  lemma Regroup<V>(a: seq<V>, b: seq<V>, c: seq<V>)
    ensures a + b + c == a + (b + c)
  {
  }

  /** From the start, every worker has run a prefix of what was forked, lagging by one at most, and
      in the serial part it has run exactly what was forked. */
  lemma RunRunsForked<V(!new)>(s: State<V>, steps: seq<Step<V>>, i: nat)
    requires Initial(s) && Possible(s, steps) && i < |s.ws|
    ensures var s', vs := Run(s, steps), Forked(steps);
      && |s'.ws| == |s.ws| && s'.ws[i].ran <= vs && |vs| <= |s'.ws[i].ran| + 1
      && (s'.m.Serial? ==> s'.ws[i].ran == vs)
  {
    InitialInv(s);
    RunIsSafe(s, steps);
    RunSends(s, [], steps);
    RunWorkers(s, steps);
    var s', vs := Run(s, steps), Forked(steps);
    assert [] + vs == vs;
    assert SentTo(s'.ws[i], i < Reached(s'), vs);
    assert WorkerOk(s', i);
    LagsByOne(s'.ws[i], i < Reached(s'), vs, s'.round);
  }

  lemma LagsByOne<V>(w: Worker<V>, reached: bool, vs: seq<V>, round: int)
    requires Intact(w) && InRound(w, reached, round) && SentTo(w, reached, vs)
    ensures w.ran <= vs && |vs| <= |w.ran| + 1
  {
    assert w.sent == w.ran + (w.cur + w.ring);
  }

  lemma {:induction false} RunWorkers<V>(s: State<V>, steps: seq<Step<V>>)
    requires Possible(s, steps)
    ensures |Run(s, steps).ws| == |s.ws|
    decreases |steps|
  {
    if steps != [] {
      RunWorkers(Apply(s, steps[0]), steps[1..]);
    }
  }

  /** A wake-up is sent exactly to a worker that may sleep and is not awake; any other worker polls its
      ring again before it can sleep. */
  lemma WakesIdle<V(!new)>(s: State<V>)
    requires Inv(s) && s.m.Checking? && Enabled(s, MasterStep)
    ensures var w := s.ws[s.m.i];
      && (ApplyMaster(s).m.Waking? <==> w.blocks && !Awake(w))
      && (!ApplyMaster(s).m.Waking? ==> !w.pc.Sleeping? && (w.blocks ==> !w.pc.Polling?))
  {
    assert WorkerOk(s, s.m.i);
  }

  /** The master leaves the barrier only once every worker has arrived in this round, having run
      this round's invocation. */
  lemma JoinIsComplete<V(!new)>(s: State<V>)
    requires Inv(s) && Enabled(s, MasterStep) && ApplyMaster(s).m.Serial?
    ensures forall i :: 0 <= i < |s.ws| ==> s.ws[i].arrived == s.round && s.ws[i].ran == s.ws[i].sent
  {
    AllQuit(s);
    MasterKeepsBarrier(s);
    forall i: nat | i < |s.ws| ensures s.ws[i].arrived == s.round && s.ws[i].ran == s.ws[i].sent {
      assert WorkerOk(s, i);
    }
  }

  /** Exactly one barrier wake-up is sent in a round in which the master sleeps, and only then. */
  lemma OneBarrierWakeup<V(!new)>(s: State<V>, i: nat)
    requires Inv(s) && i < |s.ws| && s.ws[i].pc.Posting?
    ensures s.m.Waiting? && s.barBlocks && s.bar == 0 && s.finished == NCpu(s)
    ensures forall j :: 0 <= j < |s.ws| && s.ws[j].pc.Posting? ==> j == i
  {
    TwoTally(s.ws, Posts(), i, i);
    forall j: nat | j < |s.ws| && s.ws[j].pc.Posting? ensures j == i {
      TwoTally(s.ws, Posts(), i, j);
    }
  }

  lemma {:induction false} TwoTally<V>(ws: seq<Worker<V>>, f: Worker<V> -> nat, i: nat, j: nat)
    requires i < |ws| && j < |ws|
    ensures Tally(ws, f) >= if i == j then f(ws[i]) else f(ws[i]) + f(ws[j])
  {
    if i > 0 && j > 0 {
      TwoTally(ws[1..], f, i - 1, j - 1);
    } else if i > 0 {
      TwoTally(ws[1..], f, i - 1, i - 1);
    } else if j > 0 {
      TwoTally(ws[1..], f, j - 1, j - 1);
    }
  }

  /** A worker that spins on an empty ring. */
  predicate Spins<V>(s: State<V>, step: Step<V>) {
    step.WorkerStep? && step.i < |s.ws| && s.ws[step.i].pc.Polling? && s.ws[step.i].ring == [] && !s.ws[step.i].blocks
  }

  /** A step of the section under way that gets somewhere. */
  predicate Busy<V>(s: State<V>, step: Step<V>) {
    Enabled(s, step) && !step.Fork? && !Spins(s, step)
  }

  /** A parallel section never gets stuck: the master can step, or a worker that still owes an
      invocation or the barrier wake-up can, and it does not merely spin. */
  lemma NeverStuck<V(!new)>(s: State<V>) returns (step: Step<V>)
    requires Inv(s) && !s.m.Serial?
    ensures Busy(s, step)
    ensures step.MasterStep? || (Owed(s.ws[step.i]) > 0 || s.ws[step.i].pc.Posting?)
  {
    step := MasterStep;
    if !Enabled(s, MasterStep) {
      assert s.m.Waiting?;
      AllQuit(s);
      var i: nat;
      if s.finished == NCpu(s) {
        i := Witness(s.ws, Posts());
      } else {
        i := Laggard(s.ws);
        assert WorkerOk(s, i);
      }
      step := WorkerStep(i);
    }
  }

  // How long a section lasts

  function PcRank(pc: WorkerPc): nat {
    match pc
    case Sleeping => 0
    case Polling => 1
    case Clearing => 2
    case Starting | Posting => 3
    case Arriving => 4
    case Running => 5
    case Rousing => 6
  }

  /** The steps a worker can take on its own, bounded. */
  function WorkerRank<V>(w: Worker<V>): nat {
    6 * |w.ring| + 2 * w.pend + PcRank(w.pc)
  }

  function Ranks<V>(): Worker<V> -> nat {
    (w: Worker<V>) => WorkerRank(w)
  }

  /** The steps the master can take before it is serial again, with what it adds to the workers. */
  function MasterRank<V>(m: MasterPc<V>, n: nat): nat {
    match m
    case Serial => 0
    case Waiting => 1
    case Joining => 2
    case Working => 3
    case Sending(_, i) => if i <= n then 4 + 11 * (n - i) else 4
    case Checking(_, i) => if i < n then 8 + 11 * (n - i - 1) else 8
    case Waking(_, i) => if i < n then 7 + 11 * (n - i - 1) else 7
  }

  function Rank<V>(s: State<V>): nat {
    MasterRank(s.m, |s.ws|) + Tally(s.ws, Ranks())
  }

  lemma MasterGetsOn<V>(s: State<V>)
    requires Enabled(s, MasterStep)
    ensures Rank(ApplyMaster(s)) < Rank(s)
  {
    var s' := ApplyMaster(s);
    if (s.m.Sending? || s.m.Waking?) && s.m.i < |s.ws| {
      TallyUpdate(s.ws, Ranks(), s.m.i, s'.ws[s.m.i]);
    }
  }

  lemma TurnGetsOn<V>(w: Worker<V>, last: bool)
    requires w.pc.Sleeping? ==> w.pend > 0
    requires !(w.pc.Polling? && w.ring == [] && !w.blocks)
    ensures WorkerRank(Turn(w, last)) < WorkerRank(w)
  {
  }

  /** Spinning changes nothing, and every other step but a fork brings the end nearer. */
  lemma StepGetsOn<V>(s: State<V>, step: Step<V>)
    requires Enabled(s, step) && !step.Fork?
    ensures Spins(s, step) ==> Apply(s, step) == s
    ensures !Spins(s, step) ==> Rank(Apply(s, step)) < Rank(s)
  {
    if step.MasterStep? {
      MasterGetsOn(s);
    } else if !Spins(s, step) {
      var s' := ApplyWorker(s, step.i);
      TurnGetsOn(s.ws[step.i], s.barBlocks && s.finished == NCpu(s) - 1);
      TallyUpdate(s.ws, Ranks(), step.i, s'.ws[step.i]);
    }
  }

  /** How many steps of a run get somewhere. */
  function BusySteps<V>(s: State<V>, steps: seq<Step<V>>): nat
    requires Possible(s, steps)
    decreases |steps|
  {
    if steps == [] then 0
    else (if Busy(s, steps[0]) then 1 else 0) + BusySteps(Apply(s, steps[0]), steps[1..])
  }

  /** Whatever the schedule, a section takes at most `Rank` steps besides spinning. */
  lemma {:induction false} SectionEnds<V(!new)>(s: State<V>, steps: seq<Step<V>>)
    requires Possible(s, steps) && forall i :: 0 <= i < |steps| ==> !steps[i].Fork?
    ensures BusySteps(s, steps) + Rank(Run(s, steps)) <= Rank(s)
    decreases |steps|
  {
    if steps != [] {
      StepGetsOn(s, steps[0]);
      SectionEnds(Apply(s, steps[0]), steps[1..]);
    }
  }

  /** With `NeverStuck`: from every reachable state a run leads back to the serial part. */
  lemma {:induction false} SectionCompletes<V(!new)>(s: State<V>) returns (steps: seq<Step<V>>)
    requires Inv(s)
    ensures Possible(s, steps) && Run(s, steps).m.Serial? && Inv(Run(s, steps))
    ensures |steps| <= Rank(s) && forall i :: 0 <= i < |steps| ==> !steps[i].Fork?
    decreases Rank(s)
  {
    if s.m.Serial? {
      return [];
    }
    var step := NeverStuck(s);
    StepGetsOn(s, step);
    StepKeepsInv(s, step);
    var rest := SectionCompletes(Apply(s, step));
    steps := [step] + rest;
    assert steps[1..] == rest;
  }

  lemma {:induction false} Witness<V>(ws: seq<Worker<V>>, f: Worker<V> -> nat) returns (i: nat)
    requires Tally(ws, f) > 0
    ensures i < |ws| && f(ws[i]) > 0
  {
    if f(ws[0]) > 0 {
      i := 0;
    } else {
      i := Witness(ws[1..], f);
      i := i + 1;
    }
  }

  lemma {:induction false} Laggard<V>(ws: seq<Worker<V>>) returns (i: nat)
    requires Tally(ws, Quit()) < |ws|
    ensures i < |ws| && Owed(ws[i]) > 0
  {
    if Owed(ws[0]) > 0 {
      i := 0;
    } else {
      i := Laggard(ws[1..]);
      i := i + 1;
    }
  }
}
