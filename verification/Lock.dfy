/** The one-word lock of cos_synchronization.h and cos_synchronization.c as a step system: any
    number of threads, each advancing by one access to the lock word at a time.

    The word packs the owner's thread id (0 for none) and a contested flag.  Calls to the lock
    component may succeed or fail; a failed assertion or BUG() ends a thread in `Crashed`. */
module Lock {

  type Tid = t: nat | t > 0 witness 1

  datatype Word = Word(owner: nat, contested: bool)

  const FREE := Word(0, false)

  datatype Pc =
    | Outside                  // not using the lock
    | ReadWord                 // __lock_take, about to load the word
    | TryTake(prev: Word)      // the word was free: about to compare-and-swap in ourselves
    | Pretake(prev: Word)      // lock_take_contention, in lock_component_pretake
    | CheckOwner(prev: Word)   // about to look whether the owner is still the same
    | CheckFlag(prev: Word)    // about to look at the contested flag
    | Contest(prev: Word)      // about to compare-and-swap the flag on
    | Block(prev: Word)        // in lock_component_take
    | Taken                    // took the lock; about to assert that we own it
    | Holding
    | ReadOwned                // __lock_release, about to load the word
    | Drop(prev: Word)         // uncontested: about to compare-and-swap to free
    | DropContested(prev: Word)  // lock_release_contention: the compare-and-swap must succeed
    | Wake                     // in lock_component_release
    | Dropped                  // about to assert that we do not own the lock
    | Crashed

  datatype State = State(word: Word, pcs: map<Tid, Pc>)

  datatype Step =
    | Begin(t: Tid)              // call __lock_take from outside, __lock_release when holding
    | Advance(t: Tid)            // the next access to the word
    | Call(t: Tid, ok: bool)     // a call to the lock component returns

  predicate Enabled(s: State, step: Step) {
    step.t in s.pcs &&
    match s.pcs[step.t]
    case Outside | Holding => step.Begin?
    case Pretake(_) | Block(_) | Wake => step.Call?
    case Crashed => false
    case _ => step.Advance?
  }

  function At(s: State, t: Tid, pc: Pc): State {
    s.(pcs := s.pcs[t := pc])
  }

  function Apply(s: State, step: Step): State
    requires Enabled(s, step)
  {
    var t, w := step.t, s.word;
    match s.pcs[t]
    case Outside => At(s, t, ReadWord)
    case ReadWord =>
      if w.owner == t then At(s, t, Crashed)
      else if w.owner != 0 then At(s, t, Pretake(w))
      else At(s, t, TryTake(w))
    case TryTake(prev) => if w == prev then At(s.(word := Word(t, false)), t, Taken) else At(s, t, ReadWord)
    case Pretake(prev) => At(s, t, if step.ok then CheckOwner(prev) else Outside)
    case CheckOwner(prev) => At(s, t, if w.owner != prev.owner then ReadWord else CheckFlag(prev))
    case CheckFlag(prev) => At(s, t, if w.contested then Block(prev) else Contest(prev))
    case Contest(prev) =>
      if w == prev then At(s.(word := Word(prev.owner, true)), t, Block(prev)) else At(s, t, ReadWord)
    case Block(prev) => At(s, t, if step.ok then ReadWord else Outside)
    case Taken => At(s, t, if w.owner == t then Holding else Crashed)
    case Holding => At(s, t, ReadOwned)
    case ReadOwned =>
      if w.owner != t then At(s, t, Crashed)
      else if w.contested then At(s, t, DropContested(w))
      else At(s, t, Drop(w))
    case Drop(prev) => if w == prev then At(s.(word := FREE), t, Dropped) else At(s, t, ReadOwned)
    case DropContested(prev) => if w == prev then At(s.(word := FREE), t, Wake) else At(s, t, Crashed)
    case Wake => At(s, t, Outside)
    case Dropped => At(s, t, if w.owner != t then Outside else Crashed)
  }

  predicate Possible(s: State, steps: seq<Step>)
    decreases |steps|
  {
    steps == [] || (Enabled(s, steps[0]) && Possible(Apply(s, steps[0]), steps[1..]))
  }

  function Run(s: State, steps: seq<Step>): State
    requires Possible(s, steps)
    decreases |steps|
  {
    if steps == [] then s else Run(Apply(s, steps[0]), steps[1..])
  }

  /** The thread has taken the lock and not yet given it back. */
  predicate Owns(pc: Pc) {
    pc.Taken? || pc.Holding? || pc.ReadOwned? || pc.Drop? || pc.DropContested?
  }

  /** A thread owns the lock exactly when the word names it, has not crashed, remembers only words
      that can help it, and once it has seen its own lock contested the word stays so. */
  ghost predicate ThreadOk(word: Word, t: Tid, pc: Pc) {
    && !pc.Crashed? && (Owns(pc) <==> word.owner == t)
    && (pc.TryTake? ==> pc.prev == FREE)
    && ((pc.Pretake? || pc.CheckOwner? || pc.CheckFlag? || pc.Contest? || pc.Block?) ==>
         pc.prev.owner != 0 && pc.prev.owner != t)
    && (pc.DropContested? ==> pc.prev == word && word.contested)
    && (pc.Drop? ==> pc.prev == Word(t, false))
  }

  ghost predicate Inv(s: State) {
    && (s.word == FREE || (s.word.owner > 0 && s.word.owner in s.pcs))
    && (forall t {:trigger ThreadOk(s.word, t, s.pcs[t])} :: t in s.pcs ==> ThreadOk(s.word, t, s.pcs[t]))
  }

  predicate Initial(s: State) {
    s.word == FREE && forall t :: t in s.pcs ==> s.pcs[t].Outside?
  }

  lemma InitialInv(s: State)
    requires Initial(s)
    ensures Inv(s)
  {
    forall t | t in s.pcs ensures ThreadOk(s.word, t, s.pcs[t]) {}
  }

  /** The thread that steps stays in order, and so does the word. */
  lemma StepperOk(s: State, step: Step)
    requires Inv(s) && Enabled(s, step)
    ensures var s' := Apply(s, step);
      && s'.pcs == s.pcs[step.t := s'.pcs[step.t]] && ThreadOk(s'.word, step.t, s'.pcs[step.t])
      && (s'.word == FREE || (s'.word.owner > 0 && s'.word.owner in s'.pcs))
  {
    assert ThreadOk(s.word, step.t, s.pcs[step.t]);
  }

  /** A step changes the word only between free and owned by the stepper, or sets the flag. */
  lemma StepWord(s: State, step: Step)
    requires Inv(s) && Enabled(s, step)
    ensures var w, w' := s.word, Apply(s, step).word;
      w' == w || (w == FREE && w' == Word(step.t, false)) || (w.owner == step.t && w' == FREE) ||
      (!w.contested && w' == Word(w.owner, true))
  {
    assert ThreadOk(s.word, step.t, s.pcs[step.t]);
  }

  /** Such a change leaves the other threads in order. */
  lemma OtherOk(w: Word, w': Word, t: Tid, u: Tid, pc: Pc)
    requires ThreadOk(w, u, pc) && u != t
    requires w' == w || (w == FREE && w' == Word(t, false)) || (w.owner == t && w' == FREE) ||
      (!w.contested && w' == Word(w.owner, true))
    ensures ThreadOk(w', u, pc)
  {
  }

  lemma StepKeepsInv(s: State, step: Step)
    requires Inv(s) && Enabled(s, step)
    ensures Inv(Apply(s, step))
  {
    var s' := Apply(s, step);
    StepperOk(s, step);
    StepWord(s, step);
    forall u | u in s'.pcs ensures ThreadOk(s'.word, u, s'.pcs[u]) {
      if u != step.t {
        OtherOk(s.word, s'.word, step.t, u, s.pcs[u]);
      }
    }
  }

  /** In every run: at most one owner, the word is free, or one thread's with or without the flag,
      no assertion fails, and the release of a contested lock never loses its compare-and-swap. */
  lemma {:induction false} RunIsSafe(s: State, steps: seq<Step>)
    requires Inv(s) && Possible(s, steps)
    ensures var s' := Run(s, steps);
      && Inv(s')
      && (forall t, u :: t in s'.pcs && u in s'.pcs && Owns(s'.pcs[t]) && Owns(s'.pcs[u]) ==> t == u)
      && (s'.word == FREE <==> forall t :: t in s'.pcs ==> !Owns(s'.pcs[t]))
      && (s'.word != FREE ==> s'.word.owner in s'.pcs && Owns(s'.pcs[s'.word.owner]))
      && (forall t :: t in s'.pcs ==> !s'.pcs[t].Crashed?)
      && (forall t :: t in s'.pcs && s'.pcs[t].DropContested? ==> s'.word == s'.pcs[t].prev == Word(t, true))
    decreases |steps|
  {
    if steps != [] {
      StepKeepsInv(s, steps[0]);
      RunIsSafe(Apply(s, steps[0]), steps[1..]);
    } else {
      assert forall t :: t in s.pcs ==> ThreadOk(s.word, t, s.pcs[t]);
    }
  }

  // ---- What a thread achieves by its own steps ----

  /** The next step of thread `t`, with calls to the lock component returning `ok`. */
  function Next(s: State, t: Tid, ok: bool): Step
    requires t in s.pcs
  {
    match s.pcs[t]
    case Outside | Holding => Begin(t)
    case Pretake(_) | Block(_) | Wake => Call(t, ok)
    case _ => Advance(t)
  }

  /** Where a thread ends does not depend on where it was. */
  lemma SameEnd(s: State, s1: State, t: Tid, w: Word, pc: Pc)
    requires t in s.pcs && t in s1.pcs && s1.pcs == s.pcs[t := s1.pcs[t]]
    ensures At(s1.(word := w), t, pc) == At(s.(word := w), t, pc)
  {
  }

  /** How far a thread that wants the lock is from holding it while the word is free. */
  function ToTake(pc: Pc): nat {
    match pc
    case Holding => 0
    case Taken => 1
    case TryTake(_) => 2
    case ReadWord => 3
    case Pretake(_) | CheckFlag(_) => 5
    case _ => 4
  }

  predicate WantsIn(pc: Pc) {
    pc.Outside? || pc.ReadWord? || pc.TryTake? || pc.Pretake? || pc.CheckOwner? || pc.CheckFlag? || pc.Contest? ||
    pc.Block?
  }

  /** The run of `t` on its own from `s`, `n` steps long. */
  function Alone(s: State, t: Tid, ok: bool, n: nat): seq<Step>
    requires t in s.pcs
    decreases n
  {
    if n == 0 || s.pcs[t].Crashed? then [] else [Next(s, t, ok)] + Alone(Apply(s, Next(s, t, ok)), t, ok, n - 1)
  }

  lemma {:induction false} AlonePossible(s: State, t: Tid, ok: bool, n: nat)
    requires t in s.pcs
    ensures Possible(s, Alone(s, t, ok, n))
    decreases n
  {
    if n > 0 && !s.pcs[t].Crashed? {
      var s1 := Apply(s, Next(s, t, ok));
      AlonePossible(s1, t, ok, n - 1);
      assert Alone(s, t, ok, n)[1..] == Alone(s1, t, ok, n - 1);
    }
  }

  /** One step of the thread, and then the rest of its run. */
  lemma AloneStep(s: State, t: Tid, ok: bool, n: nat)
    requires t in s.pcs && !s.pcs[t].Crashed? && n > 0
    ensures var s1 := Apply(s, Next(s, t, ok));
      && Possible(s, Alone(s, t, ok, n)) && Possible(s1, Alone(s1, t, ok, n - 1))
      && Run(s, Alone(s, t, ok, n)) == Run(s1, Alone(s1, t, ok, n - 1))
  {
    var s1 := Apply(s, Next(s, t, ok));
    AlonePossible(s, t, ok, n);
    AlonePossible(s1, t, ok, n - 1);
    assert Alone(s, t, ok, n)[1..] == Alone(s1, t, ok, n - 1);
  }

  predicate CanTake(word: Word, t: Tid, pc: Pc) {
    if pc.Taken? || pc.Holding? then word == Word(t, false) else WantsIn(pc) && word == FREE
  }

  lemma TakeStep(s: State, t: Tid)
    requires Inv(s) && t in s.pcs && CanTake(s.word, t, s.pcs[t]) && !s.pcs[t].Holding?
    ensures var s1 := Apply(s, Next(s, t, true));
      && Inv(s1) && s1.pcs == s.pcs[t := s1.pcs[t]] && CanTake(s1.word, t, s1.pcs[t])
      && ToTake(s1.pcs[t]) == ToTake(s.pcs[t]) - 1
  {
    assert ThreadOk(s.word, t, s.pcs[t]);
    StepKeepsInv(s, Next(s, t, true));
  }

  /** While the word is free, a thread that wants the lock, wherever it is on its way, gets it by its
      own steps; from outside it takes four. */
  lemma {:induction false} FreeIsTaken(s: State, t: Tid)
    requires Inv(s) && t in s.pcs && CanTake(s.word, t, s.pcs[t])
    ensures Possible(s, Alone(s, t, true, ToTake(s.pcs[t])))
    ensures Run(s, Alone(s, t, true, ToTake(s.pcs[t]))) == At(s.(word := Word(t, false)), t, Holding)
    decreases ToTake(s.pcs[t])
  {
    if s.pcs[t].Holding? {
      assert s.pcs[t := Holding] == s.pcs;
    } else {
      var s1 := Apply(s, Next(s, t, true));
      TakeStep(s, t);
      FreeIsTaken(s1, t);
      AloneStep(s, t, true, ToTake(s.pcs[t]));
      SameEnd(s, s1, t, Word(t, false), Holding);
    }
  }

  /** How far the owner is from having given the lock back. */
  function ToFree(pc: Pc, contested: bool): nat {
    match pc
    case Taken => 5
    case Holding => 4
    case ReadOwned => 3
    case Drop(_) => if contested then 4 else 2
    case DropContested(_) => 2
    case Wake | Dropped => 1
    case _ => 0
  }

  predicate GoesOut(pc: Pc) {
    Owns(pc) || pc.Wake? || pc.Dropped? || pc.Outside?
  }

  lemma ReleaseStep(s: State, t: Tid, ok: bool)
    requires Inv(s) && t in s.pcs && GoesOut(s.pcs[t]) && (!Owns(s.pcs[t]) ==> s.word == FREE) && !s.pcs[t].Outside?
    ensures var s1 := Apply(s, Next(s, t, ok));
      && Inv(s1) && s1.pcs == s.pcs[t := s1.pcs[t]] && GoesOut(s1.pcs[t]) && (!Owns(s1.pcs[t]) ==> s1.word == FREE)
      && ToFree(s1.pcs[t], s1.word.contested) == ToFree(s.pcs[t], s.word.contested) - 1
  {
    assert ThreadOk(s.word, t, s.pcs[t]);
    StepKeepsInv(s, Next(s, t, ok));
  }

  /** The owner gives the lock back by its own steps, whatever the lock component returns; from
      holding it takes four. */
  lemma {:induction false} OwnerReleases(s: State, t: Tid, ok: bool)
    requires Inv(s) && t in s.pcs && GoesOut(s.pcs[t]) && (!Owns(s.pcs[t]) ==> s.word == FREE)
    ensures Possible(s, Alone(s, t, ok, ToFree(s.pcs[t], s.word.contested)))
    ensures Run(s, Alone(s, t, ok, ToFree(s.pcs[t], s.word.contested))) == At(s.(word := FREE), t, Outside)
    decreases ToFree(s.pcs[t], s.word.contested)
  {
    if s.pcs[t].Outside? {
      assert s.pcs[t := Outside] == s.pcs;
    } else {
      var s1, n := Apply(s, Next(s, t, ok)), ToFree(s.pcs[t], s.word.contested);
      ReleaseStep(s, t, ok);
      AloneStep(s, t, ok, n);
      OwnerReleases(s1, t, ok);
      SameEnd(s, s1, t, FREE, Outside);
    }
  }

  /** The word is freed with a wake-up exactly if it was contested. */
  lemma FreedWithWake(s: State, step: Step)
    requires Inv(s) && Enabled(s, step) && s.word != FREE && Apply(s, step).word == FREE
    ensures s.word.owner == step.t
    ensures Apply(s, step).pcs[step.t] == if s.word.contested then Wake else Dropped
  {
    assert ThreadOk(s.word, step.t, s.pcs[step.t]);
  }

  /** A thread goes to sleep only on a contested word, and not on its own. */
  lemma BlocksContested(s: State, step: Step)
    requires Inv(s) && Enabled(s, step) && !s.pcs[step.t].Block? && Apply(s, step).pcs[step.t].Block?
    ensures Apply(s, step).word.contested && Apply(s, step).word.owner != step.t
  {
    assert ThreadOk(s.word, step.t, s.pcs[step.t]);
    StepKeepsInv(s, step);
    var s' := Apply(s, step);
    assert ThreadOk(s'.word, step.t, s'.pcs[step.t]);
  }

  /** How far a thread that wants the lock is from sleeping on it while another thread holds it. */
  function ToBlock(pc: Pc, contested: bool): nat {
    match pc
    case Outside => if contested then 5 else 6
    case ReadWord => if contested then 4 else 5
    case Pretake(_) => if contested then 3 else 4
    case CheckOwner(_) => if contested then 2 else 3
    case CheckFlag(_) => if contested then 1 else 2
    case Contest(_) => 1
    case _ => 0
  }

  /** The thread is on its way to sleep on the word `w`, which another thread holds. */
  predicate WillBlock(word: Word, t: Tid, pc: Pc, w: Word) {
    && w.owner != 0 && w.owner != t
    && if pc.Block? then pc.prev == w && word == w.(contested := true)
       else
         && word == w && WantsIn(pc) && !pc.TryTake? && (pc.Outside? || pc.ReadWord? || pc.prev == w)
         && (pc.Contest? ==> !w.contested)
  }

  lemma BlockStep(s: State, t: Tid, w: Word)
    requires t in s.pcs && WillBlock(s.word, t, s.pcs[t], w) && !s.pcs[t].Block?
    ensures var s1 := Apply(s, Next(s, t, true));
      && s1.pcs == s.pcs[t := s1.pcs[t]] && WillBlock(s1.word, t, s1.pcs[t], w)
      && ToBlock(s1.pcs[t], w.contested) == ToBlock(s.pcs[t], w.contested) - 1
  {
  }

  /** While another thread holds the lock, a thread that wants it marks the word as contested and goes
      to sleep by its own steps, six at most. */
  lemma {:induction false} HeldIsContested(s: State, t: Tid, w: Word)
    requires t in s.pcs && WillBlock(s.word, t, s.pcs[t], w)
    ensures Possible(s, Alone(s, t, true, ToBlock(s.pcs[t], w.contested)))
    ensures Run(s, Alone(s, t, true, ToBlock(s.pcs[t], w.contested))) ==
      At(s.(word := w.(contested := true)), t, Block(w))
    decreases ToBlock(s.pcs[t], w.contested)
  {
    if s.pcs[t].Block? {
      assert s.pcs[t := Block(w)] == s.pcs;
    } else {
      var s1 := Apply(s, Next(s, t, true));
      BlockStep(s, t, w);
      HeldIsContested(s1, t, w);
      AloneStep(s, t, true, ToBlock(s.pcs[t], w.contested));
      SameEnd(s, s1, t, w.(contested := true), Block(w));
    }
  }

  /** A take returns without the lock exactly if a call to the lock component fails, and then nothing
      else changes; until it returns it keeps trying. */
  lemma TakeReturns(s: State, step: Step)
    requires Inv(s) && Enabled(s, step) && WantsIn(s.pcs[step.t]) && !s.pcs[step.t].Outside?
    ensures var s' := Apply(s, step);
      && (s'.pcs[step.t].Outside? <==> step.Call? && !step.ok)
      && (s'.pcs[step.t].Outside? ==> s' == At(s, step.t, Outside))
      && (!s'.pcs[step.t].Outside? ==> WantsIn(s'.pcs[step.t]) || s'.word == Word(step.t, false))
  {
    assert ThreadOk(s.word, step.t, s.pcs[step.t]);
  }
}
