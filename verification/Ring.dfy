/** The single-producer ring of ck_ring_cos.h as a step system: one producer and any number of
    consumers, each advancing by one shared-memory access at a time, in any interleaving.

    Counters are unbounded and memory is sequentially consistent.  `log` records what was ever
    published and `out` which consumer was handed what; neither influences a step. */
module Ring {
  import Arith

  type Id = nat

  datatype Producer<V> = Resting | Loaded(v: V, c: nat) | Written(v: V)

  /** How far a consumer has got: it has loaded `c_head`, then also `p_tail`, then also the slot. */
  datatype Consumer<V> = Idle | HasHead(c: nat) | HasTail(c: nat) | HasValue(c: nat, r: V)

  datatype State<V> = State(slots: seq<V>, head: nat, tail: nat, prod: Producer<V>, cons: map<Id, Consumer<V>>,
                            log: seq<V>, out: seq<(Id, V)>)

  datatype Step<V> =
    | EnqueueLoad(v: V)            // load c_head
    | EnqueueFull                  // the test finds no room: return false
    | EnqueueWrite                 // the test finds room: write the slot
    | EnqueuePublish               // store p_tail: return true
    | LoadHead(k: Id)              // load c_head
    | LoadTail(k: Id)              // load p_tail; equal to the head snapshot: return false
    | ReadSlot(k: Id)
    | Cas(k: Id, retry: bool)      // ck_ring_dequeue_spmc retries, ck_ring_trydequeue_spmc gives up
    | StoreHead(k: Id)             // ck_ring_dequeue_spsc: the only consumer stores c_head

  function Pos(s: State, i: nat): nat
    requires |s.slots| > 0
  {
    i % |s.slots|
  }

  predicate Enabled<V>(s: State<V>, step: Step<V>)
    requires |s.slots| > 0
  {
    match step
    case EnqueueLoad(v) => s.prod.Resting?
    case EnqueueFull => s.prod.Loaded? && Pos(s, s.tail + 1) == Pos(s, s.prod.c)
    case EnqueueWrite => s.prod.Loaded? && Pos(s, s.tail + 1) != Pos(s, s.prod.c)
    case EnqueuePublish => s.prod.Written?
    case LoadHead(k) => k in s.cons && s.cons[k].Idle?
    case LoadTail(k) => k in s.cons && s.cons[k].HasHead?
    case ReadSlot(k) => k in s.cons && s.cons[k].HasTail?
    case Cas(k, _) => k in s.cons && s.cons[k].HasValue?
    case StoreHead(k) => s.cons.Keys == {k} && s.cons[k].HasValue?
  }

  function Taken<V>(s: State<V>, k: Id): State<V>
    requires k in s.cons && s.cons[k].HasValue?
  {
    s.(head := s.cons[k].c + 1, out := s.out + [(k, s.cons[k].r)], cons := s.cons[k := Idle])
  }

  function Apply<V>(s: State<V>, step: Step<V>): State<V>
    requires |s.slots| > 0 && Enabled(s, step)
  {
    match step
    case EnqueueLoad(v) => s.(prod := Loaded(v, s.head))
    case EnqueueFull => s.(prod := Resting)
    case EnqueueWrite => s.(slots := s.slots[Pos(s, s.tail) := s.prod.v], prod := Written(s.prod.v))
    case EnqueuePublish => s.(tail := s.tail + 1, log := s.log + [s.prod.v], prod := Resting)
    case LoadHead(k) => s.(cons := s.cons[k := HasHead(s.head)])
    case LoadTail(k) => s.(cons := s.cons[k := if s.cons[k].c == s.tail then Idle else HasTail(s.cons[k].c)])
    case ReadSlot(k) => s.(cons := s.cons[k := HasValue(s.cons[k].c, s.slots[Pos(s, s.cons[k].c)])])
    case Cas(k, retry) =>
      if s.head == s.cons[k].c then Taken(s, k)
      else s.(cons := s.cons[k := if retry then HasHead(s.head) else Idle])
    case StoreHead(k) => Taken(s, k)
  }

  function Run<V>(s: State<V>, steps: seq<Step<V>>): State<V>
    requires Possible(s, steps)
    decreases |steps|
  {
    if steps == [] then s else Run(Apply(s, steps[0]), steps[1..])
  }

  /** Each step in turn can be taken. */
  predicate Possible<V>(s: State<V>, steps: seq<Step<V>>)
    decreases |steps|
  {
    |s.slots| > 0 && (steps == [] || (Enabled(s, steps[0]) && Possible(Apply(s, steps[0]), steps[1..])))
  }

  predicate Initial<V>(s: State<V>) {
    && |s.slots| > 0 && s.head == s.tail == 0 && s.prod.Resting? && s.log == [] && s.out == []
    && (forall k :: k in s.cons ==> s.cons[k].Idle?)
  }

  /** The queue the ring stands for. */
  function Contents<V>(s: State<V>): seq<V>
    requires s.head <= s.tail <= |s.log|
  {
    s.log[s.head..s.tail]
  }

  /** A consumer's snapshots are not ahead of the shared counters; a slot it read is still what it
      would take, unless another consumer has taken it; a consumer that is alone is never behind. */
  ghost predicate ConsumerOk<V>(s: State<V>, k: Id)
    requires k in s.cons
  {
    (s.cons.Keys == {k} && !s.cons[k].Idle? ==> s.cons[k].c == s.head) &&
    match s.cons[k]
    case Idle => true
    case HasHead(c) => c <= s.head
    case HasTail(c) => c <= s.head && c < s.tail
    case HasValue(c, r) => c <= s.head && c < s.tail && c < |s.log| && (c == s.head ==> r == s.log[c])
  }

  /** Since consumer `k` loaded `c_head`, it has been handed nothing. */
  ghost predicate Outrun<V>(s: State<V>, k: Id)
    requires k in s.cons
  {
    !s.cons[k].Idle? ==> forall i :: s.cons[k].c <= i < |s.out| ==> s.out[i].0 != k
  }

  ghost predicate ProducerOk<V>(s: State<V>)
    requires |s.slots| > 0
  {
    match s.prod
    case Resting => true
    case Loaded(v, c) => c <= s.head && s.tail - c < |s.slots|
    case Written(v) => s.tail + 1 - s.head < |s.slots| && s.slots[Pos(s, s.tail)] == v
  }

  ghost predicate SlotOk<V>(s: State<V>, j: nat)
    requires |s.slots| > 0
  {
    j < |s.log| && s.slots[Pos(s, j)] == s.log[j]
  }

  ghost predicate Inv<V(!new)>(s: State<V>) {
    && 0 < |s.slots| && s.head <= s.tail && s.tail - s.head < |s.slots| && |s.log| == s.tail && |s.out| == s.head
    && (forall j: nat {:trigger SlotOk(s, j)} :: s.head <= j < s.tail ==> SlotOk(s, j))
    && (forall i :: 0 <= i < |s.out| ==> s.out[i].1 == s.log[i])
    && ProducerOk(s)
    && (forall k {:trigger ConsumerOk(s, k)} :: k in s.cons ==> ConsumerOk(s, k))
    && (forall k {:trigger Outrun(s, k)} :: k in s.cons ==> Outrun(s, k))
  }

  /** A slot that is still to be taken is not the one the producer may write. */
  lemma WriteIsElsewhere<V>(s: State<V>, j: nat)
    requires |s.slots| > 0 && s.head <= j < s.tail && s.tail - s.head < |s.slots|
    ensures Pos(s, j) != Pos(s, s.tail)
  {
    Arith.SameMod(|s.slots|, j, s.tail);
  }

  lemma FullTest<V>(s: State<V>)
    requires |s.slots| > 0 && s.prod.Loaded? && s.prod.c <= s.head <= s.tail && s.tail - s.prod.c < |s.slots|
    ensures Pos(s, s.tail + 1) == Pos(s, s.prod.c) <==> s.tail + 1 - s.prod.c == |s.slots|
  {
    var n, a, b := |s.slots|, s.prod.c, s.tail + 1;
    if b - a == n {
      Arith.ModPlus(n, a);
    } else {
      Arith.SameMod(n, a, b);
    }
  }

  lemma OutrunStep<V>(s: State<V>, step: Step<V>, k: Id)
    requires |s.slots| > 0 && Enabled(s, step) && |s.out| == s.head && k in s.cons && Outrun(s, k)
    ensures Outrun(Apply(s, step), k)
  {
  }

  lemma ProducerStep<V(!new)>(s: State<V>, step: Step<V>)
    requires Inv(s) && Enabled(s, step)
    requires (step.EnqueueLoad? || step.EnqueueFull? || step.EnqueueWrite? || step.EnqueuePublish?)
    ensures Inv(Apply(s, step))
  {
    var s' := Apply(s, step);
    if step.EnqueueWrite? {
      FullTest(s);
    }
    forall j: nat | s'.head <= j < s'.tail ensures SlotOk(s', j) {
      if j < s.tail {
        assert SlotOk(s, j);
        WriteIsElsewhere(s, j);
      }
    }
    forall k | k in s'.cons ensures ConsumerOk(s', k) {
      assert ConsumerOk(s, k);
    }
    forall k | k in s'.cons ensures Outrun(s', k) {
      assert Outrun(s, k);
      OutrunStep(s, step, k);
    }
  }

  lemma ConsumerStep<V(!new)>(s: State<V>, step: Step<V>)
    requires Inv(s) && Enabled(s, step)
    requires (step.LoadHead? || step.LoadTail? || step.ReadSlot? || step.Cas? || step.StoreHead?)
    ensures Inv(Apply(s, step))
  {
    var s' := Apply(s, step);
    assert ConsumerOk(s, step.k);
    assert s'.cons.Keys == s.cons.Keys && step.k in s.cons.Keys;
    if step.ReadSlot? && s.cons[step.k].c == s.head {
      assert SlotOk(s, s.head);
    }
    forall j: nat | s'.head <= j < s'.tail ensures SlotOk(s', j) {
      assert SlotOk(s, j);
    }
    forall k | k in s'.cons ensures ConsumerOk(s', k) {
      assert ConsumerOk(s, k);
    }
    forall k | k in s'.cons ensures Outrun(s', k) {
      assert Outrun(s, k);
      OutrunStep(s, step, k);
    }
  }

  lemma StepKeepsInv<V(!new)>(s: State<V>, step: Step<V>)
    requires Inv(s) && Enabled(s, step)
    ensures Inv(Apply(s, step))
  {
    if step.EnqueueLoad? || step.EnqueueFull? || step.EnqueueWrite? || step.EnqueuePublish? {
      ProducerStep(s, step);
    } else {
      ConsumerStep(s, step);
    }
  }

  /** Whatever the interleaving, what the consumers have been handed is exactly what was published
      first, in that order: each item goes to at most one consumer, with the value enqueued. */
  lemma {:induction false} RunDelivers<V(!new)>(s: State<V>, steps: seq<Step<V>>)
    requires Inv(s) && Possible(s, steps)
    ensures var s' := Run(s, steps);
      && Inv(s') && s.log <= s'.log && s.out <= s'.out
      && |s'.out| == s'.head <= |s'.log| && forall i :: 0 <= i < |s'.out| ==> s'.out[i].1 == s'.log[i]
    decreases |steps|
  {
    if steps != [] {
      StepKeepsInv(s, steps[0]);
      RunDelivers(Apply(s, steps[0]), steps[1..]);
    }
  }

  lemma InitialInv<V(!new)>(s: State<V>)
    requires Initial(s)
    ensures Inv(s)
  {
    forall k | k in s.cons ensures ConsumerOk(s, k) {}
    forall k | k in s.cons ensures Outrun(s, k) {}
  }

  /** Each step either leaves the queue alone, or appends the item being published, or hands the
      item at the front to the consumer that steps. */
  lemma StepRefinesQueue<V(!new)>(s: State<V>, step: Step<V>)
    requires Inv(s) && Enabled(s, step)
    ensures var s' := Apply(s, step);
      if step.EnqueuePublish? then
        s'.head <= s'.tail <= |s'.log| && Contents(s') == Contents(s) + [s.prod.v] && s'.out == s.out
      else if step.StoreHead? || (step.Cas? && s.head == s.cons[step.k].c) then
        && Contents(s) != [] && s'.out == s.out + [(step.k, Contents(s)[0])]
        && s'.head <= s'.tail <= |s'.log| && Contents(s') == Contents(s)[1..]
      else
        s'.head <= s'.tail <= |s'.log| && Contents(s') == Contents(s) && s'.out == s.out
  {
    if step.StoreHead? || step.Cas? {
      assert ConsumerOk(s, step.k);
      assert step.StoreHead? ==> s.cons.Keys == {step.k};
    }
  }

  /** The step ends a dequeue with false: the consumer is idle again and was handed nothing. */
  predicate GivesUp<V(==)>(s: State<V>, step: Step<V>)
    requires |s.slots| > 0 && Enabled(s, step)
  {
    (step.LoadTail? || step.Cas?) && Apply(s, step).cons[step.k].Idle? && Apply(s, step).out == s.out
  }

  /** A dequeue returns false in two cases only: its head snapshot is the tail it loads, and then the
      ring is empty; or it is ck_ring_trydequeue_spmc and its compare-and-swap comes too late, and
      then the item it was after has been handed to another consumer. */
  lemma FalseIsHonest<V(!new)>(s: State<V>, step: Step<V>)
    requires Inv(s) && Enabled(s, step)
    ensures GivesUp(s, step) <==>
      || (step.LoadTail? && s.cons[step.k].c == s.tail)
      || (step.Cas? && !step.retry && s.cons[step.k].c < s.head)
    ensures GivesUp(s, step) && step.LoadTail? ==> Contents(s) == []
    ensures GivesUp(s, step) && step.Cas? ==>
      var c := s.cons[step.k].c;
      c < |s.out| && c < |s.log| && s.out[c].1 == s.log[c] && s.out[c].0 != step.k
  {
    if step.LoadTail? || step.Cas? {
      assert ConsumerOk(s, step.k) && Outrun(s, step.k);
    }
  }

  /** An enqueue returns false exactly if the ring held all it can when it loaded `c_head`. */
  lemma FullIsHonest<V(!new)>(s: State<V>)
    requires Inv(s) && s.prod.Loaded?
    ensures Enabled(s, EnqueueFull) <==> s.tail - s.prod.c == |s.slots| - 1
  {
    FullTest(s);
  }

  lemma {:induction false} RunOn<V>(s: State<V>, steps: seq<Step<V>>, more: seq<Step<V>>)
    requires Possible(s, steps) && Possible(Run(s, steps), more)
    ensures Possible(s, steps + more) && Run(s, steps + more) == Run(Run(s, steps), more)
    decreases |steps|
  {
    if steps == [] {
      assert steps + more == more;
    } else {
      assert (steps + more)[1..] == steps[1..] + more;
      RunOn(Apply(s, steps[0]), steps[1..], more);
    }
  }

  lemma Onward<V>(s: State<V>, steps: seq<Step<V>>, s1: State<V>, more: seq<Step<V>>, s': State<V>)
    requires Possible(s, steps) && Run(s, steps) == s1 && Possible(s1, more) && Run(s1, more) == s'
    ensures Possible(s, steps + more) && Run(s, steps + more) == s'
  {
    RunOn(s, steps, more);
  }

  lemma RaceExample(s: State<int>, s': State<int>)
    requires s == State([7, 8, 0, 0], 0, 2, Resting, map[1 := Idle, 2 := Idle], [7, 8], [])
    requires s' == State([7, 8, 0, 0], 1, 2, Resting, map[1 := Idle, 2 := HasValue(0, 7)], [7, 8], [(1, 7)])
    ensures Possible(s, Race(1, 2) + [Cas(1, false)]) && Run(s, Race(1, 2) + [Cas(1, false)]) == s'
  {
    Raced(s, 1, 2);
    var s1 := Run(s, Race(1, 2));
    RunOne(s1, Cas(1, false));
    RunOn(s, Race(1, 2), [Cas(1, false)]);
    assert s1.cons[1 := Idle] == s'.cons;
  }

  lemma RunOne<V>(s: State<V>, a: Step<V>)
    requires |s.slots| > 0 && Enabled(s, a)
    ensures Possible(s, [a]) && Run(s, [a]) == Apply(s, a)
  {
  }

  lemma RunTwo<V>(s: State<V>, a: Step<V>, b: Step<V>)
    requires |s.slots| > 0 && Enabled(s, a) && Enabled(Apply(s, a), b)
    ensures Possible(s, [a, b]) && Run(s, [a, b]) == Apply(Apply(s, a), b)
  {
    RunOne(s, a);
    RunOne(Apply(s, a), b);
    RunOn(s, [a], [b]);
    assert [a] + [b] == [a, b];
  }

  /** An item is published. */
  function Publish<V>(v: V): seq<Step<V>> {
    [EnqueueLoad(v), EnqueueWrite] + [EnqueuePublish]
  }

  lemma Published<V>(s: State<V>, v: V)
    requires |s.slots| > 0 && s.prod.Resting? && Pos(s, s.tail + 1) != Pos(s, s.head)
    ensures Possible(s, Publish(v))
    ensures Run(s, Publish(v)) ==
      s.(slots := s.slots[Pos(s, s.tail) := v], tail := s.tail + 1, log := s.log + [v])
  {
    RunTwo(s, EnqueueLoad(v), EnqueueWrite);
    RunOn(s, [EnqueueLoad(v), EnqueueWrite], [EnqueuePublish]);
  }

  /** Two consumers that are after the same item, up to their compare-and-swaps. */
  function Race<V>(j: Id, k: Id): seq<Step<V>> {
    [LoadHead(j), LoadHead(k)] + ([LoadTail(j), LoadTail(k)] + [ReadSlot(j), ReadSlot(k)])
  }

  /** Two consumers have both got as far as `x`. */
  function Both<V>(s: State<V>, j: Id, k: Id, x: Consumer<V>): State<V> {
    s.(cons := s.cons[j := x][k := x])
  }

  lemma BothLoadTail<V>(s: State<V>, j: Id, k: Id)
    requires |s.slots| > 0 && s.head < s.tail && j != k
    ensures var s1 := Both(s, j, k, HasHead(s.head));
      && Possible(s1, [LoadTail(j), LoadTail(k)])
      && Run(s1, [LoadTail(j), LoadTail(k)]) == Both(s, j, k, HasTail(s.head))
  {
    var s1, s2 := Both(s, j, k, HasHead(s.head)), Both(s, j, k, HasTail(s.head));
    RunTwo(s1, LoadTail(j), LoadTail(k));
    assert s1.cons[j := HasTail(s.head)][k := HasTail(s.head)] == s2.cons;
  }

  lemma BothReadSlot<V>(s: State<V>, j: Id, k: Id, r: V)
    requires |s.slots| > 0 && j != k && r == s.slots[Pos(s, s.head)]
    ensures var s1 := Both(s, j, k, HasTail(s.head));
      && Possible(s1, [ReadSlot(j), ReadSlot(k)])
      && Run(s1, [ReadSlot(j), ReadSlot(k)]) == Both(s, j, k, HasValue(s.head, r))
  {
    var s1, s2 := Both(s, j, k, HasTail(s.head)), Both(s, j, k, HasValue(s.head, r));
    RunTwo(s1, ReadSlot(j), ReadSlot(k));
    assert s1.cons[j := HasValue(s.head, r)][k := HasValue(s.head, r)] == s2.cons;
  }

  lemma Raced<V>(s: State<V>, j: Id, k: Id)
    requires |s.slots| > 0 && s.head < s.tail && j != k
    requires j in s.cons && k in s.cons && s.cons[j].Idle? && s.cons[k].Idle?
    ensures Possible(s, Race(j, k))
    ensures Run(s, Race(j, k)) == Both(s, j, k, HasValue(s.head, s.slots[Pos(s, s.head)]))
  {
    var r := s.slots[Pos(s, s.head)];
    var s1, s2 := Both(s, j, k, HasHead(s.head)), Both(s, j, k, HasTail(s.head));
    var s3 := Both(s, j, k, HasValue(s.head, r));
    RunTwo(s, LoadHead(j), LoadHead(k));
    BothLoadTail(s, j, k);
    BothReadSlot(s, j, k, r);
    Onward(s1, [LoadTail(j), LoadTail(k)], s2, [ReadSlot(j), ReadSlot(k)], s3);
    Onward(s, [LoadHead(j), LoadHead(k)], s1, [LoadTail(j), LoadTail(k)] + [ReadSlot(j), ReadSlot(k)], s3);
  }

  /** Whenever the ring holds an item and two consumers are idle, they can race for it so that
      ck_ring_trydequeue_spmc returns false to the second, whatever else the ring holds. */
  lemma LostRace<V(!new)>(s: State<V>, j: Id, k: Id)
    requires Inv(s) && s.head < s.tail && j != k
    requires j in s.cons && k in s.cons && s.cons[j].Idle? && s.cons[k].Idle?
    ensures Possible(s, Race(j, k) + [Cas(j, false)])
    ensures var s' := Run(s, Race(j, k) + [Cas(j, false)]);
      && |s'.slots| > 0 && Enabled(s', Cas(k, false)) && GivesUp(s', Cas(k, false))
      && s'.head <= s'.tail <= |s'.log| && Contents(s') == Contents(s)[1..]
  {
    Raced(s, j, k);
    var s1 := Run(s, Race(j, k));
    RunOne(s1, Cas(j, false));
    RunOn(s, Race(j, k), [Cas(j, false)]);
  }

  /** Such a run from the start: two items are published, consumers 1 and 2 race for the first, and
      the dequeue of consumer 2 returns false although the ring holds the second. */
  lemma LostRaceExample(s: State<int>, steps: seq<Step<int>>, s': State<int>)
    requires s == State([0, 0, 0, 0], 0, 0, Resting, map[1 := Idle, 2 := Idle], [], [])
    requires steps == Publish(7) + (Publish(8) + (Race(1, 2) + [Cas(1, false)]))
    requires s' == State([7, 8, 0, 0], 1, 2, Resting, map[1 := Idle, 2 := HasValue(0, 7)], [7, 8], [(1, 7)])
    ensures Initial(s) && Possible(s, steps) && Run(s, steps) == s'
    ensures Enabled(s', Cas(2, false)) && GivesUp(s', Cas(2, false)) && Contents(s') == [8]
  {
    var s1 := s.(slots := [7, 0, 0, 0], tail := 1, log := [7]);
    var s2 := s.(slots := [7, 8, 0, 0], tail := 2, log := [7, 8]);
    var race := Race(1, 2) + [Cas(1, false)];
    PublishedAs(s, 7, s1);
    PublishedAs(s1, 8, s2);
    RaceExample(s2, s');
    Onward(s1, Publish(8), s2, race, s');
    Onward(s, Publish(7), s1, Publish(8) + race, s');
  }

  lemma PublishedAs(s: State<int>, v: int, s': State<int>)
    requires |s.slots| == 4 && s.head == 0 && s.tail < 3 && s.prod.Resting?
    requires s' == s.(slots := s.slots[s.tail := v], tail := s.tail + 1, log := s.log + [v])
    ensures Possible(s, Publish(v)) && Run(s, Publish(v)) == s'
  {
    Published(s, v);
  }

  // What a producer and a consumer achieve

  /** The item of the enqueue under way. */
  function Offer<V>(prod: Producer<V>): seq<V> {
    match prod
    case Resting => []
    case Loaded(v, _) => [v]
    case Written(v) => [v]
  }

  /** The items of the enqueues that return true in a run, with `offer` under way at its start. */
  function Enqueued<V>(steps: seq<Step<V>>, offer: seq<V>): seq<V>
    decreases |steps|
  {
    if steps == [] then []
    else
      match steps[0]
      case EnqueueLoad(v) => Enqueued(steps[1..], [v])
      case EnqueueFull => Enqueued(steps[1..], [])
      case EnqueuePublish => offer + Enqueued(steps[1..], [])
      case _ => Enqueued(steps[1..], offer)
  }

  /** In every run exactly the items of successful enqueues are published, in their order. */
  lemma {:induction false} RunPublishes<V>(s: State<V>, steps: seq<Step<V>>)
    requires Possible(s, steps)
    ensures Run(s, steps).log == s.log + Enqueued(steps, Offer(s.prod))
    decreases |steps|
  {
    if steps == [] {
      assert s.log + [] == s.log;
    } else {
      RunPublishes(Apply(s, steps[0]), steps[1..]);
    }
  }

  /** The next step of a dequeue. */
  function NextStep<V>(s: State<V>, k: Id, retry: bool): Step<V>
    requires k in s.cons
  {
    match s.cons[k]
    case Idle => LoadHead(k)
    case HasHead(_) => LoadTail(k)
    case HasTail(_) => ReadSlot(k)
    case HasValue(_, _) => Cas(k, retry)
  }

  /** How many steps of its own a consumer is from being handed an item. */
  function ToDeliver<V>(c: Consumer<V>, head: nat): nat {
    match c
    case Idle => 4
    case HasHead(c) => if c == head then 3 else 6
    case HasTail(c) => if c == head then 2 else 5
    case HasValue(c, _) => if c == head then 1 else 4
  }

  /** The steps of consumer `k` on its own until it is handed an item. */
  function Solo<V>(s: State<V>, k: Id, retry: bool, n: nat): seq<Step<V>>
    requires |s.slots| > 0 && k in s.cons
    decreases n
  {
    if n == 0 then [] else [NextStep(s, k, retry)] + Solo(Apply(s, NextStep(s, k, retry)), k, retry, n - 1)
  }

  lemma {:induction false} SoloPossible<V>(s: State<V>, k: Id, retry: bool, n: nat)
    requires |s.slots| > 0 && k in s.cons
    ensures Possible(s, Solo(s, k, retry, n))
    decreases n
  {
    if n > 0 {
      var s1 := Apply(s, NextStep(s, k, retry));
      SoloPossible(s1, k, retry, n - 1);
      assert Solo(s, k, retry, n)[1..] == Solo(s1, k, retry, n - 1);
    }
  }

  lemma SoloStep<V>(s: State<V>, k: Id, retry: bool, n: nat)
    requires |s.slots| > 0 && k in s.cons && n > 0
    ensures var s1 := Apply(s, NextStep(s, k, retry));
      && Possible(s, Solo(s, k, retry, n)) && |s1.slots| > 0 && Possible(s1, Solo(s1, k, retry, n - 1))
      && Run(s, Solo(s, k, retry, n)) == Run(s1, Solo(s1, k, retry, n - 1))
  {
    var s1 := Apply(s, NextStep(s, k, retry));
    SoloPossible(s, k, retry, n);
    SoloPossible(s1, k, retry, n - 1);
    assert Solo(s, k, retry, n)[1..] == Solo(s1, k, retry, n - 1);
  }

  /** A consumer whose snapshot may be stale must retry. */
  ghost predicate CanDeliver<V(!new)>(s: State<V>, k: Id, retry: bool) {
    && Inv(s) && k in s.cons && s.head < s.tail
    && (retry || s.cons[k].Idle? || s.cons[k].c == s.head)
  }

  /** The state after consumer `k` is handed the item at the front. */
  function Delivered<V>(s: State<V>, k: Id): State<V>
    requires s.head < s.tail <= |s.log|
  {
    s.(head := s.head + 1, out := s.out + [(k, Contents(s)[0])], cons := s.cons[k := Idle])
  }

  lemma DeliverStep<V(!new)>(s: State<V>, k: Id, retry: bool)
    requires CanDeliver(s, k, retry) && ToDeliver(s.cons[k], s.head) > 1
    ensures var s1 := Apply(s, NextStep(s, k, retry));
      && CanDeliver(s1, k, retry) && ToDeliver(s1.cons[k], s1.head) == ToDeliver(s.cons[k], s.head) - 1
      && s1 == s.(cons := s.cons[k := s1.cons[k]])
  {
    assert ConsumerOk(s, k);
    StepKeepsInv(s, NextStep(s, k, retry));
  }

  /** On a ring that holds an item, a dequeue that runs on its own is handed the item at the front:
      the retrying one wherever it is on its way, however stale its snapshot, and the other one from
      the start. */
  lemma {:induction false} SoloDelivers<V(!new)>(s: State<V>, k: Id, retry: bool)
    requires CanDeliver(s, k, retry)
    ensures Possible(s, Solo(s, k, retry, ToDeliver(s.cons[k], s.head)))
    ensures Run(s, Solo(s, k, retry, ToDeliver(s.cons[k], s.head))) == Delivered(s, k)
    decreases ToDeliver(s.cons[k], s.head)
  {
    var n := ToDeliver(s.cons[k], s.head);
    var s1 := Apply(s, NextStep(s, k, retry));
    SoloStep(s, k, retry, n);
    if n == 1 {
      StepRefinesQueue(s, NextStep(s, k, retry));
      assert s1 == Delivered(s, k);
    } else {
      DeliverStep(s, k, retry);
      SoloDelivers(s1, k, retry);
      assert s1.cons[k := Idle] == s.cons[k := Idle];
    }
  }

  /** A successful compare-and-swap was preceded by a read of a slot that has not been written since:
      it still holds the value read. */
  lemma SlotNotOverwritten<V(!new)>(s: State<V>, k: Id)
    requires Inv(s) && k in s.cons && s.cons[k].HasValue? && s.cons[k].c == s.head
    ensures s.head < |s.log| && s.slots[Pos(s, s.head)] == s.cons[k].r == s.log[s.head]
  {
    assert ConsumerOk(s, k);
    assert SlotOk(s, s.head);
  }
}
