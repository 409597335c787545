/** putFragment's fan-out: goroutines that deliver, lose or confirm a replica write and count successes under a
    mutex. */
module Quorum {
  import opened Collections
  import opened Headers
  import opened Runs

  // ---- The fan-out --------------------------------------------------------------

  datatype Phase = Sending | Stored | Answered | Incrementing(read: nat) | Counted | Lost

  /** One fan-out in progress. `holders` are the servers that have stored the bytes, whoever knows about it. */
  datatype Fan = Fan(self: string, addrs: seq<string>, phase: seq<Phase>, successes: nat, lock: Option<nat>,
      holders: set<string>)

  datatype Event =
    | Deliver(g: nat) | Drop(g: nat) | LoseAnswer(g: nat) | Answer(g: nat) | Acquire(g: nat) | Release(g: nat)

  /** The handler has stored the bytes locally and started one goroutine per address. */
  function Start(self: string, addrs: seq<string>): Fan {
    Fan(self, addrs, seq(|addrs|, i => Sending), 1, None, {self})
  }

  predicate Enabled(q: Fan, e: Event) {
    && e.g < |q.phase| == |q.addrs|
    && match e
       case Deliver(g) => q.phase[g] == Sending
       case Drop(g) => q.phase[g] == Sending
       case LoseAnswer(g) => q.phase[g] == Stored
       case Answer(g) => q.phase[g] == Stored
       case Acquire(g) => q.phase[g] == Answered && q.lock == None
       case Release(g) => q.phase[g].Incrementing? && q.lock == Some(g)
  }

  /** successes++ is a read and a write with the mutex held in between. */
  function Exec(q: Fan, e: Event): Fan
    requires Enabled(q, e)
  {
    match e
    case Deliver(g) => q.(phase := q.phase[g := Stored], holders := q.holders + {q.addrs[g]})
    case Drop(g) => q.(phase := q.phase[g := Lost])
    case LoseAnswer(g) => q.(phase := q.phase[g := Lost])
    case Answer(g) => q.(phase := q.phase[g := Answered])
    case Acquire(g) => q.(phase := q.phase[g := Incrementing(q.successes)], lock := Some(g))
    case Release(g) => q.(phase := q.phase[g := Counted], successes := q.phase[g].read + 1, lock := None)
  }

  ghost function Next(): (Fan, Event) -> Option<Fan> {
    (q: Fan, e: Event) => if Enabled(q, e) then Some(Exec(q, e)) else None
  }

  ghost predicate RunsTo(q: Fan, run: seq<Event>, q': Fan) {
    Follow(Next(), q, run) == Some(q')
  }

  predicate Distinct(self: string, addrs: seq<string>) {
    self !in addrs && NoDup(addrs)
  }

  /** wg.Wait() returns. */
  predicate Finished(q: Fan) {
    forall g :: 0 <= g < |q.phase| ==> q.phase[g] == Counted || q.phase[g] == Lost
  }

  /** Whether the handler answers 201: the quorum is only checked when the header was not empty. */
  predicate Created(q: Fan, headerEmpty: bool, w: nat) {
    headerEmpty || q.successes >= w
  }

  function CountedSet(phase: seq<Phase>): set<nat> {
    set g: nat | g < |phase| && phase[g] == Counted
  }

  ghost predicate Inv(q: Fan) {
    && |q.phase| == |q.addrs|
    && q.successes == 1 + |CountedSet(q.phase)|
    && (forall g: nat :: g < |q.phase| && q.phase[g] != Sending && q.phase[g] != Lost ==> q.addrs[g] in q.holders)
    && (forall g: nat :: g < |q.phase| && q.phase[g].Incrementing? ==>
      q.lock == Some(g) && q.phase[g].read == q.successes)
    && (q.lock.Some? ==> q.lock.value < |q.phase| && q.phase[q.lock.value].Incrementing?)
    && q.self in q.holders && q.holders <= {q.self} + ToSet(q.addrs)
  }

  lemma CountedStep(phase: seq<Phase>, g: nat, p: Phase)
    requires g < |phase| && phase[g] != Counted
    ensures CountedSet(phase[g := p]) == if p == Counted then CountedSet(phase) + {g} else CountedSet(phase)
    ensures |CountedSet(phase[g := p])| == |CountedSet(phase)| + if p == Counted then 1 else 0
  {
    assert CountedSet(phase[g := p]) == if p == Counted then CountedSet(phase) + {g} else CountedSet(phase);
  }

  /** A goroutine that moves without the mutex. */
  lemma FreeStep(q: Fan, g: nat, p: Phase, holders: set<string>)
    requires Inv(q) && g < |q.phase| && q.phase[g] != Counted && !q.phase[g].Incrementing?
    requires p == Lost || ((p == Stored || p == Answered) && q.addrs[g] in holders)
    requires holders == q.holders || holders == q.holders + {q.addrs[g]}
    ensures Inv(q.(phase := q.phase[g := p], holders := holders))
  {
    CountedStep(q.phase, g, p);
  }

  lemma AcquireStep(q: Fan, g: nat)
    requires Inv(q) && g < |q.phase| && q.phase[g] == Answered && q.lock == None
    ensures Inv(q.(phase := q.phase[g := Incrementing(q.successes)], lock := Some(g)))
  {
    CountedStep(q.phase, g, Incrementing(q.successes));
  }

  lemma ReleaseStep(q: Fan, g: nat)
    requires Inv(q) && g < |q.phase| && q.phase[g].Incrementing? && q.lock == Some(g)
    ensures Inv(q.(phase := q.phase[g := Counted], successes := q.phase[g].read + 1, lock := None))
  {
    CountedStep(q.phase, g, Counted);
  }

  lemma StepKeepsInv(q: Fan, e: Event)
    requires Inv(q) && Enabled(q, e)
    ensures Inv(Exec(q, e))
  {
    match e
    case Deliver(g) => FreeStep(q, g, Stored, q.holders + {q.addrs[g]});
    case Drop(g) => FreeStep(q, g, Lost, q.holders);
    case LoseAnswer(g) => FreeStep(q, g, Lost, q.holders);
    case Answer(g) => FreeStep(q, g, Answered, q.holders);
    case Acquire(g) => AcquireStep(q, g);
    case Release(g) => ReleaseStep(q, g);
  }

  lemma {:induction false} RunKeepsInv(q: Fan, run: seq<Event>, q': Fan)
    requires Inv(q) && RunsTo(q, run, q')
    ensures Inv(q') && q'.self == q.self && q'.addrs == q.addrs
    decreases |run|
  {
    if run != [] {
      StepKeepsInv(q, run[0]);
      RunKeepsInv(Exec(q, run[0]), run[1..], q');
    }
  }

  lemma StartInv(self: string, addrs: seq<string>)
    ensures Inv(Start(self, addrs))
  {
    assert CountedSet(Start(self, addrs).phase) == {};
  }

  function AddrsOf(addrs: seq<string>, gs: set<nat>): set<string>
    requires forall g :: g in gs ==> g < |addrs|
  {
    set g | g in gs :: addrs[g]
  }

  /** The servers the counter stands for: the primary and the counted replicas. */
  function Confirmed(q: Fan): set<string>
    requires |q.phase| == |q.addrs|
  {
    {q.self} + AddrsOf(q.addrs, CountedSet(q.phase))
  }

  /** Different goroutines of the set have different addresses. */
  predicate Apart(addrs: seq<string>, gs: set<nat>)
    requires forall g :: g in gs ==> g < |addrs|
  {
    forall g, h :: g in gs && h in gs && g != h ==> addrs[g] != addrs[h]
  }

  lemma {:induction false} ImageCount(addrs: seq<string>, gs: set<nat>)
    requires forall g :: g in gs ==> g < |addrs|
    ensures |AddrsOf(addrs, gs)| <= |gs|
    ensures |AddrsOf(addrs, gs)| == |gs| <==> Apart(addrs, gs)
  {
    if gs != {} {
      var g :| g in gs;
      var rest := gs - {g};
      ImageCount(addrs, rest);
      assert AddrsOf(addrs, gs) == AddrsOf(addrs, rest) + {addrs[g]};
      if addrs[g] in AddrsOf(addrs, rest) {
        assert AddrsOf(addrs, gs) == AddrsOf(addrs, rest);
      }
    }
  }

  /** The counter never falls behind the servers it stands for, and runs ahead of them exactly when a counted address
      repeats. */
  lemma CounterIsConfirmedIff(q: Fan)
    requires Inv(q)
    ensures Confirmed(q) <= q.holders && |Confirmed(q)| <= q.successes
    ensures |Confirmed(q)| == q.successes <==>
      q.self !in AddrsOf(q.addrs, CountedSet(q.phase)) && Apart(q.addrs, CountedSet(q.phase))
  {
    var replicas := AddrsOf(q.addrs, CountedSet(q.phase));
    ImageCount(q.addrs, CountedSet(q.phase));
    if q.self in replicas {
      assert Confirmed(q) == replicas;
    }
  }

  /** Different addresses keep the count honest. */
  lemma HoldersCounted(q: Fan, w: nat)
    requires Inv(q) && Distinct(q.self, q.addrs)
    ensures q.successes == |Confirmed(q)| <= |q.holders|
    ensures Created(q, false, w) ==> |q.holders| >= w
  {
    CounterIsConfirmedIff(q);
    SubsetSize(Confirmed(q), q.holders);
  }

  /** Under every interleaving the primary and every counted replica hold the bytes, and no one else was sent them;
      with different addresses the counter never exceeds the number of holders, and a 201 after a quorum check means at
      least W of them. */
  lemma QuorumSound(self: string, addrs: seq<string>, run: seq<Event>, q: Fan, w: nat)
    requires RunsTo(Start(self, addrs), run, q)
    ensures Inv(q) && Confirmed(q) <= q.holders && self in q.holders && q.holders <= {self} + ToSet(addrs)
    ensures Distinct(self, addrs) ==> q.successes == |Confirmed(q)| <= |q.holders|
    ensures Distinct(self, addrs) && Created(q, false, w) ==> |q.holders| >= w
  {
    StartInv(self, addrs);
    RunKeepsInv(Start(self, addrs), run, q);
    CounterIsConfirmedIff(q);
    if Distinct(self, addrs) {
      HoldersCounted(q, w);
    }
  }

  // ---- Repeated addresses ---------------------------------------------------------

  /** One goroutine's four steps with no other in between. */
  lemma CountOne(q: Fan, g: nat) returns (run: seq<Event>, q': Fan)
    requires |q.phase| == |q.addrs| && g < |q.phase| && q.phase[g] == Sending && q.lock == None
    ensures RunsTo(q, run, q')
    ensures q' == q.(phase := q.phase[g := Counted], successes := q.successes + 1, holders := q.holders + {q.addrs[g]})
  {
    var q1 := Exec(q, Deliver(g));
    var q2 := Exec(q1, Answer(g));
    var q3 := Exec(q2, Acquire(g));
    q' := Exec(q3, Release(g));
    RunAppend(q, [], q, Deliver(g));
    RunAppend(q, [] + [Deliver(g)], q1, Answer(g));
    RunAppend(q, [] + [Deliver(g)] + [Answer(g)], q2, Acquire(g));
    run := [] + [Deliver(g)] + [Answer(g)] + [Acquire(g)];
    RunAppend(q, run, q3, Release(g));
    run := run + [Release(g)];
    assert q'.phase == q.phase[g := Counted];
  }

  /** Everyone answers: the counter reaches one more than the number of goroutines. */
  lemma {:induction false} CountFirst(self: string, addrs: seq<string>, n: nat) returns (run: seq<Event>, q: Fan)
    requires n <= |addrs|
    ensures RunsTo(Start(self, addrs), run, q)
    ensures q == Fan(self, addrs, q.phase, 1 + n, None, {self} + ToSet(addrs[..n])) && |q.phase| == |addrs|
    ensures forall g :: 0 <= g < |addrs| ==> q.phase[g] == if g < n then Counted else Sending
  {
    if n == 0 {
      run, q := [], Start(self, addrs);
    } else {
      var before, p := CountFirst(self, addrs, n - 1);
      var more;
      more, q := CountOne(p, n - 1);
      run := before + more;
      FollowJoin(Next(), Start(self, addrs), before, more);
      ToSetStep(addrs, n);
    }
  }

  /** With a repeated address there is a run whose 201 claims one server more than hold the bytes. */
  lemma RepeatedAddressOvercounts(self: string, addrs: seq<string>) returns (run: seq<Event>, q: Fan)
    requires !Distinct(self, addrs)
    ensures RunsTo(Start(self, addrs), run, q) && Finished(q)
    ensures Created(q, false, 1 + |addrs|) && |q.holders| < q.successes == 1 + |addrs|
  {
    run, q := CountFirst(self, addrs, |addrs|);
    assert addrs[..|addrs|] == addrs;
    RepeatsCount(self, addrs);
  }

  lemma RepeatsCount(self: string, addrs: seq<string>)
    requires !Distinct(self, addrs)
    ensures |{self} + ToSet(addrs)| < 1 + |addrs|
  {
    var all := [self] + addrs;
    assert ToSet(all) == {self} + ToSet(addrs);
    if self in addrs {
      var i :| 0 <= i < |addrs| && addrs[i] == self;
      assert all[0] == all[i + 1];
    } else {
      var i, j :| 0 <= i < j < |addrs| && addrs[i] == addrs[j];
      assert all[i + 1] == all[j + 1];
    }
    NoDupIff(all);
    SetNoLarger(all);
  }

  /** Some schedule of the fan-out leads to q. */
  ghost predicate Reaches(self: string, addrs: seq<string>, run: seq<Event>, q: Fan) {
    RunsTo(Start(self, addrs), run, q)
  }

  /** The quorum is honest on every schedule exactly when the primary and the replicas have different addresses. */
  lemma QuorumSoundIff(self: string, addrs: seq<string>)
    ensures Distinct(self, addrs) <==> forall run, q :: Reaches(self, addrs, run, q) ==> q.successes <= |q.holders|
    ensures Distinct(self, addrs) <==>
      forall run, q, w: nat :: Reaches(self, addrs, run, q) && Created(q, false, w) ==> |q.holders| >= w
  {
    if Distinct(self, addrs) {
      forall run, q | Reaches(self, addrs, run, q) ensures q.successes <= |q.holders| {
        QuorumSound(self, addrs, run, q, 0);
      }
    } else {
      var run, q := RepeatedAddressOvercounts(self, addrs);
      assert Reaches(self, addrs, run, q) && Created(q, false, 1 + |addrs|);
    }
  }

  // ---- Several addresses of one server --------------------------------------------

  function Hosts(host: string -> string, addrs: seq<string>): (h: seq<string>)
    ensures |h| == |addrs| && forall i :: 0 <= i < |h| ==> h[i] == host(addrs[i])
  {
    seq(|addrs|, i requires 0 <= i < |addrs| => host(addrs[i]))
  }

  function HostsOf(host: string -> string, addrs: set<string>): set<string> {
    set a | a in addrs :: host(a)
  }

  /** The fan-out seen server by server. */
  function Hosted(host: string -> string, q: Fan): Fan {
    q.(self := host(q.self), addrs := Hosts(host, q.addrs), holders := HostsOf(host, q.holders))
  }

  lemma StepHosted(host: string -> string, q: Fan, e: Event)
    requires Enabled(q, e)
    ensures Enabled(Hosted(host, q), e) && Exec(Hosted(host, q), e) == Hosted(host, Exec(q, e))
  {
    if e.Deliver? {
      var a := q.addrs[e.g];
      assert HostsOf(host, q.holders + {a}) == HostsOf(host, q.holders) + {host(a)};
    }
  }

  lemma {:induction false} RunHosted(host: string -> string, q: Fan, run: seq<Event>, q': Fan)
    requires RunsTo(q, run, q')
    ensures RunsTo(Hosted(host, q), run, Hosted(host, q'))
    decreases |run|
  {
    if run != [] {
      StepHosted(host, q, run[0]);
      RunHosted(host, Exec(q, run[0]), run[1..], q');
    }
  }

  lemma AllHosts(host: string -> string, self: string, addrs: seq<string>)
    ensures HostsOf(host, {self} + ToSet(addrs)) == {host(self)} + ToSet(Hosts(host, addrs))
  {
    forall x ensures x in HostsOf(host, {self} + ToSet(addrs)) <==> x in {host(self)} + ToSet(Hosts(host, addrs)) {
      if x in ToSet(Hosts(host, addrs)) {
        var i :| 0 <= i < |addrs| && Hosts(host, addrs)[i] == x;
        assert addrs[i] in ToSet(addrs);
      }
      if x in HostsOf(host, ToSet(addrs)) {
        var a :| a in addrs && host(a) == x;
        var i :| 0 <= i < |addrs| && addrs[i] == a;
        assert Hosts(host, addrs)[i] == x;
      }
    }
  }

  lemma StartHosted(host: string -> string, self: string, addrs: seq<string>)
    ensures Hosted(host, Start(self, addrs)) == Start(host(self), Hosts(host, addrs))
  {
    assert HostsOf(host, {self}) == {host(self)};
  }

  /** Whatever servers the addresses lead to, the counter never exceeds the number of servers that hold the bytes, on
      any schedule, exactly when the primary and the replicas are all different servers. */
  lemma QuorumServersIff(self: string, addrs: seq<string>, host: string -> string)
    ensures Distinct(host(self), Hosts(host, addrs)) <==>
      forall run, q :: Reaches(self, addrs, run, q) ==> q.successes <= |HostsOf(host, q.holders)|
  {
    if Distinct(host(self), Hosts(host, addrs)) {
      forall run, q | Reaches(self, addrs, run, q) ensures q.successes <= |HostsOf(host, q.holders)| {
        RunHosted(host, Start(self, addrs), run, q);
        StartHosted(host, self, addrs);
        QuorumSound(host(self), Hosts(host, addrs), run, Hosted(host, q), 0);
      }
    } else {
      var run, q := CountFirst(self, addrs, |addrs|);
      assert addrs[..|addrs|] == addrs;
      AllHosts(host, self, addrs);
      RepeatsCount(host(self), Hosts(host, addrs));
      assert Reaches(self, addrs, run, q);
    }
  }

  /** With no replica list a 201 promises W holders only if W is at most one: nothing is checked. */
  lemma QuorumUncheckedIff(self: string, w: nat)
    ensures Finished(Start(self, [])) && Created(Start(self, []), true, w)
    ensures |Start(self, []).holders| >= w <==> w <= 1
  {
  }

  /** The handler refuses exactly when fewer than W writes were confirmed, its own among them: no confirmation is lost
      to a race. */
  lemma RefusedIff(self: string, addrs: seq<string>, run: seq<Event>, q: Fan, w: nat)
    requires RunsTo(Start(self, addrs), run, q) && Finished(q)
    ensures !Created(q, false, w) <==> 1 + |CountedSet(q.phase)| < w
  {
    StartInv(self, addrs);
    RunKeepsInv(Start(self, addrs), run, q);
  }

  // ---- The wait always ends -------------------------------------------------------

  function StepsLeft(p: Phase): nat {
    match p
    case Sending => 4
    case Stored => 3
    case Answered => 2
    case Incrementing(_) => 1
    case _ => 0
  }

  function AllStepsLeft(phase: seq<Phase>): nat {
    if phase == [] then 0 else StepsLeft(phase[0]) + AllStepsLeft(phase[1..])
  }

  lemma {:induction false} OneStepFewer(phase: seq<Phase>, g: nat, p: Phase)
    requires g < |phase|
    ensures AllStepsLeft(phase[g := p]) == AllStepsLeft(phase) - StepsLeft(phase[g]) + StepsLeft(p)
  {
    if g == 0 {
      assert phase[0 := p][1..] == phase[1..];
    } else {
      OneStepFewer(phase[1..], g - 1, p);
      assert phase[g := p][1..] == phase[1..][g - 1 := p];
    }
  }

  /** No deadlock: as long as a goroutine is unfinished some step can be taken. */
  lemma NeverStuck(q: Fan)
    requires Inv(q) && !Finished(q)
    ensures exists e :: Enabled(q, e)
  {
    var g :| 0 <= g < |q.phase| && q.phase[g] != Counted && q.phase[g] != Lost;
    match q.phase[g]
    case Sending => assert Enabled(q, Deliver(g));
    case Stored => assert Enabled(q, Answer(g));
    case Answered =>
      if q.lock == None {
        assert Enabled(q, Acquire(g));
      } else {
        assert Enabled(q, Release(q.lock.value));
      }
    case Incrementing(_) => assert Enabled(q, Release(g));
  }

  /** Every run is finite: each step is one of at most four per goroutine. */
  lemma {:induction false} RunsAreBounded(q: Fan, run: seq<Event>, q': Fan)
    requires RunsTo(q, run, q')
    ensures |run| + AllStepsLeft(q'.phase) <= AllStepsLeft(q.phase)
    decreases |run|
  {
    if run != [] {
      var next := Exec(q, run[0]);
      OneStepFewer(q.phase, run[0].g, next.phase[run[0].g]);
      assert next.phase == q.phase[run[0].g := next.phase[run[0].g]];
      RunsAreBounded(next, run[1..], q');
    }
  }

  lemma RunAppend(q: Fan, run: seq<Event>, q': Fan, e: Event)
    requires RunsTo(q, run, q') && Enabled(q', e)
    ensures RunsTo(q, run + [e], Exec(q', e))
  {
    FollowJoin(Next(), q, run, [e]);
    FollowOne(Next(), q', e);
  }

  lemma StepShrinks(q: Fan, e: Event)
    requires Enabled(q, e)
    ensures AllStepsLeft(Exec(q, e).phase) < AllStepsLeft(q.phase)
  {
    FollowOne(Next(), q, e);
    RunsAreBounded(q, [e], Exec(q, e));
  }

  // ---- What the network decides, and the schedule does not -----------------------------

  /** What becomes of one replica write: it never arrives, it is stored but no good answer comes back, or it is
      acknowledged. */
  datatype Fate = Unsent | Unanswered | Acknowledged

  predicate Fits(fate: nat -> Fate, e: Event) {
    match e
    case Deliver(g) => fate(g) != Unsent
    case Drop(g) => fate(g) == Unsent
    case LoseAnswer(g) => fate(g) == Unanswered
    case Answer(g) => fate(g) == Acknowledged
    case _ => true
  }

  function WithFate(fate: nat -> Fate, n: nat, f: Fate): set<nat> {
    set g: nat | g < n && fate(g) == f
  }

  function Arrived(q: Fan, fate: nat -> Fate): set<nat> {
    set g: nat | g < |q.phase| && q.phase[g] != Sending && fate(g) != Unsent
  }

  /** How far the fan-out has come, as fate has it. */
  ghost predicate Fated(fate: nat -> Fate, q: Fan) {
    && |q.phase| == |q.addrs|
    && (forall g: nat :: g < |q.phase| ==>
          match q.phase[g]
          case Sending => true
          case Stored => fate(g) != Unsent
          case Lost => fate(g) != Acknowledged
          case _ => fate(g) == Acknowledged)
    && q.holders == {q.self} + AddrsOf(q.addrs, Arrived(q, fate))
  }

  lemma ArrivedStep(q: Fan, fate: nat -> Fate, g: nat, p: Phase)
    requires |q.phase| == |q.addrs| && g < |q.phase| && p != Sending
    ensures var q' := q.(phase := q.phase[g := p]);
      Arrived(q', fate) == if fate(g) != Unsent then Arrived(q, fate) + {g} else Arrived(q, fate)
    ensures AddrsOf(q.addrs, Arrived(q, fate) + {g}) == AddrsOf(q.addrs, Arrived(q, fate)) + {q.addrs[g]}
  {
  }

  lemma FatedStep(fate: nat -> Fate, q: Fan, e: Event)
    requires Fated(fate, q) && Enabled(q, e) && Fits(fate, e)
    ensures Fated(fate, Exec(q, e))
  {
    var p := Exec(q, e).phase[e.g];
    ArrivedStep(q, fate, e.g, p);
    assert q.phase[e.g] != Sending && fate(e.g) != Unsent ==> Arrived(q, fate) + {e.g} == Arrived(q, fate);
    assert Arrived(Exec(q, e), fate) == Arrived(q.(phase := q.phase[e.g := p]), fate);
  }

  lemma StartFated(fate: nat -> Fate, self: string, addrs: seq<string>)
    ensures Fated(fate, Start(self, addrs))
  {
    assert Arrived(Start(self, addrs), fate) == {};
    assert AddrsOf(addrs, {}) == {};
  }

  predicate AllFit(fate: nat -> Fate, run: seq<Event>) {
    forall i :: 0 <= i < |run| ==> Fits(fate, run[i])
  }

  lemma {:induction false} RunFated(fate: nat -> Fate, q: Fan, run: seq<Event>, q': Fan)
    requires Fated(fate, q) && RunsTo(q, run, q') && AllFit(fate, run)
    ensures Fated(fate, q') && q'.self == q.self && q'.addrs == q.addrs
    decreases |run|
  {
    if run != [] {
      FatedStep(fate, q, run[0]);
      RunFated(fate, Exec(q, run[0]), run[1..], q');
    }
  }

  /** The outcome of a finished fan-out: who was counted and who holds the bytes. */
  ghost predicate Decided(fate: nat -> Fate, self: string, addrs: seq<string>, q: Fan) {
    && CountedSet(q.phase) == WithFate(fate, |addrs|, Acknowledged)
    && q.holders == {self}
         + AddrsOf(addrs, WithFate(fate, |addrs|, Acknowledged) + WithFate(fate, |addrs|, Unanswered))
  }

  lemma FinishedIsDecided(fate: nat -> Fate, q: Fan)
    requires Fated(fate, q) && Finished(q)
    ensures Decided(fate, q.self, q.addrs, q)
  {
    var n := |q.addrs|;
    forall g: nat | g < n ensures q.phase[g] == Counted <==> fate(g) == Acknowledged {
      assert q.phase[g] == Counted || q.phase[g] == Lost;
    }
    assert CountedSet(q.phase) == WithFate(fate, n, Acknowledged);
    assert Arrived(q, fate) == WithFate(fate, n, Acknowledged) + WithFate(fate, n, Unanswered);
  }

  /** The schedule does not matter: what becomes of the requests decides who is counted and who holds the bytes. */
  lemma FateDecides(fate: nat -> Fate, self: string, addrs: seq<string>, run: seq<Event>, q: Fan)
    requires RunsTo(Start(self, addrs), run, q) && AllFit(fate, run) && Finished(q)
    ensures Decided(fate, self, addrs, q)
  {
    StartFated(fate, self, addrs);
    RunFated(fate, Start(self, addrs), run, q);
    FinishedIsDecided(fate, q);
  }

  /** Whatever becomes of the requests, some step that fits can be taken as long as a goroutine is unfinished. */
  lemma FateNeverStuck(fate: nat -> Fate, q: Fan)
    requires Inv(q) && Fated(fate, q) && !Finished(q)
    ensures exists e :: Enabled(q, e) && Fits(fate, e)
  {
    var g: nat :| g < |q.phase| && q.phase[g] != Counted && q.phase[g] != Lost;
    var e :=
      match q.phase[g]
      case Sending => if fate(g) == Unsent then Drop(g) else Deliver(g)
      case Stored => if fate(g) == Acknowledged then Answer(g) else LoseAnswer(g)
      case Answered => if q.lock == None then Acquire(g) else Release(q.lock.value)
      case _ => Release(g);
    assert Enabled(q, e) && Fits(fate, e);
  }

  lemma {:induction false} RunOut(fate: nat -> Fate, q: Fan) returns (run: seq<Event>, q': Fan)
    requires Inv(q) && Fated(fate, q)
    ensures RunsTo(q, run, q') && AllFit(fate, run) && Finished(q')
    decreases AllStepsLeft(q.phase)
  {
    if Finished(q) {
      run, q' := [], q;
    } else {
      FateNeverStuck(fate, q);
      var e :| Enabled(q, e) && Fits(fate, e);
      StepKeepsInv(q, e);
      FatedStep(fate, q, e);
      StepShrinks(q, e);
      var rest;
      rest, q' := RunOut(fate, Exec(q, e));
      FollowFirst(Next(), q, e, rest);
      run := [e] + rest;
    }
  }

  function FateOf(counted: set<nat>, holding: set<nat>): nat -> Fate {
    (g: nat) => if g in counted then Acknowledged else if g in holding then Unanswered else Unsent
  }

  lemma FateOfSets(n: nat, counted: set<nat>, holding: set<nat>)
    requires counted <= holding && forall g :: g in holding ==> g < n
    ensures var fate := FateOf(counted, holding);
      && WithFate(fate, n, Acknowledged) == counted
      && WithFate(fate, n, Acknowledged) + WithFate(fate, n, Unanswered) == holding
  {
  }

  /** Requests and answers can be lost in every combination: for every set of goroutines, some schedule ends with
      exactly those counted, and with any of the others holding the bytes too. */
  lemma AnySetCounted(self: string, addrs: seq<string>, counted: set<nat>, holding: set<nat>)
      returns (run: seq<Event>, q: Fan)
    requires counted <= holding && forall g :: g in holding ==> g < |addrs|
    ensures RunsTo(Start(self, addrs), run, q) && Finished(q)
    ensures CountedSet(q.phase) == counted && q.successes == 1 + |counted|
    ensures q.holders == {self} + AddrsOf(addrs, holding)
  {
    var fate := FateOf(counted, holding);
    FateOfSets(|addrs|, counted, holding);
    StartInv(self, addrs);
    StartFated(fate, self, addrs);
    run, q := RunOut(fate, Start(self, addrs));
    FateDecides(fate, self, addrs, run, q);
    RunKeepsInv(Start(self, addrs), run, q);
  }

  /** putFragment, under any schedule of its goroutines; `stored` says that the body was read and stored locally, `fate`
      what becomes of the request to each replica. It returns, with exactly the confirmed writes counted, and answers
      201 exactly when no header came or W writes were confirmed. */
  method PutFragment(self: string, header: string, quorumHeader: string, stored: bool, fate: nat -> Fate)
      returns (created: bool, q: Fan)
    ensures !stored ==> !created
    ensures stored ==> Inv(q) && Finished(q) && exists run :: RunsTo(Start(self, NonEmpty(Split(header))), run, q)
    ensures stored ==> Decided(fate, self, NonEmpty(Split(header)), q)
    ensures stored ==>
      var acknowledged := WithFate(fate, |NonEmpty(Split(header))|, Acknowledged);
      created <==> header == "" || 1 + |acknowledged| >= WriteQuorum(quorumHeader)
    ensures stored && created && header != "" && Distinct(self, NonEmpty(Split(header))) ==>
      |q.holders| >= WriteQuorum(quorumHeader)
  {
    var addrs := ReplicaAddrs(header);
    q := Start(self, addrs);
    ghost var run := [];
    if !stored {
      return false, q;
    }
    StartInv(self, addrs);
    StartFated(fate, self, addrs);
    while exists g :: 0 <= g < |q.phase| && q.phase[g] != Counted && q.phase[g] != Lost
      invariant Inv(q) && Fated(fate, q) && q.self == self && q.addrs == addrs && RunsTo(Start(self, addrs), run, q)
      decreases AllStepsLeft(q.phase)
    {
      FateNeverStuck(fate, q);
      var e :| Enabled(q, e) && Fits(fate, e);
      StepKeepsInv(q, e);
      FatedStep(fate, q, e);
      StepShrinks(q, e);
      RunAppend(Start(self, addrs), run, q, e);
      run := run + [e];
      q := Exec(q, e);
    }
    FinishedIsDecided(fate, q);
    QuorumSound(self, addrs, run, q, WriteQuorum(quorumHeader));
    created := header == "" || q.successes >= WriteQuorum(quorumHeader);
  }
}
