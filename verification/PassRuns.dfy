/** PrepareKey and the two passes, as the metadata store performs them, are runs of the whole system. */
module PassRuns {
  import opened Collections
  import opened Names
  import opened Catalog
  import opened Repair
  import opened Runs
  import opened Protocol

  /** What PrepareKey computes on a catalog can be prepared in any state with that catalog and no earlier such key. */
  lemma PrepareKeyFits(cfg: Config, s: Sys, e: KeyEntry, data: seq<Bytes>)
    requires Inv(cfg.rf, s) && WellFormedEntry(e) && |data| == |e.fragments| && cfg.rf > 0 && Live(s.cat) != {}
    requires forall i: nat :: i < |e.fragments| ==>
      var f := e.fragments[i];
      && f.id !in s.plan && IsPlacement(cfg, s.cat, f.id, f.nodeIDs) && |f.nodeAddrs| == |f.nodeIDs|
      && forall j :: 0 <= j < |f.nodeIDs| ==>
        f.nodeIDs[j] in s.cat.nodes && f.nodeAddrs[j] == BaseURL(s.cat.nodes[f.nodeIDs[j]].addr)
    ensures Enabled(cfg.rf, s, Prepare(e, data))
  {
    forall i: nat | i < |e.fragments|
      ensures var f := e.fragments[i];
        && f.id !in s.plan && GoodList(cfg.rf, s.cat.nodes.Keys, f.nodeIDs) && |f.nodeAddrs| == |f.nodeIDs|
        && f.nodeIDs != [] && forall j :: 0 <= j < |f.nodeIDs| ==> (f.nodeIDs[j], f.nodeAddrs[j]) in s.known
    {
      PlacementIsGood(cfg, s.cat, e.fragments[i].id, e.fragments[i].nodeIDs);
    }
  }

  // ---- Workers --------------------------------------------------------------------------

  /** A recovery that asks for copies is a worker of the state machine, and writes back what that worker writes. */
  lemma RecoveredIsWorker(rf: nat, ids: seq<string>, view: map<string, string>, e: Effort, fid: string)
    requires NoDup(ids) && Recovered(rf, view.Keys, ids, e) && e.targets != []
    ensures WellBegun(rf, Worker(Recovery, fid, ids, view, [], e.targets, 0, []))
    ensures Written(Worker(Recovery, fid, ids, view, [], e.targets, |e.targets|, e.acked)) == e.written
  {
  }

  /** Likewise for rebalance, whether or not it asks for copies. */
  lemma RebalancedIsWorker(rf: nat, ids: seq<string>, view: map<string, string>, desired: seq<string>, e: Effort,
      fid: string)
    requires Rebalanced(view.Keys, Addressed(view, Restrict(ids, view.Keys)), desired, ids, e)
    ensures WellBegun(rf, Worker(Rebalance, fid, ids, view, desired, e.targets, 0, []))
    ensures Written(Worker(Rebalance, fid, ids, view, desired, e.targets, |e.targets|, e.acked)) == e.written
  {
  }

  /** The live nodes of a catalog with their base URLs. */
  function LiveView(cat: State): map<string, string> {
    map id | id in Live(cat) :: BaseURL(cat.nodes[id].addr)
  }

  lemma AddressedIsSourced(cat: State, ids: seq<string>)
    ensures LiveView(cat).Keys == Live(cat)
    ensures Addressed(LiveView(cat), Restrict(ids, Live(cat))) == Sourced(cat.nodes, Live(cat), ids)
  {
    assert LiveView(cat).Keys == Live(cat);
    var alive := Restrict(ids, Live(cat));
    FirstAreMembers(alive);
    if alive != [] {
      var addr := cat.nodes[alive[0]].addr;
      assert BaseURL(addr)[|BaseURL("")|..] == addr;
    }
  }

  /** The node a pass copies the fragment from serves it. */
  predicate SourceServes(s: Sys, cat: State, fid: string, ids: seq<string>) {
    var alive := Restrict(ids, Live(cat));
    alive != [] && (FirstAreMembers(alive); Holds(s, BaseURL(cat.nodes[alive[0]].addr), fid))
  }

  // ---- What a run sends out ---------------------------------------------------------------

  /** The base URL a worker's requests name as their source. */
  function SourceURL(w: Worker): string {
    match Source(w)
    case Some(url) => url
    case None => ""
  }

  /** The request a worker makes next. */
  function RequestOf(w: Worker): Request
    requires Asking(w)
  {
    Request(w.view[w.todo[w.next]], w.fid, SourceURL(w))
  }

  /** A granted request makes the server it is sent to store what the server it names serves, and no other server or
      fragment is affected. */
  lemma RequestIsCopy(rf: nat, s: Sys, w: nat)
    requires Enabled(rf, s, CopyAcked(w))
    ensures var r, t := RequestOf(s.workers[w]), Exec(rf, s, CopyAcked(w));
      && r.fid == s.workers[w].fid && Holds(s, r.from, r.fid) && Holds(t, r.to, r.fid)
      && t.stores[r.to][r.fid] == s.stores[r.from][r.fid]
      && forall url, fid :: (url, fid) != (r.to, r.fid) ==>
        && (Holds(t, url, fid) <==> Holds(s, url, fid))
        && (Holds(s, url, fid) ==> t.stores[url][fid] == s.stores[url][fid])
  {
  }

  /** The requests and proposals that a step stands for. */
  function SeenAt(s: Sys, e: Event): seq<Action> {
    match e
    case CopyAcked(w) => if w in s.workers && Asking(s.workers[w]) then [Asked(RequestOf(s.workers[w]), true)] else []
    case CopyFailed(w, _) =>
      if w in s.workers && Asking(s.workers[w]) then [Asked(RequestOf(s.workers[w]), false)] else []
    case WriteBack(w, applied) =>
      if w in s.workers then
        [Proposed(UpdateFragment(s.workers[w].fid, Written(s.workers[w])), if applied then Accepted else Refused)]
      else []
    case _ => []
  }

  ghost function Seen(): (Sys, Event) -> seq<Action> {
    (s: Sys, e: Event) => SeenAt(s, e)
  }

  ghost function Watched(rf: nat, s: Sys, run: seq<Event>): seq<Action> {
    Watch(Next(rf), Seen(), s, run)
  }

  lemma WatchedFirst(rf: nat, s: Sys, e: Event, run: seq<Event>)
    requires Enabled(rf, s, e)
    ensures Watched(rf, s, [e] + run) == SeenAt(s, e) + Watched(rf, Exec(rf, s, e), run)
  {
    WatchFirst(Next(rf), Seen(), s, e, run);
  }

  lemma WatchedJoin(rf: nat, s: Sys, run: seq<Event>, t: Sys, more: seq<Event>)
    requires RunsTo(rf, s, run, t)
    ensures Watched(rf, s, run + more) == Watched(rf, s, run) + Watched(rf, t, more)
  {
    WatchJoin(Next(rf), Seen(), s, run, more);
  }

  lemma WatchedOne(rf: nat, s: Sys, e: Event)
    requires Enabled(rf, s, e)
    ensures Watched(rf, s, [e]) == SeenAt(s, e)
  {
    WatchedFirst(rf, s, e, []);
    assert [e] + [] == [e];
  }

  /** A proposal that took effect, whatever its proposer was told. */
  function Told(x: Action): Action {
    match x
    case Asked(_, _) => x
    case Proposed(c, verdict) => Proposed(c, if verdict == Refused then Refused else Accepted)
  }

  function AllTold(sent: seq<Action>): (r: seq<Action>)
    ensures |r| == |sent| && forall j :: 0 <= j < |r| ==> r[j] == Told(sent[j])
  {
    seq(|sent|, j requires 0 <= j < |sent| => Told(sent[j]))
  }

  lemma ToldJoin(a: seq<Action>, b: seq<Action>)
    ensures AllTold(a + b) == AllTold(a) + AllTold(b)
  {
  }

  /** The worker's requests from the n-th on; those in `ok` are acknowledged. */
  function WorkerAsks(w: Worker, ok: set<string>, n: nat): (r: seq<Action>)
    requires n <= |w.todo| && forall id :: id in w.todo ==> id in w.view
    ensures |r| == |w.todo| - n
    ensures forall j :: 0 <= j < |r| ==>
      r[j] == Asked(Request(w.view[w.todo[n + j]], w.fid, SourceURL(w)), w.todo[n + j] in ok)
  {
    seq(|w.todo| - n, j requires 0 <= j < |w.todo| - n =>
      Asked(Request(w.view[w.todo[n + j]], w.fid, SourceURL(w)), w.todo[n + j] in ok))
  }

  lemma WorkerAsksStep(w: Worker, ok: set<string>, next: Worker)
    requires w.next < |w.todo| && (forall id :: id in w.todo ==> id in w.view) && Asking(w)
    requires next == w.(next := w.next + 1, acked := next.acked)
    ensures WorkerAsks(w, ok, w.next)
      == [Asked(RequestOf(w), w.todo[w.next] in ok)] + WorkerAsks(next, ok, next.next)
  {
    assert Source(next) == Source(w);
  }

  // ---- Runs of one worker ---------------------------------------------------------------

  predicate RepairOnly(run: seq<Event>) {
    forall e :: e in run ==> e.Begin? || e.CopyAcked? || e.CopyFailed? || e.WriteBack?
  }

  /** The worker with its remaining requests made, those in `ok` acknowledged. */
  function Finished(wk: Worker, ok: set<string>): Worker {
    wk.(next := |wk.todo|, acked := Restrict(wk.todo, ok))
  }

  /** The rest of the system is as it was, but for what copies add. */
  ghost predicate OnlyCopies(s: Sys, t: Sys, workers: map<nat, Worker>) {
    t == s.(stores := t.stores, acks := t.acks, workers := workers)
    && forall url, fid :: Holds(s, url, fid) ==> Holds(t, url, fid)
  }

  ghost predicate Underway(s: Sys, w: nat, ok: set<string>) {
    && w in s.workers
    && var wk := s.workers[w];
       && wk.next <= |wk.todo| && wk.acked == Restrict(wk.todo[..wk.next], ok)
       && (forall id :: id in wk.todo ==> id in wk.view)
       && (forall id :: id in wk.todo && id in ok ==> Source(wk).Some? && Holds(s, Source(wk).value, wk.fid))
  }

  lemma CopyNext(rf: nat, s: Sys, w: nat, ok: set<string>) returns (e: Event, t: Sys)
    requires Underway(s, w, ok) && s.workers[w].next < |s.workers[w].todo|
    ensures Enabled(rf, s, e) && t == Exec(rf, s, e) && (e.CopyAcked? || e.CopyFailed?)
    ensures Underway(t, w, ok) && OnlyCopies(s, t, s.workers[w := t.workers[w]])
    ensures t.workers[w].next == s.workers[w].next + 1
    ensures Finished(t.workers[w], ok) == Finished(s.workers[w], ok) && t.workers[w].todo == s.workers[w].todo
    ensures t.workers[w] == s.workers[w].(next := t.workers[w].next, acked := t.workers[w].acked)
    ensures Asking(s.workers[w])
      && SeenAt(s, e) == [Asked(RequestOf(s.workers[w]), s.workers[w].todo[s.workers[w].next] in ok)]
  {
    var wk := s.workers[w];
    assert wk.todo[wk.next] in wk.todo;
    if wk.todo[wk.next] in ok {
      e, t := CopyAcked(w), Advance(WithAck(s, wk), w, true);
      AckMoves(s, w, ok);
    } else {
      e, t := CopyFailed(w, false), Advance(s, w, false);
      FailMoves(s, w, ok);
    }
  }

  lemma AckMoves(s: Sys, w: nat, ok: set<string>)
    requires Underway(s, w, ok) && s.workers[w].next < |s.workers[w].todo|
    requires s.workers[w].todo[s.workers[w].next] in ok && CanCopy(s, s.workers[w])
    ensures var t := Advance(WithAck(s, s.workers[w]), w, true);
      Underway(t, w, ok) && OnlyCopies(s, t, s.workers[w := t.workers[w]])
  {
    var wk := s.workers[w];
    var u := WithAck(s, wk);
    StoreGrows(s, wk.view[wk.todo[wk.next]], wk.fid, s.stores[Source(wk).value][wk.fid], u.acks);
    AckAdvances(s, u, w, ok);
  }

  lemma AckAdvances(s: Sys, u: Sys, w: nat, ok: set<string>)
    requires Underway(s, w, ok) && s.workers[w].next < |s.workers[w].todo|
    requires s.workers[w].todo[s.workers[w].next] in ok && Grows(s, u) && u == s.(stores := u.stores, acks := u.acks)
    ensures Underway(Advance(u, w, true), w, ok)
    ensures OnlyCopies(s, Advance(u, w, true), s.workers[w := Advance(u, w, true).workers[w]])
  {
    var wk := s.workers[w];
    RestrictStep(wk.todo, ok, wk.next);
    assert Source(Advance(u, w, true).workers[w]) == Source(wk);
  }

  lemma FailMoves(s: Sys, w: nat, ok: set<string>)
    requires Underway(s, w, ok) && s.workers[w].next < |s.workers[w].todo|
    requires s.workers[w].todo[s.workers[w].next] !in ok
    ensures var t := Advance(s, w, false);
      Underway(t, w, ok) && OnlyCopies(s, t, s.workers[w := t.workers[w]])
  {
    RestrictStep(s.workers[w].todo, ok, s.workers[w].next);
  }

  lemma {:induction false} CopyAll(rf: nat, s: Sys, w: nat, ok: set<string>) returns (run: seq<Event>, t: Sys)
    requires Underway(s, w, ok)
    ensures RunsTo(rf, s, run, t) && RepairOnly(run)
    ensures OnlyCopies(s, t, s.workers[w := Finished(s.workers[w], ok)])
    ensures Watched(rf, s, run) == WorkerAsks(s.workers[w], ok, s.workers[w].next)
    decreases |s.workers[w].todo| - s.workers[w].next
  {
    var wk := s.workers[w];
    if wk.next == |wk.todo| {
      assert wk.todo[..wk.next] == wk.todo;
      assert s.workers[w := Finished(wk, ok)] == s.workers;
      run, t := [], s;
    } else {
      var e, next := CopyNext(rf, s, w, ok);
      var rest;
      rest, t := CopyAll(rf, next, w, ok);
      RunFirst(rf, s, e, rest, t);
      WatchedFirst(rf, s, e, rest);
      WorkerAsksStep(wk, ok, next.workers[w]);
      run := [e] + rest;
      CopiesAddUp(s, next, t, w, next.workers[w], Finished(wk, ok));
    }
  }

  /** Copies and more copies are copies. */
  lemma CopiesAddUp(s: Sys, next: Sys, t: Sys, w: nat, mid: Worker, last: Worker)
    requires OnlyCopies(s, next, s.workers[w := mid]) && OnlyCopies(next, t, next.workers[w := last])
    ensures OnlyCopies(s, t, s.workers[w := last])
  {
    assert next.workers[w := last] == s.workers[w := last];
  }

  lemma {:induction false} FreshWorker(taken: set<nat>) returns (w: nat)
    ensures forall x :: x in taken ==> x < w
  {
    if taken == {} {
      w := 0;
    } else {
      var x :| x in taken;
      var v := FreshWorker(taken - {x});
      w := if x < v then v else x + 1;
      assert forall y :: y in taken ==> y == x || y in taken - {x};
    }
  }

  /** One worker from its beginning to its write-back. */
  lemma WorkerRun(rf: nat, s: Sys, worker: Worker, ok: set<string>, applied: bool) returns (run: seq<Event>, t: Sys)
    requires Inv(rf, s) && PutsOK(s) && WellBegun(rf, worker) && (worker.fid, worker.read) in s.lists
    requires (forall id :: id in worker.view ==> (id, worker.view[id]) in s.known)
      && GoodList(rf, s.cat.nodes.Keys, worker.desired)
    requires forall id :: id in worker.todo ==> id in worker.view
    requires forall id :: id in worker.todo && id in ok ==>
      Source(worker).Some? && Holds(s, Source(worker).value, worker.fid)
    ensures RunsTo(rf, s, run, t) && RepairOnly(run) && t.workers == s.workers
    ensures t.cat == if applied then Step(s.cat, UpdateFragment(worker.fid, Written(Finished(worker, ok)))) else s.cat
    ensures Watched(rf, s, run) == WorkerAsks(worker, ok, 0)
      + [Proposed(UpdateFragment(worker.fid, Written(Finished(worker, ok))), if applied then Accepted else Refused)]
  {
    var w := FreshWorker(s.workers.Keys);
    assert w !in s.workers;
    var s1 := WithWorker(s, w, worker);
    WorkerBegins(rf, s, w, worker, ok);
    var copies, s2 := CopyAll(rf, s1, w, ok);
    WorkerEnds(rf, s, w, worker, ok, s2, applied);
    t := AfterWrite(s2, w, applied);
    RunAppend(rf, s1, copies, s2, WriteBack(w, applied));
    RunFirst(rf, s, Begin(w, worker), copies + [WriteBack(w, applied)], t);
    WorkerSeen(rf, s, w, worker, ok, copies, s2, applied);
    run := [Begin(w, worker)] + (copies + [WriteBack(w, applied)]);
  }

  /** What the worker's whole life lets be seen. */
  lemma WorkerSeen(rf: nat, s: Sys, w: nat, worker: Worker, ok: set<string>, copies: seq<Event>, s2: Sys,
      applied: bool)
    requires Enabled(rf, s, Begin(w, worker)) && Exec(rf, s, Begin(w, worker)) == WithWorker(s, w, worker)
    requires RunsTo(rf, WithWorker(s, w, worker), copies, s2) && Enabled(rf, s2, WriteBack(w, applied))
    requires s2.workers[w] == Finished(worker, ok)
    ensures Watched(rf, s, [Begin(w, worker)] + (copies + [WriteBack(w, applied)]))
      == Watched(rf, WithWorker(s, w, worker), copies)
      + [Proposed(UpdateFragment(worker.fid, Written(Finished(worker, ok))), if applied then Accepted else Refused)]
  {
    WatchedFirst(rf, s, Begin(w, worker), copies + [WriteBack(w, applied)]);
    WatchedJoin(rf, WithWorker(s, w, worker), copies, s2, [WriteBack(w, applied)]);
    WatchedOne(rf, s2, WriteBack(w, applied));
  }

  function WithWorker(s: Sys, w: nat, worker: Worker): Sys {
    s.(workers := s.workers[w := worker])
  }

  lemma WorkerBegins(rf: nat, s: Sys, w: nat, worker: Worker, ok: set<string>)
    requires w !in s.workers && WellBegun(rf, worker) && (worker.fid, worker.read) in s.lists
    requires (forall id :: id in worker.view ==> (id, worker.view[id]) in s.known)
      && GoodList(rf, s.cat.nodes.Keys, worker.desired)
    requires forall id :: id in worker.todo ==> id in worker.view
    requires forall id :: id in worker.todo && id in ok ==>
      Source(worker).Some? && Holds(s, Source(worker).value, worker.fid)
    ensures Enabled(rf, s, Begin(w, worker)) && Exec(rf, s, Begin(w, worker)) == WithWorker(s, w, worker)
    ensures Underway(WithWorker(s, w, worker), w, ok)
  {
  }

  lemma WorkerEnds(rf: nat, s: Sys, w: nat, worker: Worker, ok: set<string>, s2: Sys, applied: bool)
    requires w !in s.workers
    requires OnlyCopies(WithWorker(s, w, worker), s2, s.workers[w := worker][w := Finished(worker, ok)])
    ensures Enabled(rf, s2, WriteBack(w, applied))
    ensures var t := AfterWrite(s2, w, applied);
      && t == Exec(rf, s2, WriteBack(w, applied)) && t.workers == s.workers
      && t.cat == if applied then Step(s.cat, UpdateFragment(worker.fid, Written(Finished(worker, ok)))) else s.cat
  {
    assert s.workers[w := worker][w := Finished(worker, ok)] - {w} == s.workers;
  }

  // ---- Runs of one slot -----------------------------------------------------------------

  lemma SlotFacts(rf: nat, s: Sys, k: string, i: nat)
    requires Inv(rf, s) && HasSlot(s.cat, k, i)
    ensures (FragmentID(k, i), ListOf(s.cat, k, i)) in s.lists && NoDup(ListOf(s.cat, k, i))
    ensures forall id :: id in LiveView(s.cat) ==> (id, LiveView(s.cat)[id]) in s.known
  {
    ListInCatalog(s.cat, k, i);
    var p := (FragmentID(k, i), ListOf(s.cat, k, i));
    assert p in s.lists;
    assert GoodAndVouched(rf, s, p.0, p.1);
  }

  lemma RecoverySlotRun(rf: nat, s: Sys, k: string, i: nat, e: Effort) returns (run: seq<Event>, t: Sys)
    requires Inv(rf, s) && PutsOK(s) && HasSlot(s.cat, k, i)
    requires Recovered(rf, Live(s.cat), ListOf(s.cat, k, i), e) && e.targets != []
    requires e.acked != [] ==> SourceServes(s, s.cat, FragmentID(k, i), ListOf(s.cat, k, i))
    ensures RunsTo(rf, s, run, t) && RepairOnly(run) && t.workers == s.workers
    ensures t.cat == if e.applied then Step(s.cat, UpdateFragment(FragmentID(k, i), e.written)) else s.cat
    ensures Watched(rf, s, run)
      == AllTold(Sends(Recovery, LiveRecords(s.cat), FragmentID(k, i), ListOf(s.cat, k, i), e))
  {
    var ids, fid := ListOf(s.cat, k, i), FragmentID(k, i);
    SlotFacts(rf, s, k, i);
    AddressedIsSourced(s.cat, ids);
    RecoveredIsWorker(rf, ids, LiveView(s.cat), e, fid);
    var worker := Worker(Recovery, fid, ids, LiveView(s.cat), [], e.targets, 0, []);
    AckedServed(s, worker, e);
    run, t := WorkerRun(rf, s, worker, ToSet(e.acked), e.applied);
    assert Finished(worker, ToSet(e.acked)) == worker.(next := |e.targets|, acked := e.acked);
    WorkerSends(worker.pass, s.cat, k, i, worker, e);
  }

  lemma AckedServed(s: Sys, worker: Worker, e: Effort)
    requires worker.view == LiveView(s.cat) && SaneEffort(e)
    requires e.acked != [] ==> SourceServes(s, s.cat, worker.fid, worker.read)
    ensures e.acked != [] ==> Source(worker).Some? && Holds(s, Source(worker).value, worker.fid)
    ensures forall id :: id in ToSet(e.acked) ==> e.acked != []
  {
    AddressedIsSourced(s.cat, worker.read);
    FirstAreMembers(Restrict(worker.read, Live(s.cat)));
  }

  /** The worker's requests and its write-back are what the pass sends out for the fragment. */
  lemma WorkerSends(p: Pass, cat: State, k: string, i: nat, worker: Worker, e: Effort)
    requires HasSlot(cat, k, i) && worker.fid == FragmentID(k, i) && worker.read == ListOf(cat, k, i)
    requires worker.view == LiveView(cat) && worker.todo == e.targets && (p == Recovery ==> e.targets != [])
    requires forall id :: id in e.targets ==> id in Live(cat)
    requires e.targets != [] ==> Restrict(ListOf(cat, k, i), Live(cat)) != []
    ensures LiveView(cat).Keys == Live(cat)
    ensures AllTold(Sends(p, LiveRecords(cat), FragmentID(k, i), ListOf(cat, k, i), e))
      == WorkerAsks(worker, ToSet(e.acked), 0)
      + [Proposed(UpdateFragment(worker.fid, e.written), if e.applied then Accepted else Refused)]
  {
    var records, fid, ids := LiveRecords(cat), FragmentID(k, i), ListOf(cat, k, i);
    assert LiveView(cat).Keys == records.Keys == Live(cat);
    var asks := Asks(records, fid, SourceAddr(records, ids), e.targets, e.acked);
    var alive := Restrict(ids, Live(cat));
    FirstAreMembers(alive);
    assert AllTold(asks) == WorkerAsks(worker, ToSet(e.acked), 0);
    ToldJoin(asks, [Proposed(UpdateFragment(fid, e.written), e.verdict)]);
  }

  lemma RebalanceSlotRun(rf: nat, s: Sys, k: string, i: nat, desired: seq<string>, e: Effort)
      returns (run: seq<Event>, t: Sys)
    requires Inv(rf, s) && PutsOK(s) && HasSlot(s.cat, k, i) && GoodList(rf, s.cat.nodes.Keys, desired)
    requires Rebalanced(Live(s.cat), Sourced(s.cat.nodes, Live(s.cat), ListOf(s.cat, k, i)), desired,
      ListOf(s.cat, k, i), e)
    requires e.acked != [] ==> SourceServes(s, s.cat, FragmentID(k, i), ListOf(s.cat, k, i))
    ensures RunsTo(rf, s, run, t) && RepairOnly(run) && t.workers == s.workers
    ensures t.cat == if e.applied then Step(s.cat, UpdateFragment(FragmentID(k, i), e.written)) else s.cat
    ensures Watched(rf, s, run)
      == AllTold(Sends(Rebalance, LiveRecords(s.cat), FragmentID(k, i), ListOf(s.cat, k, i), e))
  {
    var ids, fid := ListOf(s.cat, k, i), FragmentID(k, i);
    SlotFacts(rf, s, k, i);
    AddressedIsSourced(s.cat, ids);
    RebalancedIsWorker(rf, ids, LiveView(s.cat), desired, e, fid);
    var worker := Worker(Rebalance, fid, ids, LiveView(s.cat), desired, e.targets, 0, []);
    AckedServed(s, worker, e);
    run, t := WorkerRun(rf, s, worker, ToSet(e.acked), e.applied);
    assert Finished(worker, ToSet(e.acked)) == worker.(next := |e.targets|, acked := e.acked);
    WorkerSends(worker.pass, s.cat, k, i, worker, e);
  }

  // ---- Runs of a whole pass -------------------------------------------------------------

  /** Half way through a pass from `a` to `b`: the slots left are as in `a`, the others as in `b`. */
  ghost predicate Between(a: State, cat: State, b: State, left: set<(string, nat)>) {
    && OnlyListsDiffer(a, cat)
    && forall k, i: nat :: HasSlot(a, k, i) ==>
      && HasSlot(cat, k, i) && HasSlot(b, k, i)
      && ListOf(cat, k, i) == if (k, i) in left then ListOf(a, k, i) else ListOf(b, k, i)
  }

  /** Where copies were acknowledged, the node they were taken from serves the fragment. */
  ghost predicate Served(s: Sys, a: State, log: Journal) {
    forall k, i: nat :: HasSlot(a, k, i) && (k, i) in log && log[(k, i)].acked != [] ==>
      SourceServes(s, a, FragmentID(k, i), ListOf(a, k, i))
  }

  lemma SlotBehind(a: State, cat: State, b: State, left: set<(string, nat)>, k: string, i: nat, ids: seq<string>,
      applied: bool)
    requires Between(a, cat, b, left) && WellFormed(cat) && HasSlot(a, k, i) && (k, i) in left
    requires ListOf(b, k, i) == if applied then ids else ListOf(a, k, i)
    ensures var cat' := if applied then Step(cat, UpdateFragment(FragmentID(k, i), ids)) else cat;
      Between(a, cat', b, left - {(k, i)})
  {
    if applied {
      var cat' := Step(cat, UpdateFragment(FragmentID(k, i), ids));
      UpdateTouchesOne(cat, k, i, ids);
      forall k' | k' in a.keys ensures SameButLists(cat.keys[k'], cat'.keys[k']) {
      }
      OnlyListsTransitive(a, cat, cat');
    }
  }

  lemma OneSlot(p: Pass, cfg: Config, a: State, s: Sys, b: State, log: Journal, left: set<(string, nat)>,
      k: string, i: nat)
      returns (run: seq<Event>, t: Sys)
    requires Inv(cfg.rf, s) && PutsOK(s) && Between(a, s.cat, b, left) && WellFormed(a)
    requires HasSlot(a, k, i) && (k, i) in left && SlotDone(p, cfg, a, b, log, k, i) && Served(s, a, log)
    ensures RunsTo(cfg.rf, s, run, t) && RepairOnly(run) && t.workers == s.workers
    ensures Inv(cfg.rf, t) && PutsOK(t) && Grows(s, t) && Between(a, t.cat, b, left - {(k, i)})
    ensures Watched(cfg.rf, s, run) == AllTold(SlotSends(p, a, log, k, i))
  {
    match p {
      case Recovery => run, t := RecoverySlot(cfg, a, s, b, log, left, k, i);
      case Rebalance => run, t := RebalanceSlot(cfg, a, s, b, log, left, k, i);
    }
    RunKeepsInv(cfg.rf, s, run, t);
  }

  /** The slot's recovery, told of the catalog as it is by now. */
  lemma RecoveryAsked(cfg: Config, a: State, s: Sys, b: State, log: Journal, left: set<(string, nat)>, k: string,
      i: nat)
    requires Between(a, s.cat, b, left) && Served(s, a, log)
    requires HasSlot(a, k, i) && (k, i) in left && RecoveredSlot(cfg, a, b, log, k, i)
    ensures HasSlot(s.cat, k, i) && Recovered(cfg.rf, Live(s.cat), ListOf(s.cat, k, i), log[(k, i)])
    ensures log[(k, i)].targets == [] ==> ListOf(b, k, i) == ListOf(a, k, i)
    ensures log[(k, i)].acked != [] ==> SourceServes(s, s.cat, FragmentID(k, i), ListOf(s.cat, k, i))
  {
    assert Live(s.cat) == Live(a) && s.cat.nodes == a.nodes;
  }

  lemma RecoverySlot(cfg: Config, a: State, s: Sys, b: State, log: Journal, left: set<(string, nat)>, k: string, i: nat)
      returns (run: seq<Event>, t: Sys)
    requires Inv(cfg.rf, s) && PutsOK(s) && Between(a, s.cat, b, left)
    requires HasSlot(a, k, i) && (k, i) in left && RecoveredSlot(cfg, a, b, log, k, i) && Served(s, a, log)
    ensures RunsTo(cfg.rf, s, run, t) && RepairOnly(run) && t.workers == s.workers
    ensures Between(a, t.cat, b, left - {(k, i)})
    ensures Watched(cfg.rf, s, run) == AllTold(SlotSends(Recovery, a, log, k, i))
  {
    RecoveryAsked(cfg, a, s, b, log, left, k, i);
    SameRecords(a, s.cat);
    if log[(k, i)].targets == [] {
      run, t := [], s;
      SlotBehind(a, s.cat, b, left, k, i, log[(k, i)].written, false);
    } else {
      run, t := RecoverySlotRun(cfg.rf, s, k, i, log[(k, i)]);
      SlotBehind(a, s.cat, b, left, k, i, log[(k, i)].written, log[(k, i)].applied);
    }
  }

  /** The slot's rebalance, told of the catalog as it is by now. */
  lemma RebalanceAsked(cfg: Config, a: State, s: Sys, b: State, log: Journal, left: set<(string, nat)>, k: string,
      i: nat)
      returns (desired: seq<string>)
    requires Between(a, s.cat, b, left) && WellFormed(a) && Served(s, a, log)
    requires HasSlot(a, k, i) && (k, i) in left && RebalancedSlot(cfg, a, b, log, k, i)
    ensures HasSlot(s.cat, k, i) && GoodList(cfg.rf, s.cat.nodes.Keys, desired)
    ensures Rebalanced(Live(s.cat), Sourced(s.cat.nodes, Live(s.cat), ListOf(s.cat, k, i)), desired,
      ListOf(s.cat, k, i), log[(k, i)])
    ensures log[(k, i)].acked != [] ==> SourceServes(s, s.cat, FragmentID(k, i), ListOf(s.cat, k, i))
  {
    var ids, e := ListOf(a, k, i), log[(k, i)];
    assert Live(s.cat) == Live(a) && s.cat.nodes == a.nodes;
    desired :| IsPlacement(cfg, a, FragmentID(k, i), desired)
      && Rebalanced(Live(a), Sourced(a.nodes, Live(a), ids), desired, ids, e);
    PlacementIsGood(cfg, a, FragmentID(k, i), desired);
  }

  lemma RebalanceSlot(cfg: Config, a: State, s: Sys, b: State, log: Journal, left: set<(string, nat)>, k: string,
      i: nat)
      returns (run: seq<Event>, t: Sys)
    requires Inv(cfg.rf, s) && PutsOK(s) && Between(a, s.cat, b, left) && WellFormed(a)
    requires HasSlot(a, k, i) && (k, i) in left && RebalancedSlot(cfg, a, b, log, k, i) && Served(s, a, log)
    ensures RunsTo(cfg.rf, s, run, t) && RepairOnly(run) && t.workers == s.workers
    ensures Between(a, t.cat, b, left - {(k, i)})
    ensures Watched(cfg.rf, s, run) == AllTold(SlotSends(Rebalance, a, log, k, i))
  {
    var desired := RebalanceAsked(cfg, a, s, b, log, left, k, i);
    SameRecords(a, s.cat);
    run, t := RebalanceSlotRun(cfg.rf, s, k, i, desired, log[(k, i)]);
    SlotBehind(a, s.cat, b, left, k, i, log[(k, i)].written, log[(k, i)].applied);
  }

  lemma ServedLater(s: Sys, t: Sys, a: State, log: Journal)
    requires Served(s, a, log) && Grows(s, t)
    ensures Served(t, a, log)
  {
    forall k, i: nat | HasSlot(a, k, i) && (k, i) in log && log[(k, i)].acked != []
      ensures SourceServes(t, a, FragmentID(k, i), ListOf(a, k, i))
    {
      assert SourceServes(s, a, FragmentID(k, i), ListOf(a, k, i));
    }
  }

  lemma SameRecords(a: State, cat: State)
    requires a.nodes == cat.nodes
    ensures LiveRecords(a) == LiveRecords(cat) && Live(a) == Live(cat)
  {
  }

  /** The pass can start here: the sources of its acknowledged copies serve. */
  ghost predicate Ready(cfg: Config, a: State, s: Sys, log: Journal) {
    Inv(cfg.rf, s) && PutsOK(s) && WellFormed(a) && Served(s, a, log)
  }

  /** The run does repairs only, sends out what is listed, and leaves these slots for later. */
  ghost predicate Leads(cfg: Config, a: State, s: Sys, b: State, run: seq<Event>, t: Sys, left: set<(string, nat)>,
      sent: seq<Action>) {
    && RunsTo(cfg.rf, s, run, t) && RepairOnly(run) && t.workers == s.workers && Between(a, t.cat, b, left)
    && Watched(cfg.rf, s, run) == AllTold(sent)
  }

  lemma LeadsOn(cfg: Config, a: State, s: Sys, b: State, front: seq<Event>, mid: Sys, left: set<(string, nat)>,
      sent: seq<Action>, last: seq<Event>, t: Sys, left': set<(string, nat)>, more: seq<Action>)
    requires Leads(cfg, a, s, b, front, mid, left, sent) && Leads(cfg, a, mid, b, last, t, left', more)
    ensures Leads(cfg, a, s, b, front + last, t, left', sent + more)
  {
    RunJoin(cfg.rf, s, front, mid, last, t);
    WatchedJoin(cfg.rf, s, front, mid, last);
    ToldJoin(sent, more);
  }

  // ---- The fragments in the order of the pass ---------------------------------------------

  function Slots(cat: State): set<(string, nat)> {
    set k, i: nat | k in cat.keys && i < |cat.keys[k].fragments| :: (k, i)
  }

  ghost function SlotSender(p: Pass, a: State, log: Journal): ((string, nat)) -> seq<Action> {
    (slot: (string, nat)) => SlotSends(p, a, log, slot.0, slot.1)
  }

  /** An entry's first n fragments in order. */
  function EntrySlots(k: string, n: nat): (r: seq<(string, nat)>)
    ensures |r| == n && forall i: nat :: i < n ==> r[i] == (k, i)
  {
    seq(n, i requires 0 <= i < n => (k, i))
  }

  lemma {:induction false} EntrySlotsSend(p: Pass, a: State, log: Journal, k: string, n: nat)
    ensures FlatMap(SlotSender(p, a, log), EntrySlots(k, n)) == EntrySends(p, a, log, k, n)
    decreases n
  {
    if n > 0 {
      assert EntrySlots(k, n)[..n - 1] == EntrySlots(k, n - 1);
      EntrySlotsSend(p, a, log, k, n - 1);
    }
  }

  /** The fragments of the listed entries in order. */
  function OrderSlots(a: State, order: seq<string>): seq<(string, nat)> {
    if order == [] then []
    else
      var k := order[|order| - 1];
      OrderSlots(a, order[..|order| - 1]) + if k in a.keys then EntrySlots(k, |a.keys[k].fragments|) else []
  }

  lemma {:induction false} OrderSlotsSend(p: Pass, a: State, log: Journal, order: seq<string>)
    requires forall k :: k in order ==> k in a.keys
    ensures FlatMap(SlotSender(p, a, log), OrderSlots(a, order)) == PassSends(p, a, log, order)
    decreases |order|
  {
    if order != [] {
      var init, k := order[..|order| - 1], order[|order| - 1];
      OrderSlotsSend(p, a, log, init);
      FlatMapJoin(SlotSender(p, a, log), OrderSlots(a, init), EntrySlots(k, |a.keys[k].fragments|));
      EntrySlotsSend(p, a, log, k, |a.keys[k].fragments|);
    }
  }

  lemma {:induction false} OrderSlotsHold(a: State, order: seq<string>)
    requires NoDup(order)
    ensures NoDup(OrderSlots(a, order))
    ensures forall k, i: nat :: (k, i) in OrderSlots(a, order) <==> k in order && HasSlot(a, k, i)
    decreases |order|
  {
    if order != [] {
      var init, k := order[..|order| - 1], order[|order| - 1];
      OrderSlotsHold(a, init);
      assert order == init + [k] && k !in init;
      if k in a.keys {
        EntrySlotsAfter(a, OrderSlots(a, init), k);
      }
    }
  }

  lemma EntrySlotsAfter(a: State, front: seq<(string, nat)>, k: string)
    requires NoDup(front) && k in a.keys && forall i: nat :: (k, i) !in front
    ensures NoDup(front + EntrySlots(k, |a.keys[k].fragments|))
    ensures forall k', i: nat :: (k', i) in front + EntrySlots(k, |a.keys[k].fragments|) <==>
      (k', i) in front || (k' == k && HasSlot(a, k, i))
  {
    var mine := EntrySlots(k, |a.keys[k].fragments|);
    assert forall x :: x in mine ==> x.0 == k;
    assert forall i :: 0 <= i < |front| ==> front[i] in front;
    assert forall i: nat :: i < |mine| ==> mine[i] in mine;
  }

  /** One more fragment, after a run that leaves it for later. */
  lemma NextSlot(p: Pass, cfg: Config, a: State, s: Sys, b: State, log: Journal, front: seq<Event>, mid: Sys,
      left: set<(string, nat)>, sent: seq<Action>, k: string, i: nat)
      returns (run: seq<Event>, t: Sys)
    requires Ready(cfg, a, s, log) && (k, i) in left && HasSlot(a, k, i) && SlotDone(p, cfg, a, b, log, k, i)
    requires Leads(cfg, a, s, b, front, mid, left, sent)
    ensures Leads(cfg, a, s, b, run, t, left - {(k, i)}, sent + SlotSends(p, a, log, k, i))
  {
    RunKeepsInv(cfg.rf, s, front, mid);
    ServedLater(s, mid, a, log);
    var last;
    last, t := OneSlot(p, cfg, a, mid, b, log, left, k, i);
    run := front + last;
    LeadsOn(cfg, a, s, b, front, mid, left, sent, last, t, left - {(k, i)}, SlotSends(p, a, log, k, i));
  }

  /** The listed fragments, one after the other. */
  lemma {:induction false} SlotsRun(p: Pass, cfg: Config, a: State, s: Sys, b: State, log: Journal,
      slots: seq<(string, nat)>)
      returns (run: seq<Event>, t: Sys)
    requires Ready(cfg, a, s, log) && Between(a, s.cat, b, Slots(a)) && NoDup(slots)
    requires forall x :: x in slots ==> HasSlot(a, x.0, x.1) && SlotDone(p, cfg, a, b, log, x.0, x.1)
    ensures Leads(cfg, a, s, b, run, t, Slots(a) - ToSet(slots), FlatMap(SlotSender(p, a, log), slots))
    decreases |slots|
  {
    if slots == [] {
      assert Slots(a) - ToSet(slots) == Slots(a);
      run, t := [], s;
    } else {
      var init, last := slots[..|slots| - 1], slots[|slots| - 1];
      LastSlot(a, slots);
      var front, mid := SlotsRun(p, cfg, a, s, b, log, init);
      run, t := NextSlot(p, cfg, a, s, b, log, front, mid, Slots(a) - ToSet(init),
          FlatMap(SlotSender(p, a, log), init), last.0, last.1);
    }
  }

  lemma LastSlot(a: State, slots: seq<(string, nat)>)
    requires NoDup(slots) && slots != [] && forall x :: x in slots ==> HasSlot(a, x.0, x.1)
    ensures var init, last := slots[..|slots| - 1], slots[|slots| - 1];
      && last == (last.0, last.1) && last in slots && last in Slots(a) - ToSet(init)
      && Slots(a) - ToSet(init) - {last} == Slots(a) - ToSet(slots)
  {
    var init, last := slots[..|slots| - 1], slots[|slots| - 1];
    assert slots == init + [last];
  }

  lemma PassArrives(a: State, cat: State, b: State)
    requires Between(a, cat, b, {}) && OnlyListsDiffer(a, b)
    ensures cat == b
  {
    forall k | k in cat.keys ensures SameButLists(cat.keys[k], b.keys[k]) {
      assert SameButLists(a.keys[k], cat.keys[k]) && SameButLists(a.keys[k], b.keys[k]);
    }
    forall k | k in cat.keys ensures cat.keys[k] == b.keys[k] {
      assert SameButLists(a.keys[k], cat.keys[k]);
      SameListsSameEntry(cat, b, k);
    }
  }

  lemma PassBegins(a: State, b: State)
    requires OnlyListsDiffer(a, b)
    ensures Between(a, a, b, Slots(a))
  {
    forall k, i: nat | HasSlot(a, k, i) ensures HasSlot(b, k, i) && (k, i) in Slots(a) {
      assert SameButLists(a.keys[k], b.keys[k]);
    }
  }

  lemma PassIsRun(p: Pass, cfg: Config, s: Sys, b: State, log: Journal, order: seq<string>)
      returns (run: seq<Event>, t: Sys)
    requires Inv(cfg.rf, s) && PutsOK(s) && OnlyListsDiffer(s.cat, b) && Served(s, s.cat, log)
    requires forall k, i: nat :: HasSlot(s.cat, k, i) ==> SlotDone(p, cfg, s.cat, b, log, k, i)
    requires NoDup(order) && ToSet(order) == s.cat.keys.Keys
    ensures RunsTo(cfg.rf, s, run, t) && RepairOnly(run) && t.workers == s.workers && t.cat == b
    ensures Watched(cfg.rf, s, run) == AllTold(PassSends(p, s.cat, log, order))
  {
    var slots := OrderSlots(s.cat, order);
    PassBegins(s.cat, b);
    AllSlotsListed(s.cat, order);
    OrderSlotsSend(p, s.cat, log, order);
    run, t := SlotsRun(p, cfg, s.cat, s, b, log, slots);
    PassArrives(s.cat, t.cat, b);
  }

  lemma AllSlotsListed(a: State, order: seq<string>)
    requires NoDup(order) && ToSet(order) == a.keys.Keys
    ensures NoDup(OrderSlots(a, order)) && Slots(a) - ToSet(OrderSlots(a, order)) == {}
    ensures forall k :: k in order ==> k in a.keys
    ensures forall x :: x in OrderSlots(a, order) ==> HasSlot(a, x.0, x.1)
  {
    OrderSlotsHold(a, order);
    assert forall k :: k in order <==> k in ToSet(order);
    assert forall x :: x in OrderSlots(a, order) ==> x == (x.0, x.1);
  }

  /** Every recovery pass is the catalog's share of some run of workers that begin, copy and write back, and the copies
      and write-backs of that run are, in order, the requests and proposals the pass sends out. */
  lemma RecoveryIsRun(cfg: Config, s: Sys, b: State, log: Journal, order: seq<string>)
      returns (run: seq<Event>, t: Sys)
    requires Inv(cfg.rf, s) && PutsOK(s) && RecoveryPass(cfg, s.cat, b, log) && Served(s, s.cat, log)
    requires NoDup(order) && ToSet(order) == s.cat.keys.Keys
    ensures RunsTo(cfg.rf, s, run, t) && RepairOnly(run) && t.workers == s.workers && t.cat == b
    ensures Watched(cfg.rf, s, run) == AllTold(PassSends(Recovery, s.cat, log, order))
  {
    run, t := PassIsRun(Recovery, cfg, s, b, log, order);
  }

  /** So is every rebalance pass. */
  lemma RebalanceIsRun(cfg: Config, s: Sys, b: State, log: Journal, order: seq<string>)
      returns (run: seq<Event>, t: Sys)
    requires Inv(cfg.rf, s) && PutsOK(s) && RebalancePass(cfg, s.cat, b, log) && Served(s, s.cat, log)
    requires NoDup(order) && ToSet(order) == if Live(s.cat) == {} then {} else s.cat.keys.Keys
    ensures RunsTo(cfg.rf, s, run, t) && RepairOnly(run) && t.workers == s.workers && t.cat == b
    ensures Watched(cfg.rf, s, run) == AllTold(PassSends(Rebalance, s.cat, log, order))
  {
    if Live(s.cat) == {} {
      FirstAreMembers(order);
      assert forall k :: k in order <==> k in ToSet(order);
      run, t := [], s;
    } else {
      run, t := PassIsRun(Rebalance, cfg, s, b, log, order);
    }
  }
}
