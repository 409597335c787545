/** The whole system as a state machine: uploads, catalog commands and any number of repair workers interleaving. */
module Protocol {
  import opened Collections
  import opened Names
  import opened Catalog
  import opened Repair
  import opened Runs
  import Headers
  import Quorum

  /** One worker busy with one fragment, working from whatever it read: possibly stale list and node view.
      `view` maps the ids it takes for live to base URLs; `todo` are the nodes it will ask to copy, in order. */
  datatype Worker = Worker(pass: Pass, fid: string, read: seq<string>, view: map<string, string>, desired: seq<string>,
                           todo: seq<string>, next: nat, acked: seq<string>)

  /** The list a worker writes back. */
  function Written(w: Worker): seq<string> {
    match w.pass
    case Recovery => Restrict(w.read, w.view.Keys) + w.acked
    case Rebalance => Restrict(w.desired, ToSet(w.read) + ToSet(w.acked))
  }

  /** A fragment as it was prepared, with the bytes its writer uploads. */
  datatype Planned = Planned(info: Info, data: Bytes)

  /** An upload in progress or done: what the primary makes of the header, and its fan-out. */
  datatype Put = Put(fid: string, headerEmpty: bool, fan: Quorum.Fan)

  /** What each server holds, by base URL and fragment id. */
  type Servers = map<string, map<string, Bytes>>

  /** `stores` are the servers by base URL. The rest is history kept for the proofs: every prepared fragment, every
      (id, base URL) ever registered, every replica list the catalog ever held, every replicate request acknowledged. */
  datatype Sys = Sys(
    cat: State,
    stores: Servers,
    puts: map<nat, Put>,
    workers: map<nat, Worker>,
    plan: map<string, Planned>,
    known: set<(string, string)>,
    lists: set<(string, seq<string>)>,
    acks: set<(string, string, string)>)

  const INIT := Sys(EMPTY, map[], map[], map[], map[], {}, {}, {})

  datatype Event =
    | NodeCommand(c: Command)
    | Prepare(entry: KeyEntry, data: seq<Bytes>)
    | KeyCommand(c: Command)
    | PutBegin(u: nat, fid: string)
    | PutStep(u: nat, step: Quorum.Event)
    | PutArrives(u: nat, g: nat)
    | Begin(w: nat, worker: Worker)
    | CopyAcked(w: nat)
    | CopyFailed(w: nat, stored: bool)
    | WriteBack(w: nat, applied: bool)

  function BaseURL(addr: string): string {
    "http://" + addr
  }

  predicate Holds(s: Sys, url: string, fid: string) {
    url in s.stores && fid in s.stores[url]
  }

  function Store(stores: Servers, url: string, fid: string, data: Bytes): Servers {
    stores[url := (if url in stores then stores[url] else map[])[fid := data]]
  }

  /** Every replica list in the catalog, with its fragment id. */
  function CatalogLists(cat: State): set<(string, seq<string>)> {
    set k, i | k in cat.keys && 0 <= i < |cat.keys[k].fragments| ::
      (cat.keys[k].fragments[i].id, cat.keys[k].fragments[i].nodeIDs)
  }

  /** The first of the listed nodes has a non-empty address. */
  predicate Addressed(view: map<string, string>, alive: seq<string>) {
    alive != [] && alive[0] in view && view[alive[0]] != BaseURL("")
  }

  /** The nodes a worker asks, given what it read: the rules of recovery and rebalance. */
  ghost predicate WellBegun(rf: nat, w: Worker) {
    var live := w.view.Keys;
    var alive := Restrict(w.read, live);
    && w.next == 0 && w.acked == []
    && match w.pass
       case Recovery =>
         && 0 < |alive| < rf && NoDup(w.todo) && 0 < |w.todo| <= rf - |alive|
         && forall id :: id in w.todo ==> id in live && id !in alive
       case Rebalance => w.todo == if Addressed(w.view, alive) then Restrict(w.desired, live - ToSet(w.read)) else []
  }

  /** The base URL copies are pulled from: the first listed node taken for live. */
  function Source(w: Worker): Option<string> {
    var alive := Restrict(w.read, w.view.Keys);
    if alive == [] then None else (assert alive[0] in alive; Some(w.view[alive[0]]))
  }

  /** The entry can be prepared, with the bodies its writer has for the fragments. */
  ghost predicate Preparable(rf: nat, s: Sys, e: KeyEntry, data: seq<Bytes>) {
    EntryFits(rf, s, e) && |data| == |e.fragments|
  }

  /** A well-formed entry of new fragments, placed on registered nodes under their addresses. */
  ghost predicate EntryFits(rf: nat, s: Sys, e: KeyEntry) {
    && WellFormedEntry(e)
    && forall i: nat :: i < |e.fragments| ==>
      var f := e.fragments[i];
      && f.id !in s.plan
      && GoodList(rf, s.cat.nodes.Keys, f.nodeIDs) && |f.nodeAddrs| == |f.nodeIDs| && f.nodeIDs != []
      && forall j :: 0 <= j < |f.nodeIDs| ==> (f.nodeIDs[j], f.nodeAddrs[j]) in s.known
  }

  /** The worker has a next candidate to ask. */
  predicate Asking(w: Worker) {
    w.next < |w.todo| && w.todo[w.next] in w.view
  }

  /** The copy it asks for can be made: the source serves the fragment. */
  predicate CanCopy(s: Sys, w: Worker) {
    Asking(w) && Source(w).Some? && Holds(s, Source(w).value, w.fid)
  }

  ghost predicate Enabled(rf: nat, s: Sys, e: Event) {
    match e
    case NodeCommand(c) => c.RegisterNode? || c.Heartbeat? || c.MarkNodeDown?
    case Prepare(entry, data) => Preparable(rf, s, entry, data)
    case KeyCommand(c) => c.CommitKey? || c.DeleteKey?
    case PutBegin(u, fid) => u !in s.puts && fid in s.plan && s.plan[fid].info.nodeAddrs != []
    case PutStep(u, step) => u in s.puts && s.puts[u].fid in s.plan && Quorum.Enabled(s.puts[u].fan, step)
    case PutArrives(u, g) => u in s.puts && s.puts[u].fid in s.plan && g < |s.puts[u].fan.addrs|
    case Begin(w, worker) =>
      && w !in s.workers && WellBegun(rf, worker) && (worker.fid, worker.read) in s.lists
      && (forall id :: id in worker.view ==> (id, worker.view[id]) in s.known)
      && GoodList(rf, s.cat.nodes.Keys, worker.desired)
    case CopyAcked(w) => w in s.workers && CanCopy(s, s.workers[w])
    case CopyFailed(w, stored) => w in s.workers && Asking(s.workers[w]) && (stored ==> CanCopy(s, s.workers[w]))
    case WriteBack(w, _) => w in s.workers && s.workers[w].next == |s.workers[w].todo|
  }

  /** The client uploads to the first address and names the others in the header; the primary has stored the bytes and
      fans out to what it reads there. */
  function NewPut(f: Info): Put
    requires f.nodeAddrs != []
  {
    var header := Headers.Join(f.nodeAddrs[1..]);
    Put(f.id, header == "", Quorum.Start(f.nodeAddrs[0], Headers.NonEmpty(Headers.Split(header))))
  }

  function Begun(s: Sys, u: nat, fid: string): Sys
    requires fid in s.plan && s.plan[fid].info.nodeAddrs != []
  {
    var p := s.plan[fid];
    s.(stores := Store(s.stores, p.info.nodeAddrs[0], fid, p.data), puts := s.puts[u := NewPut(p.info).(fid := fid)])
  }

  /** A step of one goroutine or of the network: a replica that gets the request stores the bytes. */
  function Stepped(s: Sys, u: nat, step: Quorum.Event): Sys
    requires u in s.puts && s.puts[u].fid in s.plan && Quorum.Enabled(s.puts[u].fan, step)
  {
    var p := s.puts[u];
    var stores :=
      if step.Deliver? then Store(s.stores, p.fan.addrs[step.g], p.fid, s.plan[p.fid].data) else s.stores;
    s.(stores := stores, puts := s.puts[u := p.(fan := Quorum.Exec(p.fan, step))])
  }

  /** A request that its sender has given up on, or sent twice, still arrives. */
  function Arrived(s: Sys, u: nat, g: nat): Sys
    requires u in s.puts && s.puts[u].fid in s.plan && g < |s.puts[u].fan.addrs|
  {
    var p := s.puts[u];
    s.(stores := Store(s.stores, p.fan.addrs[g], p.fid, s.plan[p.fid].data))
  }

  /** A copy: the target server stores what the source server serves. */
  function Copied(s: Sys, w: Worker): Servers
    requires CanCopy(s, w)
  {
    Store(s.stores, w.view[w.todo[w.next]], w.fid, s.stores[Source(w).value][w.fid])
  }

  function WithCopy(s: Sys, w: Worker): Sys
    requires CanCopy(s, w)
  {
    s.(stores := Copied(s, w))
  }

  function WithAck(s: Sys, w: Worker): Sys
    requires CanCopy(s, w)
  {
    s.(stores := Copied(s, w), acks := s.acks + {(w.fid, w.todo[w.next], w.view[w.todo[w.next]])})
  }

  /** A worker moves on to its next candidate. */
  function Advance(s: Sys, w: nat, ok: bool): Sys
    requires w in s.workers && s.workers[w].next < |s.workers[w].todo|
  {
    s.(workers := s.workers[w := Moved(s.workers[w], ok)])
  }

  function Moved(wk: Worker, ok: bool): Worker
    requires wk.next < |wk.todo|
  {
    wk.(next := wk.next + 1, acked := if ok then wk.acked + [wk.todo[wk.next]] else wk.acked)
  }

  function WithCatalog(s: Sys, c: Command): Sys {
    s.(cat := Step(s.cat, c), lists := s.lists + CatalogLists(Step(s.cat, c)))
  }

  /** The plans extended by the fragments of a new entry. */
  function AddPlans(plan: map<string, Planned>, fs: seq<Info>, data: seq<Bytes>): map<string, Planned>
    requires |fs| == |data|
  {
    if fs == [] then plan
    else
      var n := |fs| - 1;
      AddPlans(plan, fs[..n], data[..n])[fs[n].id := Planned(fs[n], data[n])]
  }

  /** Pairs (id, base URL) a registration makes known. */
  function Registered(c: Command): set<(string, string)> {
    match c
    case RegisterNode(Some(n)) => {(n.id, BaseURL(n.addr))}
    case _ => {}
  }

  function Prepared(s: Sys, entry: KeyEntry, data: seq<Bytes>): Sys
    requires |data| == |entry.fragments|
  {
    WithCatalog(s, PutKey(Some(entry))).(plan := AddPlans(s.plan, entry.fragments, data))
  }

  function Exec(rf: nat, s: Sys, e: Event): Sys
    requires Enabled(rf, s, e)
  {
    match e
    case NodeCommand(c) => WithCatalog(s, c).(known := s.known + Registered(c))
    case Prepare(entry, data) => Prepared(s, entry, data)
    case KeyCommand(c) => WithCatalog(s, c)
    case PutBegin(u, fid) => Begun(s, u, fid)
    case PutStep(u, step) => Stepped(s, u, step)
    case PutArrives(u, g) => Arrived(s, u, g)
    case Begin(w, worker) => s.(workers := s.workers[w := worker])
    case CopyAcked(w) => Advance(WithAck(s, s.workers[w]), w, true)
    case CopyFailed(w, stored) => Advance(if stored then WithCopy(s, s.workers[w]) else s, w, false)
    case WriteBack(w, applied) => AfterWrite(s, w, applied)
  }

  ghost function Next(rf: nat): (Sys, Event) -> Option<Sys> {
    (s: Sys, e: Event) => if Enabled(rf, s, e) then Some(Exec(rf, s, e)) else None
  }

  /** Every event of the run can happen in its turn, and they lead from s to t. */
  ghost predicate RunsTo(rf: nat, s: Sys, run: seq<Event>, t: Sys) {
    Follow(Next(rf), s, run) == Some(t)
  }

  // ---- Invariant ------------------------------------------------------------------

  /** A node is on a fragment's list for a reason: it was planned, or it acknowledged a copy. */
  ghost predicate Vouched(s: Sys, fid: string, id: string) {
    fid in s.plan && (id in s.plan[fid].info.nodeIDs || exists url :: (fid, id, url) in s.acks)
  }

  ghost predicate GoodAndVouched(rf: nat, s: Sys, fid: string, ids: seq<string>) {
    fid in s.plan && GoodList(rf, s.cat.nodes.Keys, ids) && forall id :: id in ids ==> Vouched(s, fid, id)
  }

  ghost predicate CatalogOK(s: Sys) {
    && WellFormed(s.cat) && CatalogLists(s.cat) <= s.lists
    && forall k, i: nat :: HasSlot(s.cat, k, i) ==>
         FragmentID(k, i) in s.plan && s.cat.keys[k].fragments[i].nodeAddrs == s.plan[FragmentID(k, i)].info.nodeAddrs
  }

  ghost predicate ListsOK(rf: nat, s: Sys) {
    forall p :: p in s.lists ==> GoodAndVouched(rf, s, p.0, p.1)
  }

  /** Every server that serves a fragment serves the bytes it was written with. */
  ghost predicate DataOK(s: Sys) {
    && (forall url, fid :: Holds(s, url, fid) ==> fid in s.plan && s.stores[url][fid] == s.plan[fid].data)
    && (forall a :: a in s.acks ==> Holds(s, a.2, a.0) && (a.1, a.2) in s.known)
  }

  ghost predicate PlansOK(s: Sys) {
    && (forall p :: p in s.known ==> p.0 in s.cat.nodes && p.1 != "")
    && (forall id :: id in s.cat.nodes ==> (id, BaseURL(s.cat.nodes[id].addr)) in s.known)
    && forall fid :: fid in s.plan ==> PlanOK(s, s.plan[fid].info)
  }

  ghost predicate PlanOK(s: Sys, f: Info) {
    && |f.nodeAddrs| == |f.nodeIDs| && f.nodeAddrs != []
    && forall j :: 0 <= j < |f.nodeIDs| ==> (f.nodeIDs[j], f.nodeAddrs[j]) in s.known
  }

  ghost predicate WorkerOK(rf: nat, s: Sys, w: Worker) {
    var alive := Restrict(w.read, w.view.Keys);
    && GoodAndVouched(rf, s, w.fid, w.read) && GoodList(rf, s.cat.nodes.Keys, w.desired)
    && (forall id :: id in w.view ==> (id, w.view[id]) in s.known)
    && w.next <= |w.todo| && NoDup(w.todo) && NoDup(w.acked)
    && (forall id :: id in w.acked ==> id in w.todo[..w.next] && Vouched(s, w.fid, id))
    && (w.pass == Recovery ==> |alive| + |w.todo| <= rf && forall id :: id in w.todo ==> id in w.view && id !in alive)
  }

  ghost predicate WorkersOK(rf: nat, s: Sys) {
    forall w :: w in s.workers ==> WorkerOK(rf, s, s.workers[w])
  }

  ghost predicate Inv(rf: nat, s: Sys) {
    CatalogOK(s) && ListsOK(rf, s) && DataOK(s) && PlansOK(s) && WorkersOK(rf, s)
  }

  /** What only ever grows: registrations, plans, history, and what servers serve. */
  ghost predicate Grows(s: Sys, t: Sys) {
    && s.cat.nodes.Keys <= t.cat.nodes.Keys && s.known <= t.known && s.lists <= t.lists && s.acks <= t.acks
    && (forall fid :: fid in s.plan ==> fid in t.plan && t.plan[fid] == s.plan[fid])
    && (forall url, fid :: Holds(s, url, fid) ==> Holds(t, url, fid))
  }

  lemma GrowsKeepsVouched(s: Sys, t: Sys, fid: string, id: string)
    requires Grows(s, t) && Vouched(s, fid, id)
    ensures Vouched(t, fid, id)
  {
    if id !in s.plan[fid].info.nodeIDs {
      var url :| (fid, id, url) in s.acks;
      assert (fid, id, url) in t.acks;
    }
  }

  lemma GrowsKeeps(rf: nat, s: Sys, t: Sys, fid: string, ids: seq<string>)
    requires Grows(s, t) && GoodAndVouched(rf, s, fid, ids)
    ensures GoodAndVouched(rf, t, fid, ids)
  {
    forall id | id in ids ensures Vouched(t, fid, id) {
      GrowsKeepsVouched(s, t, fid, id);
    }
  }

  lemma GrowsKeepsWorker(rf: nat, s: Sys, t: Sys, w: Worker)
    requires Grows(s, t) && WorkerOK(rf, s, w)
    ensures WorkerOK(rf, t, w)
  {
    GrowsKeeps(rf, s, t, w.fid, w.read);
    forall id | id in w.acked ensures Vouched(t, w.fid, id) {
      GrowsKeepsVouched(s, t, w.fid, id);
    }
  }

  lemma GrowsKeepsWorkers(rf: nat, s: Sys, t: Sys)
    requires Grows(s, t) && WorkersOK(rf, s)
      && (forall w :: w in t.workers ==> w in s.workers && t.workers[w] == s.workers[w])
    ensures WorkersOK(rf, t)
  {
    forall w | w in t.workers ensures WorkerOK(rf, t, t.workers[w]) {
      GrowsKeepsWorker(rf, s, t, s.workers[w]);
    }
  }

  lemma AckedCount(rf: nat, s: Sys, w: Worker)
    requires WorkerOK(rf, s, w)
    ensures |w.acked| <= |w.todo| && forall id :: id in w.acked ==> id in w.todo
  {
    NoDupCardinality(w.acked);
    NoDupCardinality(w.todo);
    assert forall id :: id in w.acked ==> id in w.todo;
    SubsetSize(ToSet(w.acked), ToSet(w.todo));
  }

  lemma RecoveryWrites(rf: nat, s: Sys, w: Worker)
    requires WorkerOK(rf, s, w) && PlansOK(s) && w.pass == Recovery
    ensures NoDup(Written(w)) && |Written(w)| <= rf && forall id :: id in Written(w) ==> id in s.cat.nodes
  {
    var alive := Restrict(w.read, w.view.Keys);
    RestrictNoDup(w.read, w.view.Keys);
    AckedCount(rf, s, w);
    assert forall i :: 0 <= i < |alive| ==> alive[i] in alive;
    assert forall id :: id in w.acked ==> id in w.view && (id, w.view[id]) in s.known;
  }

  /** The list a worker writes back is good and vouched for, however stale what it read. */
  lemma WrittenIsGood(rf: nat, s: Sys, w: Worker)
    requires WorkerOK(rf, s, w) && PlansOK(s)
    ensures GoodAndVouched(rf, s, w.fid, Written(w))
  {
    match w.pass
    case Recovery => RecoveryWrites(rf, s, w);
    case Rebalance => RestrictNoDup(w.desired, ToSet(w.read) + ToSet(w.acked));
  }

  // ---- Keeping each part of the invariant -------------------------------------------

  lemma KeepLists(rf: nat, s: Sys, t: Sys)
    requires Grows(s, t) && ListsOK(rf, s)
    requires forall p :: p in t.lists ==> p in s.lists || GoodAndVouched(rf, t, p.0, p.1)
    ensures ListsOK(rf, t)
  {
    forall p | p in t.lists ensures GoodAndVouched(rf, t, p.0, p.1) {
      if p in s.lists {
        GrowsKeeps(rf, s, t, p.0, p.1);
      }
    }
  }

  lemma KeepPlans(s: Sys, t: Sys)
    requires Grows(s, t) && PlansOK(s)
    requires forall p :: p in t.known ==> p in s.known || (p.0 in t.cat.nodes && p.1 != "")
    requires forall id :: id in t.cat.nodes ==> (id, BaseURL(t.cat.nodes[id].addr)) in t.known
    requires forall fid :: fid in t.plan ==> fid in s.plan || PlanOK(t, t.plan[fid].info)
    ensures PlansOK(t)
  {
    forall fid | fid in t.plan ensures PlanOK(t, t.plan[fid].info) {
      assert fid in s.plan ==> PlanOK(s, s.plan[fid].info);
    }
  }

  lemma SamePlans(s: Sys, t: Sys)
    requires PlansOK(s) && t.plan == s.plan && t.known == s.known && t.cat.nodes == s.cat.nodes
    ensures PlansOK(t)
  {
    forall fid | fid in t.plan ensures PlanOK(t, t.plan[fid].info) {
      assert PlanOK(s, s.plan[fid].info);
    }
  }

  /** Only servers and acknowledgements changed. */
  lemma DataStep(rf: nat, s: Sys, t: Sys)
    requires Inv(rf, s) && Grows(s, t) && DataOK(t)
    requires t.cat == s.cat && t.plan == s.plan && t.known == s.known && t.lists == s.lists && t.workers == s.workers
    ensures Inv(rf, t)
  {
    KeepLists(rf, s, t);
    SamePlans(s, t);
    GrowsKeepsWorkers(rf, s, t);
  }

  /** Every slot of the new catalog was there before, with the same addresses. */
  ghost predicate SlotsFrom(a: State, b: State) {
    forall k, i: nat :: HasSlot(b, k, i) ==>
      HasSlot(a, k, i) && b.keys[k].fragments[i].nodeAddrs == a.keys[k].fragments[i].nodeAddrs
  }

  lemma KeepCatalog(s: Sys, t: Sys)
    requires CatalogOK(s) && Grows(s, t) && WellFormed(t.cat) && SlotsFrom(s.cat, t.cat)
      && CatalogLists(t.cat) <= t.lists
    ensures CatalogOK(t)
  {
  }

  // ---- Catalog steps ----------------------------------------------------------------

  lemma ListInCatalog(cat: State, k: string, i: nat)
    requires HasSlot(cat, k, i)
    ensures (cat.keys[k].fragments[i].id, ListOf(cat, k, i)) in CatalogLists(cat)
  {
  }

  /** Membership commands, commit and delete change no list. */
  lemma PlainCommandLists(a: State, c: Command)
    requires !c.PutKey? && !c.UpdateFragment?
    ensures SlotsFrom(a, Step(a, c)) && CatalogLists(Step(a, c)) <= CatalogLists(a)
  {
    var b := Step(a, c);
    forall k, i: nat | HasSlot(b, k, i) ensures HasSlot(a, k, i) && b.keys[k].fragments == a.keys[k].fragments {
    }
    forall p | p in CatalogLists(b) ensures p in CatalogLists(a) {
      var k, i :| k in b.keys && 0 <= i < |b.keys[k].fragments|
        && p == (b.keys[k].fragments[i].id, b.keys[k].fragments[i].nodeIDs);
      assert HasSlot(b, k, i);
      ListInCatalog(a, k, i);
    }
  }

  lemma PlainCommandNodes(s: Sys, c: Command)
    requires PlansOK(s) && WellFormed(s.cat)
    ensures forall id :: id in Step(s.cat, c).nodes ==>
      (id, BaseURL(Step(s.cat, c).nodes[id].addr)) in s.known + Registered(c)
    ensures forall p :: p in Registered(c) ==> p.0 in Step(s.cat, c).nodes && p.1 != ""
    ensures s.cat.nodes.Keys <= Step(s.cat, c).nodes.Keys
  {
  }

  lemma PlainCommand(rf: nat, s: Sys, c: Command)
    requires Inv(rf, s) && !c.PutKey? && !c.UpdateFragment?
    ensures var t := WithCatalog(s, c).(known := s.known + Registered(c));
      Inv(rf, t) && Grows(s, t)
  {
    StepWellFormed(s.cat, c);
    PlainCommandLists(s.cat, c);
    PlainCommandNodes(s, c);
    PlainCatalog(rf, s, Step(s.cat, c), s.lists + CatalogLists(Step(s.cat, c)), s.known + Registered(c));
  }

  lemma MembershipGrows(s: Sys, t: Sys)
    requires DataOK(s) && s.cat.nodes.Keys <= t.cat.nodes.Keys && s.known <= t.known
    requires t.stores == s.stores && t.plan == s.plan && t.lists == s.lists && t.acks == s.acks
    ensures Grows(s, t) && DataOK(t)
  {
  }

  lemma PlainCatalog(rf: nat, s: Sys, b: State, lists: set<(string, seq<string>)>, known: set<(string, string)>)
    requires Inv(rf, s) && WellFormed(b) && s.cat.nodes.Keys <= b.nodes.Keys
    requires SlotsFrom(s.cat, b) && CatalogLists(b) <= CatalogLists(s.cat) && lists == s.lists + CatalogLists(b)
    requires s.known <= known && forall p :: p in known ==> p in s.known || (p.0 in b.nodes && p.1 != "")
    requires forall id :: id in b.nodes ==> (id, BaseURL(b.nodes[id].addr)) in known
    ensures var t := s.(cat := b, lists := lists, known := known);
      Inv(rf, t) && Grows(s, t)
  {
    var t := s.(cat := b, lists := lists, known := known);
    assert lists == s.lists;
    MembershipGrows(s, t);
    KeepCatalog(s, t);
    KeepLists(rf, s, t);
    KeepPlans(s, t);
    GrowsKeepsWorkers(rf, s, t);
  }

  /** An update adds at most one list to the history. */
  lemma UpdateLists(a: State, fid: string, ids: seq<string>)
    ensures var b := Step(a, UpdateFragment(fid, ids));
      SlotsFrom(a, b) && CatalogLists(b) <= CatalogLists(a) + {(fid, ids)}
  {
    var b := Step(a, UpdateFragment(fid, ids));
    forall p | p in CatalogLists(b) ensures p in CatalogLists(a) + {(fid, ids)} {
      var k, i :| k in b.keys && 0 <= i < |b.keys[k].fragments|
        && p == (b.keys[k].fragments[i].id, b.keys[k].fragments[i].nodeIDs);
      ListInCatalog(a, k, i);
    }
  }

  lemma UpdateGrows(s: Sys, fid: string, ids: seq<string>, t: Sys)
    requires DataOK(s) && PlansOK(s) && t == WithCatalog(s, UpdateFragment(fid, ids))
    ensures Grows(s, t) && DataOK(t) && PlansOK(t) && t.cat.nodes == s.cat.nodes && t.workers == s.workers
  {
    SamePlans(s, t);
  }

  lemma UpdateStep(rf: nat, s: Sys, fid: string, ids: seq<string>, t: Sys)
    requires Inv(rf, s) && GoodAndVouched(rf, s, fid, ids) && t == WithCatalog(s, UpdateFragment(fid, ids))
    ensures Inv(rf, t) && Grows(s, t)
  {
    StepWellFormed(s.cat, UpdateFragment(fid, ids));
    UpdateLists(s.cat, fid, ids);
    UpdateGrows(s, fid, ids, t);
    GrowsKeeps(rf, s, t, fid, ids);
    KeepCatalog(s, t);
    KeepLists(rf, s, t);
    GrowsKeepsWorkers(rf, s, t);
  }

  /** Workers come and go without touching the rest. */
  lemma WorkersStep(rf: nat, s: Sys, workers: map<nat, Worker>)
    requires Inv(rf, s) && forall w :: w in workers ==> WorkerOK(rf, s, workers[w])
    ensures Inv(rf, s.(workers := workers)) && Grows(s, s.(workers := workers))
  {
    var t := s.(workers := workers);
    KeepLists(rf, s, t);
    SamePlans(s, t);
    forall w | w in t.workers ensures WorkerOK(rf, t, t.workers[w]) {
      GrowsKeepsWorker(rf, s, t, workers[w]);
    }
  }

  function AfterWrite(s: Sys, w: nat, applied: bool): Sys
    requires w in s.workers
  {
    var wk := s.workers[w];
    (if applied then WithCatalog(s, UpdateFragment(wk.fid, Written(wk))) else s).(workers := s.workers - {w})
  }

  lemma WriteBackStep(rf: nat, s: Sys, w: nat, applied: bool)
    requires Inv(rf, s) && w in s.workers
    ensures Inv(rf, AfterWrite(s, w, applied))
  {
    var wk := s.workers[w];
    var u := if applied then WithCatalog(s, UpdateFragment(wk.fid, Written(wk))) else s;
    if applied {
      WrittenIsGood(rf, s, wk);
      UpdateStep(rf, s, wk.fid, Written(wk), u);
    }
    WorkersStep(rf, u, s.workers - {w});
    assert AfterWrite(s, w, applied) == u.(workers := s.workers - {w});
  }

  // ---- Prepare ------------------------------------------------------------------------

  ghost predicate NamesFragment(fs: seq<Info>, fid: string) {
    exists i :: 0 <= i < |fs| && fs[i].id == fid
  }

  lemma {:induction false} AddPlansAt(plan: map<string, Planned>, fs: seq<Info>, data: seq<Bytes>, fid: string)
    requires |fs| == |data|
    ensures var r := AddPlans(plan, fs, data);
      && (fid in r <==> fid in plan || NamesFragment(fs, fid))
      && (!NamesFragment(fs, fid) && fid in plan ==> r[fid] == plan[fid])
      && (NamesFragment(fs, fid) ==> exists i :: 0 <= i < |fs| && fs[i].id == fid && r[fid] == Planned(fs[i], data[i]))
  {
    if fs != [] {
      var n := |fs| - 1;
      AddPlansAt(plan, fs[..n], data[..n], fid);
      if fs[n].id != fid {
        if NamesFragment(fs[..n], fid) {
          var i :| 0 <= i < n && fs[..n][i].id == fid
            && AddPlans(plan, fs[..n], data[..n])[fid] == Planned(fs[..n][i], data[..n][i]);
          assert fs[i].id == fid;
        }
        if NamesFragment(fs, fid) {
          var i :| 0 <= i < |fs| && fs[i].id == fid;
          assert fs[..n][i].id == fid;
        }
      }
    }
  }

  /** Preparing records every fragment of the entry and leaves the earlier records alone. */
  lemma PlansRecorded(plan: map<string, Planned>, e: KeyEntry, data: seq<Bytes>)
    requires WellFormedEntry(e) && |data| == |e.fragments|
    requires forall i: nat :: i < |e.fragments| ==> e.fragments[i].id !in plan
    ensures var r := AddPlans(plan, e.fragments, data);
      && (forall i: nat :: i < |e.fragments| ==>
        e.fragments[i].id in r && r[e.fragments[i].id] == Planned(e.fragments[i], data[i]))
      && (forall fid :: fid in plan ==> fid in r && r[fid] == plan[fid])
      && (forall fid :: fid in r && fid !in plan ==> NamesFragment(e.fragments, fid))
  {
    var r := AddPlans(plan, e.fragments, data);
    forall fid
      ensures (fid in r <==> fid in plan || NamesFragment(e.fragments, fid))
      ensures fid in plan ==> fid in r && r[fid] == plan[fid]
    {
      AddPlansAt(plan, e.fragments, data, fid);
    }
    forall i: nat | i < |e.fragments|
      ensures e.fragments[i].id in r && r[e.fragments[i].id] == Planned(e.fragments[i], data[i])
    {
      var fid := e.fragments[i].id;
      AddPlansAt(plan, e.fragments, data, fid);
      assert NamesFragment(e.fragments, fid);
      var j :| 0 <= j < |e.fragments| && e.fragments[j].id == fid && r[fid] == Planned(e.fragments[j], data[j]);
      FragmentIDInjective(e.key, i, e.key, j);
    }
  }

  lemma PrepareGrows(rf: nat, s: Sys, entry: KeyEntry, data: seq<Bytes>, t: Sys)
    requires Inv(rf, s) && Preparable(rf, s, entry, data) && t == Prepared(s, entry, data)
    ensures Grows(s, t) && DataOK(t) && PlansOK(t) && t.workers == s.workers
    ensures forall i: nat :: i < |entry.fragments| ==>
      entry.fragments[i].id in t.plan && t.plan[entry.fragments[i].id] == Planned(entry.fragments[i], data[i])
  {
    PlansRecorded(s.plan, entry, data);
    forall fid | fid in t.plan && fid !in s.plan ensures PlanOK(t, t.plan[fid].info) {
      assert NamesFragment(entry.fragments, fid);
      var i :| 0 <= i < |entry.fragments| && entry.fragments[i].id == fid;
      PlanEntryOK(rf, s, entry, data, i);
    }
    PrepareKeepsData(s, t);
    KeepPlans(s, t);
  }

  lemma PrepareKeepsData(s: Sys, t: Sys)
    requires DataOK(s) && t.stores == s.stores && t.acks == s.acks && t.known == s.known
      && t.cat.nodes == s.cat.nodes && s.lists <= t.lists
    requires forall fid :: fid in s.plan ==> fid in t.plan && t.plan[fid] == s.plan[fid]
    ensures Grows(s, t) && DataOK(t)
  {
  }

  lemma PlanEntryOK(rf: nat, s: Sys, entry: KeyEntry, data: seq<Bytes>, i: nat)
    requires Preparable(rf, s, entry, data) && i < |entry.fragments|
    ensures PlanOK(s, entry.fragments[i])
  {
    assert GoodList(rf, s.cat.nodes.Keys, entry.fragments[i].nodeIDs);
  }

  lemma PrepareStep(rf: nat, s: Sys, entry: KeyEntry, data: seq<Bytes>, t: Sys)
    requires Inv(rf, s) && Preparable(rf, s, entry, data) && t == Prepared(s, entry, data)
    ensures Inv(rf, t) && Grows(s, t)
  {
    PrepareGrows(rf, s, entry, data, t);
    PreparedLists(s.cat, entry);
    forall p | p in t.lists && p !in s.lists ensures GoodAndVouched(rf, t, p.0, p.1) {
      var i :| 0 <= i < |entry.fragments| && p == (entry.fragments[i].id, entry.fragments[i].nodeIDs);
      PreparedList(rf, s, entry, data, t, i);
    }
    KeepLists(rf, s, t);
    GrowsKeepsWorkers(rf, s, t);
    PreparedCatalog(s, entry, data, t);
  }

  lemma PreparedLists(a: State, entry: KeyEntry)
    ensures forall p :: p in CatalogLists(Step(a, PutKey(Some(entry)))) ==>
      p in CatalogLists(a) || exists i ::
        0 <= i < |entry.fragments| && p == (entry.fragments[i].id, entry.fragments[i].nodeIDs)
  {
    var b := Step(a, PutKey(Some(entry)));
    forall p | p in CatalogLists(b)
      ensures p in CatalogLists(a) || exists i ::
        0 <= i < |entry.fragments| && p == (entry.fragments[i].id, entry.fragments[i].nodeIDs)
    {
      var k, i :| k in b.keys && 0 <= i < |b.keys[k].fragments|
        && p == (b.keys[k].fragments[i].id, b.keys[k].fragments[i].nodeIDs);
      if k != entry.key {
        ListInCatalog(a, k, i);
      }
    }
  }

  lemma PreparedList(rf: nat, s: Sys, entry: KeyEntry, data: seq<Bytes>, t: Sys, i: nat)
    requires Preparable(rf, s, entry, data) && i < |entry.fragments| && s.cat.nodes.Keys <= t.cat.nodes.Keys
    requires entry.fragments[i].id in t.plan && t.plan[entry.fragments[i].id] == Planned(entry.fragments[i], data[i])
    ensures GoodAndVouched(rf, t, entry.fragments[i].id, entry.fragments[i].nodeIDs)
  {
    assert GoodList(rf, s.cat.nodes.Keys, entry.fragments[i].nodeIDs);
  }

  lemma PreparedCatalog(s: Sys, entry: KeyEntry, data: seq<Bytes>, t: Sys)
    requires CatalogOK(s) && Grows(s, t) && WellFormedEntry(entry) && |data| == |entry.fragments|
      && t == Prepared(s, entry, data)
    requires forall i: nat :: i < |entry.fragments| ==>
      entry.fragments[i].id in t.plan && t.plan[entry.fragments[i].id] == Planned(entry.fragments[i], data[i])
    ensures CatalogOK(t)
  {
    StepWellFormed(s.cat, PutKey(Some(entry)));
    forall k, i: nat | HasSlot(t.cat, k, i)
      ensures FragmentID(k, i) in t.plan
        && t.cat.keys[k].fragments[i].nodeAddrs == t.plan[FragmentID(k, i)].info.nodeAddrs
    {
      assert k != entry.key ==> HasSlot(s.cat, k, i);
    }
  }

  // ---- Data steps -----------------------------------------------------------------------

  /** Storing the written bytes of a fragment on one more server. */
  lemma StoreStep(rf: nat, s: Sys, url: string, fid: string, t: Sys)
    requires Inv(rf, s) && fid in s.plan
    requires t == s.(stores := Store(s.stores, url, fid, s.plan[fid].data), puts := t.puts)
    ensures Inv(rf, t) && Grows(s, t) && Holds(t, url, fid)
  {
    DataStep(rf, s, t);
  }

  lemma PutsStep(rf: nat, s: Sys, puts: map<nat, Put>)
    requires Inv(rf, s)
    ensures Inv(rf, s.(puts := puts)) && Grows(s, s.(puts := puts))
  {
    DataStep(rf, s, s.(puts := puts));
  }

  lemma PutStepKeepsInv(rf: nat, s: Sys, u: nat, step: Quorum.Event)
    requires Inv(rf, s) && u in s.puts && s.puts[u].fid in s.plan && Quorum.Enabled(s.puts[u].fan, step)
    ensures Inv(rf, Stepped(s, u, step)) && Grows(s, Stepped(s, u, step))
  {
    var t := Stepped(s, u, step);
    if step.Deliver? {
      StoreStep(rf, s, s.puts[u].fan.addrs[step.g], s.puts[u].fid, t);
    } else {
      PutsStep(rf, s, t.puts);
    }
  }

  // ---- Uploads ------------------------------------------------------------------------

  /** An upload goes by the planned addresses as the header carries them, and its holders hold the bytes. */
  ghost predicate PutOK(s: Sys, p: Put) {
    && p.fid in s.plan && s.plan[p.fid].info.nodeAddrs != [] && Quorum.Inv(p.fan)
    && var addrs := s.plan[p.fid].info.nodeAddrs;
       && p.fan.self == addrs[0] && p.headerEmpty == (Headers.Join(addrs[1..]) == "")
       && p.fan.addrs == Headers.NonEmpty(Headers.Split(Headers.Join(addrs[1..])))
       && forall url :: url in p.fan.holders ==> Holds(s, url, p.fid)
  }

  ghost predicate PutsOK(s: Sys) {
    forall u :: u in s.puts ==> PutOK(s, s.puts[u])
  }

  lemma GrowsKeepsPut(s: Sys, t: Sys, p: Put)
    requires Grows(s, t) && PutOK(s, p)
    ensures PutOK(t, p)
  {
  }

  lemma BegunPutOK(s: Sys, u: nat, fid: string)
    requires fid in s.plan && s.plan[fid].info.nodeAddrs != []
    ensures PutOK(Begun(s, u, fid), Begun(s, u, fid).puts[u])
  {
    var p := NewPut(s.plan[fid].info);
    Quorum.StartInv(p.fan.self, p.fan.addrs);
  }

  lemma SteppedPutOK(s: Sys, u: nat, step: Quorum.Event)
    requires u in s.puts && PutOK(s, s.puts[u]) && Quorum.Enabled(s.puts[u].fan, step)
    requires Grows(s, Stepped(s, u, step))
    ensures PutOK(Stepped(s, u, step), Stepped(s, u, step).puts[u])
  {
    var p, t := s.puts[u], Stepped(s, u, step);
    Quorum.StepKeepsInv(p.fan, step);
    assert Holds(t, p.fan.self, p.fid);
    forall url | url in t.puts[u].fan.holders ensures Holds(t, url, p.fid) {
      if url in p.fan.holders {
        assert Holds(s, url, p.fid);
      }
    }
  }

  lemma ExecKeepsPuts(rf: nat, s: Sys, e: Event)
    requires Inv(rf, s) && PutsOK(s) && Enabled(rf, s, e)
    ensures PutsOK(Exec(rf, s, e))
  {
    var t := Exec(rf, s, e);
    ExecGrows(rf, s, e);
    forall u | u in t.puts ensures PutOK(t, t.puts[u]) {
      if e.PutBegin? && e.u == u {
        BegunPutOK(s, u, e.fid);
      } else if e.PutStep? && e.u == u {
        SteppedPutOK(s, u, e.step);
      } else {
        OtherPuts(rf, s, e, u);
        GrowsKeepsPut(s, t, s.puts[u]);
      }
    }
  }

  lemma OtherPuts(rf: nat, s: Sys, e: Event, u: nat)
    requires Enabled(rf, s, e) && !(e.PutBegin? && e.u == u) && !(e.PutStep? && e.u == u)
    requires u in Exec(rf, s, e).puts
    ensures u in s.puts && Exec(rf, s, e).puts[u] == s.puts[u]
  {
  }

  lemma CopyStep(rf: nat, s: Sys, w: Worker, t: Sys)
    requires Inv(rf, s) && CanCopy(s, w)
    requires t == WithCopy(s, w)
    ensures Inv(rf, t) && Grows(s, t) && Holds(t, w.view[w.todo[w.next]], w.fid)
  {
    StoreStep(rf, s, w.view[w.todo[w.next]], w.fid, t);
  }

  lemma AckStep(rf: nat, s: Sys, ack: (string, string, string), t: Sys)
    requires Inv(rf, s) && Holds(s, ack.2, ack.0) && (ack.1, ack.2) in s.known && t == s.(acks := s.acks + {ack})
    ensures Inv(rf, t) && Grows(s, t)
  {
    DataStep(rf, s, t);
  }

  lemma GrowsTransitive(s: Sys, t: Sys, u: Sys)
    requires Grows(s, t) && Grows(t, u)
    ensures Grows(s, u)
  {
  }

  /** A worker that moves on to its next candidate, with or without an acknowledgement, stays well formed. */
  lemma WorkerAdvances(rf: nat, s: Sys, w: Worker, ok: bool)
    requires WorkerOK(rf, s, w) && w.next < |w.todo| && (ok ==> Vouched(s, w.fid, w.todo[w.next]))
    ensures WorkerOK(rf, s, Moved(w, ok))
  {
    var t := w.todo[w.next];
    assert w.todo[..w.next + 1] == w.todo[..w.next] + [t];
    assert t !in w.todo[..w.next];
    assert forall i :: 0 <= i < |w.acked| ==> w.acked[i] in w.acked;
  }

  lemma AckedCopy(rf: nat, s: Sys, w: Worker, v: Sys)
    requires Inv(rf, s) && CanCopy(s, w) && (w.todo[w.next], w.view[w.todo[w.next]]) in s.known
    requires v == WithAck(s, w)
    ensures Inv(rf, v) && Grows(s, v)
  {
    var u := WithCopy(s, w);
    CopyStep(rf, s, w, u);
    AckStep(rf, u, (w.fid, w.todo[w.next], w.view[w.todo[w.next]]), v);
    GrowsTransitive(s, u, v);
  }

  lemma AdvanceKeepsInv(rf: nat, s: Sys, w: nat, ok: bool)
    requires Inv(rf, s) && w in s.workers && s.workers[w].next < |s.workers[w].todo|
    requires ok ==> Vouched(s, s.workers[w].fid, s.workers[w].todo[s.workers[w].next])
    ensures Inv(rf, Advance(s, w, ok))
  {
    var workers := s.workers[w := Moved(s.workers[w], ok)];
    forall x | x in workers ensures WorkerOK(rf, s, workers[x]) {
      assert x in s.workers && WorkerOK(rf, s, s.workers[x]);
      if x == w {
        WorkerAdvances(rf, s, s.workers[w], ok);
      }
    }
    WorkersStep(rf, s, workers);
  }

  lemma CopyAckedStep(rf: nat, s: Sys, w: nat)
    requires Inv(rf, s) && w in s.workers && CanCopy(s, s.workers[w])
    ensures Inv(rf, Advance(WithAck(s, s.workers[w]), w, true))
  {
    var wk := s.workers[w];
    assert WorkerOK(rf, s, wk);
    AckedCopy(rf, s, wk, WithAck(s, wk));
    assert (wk.fid, wk.todo[wk.next], wk.view[wk.todo[wk.next]]) in WithAck(s, wk).acks;
    AdvanceKeepsInv(rf, WithAck(s, wk), w, true);
  }

  lemma CopyFailedStep(rf: nat, s: Sys, w: nat, stored: bool)
    requires Inv(rf, s) && w in s.workers && Asking(s.workers[w]) && (stored ==> CanCopy(s, s.workers[w]))
    ensures Inv(rf, Advance(if stored then WithCopy(s, s.workers[w]) else s, w, false))
  {
    if stored {
      CopyStep(rf, s, s.workers[w], WithCopy(s, s.workers[w]));
    }
    AdvanceKeepsInv(rf, if stored then WithCopy(s, s.workers[w]) else s, w, false);
  }

  lemma BeginStep(rf: nat, s: Sys, w: nat, worker: Worker)
    requires Inv(rf, s) && WellBegun(rf, worker) && (worker.fid, worker.read) in s.lists
    requires (forall id :: id in worker.view ==> (id, worker.view[id]) in s.known)
      && GoodList(rf, s.cat.nodes.Keys, worker.desired)
    ensures Inv(rf, s.(workers := s.workers[w := worker]))
  {
    RestrictNoDup(worker.desired, worker.view.Keys - ToSet(worker.read));
    assert GoodAndVouched(rf, s, (worker.fid, worker.read).0, (worker.fid, worker.read).1);
    assert WorkerOK(rf, s, worker);
    WorkersStep(rf, s, s.workers[w := worker]);
  }

  // ---- Runs -----------------------------------------------------------------------------

  lemma InitInv(rf: nat)
    ensures Inv(rf, INIT) && PutsOK(INIT)
  {
    assert CatalogLists(EMPTY) == {};
  }

  lemma CatalogEventKeepsInv(rf: nat, s: Sys, e: Event)
    requires Inv(rf, s) && Enabled(rf, s, e) && (e.NodeCommand? || e.Prepare? || e.KeyCommand?)
    ensures Inv(rf, Exec(rf, s, e))
  {
    match e
    case NodeCommand(c) => PlainCommand(rf, s, c);
    case Prepare(entry, data) => PrepareStep(rf, s, entry, data, Prepared(s, entry, data));
    case KeyCommand(c) => KeyCommandStep(rf, s, c);
  }

  lemma KeyCommandStep(rf: nat, s: Sys, c: Command)
    requires Inv(rf, s) && (c.CommitKey? || c.DeleteKey?)
    ensures Inv(rf, WithCatalog(s, c))
  {
    PlainCommand(rf, s, c);
    assert s.known + Registered(c) == s.known;
    assert WithCatalog(s, c) == WithCatalog(s, c).(known := s.known + Registered(c));
  }

  lemma PutEventKeepsInv(rf: nat, s: Sys, e: Event)
    requires Inv(rf, s) && Enabled(rf, s, e) && (e.PutBegin? || e.PutStep? || e.PutArrives?)
    ensures Inv(rf, Exec(rf, s, e)) && Grows(s, Exec(rf, s, e))
  {
    match e
    case PutBegin(u, fid) => StoreStep(rf, s, s.plan[fid].info.nodeAddrs[0], fid, Begun(s, u, fid));
    case PutStep(u, step) => PutStepKeepsInv(rf, s, u, step);
    case PutArrives(u, g) => StoreStep(rf, s, s.puts[u].fan.addrs[g], s.puts[u].fid, Arrived(s, u, g));
  }

  lemma WorkerEventKeepsInv(rf: nat, s: Sys, e: Event)
    requires Inv(rf, s) && Enabled(rf, s, e) && (e.Begin? || e.CopyAcked? || e.CopyFailed? || e.WriteBack?)
    ensures Inv(rf, Exec(rf, s, e))
  {
    match e
    case Begin(w, worker) => BeginStep(rf, s, w, worker);
    case CopyAcked(w) => CopyAckedStep(rf, s, w);
    case CopyFailed(w, stored) => CopyFailedStep(rf, s, w, stored);
    case WriteBack(w, applied) => WriteBackStep(rf, s, w, applied);
  }

  lemma ExecKeepsInv(rf: nat, s: Sys, e: Event)
    requires Inv(rf, s) && Enabled(rf, s, e)
    ensures Inv(rf, Exec(rf, s, e))
  {
    if e.NodeCommand? || e.Prepare? || e.KeyCommand? {
      CatalogEventKeepsInv(rf, s, e);
    } else if e.PutBegin? || e.PutStep? || e.PutArrives? {
      PutEventKeepsInv(rf, s, e);
    } else {
      WorkerEventKeepsInv(rf, s, e);
    }
  }

  lemma StoreGrows(s: Sys, url: string, fid: string, data: Bytes, acks: set<(string, string, string)>)
    requires s.acks <= acks
    ensures Grows(s, s.(stores := Store(s.stores, url, fid, data), acks := acks))
  {
  }

  lemma CommandGrows(s: Sys, c: Command)
    requires !c.PutKey?
    ensures Grows(s, WithCatalog(s, c)) && Grows(s, WithCatalog(s, c).(known := s.known + Registered(c)))
  {
    assert s.cat.nodes.Keys <= Step(s.cat, c).nodes.Keys;
  }

  lemma ExecGrows(rf: nat, s: Sys, e: Event)
    requires Inv(rf, s) && Enabled(rf, s, e)
    ensures Grows(s, Exec(rf, s, e))
  {
    match e
    case NodeCommand(c) => CommandGrows(s, c);
    case Prepare(entry, data) => PrepareGrows(rf, s, entry, data, Prepared(s, entry, data));
    case KeyCommand(c) => CommandGrows(s, c);
    case PutBegin(_, _) => PutEventKeepsInv(rf, s, e);
    case PutStep(_, _) => PutEventKeepsInv(rf, s, e);
    case PutArrives(_, _) => PutEventKeepsInv(rf, s, e);
    case Begin(w, worker) => WorkersGrow(s, s.workers[w := worker]);
    case CopyAcked(w) => CopyGrows(s, w, WithAck(s, s.workers[w]), true);
    case CopyFailed(w, stored) => CopyGrows(s, w, if stored then WithCopy(s, s.workers[w]) else s, false);
    case WriteBack(w, applied) => WriteGrows(s, w, applied);
  }

  lemma WorkersGrow(s: Sys, workers: map<nat, Worker>)
    ensures Grows(s, s.(workers := workers))
  {
  }

  lemma WriteGrows(s: Sys, w: nat, applied: bool)
    requires w in s.workers
    ensures Grows(s, AfterWrite(s, w, applied))
  {
    var wk := s.workers[w];
    var u := if applied then WithCatalog(s, UpdateFragment(wk.fid, Written(wk))) else s;
    CommandGrows(s, UpdateFragment(wk.fid, Written(wk)));
    WorkersGrow(u, s.workers - {w});
    GrowsTransitive(s, u, AfterWrite(s, w, applied));
  }

  lemma CopyGrows(s: Sys, w: nat, u: Sys, ok: bool)
    requires w in s.workers && Asking(s.workers[w])
    requires u == s || (CanCopy(s, s.workers[w]) && (u == WithCopy(s, s.workers[w]) || u == WithAck(s, s.workers[w])))
    ensures w in u.workers && u.workers[w].next < |u.workers[w].todo| && Grows(s, Advance(u, w, ok))
  {
    var wk := s.workers[w];
    if u != s {
      StoreGrows(s, wk.view[wk.todo[wk.next]], wk.fid, s.stores[Source(wk).value][wk.fid], u.acks);
    }
  }

  lemma {:induction false} RunKeepsInv(rf: nat, s: Sys, run: seq<Event>, t: Sys)
    requires Inv(rf, s) && PutsOK(s) && RunsTo(rf, s, run, t)
    ensures Inv(rf, t) && PutsOK(t) && Grows(s, t)
    decreases |run|
  {
    if run != [] {
      var next := Exec(rf, s, run[0]);
      ExecKeepsInv(rf, s, run[0]);
      ExecKeepsPuts(rf, s, run[0]);
      ExecGrows(rf, s, run[0]);
      RunKeepsInv(rf, next, run[1..], t);
      GrowsTransitive(s, next, t);
    }
  }

  lemma RunFirst(rf: nat, s: Sys, e: Event, run: seq<Event>, t: Sys)
    requires Enabled(rf, s, e) && RunsTo(rf, Exec(rf, s, e), run, t)
    ensures RunsTo(rf, s, [e] + run, t)
  {
    FollowFirst(Next(rf), s, e, run);
  }

  lemma RunAppend(rf: nat, s: Sys, run: seq<Event>, t: Sys, e: Event)
    requires RunsTo(rf, s, run, t) && Enabled(rf, t, e)
    ensures RunsTo(rf, s, run + [e], Exec(rf, t, e))
  {
    FollowJoin(Next(rf), s, run, [e]);
    FollowOne(Next(rf), t, e);
  }

  lemma RunJoin(rf: nat, s: Sys, run: seq<Event>, t: Sys, run': seq<Event>, u: Sys)
    requires RunsTo(rf, s, run, t) && RunsTo(rf, t, run', u)
    ensures RunsTo(rf, s, run + run', u)
  {
    FollowJoin(Next(rf), s, run, run');
  }

  /** The addresses a client would read a catalogued fragment from. */
  function AddrsOf(cat: State, k: string, i: nat): seq<string>
    requires HasSlot(cat, k, i)
  {
    cat.keys[k].fragments[i].nodeAddrs
  }

  /** Whole-run catalog soundness: after any interleaving every replica list is duplicate-free, at most RF long, names
      registered nodes only, and each of them was planned or acknowledged a copy it still serves. */
  lemma CatalogSound(rf: nat, run: seq<Event>, t: Sys, k: string, i: nat)
    requires RunsTo(rf, INIT, run, t) && HasSlot(t.cat, k, i)
    ensures var fid := FragmentID(k, i);
      && fid in t.plan && AddrsOf(t.cat, k, i) == t.plan[fid].info.nodeAddrs != []
      && GoodList(rf, t.cat.nodes.Keys, ListOf(t.cat, k, i))
      && forall id :: id in ListOf(t.cat, k, i) ==>
           id in t.plan[fid].info.nodeIDs
           || exists url :: (fid, id, url) in t.acks && (id, url) in t.known && Holds(t, url, fid)
               && t.stores[url][fid] == t.plan[fid].data
  {
    InitInv(rf);
    RunKeepsInv(rf, INIT, run, t);
    var fid := FragmentID(k, i);
    ListInCatalog(t.cat, k, i);
    var p := (fid, ListOf(t.cat, k, i));
    assert p in t.lists;
    assert GoodAndVouched(rf, t, p.0, p.1);
    forall id | id in ListOf(t.cat, k, i) && id !in t.plan[fid].info.nodeIDs
      ensures exists url ::
        (fid, id, url) in t.acks && (id, url) in t.known && Holds(t, url, fid) && t.stores[url][fid] == t.plan[fid].data
    {
      assert Vouched(t, fid, id);
      var url :| (fid, id, url) in t.acks;
      var a := (fid, id, url);
      assert Holds(t, a.2, a.0) && (a.1, a.2) in t.known;
    }
  }

  /** When every planned server holds the fragment, every catalogued node holds it, byte for byte. */
  lemma CataloguedNodesHold(rf: nat, run: seq<Event>, t: Sys, k: string, i: nat, id: string)
    requires RunsTo(rf, INIT, run, t) && HasSlot(t.cat, k, i) && id in ListOf(t.cat, k, i)
    requires FragmentID(k, i) in t.plan
    requires forall url :: url in t.plan[FragmentID(k, i)].info.nodeAddrs ==> Holds(t, url, FragmentID(k, i))
    ensures exists url ::
      (id, url) in t.known && Holds(t, url, FragmentID(k, i))
      && t.stores[url][FragmentID(k, i)] == t.plan[FragmentID(k, i)].data
  {
    InitInv(rf);
    RunKeepsInv(rf, INIT, run, t);
    CatalogSound(rf, run, t, k, i);
    var f := t.plan[FragmentID(k, i)].info;
    if id in f.nodeIDs {
      var j :| 0 <= j < |f.nodeIDs| && f.nodeIDs[j] == id;
      assert PlanOK(t, f);
      assert (f.nodeIDs[j], f.nodeAddrs[j]) in t.known && f.nodeAddrs[j] in f.nodeAddrs;
    }
  }
}
