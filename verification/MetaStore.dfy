/** The metadata store: key preparation and the two background passes, over the replicated catalog. */
module MetaStore {
  import opened Collections
  import opened Names
  import opened Placement
  import opened Catalog
  import opened Planner
  import opened Repair

  // ---- Progress of a pass -------------------------------------------------------

  ghost predicate EntryDone(p: Pass, cfg: Config, a: State, b: State, log: Journal, k: string, n: nat)
    requires k in a.keys && n <= |a.keys[k].fragments|
  {
    forall i: nat :: i < n ==> HasSlot(a, k, i) && SlotDone(p, cfg, a, b, log, k, i)
  }

  /** `b` is `a` with one replica list replaced. */
  predicate SlotSet(a: State, b: State, k: string, i: nat, ids: seq<string>)
    requires HasSlot(a, k, i)
  {
    b == a.(keys := a.keys[k := Reassigned(a.keys[k], i, ids)])
  }

  lemma SlotSetSame(a: State, k: string, i: nat)
    requires HasSlot(a, k, i)
    ensures SlotSet(a, a, k, i, ListOf(a, k, i))
  {
    var fs := a.keys[k].fragments;
    assert fs[i].(nodeIDs := ListOf(a, k, i)) == fs[i];
    assert fs[i := fs[i]] == fs;
    assert a.keys[k := a.keys[k]] == a.keys;
  }

  lemma SlotSetByUpdate(a: State, k: string, i: nat, ids: seq<string>)
    requires WellFormed(a) && HasSlot(a, k, i)
    ensures SlotSet(a, Step(a, UpdateFragment(FragmentID(k, i), ids)), k, i, ids)
  {
    UpdateTouchesOne(a, k, i, ids);
    var b := Step(a, UpdateFragment(FragmentID(k, i), ids));
    assert b.keys == a.keys[k := Reassigned(a.keys[k], i, ids)];
  }

  lemma SlotSetKeeps(a: State, b: State, k: string, i: nat, ids: seq<string>)
    requires HasSlot(a, k, i) && SlotSet(a, b, k, i, ids)
    ensures OnlyListsDiffer(a, b) && (forall k' :: k' in a.keys && k' != k ==> b.keys[k'] == a.keys[k'])
    ensures HasSlot(b, k, i) && ListOf(b, k, i) == ids && |b.keys[k].fragments| == |a.keys[k].fragments|
    ensures forall j :: 0 <= j < |a.keys[k].fragments| && j != i ==> b.keys[k].fragments[j] == a.keys[k].fragments[j]
  {
  }

  /** What is done for a slot stays done when only other slots and journal entries change. */
  lemma SlotDoneStable(p: Pass, cfg: Config, a: State, b: State, c: State, log: Journal, log': Journal, k: string,
      i: nat)
    requires HasSlot(a, k, i) && SlotDone(p, cfg, a, b, log, k, i)
    requires HasSlot(c, k, i) && ListOf(c, k, i) == ListOf(b, k, i)
    requires (k, i) in log' && log'[(k, i)] == log[(k, i)]
    ensures SlotDone(p, cfg, a, c, log', k, i)
  {
  }

  lemma MergeDone(p: Pass, cfg: Config, a: State, b: State, c: State, log: Journal, more: Journal, k: string,
      left: set<string>)
    requires a.keys.Keys == b.keys.Keys == c.keys.Keys && k in left && left <= a.keys.Keys
    requires forall k' :: k' in a.keys && k' !in left ==> EntryDone(p, cfg, a, b, log, k', |a.keys[k'].fragments|)
    requires EntryDone(p, cfg, a, c, more, k, |a.keys[k].fragments|)
    requires forall k' :: k' in a.keys && k' != k ==> c.keys[k'] == b.keys[k']
    requires forall s :: s in more ==> s.0 == k
    ensures forall k' :: k' in a.keys && k' !in left - {k} ==>
      EntryDone(p, cfg, a, c, log + more, k', |a.keys[k'].fragments|)
  {
    forall k' | k' in a.keys && k' !in left - {k}
      ensures EntryDone(p, cfg, a, c, log + more, k', |a.keys[k'].fragments|)
    {
      if k' == k {
        EntryDoneStable(p, cfg, a, c, c, more, log + more, k);
      } else {
        EntryDoneStable(p, cfg, a, b, c, log, log + more, k');
      }
    }
  }

  /** Inside a pass: the entries left are as they were, the others are done, in that order. */
  ghost predicate PassUnderway(p: Pass, cfg: Config, a: State, cat: State, log: Journal, left: set<string>,
      order: seq<string>) {
    && OnlyListsDiffer(a, cat) && left <= a.keys.Keys
    && (forall k :: k in left ==> cat.keys[k] == a.keys[k])
    && (forall k :: k in a.keys && k !in left ==> EntryDone(p, cfg, a, cat, log, k, |a.keys[k].fragments|))
    && (forall s :: s in log ==> s.0 in a.keys && s.0 !in left)
    && NoDup(order) && (forall k :: k in order <==> k in a.keys && k !in left)
  }

  lemma PassAdvances(p: Pass, cfg: Config, a: State, b: State, c: State, log: Journal, more: Journal, k: string,
      left: set<string>, order: seq<string>)
    requires PassUnderway(p, cfg, a, b, log, left, order) && k in left && OnlyListsDiffer(a, c)
    requires EntryDone(p, cfg, a, c, more, k, |a.keys[k].fragments|)
    requires forall k' :: k' in a.keys && k' != k ==> c.keys[k'] == b.keys[k']
    requires forall s :: s in more ==> s.0 == k
    ensures PassUnderway(p, cfg, a, c, log + more, left - {k}, order + [k])
    ensures k !in order && forall s :: s in log ==> s.0 != k
  {
    MergeDone(p, cfg, a, b, c, log, more, k, left);
    NoDupStep(order, k);
  }

  lemma AllDone(p: Pass, cfg: Config, a: State, b: State, log: Journal, order: seq<string>)
    requires PassUnderway(p, cfg, a, b, log, {}, order)
    ensures OnlyListsDiffer(a, b) && NoDup(order) && ToSet(order) == a.keys.Keys
    ensures p == Recovery ==> RecoveryPass(cfg, a, b, log)
    ensures p == Rebalance && Live(a) != {} ==> RebalancePass(cfg, a, b, log)
  {
    forall k, i: nat | HasSlot(a, k, i) ensures SlotDone(p, cfg, a, b, log, k, i) {
      assert EntryDone(p, cfg, a, b, log, k, |a.keys[k].fragments|);
    }
  }

  /** One more slot done: what the loops of both passes maintain. */
  lemma SlotAdvance(p: Pass, cfg: Config, a: State, b: State, c: State, log: Journal, k: string, i: nat, e: Effort,
      ids: seq<string>)
    requires k in a.keys && i < |a.keys[k].fragments| && OnlyListsDiffer(a, b) && HasSlot(b, k, i)
      && SlotSet(b, c, k, i, ids)
    requires EntryDone(p, cfg, a, b, log, k, i) && (k, i) !in log
    requires HasSlot(c, k, i) ==> SlotDone(p, cfg, a, c, log[(k, i) := e], k, i)
    ensures OnlyListsDiffer(a, c) && EntryDone(p, cfg, a, c, log[(k, i) := e], k, i + 1)
    ensures forall k' :: k' in a.keys && k' != k ==> c.keys[k'] == b.keys[k']
    ensures forall j :: i < j < |a.keys[k].fragments| ==> HasSlot(c, k, j) && ListOf(c, k, j) == ListOf(b, k, j)
  {
    SlotSetKeeps(b, c, k, i, ids);
    OnlyListsTransitive(a, b, c);
    assert SameButLists(a.keys[k], b.keys[k]) && SameButLists(a.keys[k], c.keys[k]);
    EarlierStillDone(p, cfg, a, b, c, log, k, i, e);
  }

  lemma EarlierStillDone(p: Pass, cfg: Config, a: State, b: State, c: State, log: Journal, k: string, i: nat,
      e: Effort)
    requires k in a.keys && i < |a.keys[k].fragments| && EntryDone(p, cfg, a, b, log, k, i) && (k, i) !in log
    requires forall j: nat :: j < i ==> HasSlot(b, k, j) && HasSlot(c, k, j) && ListOf(c, k, j) == ListOf(b, k, j)
    requires SlotDone(p, cfg, a, c, log[(k, i) := e], k, i)
    ensures EntryDone(p, cfg, a, c, log[(k, i) := e], k, i + 1)
  {
    forall j: nat | j < i + 1 ensures HasSlot(a, k, j) && SlotDone(p, cfg, a, c, log[(k, i) := e], k, j) {
      if j < i {
        SlotDoneStable(p, cfg, a, b, c, log, log[(k, i) := e], k, j);
      }
    }
  }

  /** Inside an entry: the slots before i are done, those from i on are as they were, and so are all other entries. */
  ghost predicate EntryUnderway(p: Pass, cfg: Config, a: State, start: State, cat: State, log: Journal, k: string,
      i: nat) {
    && k in a.keys && i <= |a.keys[k].fragments| && OnlyListsDiffer(a, cat) && start.keys.Keys == a.keys.Keys
    && EntryDone(p, cfg, a, cat, log, k, i)
    && (forall k' :: k' in a.keys && k' != k ==> cat.keys[k'] == start.keys[k'])
    && (forall j: nat :: i <= j < |a.keys[k].fragments| ==> HasSlot(cat, k, j) && ListOf(cat, k, j) == ListOf(a, k, j))
    && (forall s :: s in log ==> s.0 == k && s.1 < i)
  }

  lemma UnderwayAdvances(p: Pass, cfg: Config, a: State, start: State, b: State, c: State, log: Journal, k: string,
      i: nat, e: Effort, ids: seq<string>)
    requires EntryUnderway(p, cfg, a, start, b, log, k, i) && i < |a.keys[k].fragments| && SlotSet(b, c, k, i, ids)
    requires HasSlot(c, k, i) ==> SlotDone(p, cfg, a, c, log[(k, i) := e], k, i)
    ensures EntryUnderway(p, cfg, a, start, c, log[(k, i) := e], k, i + 1)
  {
    SlotAdvance(p, cfg, a, b, c, log, k, i, e, ids);
  }

  lemma RecoveryAdvances(cfg: Config, a: State, start: State, b: State, c: State, log: Journal, k: string, i: nat,
      e: Effort, view: map<string, NodeInfo>)
    requires EntryUnderway(Recovery, cfg, a, start, b, log, k, i) && i < |a.keys[k].fragments|
    requires view == LiveRecords(a) && Recovered(cfg.rf, view.Keys, ListOf(b, k, i), e)
    requires SlotSet(b, c, k, i, if e.applied then e.written else ListOf(b, k, i))
    ensures EntryUnderway(Recovery, cfg, a, start, c, log[(k, i) := e], k, i + 1)
  {
    var now := if e.applied then e.written else ListOf(b, k, i);
    SlotSetKeeps(b, c, k, i, now);
    assert view.Keys == Live(a) == Live(b);
    SlotRecovered(cfg, a, b, c, log[(k, i) := e], k, i);
    UnderwayAdvances(Recovery, cfg, a, start, b, c, log, k, i, e, now);
  }

  lemma RebalanceAdvances(cfg: Config, a: State, start: State, b: State, c: State, log: Journal, k: string, i: nat,
      e: Effort, desired: seq<string>)
    requires EntryUnderway(Rebalance, cfg, a, start, b, log, k, i) && i < |a.keys[k].fragments|
    requires IsPlacement(cfg, a, FragmentID(k, i), desired)
    requires Rebalanced(Live(b), Sourced(b.nodes, Live(b), ListOf(b, k, i)), desired, ListOf(b, k, i), e)
    requires SlotSet(b, c, k, i, if e.applied then e.written else ListOf(b, k, i))
    ensures EntryUnderway(Rebalance, cfg, a, start, c, log[(k, i) := e], k, i + 1)
  {
    var now := if e.applied then e.written else ListOf(b, k, i);
    SlotSetKeeps(b, c, k, i, now);
    SlotRebalanced(cfg, a, b, c, log[(k, i) := e], k, i, desired);
    UnderwayAdvances(Rebalance, cfg, a, start, b, c, log, k, i, e, now);
  }

  lemma EntryDoneStable(p: Pass, cfg: Config, a: State, b: State, c: State, log: Journal, log': Journal, k: string)
    requires k in a.keys && EntryDone(p, cfg, a, b, log, k, |a.keys[k].fragments|)
    requires k in b.keys && k in c.keys && c.keys[k] == b.keys[k]
    requires forall i: nat :: (k, i) in log ==> (k, i) in log' && log'[(k, i)] == log[(k, i)]
    ensures EntryDone(p, cfg, a, c, log', k, |a.keys[k].fragments|)
  {
    forall i: nat | i < |a.keys[k].fragments| ensures HasSlot(a, k, i) && SlotDone(p, cfg, a, c, log', k, i) {
      assert HasSlot(a, k, i) && SlotDone(p, cfg, a, b, log, k, i);
      SlotDoneStable(p, cfg, a, b, c, log, log', k, i);
    }
  }

  datatype Outcome = Prepared(entry: KeyEntry) | Failed(message: string) | Panicked

  /** What the outside answers to the n-th action: whether a replicate request is granted, and how a proposal ends. */
  datatype World = World(grants: (nat, Request) -> bool, verdicts: (nat, Command) -> Verdict)

  predicate AnsweredAs(world: World, n: nat, x: Action) {
    match x
    case Asked(r, granted) => granted == world.grants(n, r)
    case Proposed(c, verdict) => verdict == world.verdicts(n, c)
  }

  /** Every action was answered as the world has it. */
  ghost predicate Answered(world: World, trace: seq<Action>) {
    forall n: nat :: n < |trace| ==> AnsweredAs(world, n, trace[n])
  }

  class Store {
    const cfg: Config
    const chunkSize: Int64
    const longestPlan: nat
    const world: World
    var cat: State
    /** Every replicate request and every proposal so far, in order, with its answer. */
    var trace: seq<Action>

    ghost predicate Valid()
      reads this
    {
      cfg.rf > 0 && chunkSize > 0 && longestPlan > 0 && WellFormed(cat) && Answered(world, trace)
    }

    /** Open: non-positive settings fall back to their defaults, and the catalog is what the log left behind. `longest`
        is the length from which on an allocation of fragments panics; `world` answers requests and proposals. */
    constructor (replicationFactor: int, chunk: Int64, strategy: string, hs: Hashing, longest: nat, world: World,
        past: seq<Command>)
      requires longest > 0 && WellFormedLog(past)
      ensures Valid() && cat == Replay(EMPTY, past) && longestPlan == longest && this.world == world && trace == []
      ensures cfg.rf == (if replicationFactor <= 0 then 3 else replicationFactor) && cfg.hs == hs
      ensures strategy == "rendezvous" ==> cfg.strategy == Rendezvous
      ensures strategy == "weighted" ==> cfg.strategy == Weighted
      ensures strategy != "rendezvous" && strategy != "weighted" ==> cfg.strategy == ConsistentHash(0)
      ensures chunkSize == if chunk <= 0 then 8388608 else chunk
    {
      cfg := Config(if replicationFactor <= 0 then 3 else replicationFactor, NewPlacer(strategy), hs);
      chunkSize := ChunkSizeOr(chunk);
      longestPlan := longest;
      this.world := world;
      cat := Replay(EMPTY, past);
      trace := [];
      ReplayWellFormed(past);
    }

    /** Proposing a command: it is applied unless it is refused, and an error does not say that it was not committed. */
    method Propose(c: Command) returns (ok: bool, ghost verdict: Verdict)
      requires Answered(world, trace)
      modifies `cat, `trace
      ensures Answered(world, trace) && trace == old(trace) + [Proposed(c, verdict)]
      ensures cat == if verdict == Refused then old(cat) else Step(old(cat), c)
      ensures ok <==> verdict == Accepted
    {
      var answer := world.verdicts(|trace|, c);
      verdict := answer;
      trace := trace + [Proposed(c, answer)];
      if answer != Refused {
        cat := Step(cat, c);
      }
      ok := answer == Accepted;
    }

    /** One replicate request over HTTP: the target is to pull the fragment from the source. */
    method TriggerReplicate(targetAddr: string, fragmentID: string, sourceAddr: string) returns (ok: bool)
      requires Answered(world, trace)
      modifies `trace
      ensures Answered(world, trace)
      ensures trace == old(trace) + [Asked(Request("http://" + targetAddr, fragmentID, "http://" + sourceAddr), ok)]
    {
      var r := Request("http://" + targetAddr, fragmentID, "http://" + sourceAddr);
      ok := world.grants(|trace|, r);
      trace := trace + [Asked(r, ok)];
    }

    /** The live nodes, in whatever order the map yields them, with the free space their records tell. */
    method LiveNodes() returns (out: seq<Node>)
      requires Valid()
      ensures IsView(cat, out)
      ensures forall nd :: nd in out ==>
        && nd.id in cat.nodes && cat.nodes[nd.id].status == Up
        && nd.totalBytes == cat.nodes[nd.id].totalBytes && nd.weight == 0.0
        && nd.freeBytes ==
           if cat.nodes[nd.id].usedBytes <= cat.nodes[nd.id].totalBytes then
             cat.nodes[nd.id].totalBytes - cat.nodes[nd.id].usedBytes
           else 0
      ensures forall id :: id in cat.nodes && cat.nodes[id].status == Up ==> id in IDs(out)
    {
      out := [];
      var left := cat.nodes.Keys;
      while left != {}
        invariant left <= cat.nodes.Keys
        invariant UniqueIDs(out)
        invariant forall nd :: nd in out ==>
          nd.id !in left && nd.id in Live(cat) && nd == PlacementNode(cat.nodes[nd.id])
        invariant forall id :: id in Live(cat) && id !in left ==> PlacementNode(cat.nodes[id]) in out
        decreases left
      {
        var id :| id in left;
        left := left - {id};
        if cat.nodes[id].status == Up {
          assert forall i :: 0 <= i < |out| ==> out[i] in out;
          out := out + [PlacementNode(cat.nodes[id])];
        }
      }
      forall id | id in cat.nodes && cat.nodes[id].status == Up ensures id in IDs(out) {
        assert PlacementNode(cat.nodes[id]) in out;
      }
    }

    /** The live nodes by the ids in their records. */
    method LiveMap() returns (m: map<string, NodeInfo>)
      requires Valid()
      ensures m == LiveRecords(cat) == map id | id in cat.nodes && cat.nodes[id].status == Up :: cat.nodes[id]
    {
      m := map[];
      var left := cat.nodes.Keys;
      while left != {}
        invariant left <= cat.nodes.Keys && m.Keys == Live(cat) - left
        invariant forall id :: id in m ==> m[id] == cat.nodes[id]
        decreases left
      {
        var id :| id in left;
        left := left - {id};
        var n := cat.nodes[id];
        if n.status == Up {
          m := m[n.id := n];
        }
      }
    }

    // ---- PrepareKey -----------------------------------------------------------

    /** A planned fragment: its id, size and placement, with the addresses parallel to the node ids. */
    ghost predicate Planned(f: Info, key: string, totalSize: Int64, count: int, i: nat)
      reads this
      requires chunkSize > 0
    {
      && f.id == FragmentID(key, i) == key + "/" + Decimal(i) && f.key == key && f.index == i
      && f.size == FragmentSize(totalSize, chunkSize, count, i)
      && IsPlacement(cfg, cat, f.id, f.nodeIDs)
      && |f.nodeAddrs| == |f.nodeIDs|
      && forall j :: 0 <= j < |f.nodeIDs| ==>
        f.nodeIDs[j] in cat.nodes && f.nodeAddrs[j] == "http://" + cat.nodes[f.nodeIDs[j]].addr
    }

    method PlanFragment(key: string, totalSize: Int64, count: int, i: nat, nodes: seq<Node>) returns (f: Info)
      requires Valid() && IsView(cat, nodes)
      ensures Planned(f, key, totalSize, count, i) && (Live(cat) != {} ==> f.nodeAddrs != [])
    {
      var fid := FragmentID(key, i);
      var size: int := chunkSize;
      if i == count - 1 {
        var rem := Rem(totalSize, chunkSize);
        if rem > 0 {
          size := rem;
        }
      }
      var placed := Place(cfg.strategy, cfg.hs, fid, nodes, cfg.rf);
      var nodeIDs, nodeAddrs := Resolve(placed, nodes);
      assert IsPlacementOn(cfg, cat, fid, nodeIDs, nodes, placed);
      PlacementIsGood(cfg, cat, fid, nodeIDs);
      f := Info(fid, key, i, size, nodeIDs, nodeAddrs);
    }

    /** The ids of the placed nodes, with their addresses from membership. */
    method Resolve(placed: seq<Node>, ghost nodes: seq<Node>) returns (nodeIDs: seq<string>, nodeAddrs: seq<string>)
      requires IsView(cat, nodes) && forall nd :: nd in placed ==> nd in nodes
      ensures nodeIDs == IDSeq(placed) && |nodeAddrs| == |nodeIDs|
      ensures forall j :: 0 <= j < |nodeIDs| ==>
        nodeIDs[j] in cat.nodes && nodeAddrs[j] == "http://" + cat.nodes[nodeIDs[j]].addr
    {
      nodeIDs, nodeAddrs := [], [];
      for j := 0 to |placed|
        invariant |nodeIDs| == |nodeAddrs| == j
        invariant nodeIDs == IDSeq(placed)[..j]
        invariant forall q :: 0 <= q < j ==>
          nodeIDs[q] in cat.nodes && nodeAddrs[q] == "http://" + cat.nodes[nodeIDs[q]].addr
      {
        assert placed[j] in placed && placed[j].id in cat.nodes;
        TakeStep(IDSeq(placed), j);
        nodeIDs := nodeIDs + [placed[j].id];
        var addr := "";
        if placed[j].id in cat.nodes {
          addr := "http://" + cat.nodes[placed[j].id].addr;
        }
        nodeAddrs := nodeAddrs + [addr];
      }
    }

    /** The entry planned for a key. */
    ghost predicate IsPlan(e: KeyEntry, key: string, totalSize: Int64)
      reads this
      requires chunkSize > 0
    {
      && WellFormedEntry(e) && e.key == key && e.totalSize == totalSize && e.chunkSize == chunkSize
      && |e.fragments| == FragmentCount(totalSize, chunkSize)
      && forall i: nat :: i < |e.fragments| ==>
        Planned(e.fragments[i], key, totalSize, |e.fragments|, i) && e.fragments[i].nodeAddrs != []
    }

    /** PrepareKey: without live nodes, or when the plan cannot be allocated, nothing is sent out. Otherwise the planned
        entry is proposed, and the answer tells what becomes of it. */
    method PrepareKey(key: string, totalSize: Int64) returns (r: Outcome, ghost plan: KeyEntry, ghost verdict: Verdict)
      requires Valid()
      modifies `cat, `trace
      ensures Valid()
      ensures var proposes := Live(old(cat)) != {} && Allocatable(FragmentCount(totalSize, chunkSize), longestPlan);
        && (!proposes ==> cat == old(cat) && trace == old(trace))
        && (proposes ==>
          && old(IsPlan(plan, key, totalSize)) && trace == old(trace) + [Proposed(PutKey(Some(plan)), verdict)]
          && cat == if verdict == Refused then old(cat) else Step(old(cat), PutKey(Some(plan))))
        && (r.Prepared? <==> proposes && verdict == Accepted) && (r.Prepared? ==> r.entry == plan)
        && (r.Panicked? <==> Live(old(cat)) != {} && !proposes)
    {
      plan, verdict := KeyEntry(key, totalSize, chunkSize, [], false), Refused;
      var nodes := LiveNodes();
      ViewSize(cat, nodes);
      if |nodes| == 0 {
        return Failed("no live storage nodes"), plan, verdict;
      }
      var count := FragmentCount(totalSize, chunkSize);
      if !Allocatable(count, longestPlan) {
        return Panicked, plan, verdict;
      }
      var frags: seq<Info> := [];
      for i := 0 to count
        invariant |frags| == i && cat == old(cat) && trace == old(trace)
        invariant forall j: nat :: j < i ==> Planned(frags[j], key, totalSize, count, j) && frags[j].nodeAddrs != []
      {
        var f := PlanFragment(key, totalSize, count, i, nodes);
        frags := frags + [f];
      }
      var entry := KeyEntry(key, totalSize, chunkSize, frags, false);
      plan := entry;
      StepWellFormed(cat, PutKey(Some(entry)));
      var ok;
      ok, verdict := Propose(PutKey(Some(entry)));
      r := if ok then Prepared(entry) else Failed("raft");
    }

    // ---- Recovery -------------------------------------------------------------

    /** UpdateFragmentNodes: the new list is proposed; it reaches the catalog unless it is refused, and only that list
        can change. */
    method UpdateFragmentNodes(k: string, i: nat, ids: seq<string>) returns (ghost verdict: Verdict)
      requires Valid() && HasSlot(cat, k, i)
      modifies `cat, `trace
      ensures Valid() && trace == old(trace) + [Proposed(UpdateFragment(FragmentID(k, i), ids), verdict)]
      ensures SlotSet(old(cat), cat, k, i, if verdict == Refused then ListOf(old(cat), k, i) else ids)
    {
      SlotSetSame(cat, k, i);
      SlotSetByUpdate(cat, k, i, ids);
      var c := UpdateFragment(FragmentID(k, i), ids);
      StepWellFormed(cat, c);
      var ok;
      ok, verdict := Propose(c);
    }

    /** Recovery of the i-th fragment of key k, on whatever node view the pass started with: what it sends out, and the
        list it leaves. */
    method RecoverFragment(k: string, i: nat, liveMap: map<string, NodeInfo>) returns (ghost e: Effort)
      requires Valid() && HasSlot(cat, k, i) && forall id :: id in liveMap ==> liveMap[id].id == id
      modifies `cat, `trace
      ensures Valid()
      ensures Recovered(cfg.rf, liveMap.Keys, ListOf(old(cat), k, i), e)
      ensures trace == old(trace) + Sends(Recovery, liveMap, FragmentID(k, i), ListOf(old(cat), k, i), e)
      ensures SlotSet(old(cat), cat, k, i, if e.applied then e.written else ListOf(old(cat), k, i))
    {
      var frag := cat.keys[k].fragments[i];
      e := Effort([], [], frag.nodeIDs, Accepted);
      SlotSetSame(cat, k, i);
      var liveReplicas := FilterLive(frag.nodeIDs, liveMap);
      if |liveReplicas| >= cfg.rf {
        RecoveredIdle(cfg.rf, liveMap.Keys, frag.nodeIDs);
        return;
      }
      var needed := cfg.rf - |liveReplicas|;
      var candidates := Candidates(liveReplicas, liveMap);
      if |candidates| == 0 || |liveReplicas| == 0 {
        AllListed(liveMap.Keys, liveReplicas, candidates);
        RecoveredIdle(cfg.rf, liveMap.Keys, frag.nodeIDs);
        return;
      }
      e := RecoverFrom(k, i, liveReplicas, candidates, needed, liveMap);
    }

    /** The rest of recovery, once a live replica and candidates are found. */
    method RecoverFrom(k: string, i: nat, alive: seq<string>, candidates: seq<string>, needed: nat,
        liveMap: map<string, NodeInfo>) returns (ghost e: Effort)
      requires Valid() && HasSlot(cat, k, i) && forall id :: id in liveMap ==> liveMap[id].id == id
      requires alive == Restrict(ListOf(cat, k, i), liveMap.Keys) && alive != [] && candidates != []
      requires needed == cfg.rf - |alive| && needed > 0
      requires NoDup(candidates) && forall id :: id in candidates <==> id in liveMap && id !in alive
      modifies `cat, `trace
      ensures Valid()
      ensures Recovered(cfg.rf, liveMap.Keys, ListOf(old(cat), k, i), e)
      ensures trace == old(trace) + Sends(Recovery, liveMap, FragmentID(k, i), ListOf(old(cat), k, i), e)
      ensures SlotSet(old(cat), cat, k, i, if e.applied then e.written else ListOf(old(cat), k, i))
    {
      ghost var ids := ListOf(cat, k, i);
      FirstAreMembers(alive);
      e := CopyAndPropose(k, i, alive, candidates, needed, liveMap);
      RecoveredBy(cfg.rf, liveMap.Keys, ids, candidates, e);
      RecoverySent(liveMap, FragmentID(k, i), ids, cfg.rf, e, old(trace), trace);
    }

    /** The first candidates are asked to pull from the first live replica, then the live replicas and the acknowledged
        copies are proposed. */
    method CopyAndPropose(k: string, i: nat, alive: seq<string>, candidates: seq<string>, needed: nat,
        liveMap: map<string, NodeInfo>) returns (ghost e: Effort)
      requires Valid() && HasSlot(cat, k, i) && NoDup(candidates) && candidates != [] && needed > 0
      requires alive != [] && alive[0] in liveMap
      requires forall id :: id in candidates ==> id in liveMap && liveMap[id].id == id
      modifies `cat, `trace
      ensures Valid()
      ensures e.targets == candidates[..Min(needed, |candidates|)] && e.targets != []
      ensures SaneEffort(e) && e.written == alive + e.acked
      ensures trace == old(trace) + Asks(liveMap, FragmentID(k, i), liveMap[alive[0]].addr, e.targets, e.acked)
        + [Proposed(UpdateFragment(FragmentID(k, i), alive + e.acked), e.verdict)]
      ensures SlotSet(old(cat), cat, k, i, if e.applied then e.written else ListOf(old(cat), k, i))
    {
      var sourceAddr := liveMap[alive[0]].addr;
      ghost var targets, acked;
      var liveReplicas;
      liveReplicas, targets, acked := CopyTo(FragmentID(k, i), alive, candidates, needed, liveMap, sourceAddr);
      ghost var verdict := UpdateFragmentNodes(k, i, liveReplicas);
      e := Effort(targets, acked, liveReplicas, verdict);
    }

    /** Tries the first `needed` candidates, one copy each from the source; a failed candidate is not replaced by a
        later one. */
    method CopyTo(fid: string, alive: seq<string>, candidates: seq<string>, needed: int,
        liveMap: map<string, NodeInfo>, sourceAddr: string)
        returns (liveReplicas: seq<string>, ghost targets: seq<string>, ghost acked: seq<string>)
      requires Answered(world, trace)
      requires NoDup(candidates) && needed > 0 && forall id :: id in candidates ==>
        id in liveMap && liveMap[id].id == id
      modifies `trace
      ensures Answered(world, trace) && trace == old(trace) + Asks(liveMap, fid, sourceAddr, targets, acked)
      ensures targets == candidates[..Min(needed, |candidates|)]
      ensures SaneAsks(targets, acked) && liveReplicas == alive + acked
      ensures alive <= liveReplicas && |liveReplicas| <= |alive| + needed
    {
      targets, acked, liveReplicas := [], [], alive;
      var n := 0;
      while n < needed && n < |candidates|
        invariant n <= needed && CopyProgress(alive, candidates, n, liveReplicas, targets, acked)
        invariant Answered(world, trace)
        invariant AsksTraced(liveMap, fid, sourceAddr, targets, acked, old(trace), trace)
      {
        ghost var before, live, asked, sent := acked, liveReplicas, targets, trace;
        CandidateFresh(candidates, n);
        var target := liveMap[candidates[n]];
        var ok;
        ok, targets, acked := Ask(target, fid, sourceAddr, targets, acked);
        if ok {
          liveReplicas := liveReplicas + [target.id];
        }
        RequestSent(liveMap, fid, sourceAddr, asked, before, target.id, ok, old(trace), sent, trace);
        CopyProgressStep(alive, candidates, n, live, before, ok, liveReplicas, targets, acked);
        n := n + 1;
      }
    }

    /** Asks one more node for a copy. */
    method Ask(target: NodeInfo, fid: string, sourceAddr: string, ghost targets: seq<string>, ghost acked: seq<string>)
        returns (ok: bool, ghost targets': seq<string>, ghost acked': seq<string>)
      requires Answered(world, trace) && SaneAsks(targets, acked) && target.id !in targets
      modifies `trace
      ensures Answered(world, trace)
      ensures trace == old(trace) + [Asked(Request("http://" + target.addr, fid, "http://" + sourceAddr), ok)]
      ensures targets' == targets + [target.id] && acked' == (if ok then acked + [target.id] else acked)
      ensures SaneAsks(targets', acked')
    {
      ok := TriggerReplicate(target.addr, fid, sourceAddr);
      AskStep(targets, acked, target.id);
      targets', acked' := targets + [target.id], if ok then acked + [target.id] else acked;
    }

    method FilterLive(nodeIDs: seq<string>, liveMap: map<string, NodeInfo>) returns (out: seq<string>)
      ensures out == Restrict(nodeIDs, liveMap.Keys)
    {
      out := [];
      for j := 0 to |nodeIDs|
        invariant out == Restrict(nodeIDs[..j], liveMap.Keys)
      {
        RestrictStep(nodeIDs, liveMap.Keys, j);
        if nodeIDs[j] in liveMap {
          out := out + [nodeIDs[j]];
        }
      }
      assert nodeIDs[..|nodeIDs|] == nodeIDs;
    }

    /** Live nodes not already holding a replica, in map-iteration order. */
    method Candidates(liveReplicas: seq<string>, liveMap: map<string, NodeInfo>) returns (candidates: seq<string>)
      ensures NoDup(candidates) && forall id :: id in candidates <==> id in liveMap && id !in liveReplicas
    {
      candidates := [];
      var left := liveMap.Keys;
      while left != {}
        invariant left <= liveMap.Keys && NoDup(candidates)
        invariant forall id :: id in candidates <==> id in liveMap && id !in left && id !in liveReplicas
        decreases left
      {
        var id :| id in left;
        left := left - {id};
        if id !in liveReplicas {
          assert forall q :: 0 <= q < |candidates| ==> candidates[q] in candidates;
          candidates := candidates + [id];
        }
      }
    }

    /** The inner loop of recovery; `a` is the catalog the pass started from. */
    method RecoverEntry(ghost a: State, k: string, liveMap: map<string, NodeInfo>) returns (ghost log: Journal)
      requires Valid() && OnlyListsDiffer(a, cat) && k in cat.keys && cat.keys[k] == a.keys[k]
        && liveMap == LiveRecords(a)
      modifies `cat, `trace
      ensures Valid() && OnlyListsDiffer(a, cat) && EntryDone(Recovery, cfg, a, cat, log, k, |a.keys[k].fragments|)
      ensures trace == old(trace) + EntrySends(Recovery, a, log, k, |a.keys[k].fragments|)
      ensures forall k' :: k' in a.keys && k' != k ==> cat.keys[k'] == old(cat).keys[k']
      ensures forall s :: s in log ==> s.0 == k
    {
      log := map[];
      var n := |cat.keys[k].fragments|;
      for i := 0 to n
        invariant Valid() && n == |a.keys[k].fragments| && EntryUnderway(Recovery, cfg, a, old(cat), cat, log, k, i)
        invariant EntryTraced(Recovery, a, log, k, i, old(trace), trace)
      {
        log := RecoverNext(a, old(cat), k, i, liveMap, log, old(trace));
      }
    }

    /** One round of that loop. */
    method RecoverNext(ghost a: State, ghost start: State, k: string, i: nat, liveMap: map<string, NodeInfo>,
        ghost log: Journal, ghost first: seq<Action>) returns (ghost more: Journal)
      requires Valid() && liveMap == LiveRecords(a)
      requires EntryUnderway(Recovery, cfg, a, start, cat, log, k, i) && i < |a.keys[k].fragments|
      requires EntryTraced(Recovery, a, log, k, i, first, trace)
      modifies `cat, `trace
      ensures Valid() && EntryUnderway(Recovery, cfg, a, start, cat, more, k, i + 1)
      ensures EntryTraced(Recovery, a, more, k, i + 1, first, trace)
    {
      ghost var b, sent := cat, trace;
      assert forall id :: id in liveMap ==> liveMap[id].id == id;
      ghost var e := RecoverFragment(k, i, liveMap);
      RecoveryAdvances(cfg, a, start, b, cat, log, k, i, e, liveMap);
      SlotSent(Recovery, a, log, k, i, e, first, sent, trace);
      more := log[(k, i) := e];
    }

    /** One recovery pass over all entries, in map-iteration order, with the node view taken at its start; `order` is
        that order. When nothing fails, nothing is owed at the end. */
    method RecoverUnderReplicated() returns (ghost log: Journal, ghost order: seq<string>)
      requires Valid()
      modifies `cat, `trace
      ensures Valid() && RecoveryPass(cfg, old(cat), cat, log)
      ensures NoDup(order) && ToSet(order) == old(cat).keys.Keys
      ensures trace == old(trace) + PassSends(Recovery, old(cat), log, order)
      ensures GoodLists(cfg.rf, old(cat)) && NothingFailed(trace[|old(trace)|..]) ==> Shortfall(cfg, cat) == 0
    {
      ghost var a := cat;
      log, order := map[], [];
      var liveMap := LiveMap();
      var left := cat.keys.Keys;
      while left != {}
        invariant Valid() && PassUnderway(Recovery, cfg, a, cat, log, left, order)
        invariant PassTraced(Recovery, a, log, order, old(trace), trace)
        decreases left
      {
        ghost var b, sent := cat, trace;
        var k :| k in left;
        ghost var more := RecoverEntry(a, k, liveMap);
        PassAdvances(Recovery, cfg, a, b, cat, log, more, k, left, order);
        EntrySent(Recovery, a, log, more, order, k, old(trace), sent, trace);
        log, order := log + more, order + [k];
        left := left - {k};
      }
      AllDone(Recovery, cfg, a, cat, log, order);
      RecoveryOutcome(cfg, a, cat, log, order, old(trace), trace);
    }

    // ---- Rebalance ------------------------------------------------------------

    /** Rebalancing of the i-th fragment of key k towards the nodes seen at the start of the pass, whatever is live
        now: what it sends out, and the list it leaves. */
    method RebalanceFragment(k: string, i: nat, nodes: seq<Node>) returns (ghost e: Effort, ghost desired: seq<string>)
      requires Valid() && HasSlot(cat, k, i) && UniqueIDs(nodes)
      modifies `cat, `trace
      ensures Valid()
      ensures IsPlacedOn(cfg, FragmentID(k, i), desired, nodes)
      ensures Rebalanced(Live(old(cat)), Sourced(old(cat).nodes, Live(old(cat)), ListOf(old(cat), k, i)), desired,
        ListOf(old(cat), k, i), e)
      ensures trace == old(trace)
        + Sends(Rebalance, LiveRecords(old(cat)), FragmentID(k, i), ListOf(old(cat), k, i), e)
      ensures SlotSet(old(cat), cat, k, i, if e.applied then e.written else ListOf(old(cat), k, i))
    {
      var fid := cat.keys[k].fragments[i].id;
      var placed := Place(cfg.strategy, cfg.hs, fid, nodes, cfg.rf);
      var desiredIDs := IDSeq(placed);
      desired := desiredIDs;
      PlacedDistinct(cfg, fid, desired, nodes);
      e := RebalanceTo(k, i, desiredIDs);
    }

    /** The part of rebalance that copies and writes back, once the desired nodes are known. */
    method RebalanceTo(k: string, i: nat, desiredIDs: seq<string>) returns (ghost e: Effort)
      requires Valid() && HasSlot(cat, k, i) && NoDup(desiredIDs)
      modifies `cat, `trace
      ensures Valid()
      ensures Rebalanced(Live(old(cat)), Sourced(old(cat).nodes, Live(old(cat)), ListOf(old(cat), k, i)), desiredIDs,
        ListOf(old(cat), k, i), e)
      ensures trace == old(trace)
        + Sends(Rebalance, LiveRecords(old(cat)), FragmentID(k, i), ListOf(old(cat), k, i), e)
      ensures SlotSet(old(cat), cat, k, i, if e.applied then e.written else ListOf(old(cat), k, i))
    {
      var frag := cat.keys[k].fragments[i];
      var liveMap := LiveMap();
      SourcedByRecords(cat, frag.nodeIDs);
      ghost var targets, acked;
      var currentSet;
      currentSet, targets, acked := CopyMissing(frag, desiredIDs, liveMap);
      var updated := KeepCurrent(desiredIDs, currentSet);
      ghost var verdict := UpdateFragmentNodes(k, i, updated);
      e := Effort(targets, acked, updated, verdict);
    }

    /** Copies the fragment to every desired node that lacks it and says which nodes hold it now. */
    method CopyMissing(frag: Info, desiredIDs: seq<string>, liveMap: map<string, NodeInfo>)
        returns (currentSet: set<string>, ghost targets: seq<string>, ghost acked: seq<string>)
      requires Answered(world, trace) && NoDup(desiredIDs)
      modifies `trace
      ensures Answered(world, trace)
      ensures trace == old(trace) + Asks(liveMap, frag.id, SourceAddr(liveMap, frag.nodeIDs), targets, acked)
      ensures targets ==
        if Sourced(liveMap, liveMap.Keys, frag.nodeIDs) then Restrict(desiredIDs, liveMap.Keys - ToSet(frag.nodeIDs))
        else []
      ensures SaneAsks(targets, acked)
      ensures currentSet == ToSet(frag.nodeIDs) + ToSet(acked)
      ensures ToSet(frag.nodeIDs) <= currentSet <= ToSet(frag.nodeIDs) + ToSet(desiredIDs) * liveMap.Keys
    {
      currentSet, targets, acked := ToSet(frag.nodeIDs), [], [];
      ghost var source := SourceAddr(liveMap, frag.nodeIDs);
      for j := 0 to |desiredIDs|
        invariant Answered(world, trace) && CopyingMissing(frag, desiredIDs, liveMap, j, currentSet, targets, acked)
        invariant AsksTraced(liveMap, frag.id, source, targets, acked, old(trace), trace)
      {
        var id := desiredIDs[j];
        if id in currentSet {
          MissingHeld(frag, desiredIDs, liveMap, j, currentSet, targets, acked);
          continue;
        }
        ghost var sent := trace;
        ghost var asked;
        var ok;
        ok, asked := CopyOne(frag, id, liveMap);
        MissingAsked(frag, desiredIDs, liveMap, j, currentSet, targets, acked, asked, ok);
        if asked {
          RequestSent(liveMap, frag.id, source, targets, acked, id, ok, old(trace), sent, trace);
          targets := targets + [id];
        }
        if !ok {
          continue;
        }
        acked := acked + [id];
        currentSet := currentSet + {id};
      }
      MissingCopied(frag, desiredIDs, liveMap, currentSet, targets, acked);
    }

    /** One desired node: it is asked to pull from the first listed live node, when that one has an address and the node
        is live. */
    method CopyOne(frag: Info, id: string, liveMap: map<string, NodeInfo>) returns (ok: bool, ghost asked: bool)
      requires Answered(world, trace)
      modifies `trace
      ensures Answered(world, trace)
      ensures asked <==> Sourced(liveMap, liveMap.Keys, frag.nodeIDs) && id in liveMap
      ensures asked ==> trace == old(trace) + [Asked(
        Request("http://" + liveMap[id].addr, frag.id, "http://" + SourceAddr(liveMap, frag.nodeIDs)), ok)]
      ensures !asked ==> !ok && trace == old(trace)
    {
      asked := false;
      var source := FirstLive(frag.nodeIDs, liveMap);
      if source == "" || id !in liveMap {
        return false, false;
      }
      asked := true;
      ok := TriggerReplicate(liveMap[id].addr, frag.id, source);
    }

    /** The address of the first listed node that is live. */
    method FirstLive(nodeIDs: seq<string>, liveMap: map<string, NodeInfo>) returns (source: string)
      ensures source == SourceAddr(liveMap, nodeIDs)
      ensures source != "" <==> Sourced(liveMap, liveMap.Keys, nodeIDs)
      ensures forall j :: 0 <= j < |nodeIDs| && nodeIDs[j] in liveMap && ToSet(nodeIDs[..j]) !! liveMap.Keys ==>
        source == liveMap[nodeIDs[j]].addr
    {
      for j := 0 to |nodeIDs|
        invariant Restrict(nodeIDs[..j], liveMap.Keys) == []
        invariant forall h :: 0 <= h < j ==> nodeIDs[h] !in liveMap
      {
        RestrictStep(nodeIDs, liveMap.Keys, j);
        if nodeIDs[j] in liveMap {
          RestrictPrefix(nodeIDs, liveMap.Keys, j + 1);
          return liveMap[nodeIDs[j]].addr;
        }
      }
      assert nodeIDs[..|nodeIDs|] == nodeIDs;
      source := "";
    }

    method KeepCurrent(desiredIDs: seq<string>, currentSet: set<string>) returns (updated: seq<string>)
      ensures updated == Restrict(desiredIDs, currentSet)
    {
      updated := [];
      for j := 0 to |desiredIDs|
        invariant updated == Restrict(desiredIDs[..j], currentSet)
      {
        RestrictStep(desiredIDs, currentSet, j);
        if desiredIDs[j] in currentSet {
          updated := updated + [desiredIDs[j]];
        }
      }
      assert desiredIDs[..|desiredIDs|] == desiredIDs;
    }

    /** The inner loop of rebalance; `a` is the catalog the pass started from. */
    method RebalanceEntry(ghost a: State, k: string, nodes: seq<Node>) returns (ghost log: Journal)
      requires Valid() && OnlyListsDiffer(a, cat) && k in cat.keys && cat.keys[k] == a.keys[k] && IsView(a, nodes)
      modifies `cat, `trace
      ensures Valid() && OnlyListsDiffer(a, cat) && EntryDone(Rebalance, cfg, a, cat, log, k, |a.keys[k].fragments|)
      ensures trace == old(trace) + EntrySends(Rebalance, a, log, k, |a.keys[k].fragments|)
      ensures forall k' :: k' in a.keys && k' != k ==> cat.keys[k'] == old(cat).keys[k']
      ensures forall s :: s in log ==> s.0 == k
    {
      log := map[];
      var n := |cat.keys[k].fragments|;
      for i := 0 to n
        invariant Valid() && n == |a.keys[k].fragments| && EntryUnderway(Rebalance, cfg, a, old(cat), cat, log, k, i)
        invariant EntryTraced(Rebalance, a, log, k, i, old(trace), trace)
      {
        log := RebalanceNext(a, old(cat), k, i, nodes, log, old(trace));
      }
    }

    /** One round of that loop. */
    method RebalanceNext(ghost a: State, ghost start: State, k: string, i: nat, nodes: seq<Node>, ghost log: Journal,
        ghost first: seq<Action>) returns (ghost more: Journal)
      requires Valid() && IsView(a, nodes)
      requires EntryUnderway(Rebalance, cfg, a, start, cat, log, k, i) && i < |a.keys[k].fragments|
      requires EntryTraced(Rebalance, a, log, k, i, first, trace)
      modifies `cat, `trace
      ensures Valid() && EntryUnderway(Rebalance, cfg, a, start, cat, more, k, i + 1)
      ensures EntryTraced(Rebalance, a, more, k, i + 1, first, trace)
    {
      ghost var b, sent := cat, trace;
      ghost var e, desired;
      e, desired := RebalanceFragment(k, i, nodes);
      PlacedOnView(cfg, a, FragmentID(k, i), desired, nodes);
      RebalanceAdvances(cfg, a, start, b, cat, log, k, i, e, desired);
      SlotSent(Rebalance, a, log, k, i, e, first, sent, trace);
      more := log[(k, i) := e];
    }

    /** One rebalance pass over all entries, in map-iteration order; `order` is that order. When every fragment has a
        source and nothing fails, every fragment ends on its placement. */
    method RebalanceAll() returns (ghost log: Journal, ghost order: seq<string>)
      requires Valid()
      modifies `cat, `trace
      ensures Valid() && RebalancePass(cfg, old(cat), cat, log)
      ensures NoDup(order) && ToSet(order) == if Live(old(cat)) == {} then {} else old(cat).keys.Keys
      ensures trace == old(trace) + PassSends(Rebalance, old(cat), log, order)
      ensures AllSourced(old(cat)) && NothingFailed(trace[|old(trace)|..]) ==> OnPlacement(cfg, cat)
    {
      ghost var a := cat;
      log, order := map[], [];
      var nodes := LiveNodes();
      ViewSize(cat, nodes);
      if |nodes| == 0 {
        RebalanceOutcome(cfg, a, cat, log, order, old(trace), trace);
        return;
      }
      var left := cat.keys.Keys;
      while left != {}
        invariant Valid() && PassUnderway(Rebalance, cfg, a, cat, log, left, order)
        invariant PassTraced(Rebalance, a, log, order, old(trace), trace)
        decreases left
      {
        ghost var b, sent := cat, trace;
        var k :| k in left;
        ghost var more := RebalanceEntry(a, k, nodes);
        PassAdvances(Rebalance, cfg, a, b, cat, log, more, k, left, order);
        EntrySent(Rebalance, a, log, more, order, k, old(trace), sent, trace);
        log, order := log + more, order + [k];
        left := left - {k};
      }
      AllDone(Rebalance, cfg, a, cat, log, order);
      RebalanceOutcome(cfg, a, cat, log, order, old(trace), trace);
    }
  }

  /** What has been sent out since `start`: everything for the first n fragments of an entry. */
  ghost predicate EntryTraced(p: Pass, a: State, log: Journal, k: string, n: nat, start: seq<Action>,
      now: seq<Action>) {
    now == start + EntrySends(p, a, log, k, n)
  }

  /** What has been sent out since `start`: everything for the listed entries. */
  ghost predicate PassTraced(p: Pass, a: State, log: Journal, order: seq<string>, start: seq<Action>,
      now: seq<Action>) {
    now == start + PassSends(p, a, log, order)
  }

  /** The desired nodes a pass will ask for a copy. */
  function Wanted(frag: Info, view: map<string, NodeInfo>): set<string> {
    if Sourced(view, view.Keys, frag.nodeIDs) then view.Keys - ToSet(frag.nodeIDs) else {}
  }

  /** The copying loop of rebalance after the first j desired nodes. */
  ghost predicate CopyingMissing(frag: Info, desired: seq<string>, view: map<string, NodeInfo>, j: nat,
      currentSet: set<string>, targets: seq<string>, acked: seq<string>) {
    && j <= |desired| && targets == Restrict(desired[..j], Wanted(frag, view)) && SaneAsks(targets, acked)
    && forall id :: id in currentSet <==> id in frag.nodeIDs || id in acked
  }

  lemma MissingHeld(frag: Info, desired: seq<string>, view: map<string, NodeInfo>, j: nat, currentSet: set<string>,
      targets: seq<string>, acked: seq<string>)
    requires CopyingMissing(frag, desired, view, j, currentSet, targets, acked) && NoDup(desired)
    requires j < |desired| && desired[j] in currentSet
    ensures CopyingMissing(frag, desired, view, j + 1, currentSet, targets, acked)
  {
    RestrictStep(desired, Wanted(frag, view), j);
    TakeStep(desired, j);
  }

  lemma MissingAsked(frag: Info, desired: seq<string>, view: map<string, NodeInfo>, j: nat, currentSet: set<string>,
      targets: seq<string>, acked: seq<string>, asked: bool, ok: bool)
    requires CopyingMissing(frag, desired, view, j, currentSet, targets, acked) && NoDup(desired)
    requires j < |desired| && desired[j] !in currentSet && (ok ==> asked)
    requires asked <==> Sourced(view, view.Keys, frag.nodeIDs) && desired[j] in view
    ensures desired[j] !in targets
    ensures var id := desired[j];
      CopyingMissing(frag, desired, view, j + 1, if ok then currentSet + {id} else currentSet,
        if asked then targets + [id] else targets, if ok then acked + [id] else acked)
  {
    RestrictStep(desired, Wanted(frag, view), j);
    TakeStep(desired, j);
    AskStep(targets, acked, desired[j]);
  }

  lemma MissingCopied(frag: Info, desired: seq<string>, view: map<string, NodeInfo>, currentSet: set<string>,
      targets: seq<string>, acked: seq<string>)
    requires CopyingMissing(frag, desired, view, |desired|, currentSet, targets, acked)
    ensures targets == if Sourced(view, view.Keys, frag.nodeIDs) then Restrict(desired, view.Keys - ToSet(frag.nodeIDs))
      else []
    ensures currentSet == ToSet(frag.nodeIDs) + ToSet(acked)
    ensures ToSet(frag.nodeIDs) <= currentSet <= ToSet(frag.nodeIDs) + ToSet(desired) * view.Keys
  {
    assert desired[..|desired|] == desired;
    RestrictNone(desired);
  }

  /** What has been sent out since `start`: the requests to these targets. */
  predicate AsksTraced(view: map<string, NodeInfo>, fid: string, source: string, targets: seq<string>,
      acked: seq<string>, start: seq<Action>, now: seq<Action>) {
    now == start + Asks(view, fid, source, targets, acked)
  }

  lemma RequestSent(view: map<string, NodeInfo>, fid: string, source: string, targets: seq<string>, acked: seq<string>,
      id: string, ok: bool, start: seq<Action>, before: seq<Action>, after: seq<Action>)
    requires SaneAsks(targets, acked) && id !in targets
    requires AsksTraced(view, fid, source, targets, acked, start, before)
    requires after == before + [Asked(Request("http://" + AddrOf(view, id), fid, "http://" + source), ok)]
    ensures AsksTraced(view, fid, source, targets + [id], if ok then acked + [id] else acked, start, after)
  {
    AsksStep(view, fid, source, targets, acked, id, ok);
  }

  lemma RecoverySent(view: map<string, NodeInfo>, fid: string, ids: seq<string>, rf: nat, e: Effort,
      start: seq<Action>, after: seq<Action>)
    requires Recovered(rf, view.Keys, ids, e) && e.targets != []
    requires var alive := Restrict(ids, view.Keys);
      && alive != [] && alive[0] in view
      && after == start + Asks(view, fid, view[alive[0]].addr, e.targets, e.acked)
         + [Proposed(UpdateFragment(fid, alive + e.acked), e.verdict)]
    ensures after == start + Sends(Recovery, view, fid, ids, e)
  {
    var asks := Asks(view, fid, SourceAddr(view, ids), e.targets, e.acked);
    var proposal := [Proposed(UpdateFragment(fid, e.written), e.verdict)];
    assert (start + asks) + proposal == start + (asks + proposal);
  }

  lemma SlotSent(p: Pass, a: State, log: Journal, k: string, i: nat, e: Effort, start: seq<Action>,
      before: seq<Action>, after: seq<Action>)
    requires HasSlot(a, k, i) && EntryTraced(p, a, log, k, i, start, before)
    requires after == before + Sends(p, LiveRecords(a), FragmentID(k, i), ListOf(a, k, i), e)
    ensures EntryTraced(p, a, log[(k, i) := e], k, i + 1, start, after)
  {
    EntrySendsStep(p, a, log, k, i, e);
  }

  lemma EntrySent(p: Pass, a: State, log: Journal, more: Journal, order: seq<string>, k: string, start: seq<Action>,
      before: seq<Action>, after: seq<Action>)
    requires k in a.keys && k !in order
    requires (forall s :: s in log ==> s.0 != k) && (forall s :: s in more ==> s.0 == k)
    requires PassTraced(p, a, log, order, start, before)
    requires after == before + EntrySends(p, a, more, k, |a.keys[k].fragments|)
    ensures PassTraced(p, a, log + more, order + [k], start, after)
  {
    PassSendsStep(p, a, log, more, order, k);
  }

  lemma NoDupStep(order: seq<string>, k: string)
    requires NoDup(order) && k !in order
    ensures NoDup(order + [k])
  {
    assert forall i :: 0 <= i < |order| ==> order[i] in order;
  }

  lemma SourcedByRecords(cat: State, ids: seq<string>)
    ensures LiveRecords(cat).Keys == Live(cat)
    ensures Sourced(LiveRecords(cat), LiveRecords(cat).Keys, ids) == Sourced(cat.nodes, Live(cat), ids)
  {
    assert LiveRecords(cat).Keys == Live(cat);
    FirstAreMembers(Restrict(ids, Live(cat)));
  }

  lemma RecoveryOutcome(cfg: Config, a: State, b: State, log: Journal, order: seq<string>, before: seq<Action>,
      after: seq<Action>)
    requires RecoveryPass(cfg, a, b, log) && ToSet(order) == a.keys.Keys
    requires after == before + PassSends(Recovery, a, log, order)
    ensures GoodLists(cfg.rf, a) && NothingFailed(after[|before|..]) ==> Shortfall(cfg, b) == 0
  {
    assert after[|before|..] == PassSends(Recovery, a, log, order);
    if GoodLists(cfg.rf, a) && NothingFailed(after[|before|..]) {
      RecoverySucceeds(cfg, a, b, log, order);
    }
  }

  lemma RebalanceOutcome(cfg: Config, a: State, b: State, log: Journal, order: seq<string>, before: seq<Action>,
      after: seq<Action>)
    requires RebalancePass(cfg, a, b, log) && WellFormed(a)
    requires ToSet(order) == if Live(a) == {} then {} else a.keys.Keys
    requires after == before + PassSends(Rebalance, a, log, order)
    ensures AllSourced(a) && NothingFailed(after[|before|..]) ==> OnPlacement(cfg, b)
  {
    assert after[|before|..] == PassSends(Rebalance, a, log, order);
    if AllSourced(a) && NothingFailed(after[|before|..]) {
      RebalanceSucceeds(cfg, a, b, log, order);
    }
  }

  lemma SlotRebalanced(cfg: Config, a: State, b: State, c: State, log: Journal, k: string, i: nat,
      desired: seq<string>)
    requires HasSlot(a, k, i) && HasSlot(b, k, i) && HasSlot(c, k, i) && a.nodes == b.nodes
      && ListOf(b, k, i) == ListOf(a, k, i)
    requires IsPlacement(cfg, a, FragmentID(k, i), desired) && (k, i) in log
    requires Rebalanced(Live(b), Sourced(b.nodes, Live(b), ListOf(b, k, i)), desired, ListOf(b, k, i), log[(k, i)])
    requires ListOf(c, k, i) == if log[(k, i)].applied then log[(k, i)].written else ListOf(b, k, i)
    ensures RebalancedSlot(cfg, a, c, log, k, i)
  {
    assert Live(a) == Live(b);
  }

  lemma SlotRecovered(cfg: Config, a: State, b: State, c: State, log: Journal, k: string, i: nat)
    requires HasSlot(a, k, i) && HasSlot(b, k, i) && HasSlot(c, k, i) && a.nodes == b.nodes
      && ListOf(b, k, i) == ListOf(a, k, i)
    requires (k, i) in log && Recovered(cfg.rf, Live(b), ListOf(b, k, i), log[(k, i)])
    requires ListOf(c, k, i) == if log[(k, i)].applied then log[(k, i)].written else ListOf(b, k, i)
    ensures RecoveredSlot(cfg, a, c, log, k, i)
  {
    assert Live(a) == Live(b);
  }

  lemma RecoveredIdle(rf: nat, live: set<string>, ids: seq<string>)
    requires var alive := Restrict(ids, live); |alive| >= rf || alive == [] || live <= ToSet(alive)
    ensures Recovered(rf, live, ids, Effort([], [], ids, Accepted))
  {
  }

  lemma AllListed(live: set<string>, alive: seq<string>, candidates: seq<string>)
    requires forall id :: id in candidates <==> id in live && id !in alive
    ensures candidates == [] ==> live <= ToSet(alive)
  {
    forall id | id in live && id !in alive ensures candidates != [] {
      assert id in candidates;
    }
  }

  /** The copying loop after n candidates. */
  ghost predicate CopyProgress(alive: seq<string>, candidates: seq<string>, n: nat, liveReplicas: seq<string>,
      targets: seq<string>, acked: seq<string>) {
    && n <= |candidates| && targets == candidates[..n] && liveReplicas == alive + acked
    && |acked| <= n && SaneAsks(targets, acked)
  }

  lemma CandidateFresh(candidates: seq<string>, n: nat)
    requires NoDup(candidates) && n < |candidates|
    ensures candidates[n] in candidates && candidates[n] !in candidates[..n]
    ensures candidates[..n + 1] == candidates[..n] + [candidates[n]]
  {
    TakeStep(candidates, n);
  }

  lemma CopyProgressStep(alive: seq<string>, candidates: seq<string>, n: nat, live: seq<string>, before: seq<string>,
      ok: bool, liveReplicas: seq<string>, targets: seq<string>, acked: seq<string>)
    requires n < |candidates| && live == alive + before && |before| <= n
    requires targets == candidates[..n] + [candidates[n]] && SaneAsks(targets, acked)
    requires acked == (if ok then before + [candidates[n]] else before)
    requires liveReplicas == (if ok then live + [candidates[n]] else live)
    ensures CopyProgress(alive, candidates, n + 1, liveReplicas, targets, acked)
  {
    TakeStep(candidates, n);
  }

  lemma RecoveredBy(rf: nat, live: set<string>, ids: seq<string>, candidates: seq<string>, e: Effort)
    requires var alive := Restrict(ids, live);
      && |alive| < rf && alive != [] && candidates != []
      && NoDup(candidates) && (forall id :: id in candidates <==> id in live && id !in alive)
      && e.targets == candidates[..Min(rf - |alive|, |candidates|)]
    requires SaneEffort(e) && e.written == Restrict(ids, live) + e.acked
    ensures Recovered(rf, live, ids, e)
  {
    TargetsCounted(rf, live, ids, Restrict(ids, live), candidates, e.targets);
  }

  lemma TargetsCounted(rf: nat, live: set<string>, ids: seq<string>, alive: seq<string>, candidates: seq<string>,
      targets: seq<string>)
    requires alive == Restrict(ids, live) && |alive| < rf && alive != [] && candidates != []
    requires NoDup(candidates) && forall id :: id in candidates <==> id in live && id !in alive
    requires targets == candidates[..Min(rf - |alive|, |candidates|)]
    ensures NoDup(targets) && (forall t :: t in targets ==> t in live && t !in alive)
    ensures !(live <= ToSet(alive)) && |targets| == Min(rf - |alive|, |live - ToSet(alive)|)
  {
    NoDupCardinality(candidates);
    assert ToSet(candidates) == live - ToSet(alive);
    assert candidates[0] in candidates;
    forall t | t in targets ensures t in candidates {
    }
  }
}
