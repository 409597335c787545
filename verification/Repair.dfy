/** What one recovery or rebalance pass may do to the catalog, and what follows from it. */
module Repair {
  import opened Collections
  import opened Names
  import opened Ranking
  import opened Placement
  import opened PlacementLaws
  import opened Catalog

  // ---- The node view ----------------------------------------------------------

  function Live(cat: State): set<string> {
    set id | id in cat.nodes && cat.nodes[id].status == Up
  }

  /** ToPlacementNode. */
  function PlacementNode(n: NodeInfo): Node {
    Node(n.id, n.FreeBytes(), n.totalBytes, 0.0)
  }

  /** The live nodes in some order, as the placers see them. */
  ghost predicate IsView(cat: State, nodes: seq<Node>) {
    && UniqueIDs(nodes)
    && (forall nd :: nd in nodes ==> nd.id in Live(cat) && nd == PlacementNode(cat.nodes[nd.id]))
    && (forall id :: id in Live(cat) ==> PlacementNode(cat.nodes[id]) in nodes)
  }

  function IDSeq(nodes: seq<Node>): (ids: seq<string>)
    ensures |ids| == |nodes|
    ensures forall i :: 0 <= i < |ids| ==> ids[i] == nodes[i].id
  {
    seq(|nodes|, i requires 0 <= i < |nodes| => nodes[i].id)
  }

  /** The two background passes. */
  datatype Pass = Recovery | Rebalance

  datatype Config = Config(rf: nat, strategy: Strategy, hs: Hashing)

  /** `ids` is what the configured strategy answers for the fragment on the live nodes of the catalog. */
  ghost predicate IsPlacement(cfg: Config, cat: State, fid: string, ids: seq<string>) {
    exists nodes, placed :: IsPlacementOn(cfg, cat, fid, ids, nodes, placed)
  }

  ghost predicate IsPlacementOn(cfg: Config, cat: State, fid: string, ids: seq<string>, nodes: seq<Node>,
      placed: seq<Node>) {
    IsView(cat, nodes) && IsTopN(placed, nodes, cfg.rf, Rank(cfg.strategy, cfg.hs, fid, nodes)) && ids == IDSeq(placed)
  }

  /** The strategy's answer on a given node list. */
  ghost predicate IsPlacedOn(cfg: Config, fid: string, ids: seq<string>, nodes: seq<Node>) {
    exists placed :: IsTopN(placed, nodes, cfg.rf, Rank(cfg.strategy, cfg.hs, fid, nodes)) && ids == IDSeq(placed)
  }

  lemma PlacedOnView(cfg: Config, cat: State, fid: string, ids: seq<string>, nodes: seq<Node>)
    requires IsPlacedOn(cfg, fid, ids, nodes) && IsView(cat, nodes)
    ensures IsPlacement(cfg, cat, fid, ids)
  {
    var placed :| IsTopN(placed, nodes, cfg.rf, Rank(cfg.strategy, cfg.hs, fid, nodes)) && ids == IDSeq(placed);
    assert IsPlacementOn(cfg, cat, fid, ids, nodes, placed);
  }

  lemma PlacedDistinct(cfg: Config, fid: string, ids: seq<string>, nodes: seq<Node>)
    requires IsPlacedOn(cfg, fid, ids, nodes) && UniqueIDs(nodes)
    ensures NoDup(ids) && |ids| == Min(cfg.rf, |nodes|) && forall id :: id in ids ==> id in IDs(nodes)
  {
    var placed :| IsTopN(placed, nodes, cfg.rf, Rank(cfg.strategy, cfg.hs, fid, nodes)) && ids == IDSeq(placed);
    forall i | 0 <= i < |ids| ensures ids[i] in IDs(nodes) {
      assert placed[i] in nodes;
    }
    forall i, j | 0 <= i < j < |ids| ensures ids[i] != ids[j] {
      assert placed[i] in nodes && placed[j] in nodes && placed[i] != placed[j];
      if ids[i] == ids[j] {
        SameID(nodes, placed[i], placed[j]);
      }
    }
  }

  lemma ViewSize(cat: State, nodes: seq<Node>)
    requires IsView(cat, nodes) && WellFormed(cat)
    ensures |nodes| == |Live(cat)|
  {
    NoDupCardinality(IDSeq(nodes));
    forall id ensures id in ToSet(IDSeq(nodes)) <==> id in Live(cat) {
      if id in Live(cat) {
        var k :| 0 <= k < |nodes| && nodes[k] == PlacementNode(cat.nodes[id]);
        assert IDSeq(nodes)[k] == id;
      }
    }
    assert ToSet(IDSeq(nodes)) == Live(cat);
  }

  /** A placement lists min(RF, live) different live nodes; one at least, when there are any. */
  lemma PlacementIsGood(cfg: Config, cat: State, fid: string, ids: seq<string>)
    requires IsPlacement(cfg, cat, fid, ids) && WellFormed(cat)
    ensures NoDup(ids) && |ids| == Min(cfg.rf, |Live(cat)|) && forall id :: id in ids ==> id in Live(cat)
    ensures forall id :: id in ids ==> id in cat.nodes && cat.nodes[id].status == Up
    ensures cfg.rf > 0 && Live(cat) != {} ==> ids != []
  {
    assert Live(cat) != {} ==> |Live(cat)| > 0;
    var nodes, placed :| IsPlacementOn(cfg, cat, fid, ids, nodes, placed);
    ViewSize(cat, nodes);
    PlacedDistinct(cfg, fid, ids, nodes);
  }

  /** No tie reaches the RF nodes a fragment is placed on. */
  ghost predicate NoTies(cfg: Config, cat: State, fid: string) {
    forall nodes :: IsView(cat, nodes) ==> Determined(nodes, cfg.rf, Rank(cfg.strategy, cfg.hs, fid, nodes))
  }

  lemma ViewsAgree(cat: State, nodes1: seq<Node>, nodes2: seq<Node>)
    requires IsView(cat, nodes1) && IsView(cat, nodes2)
    ensures ToSet(nodes1) == ToSet(nodes2)
  {
    forall nd ensures nd in nodes1 <==> nd in nodes2 {
    }
  }

  /** Map iteration order does not show: without ties there is one placement per live view. */
  lemma PlacementUnique(cfg: Config, cat: State, cat': State, fid: string, ids: seq<string>, ids': seq<string>)
    requires cat.nodes == cat'.nodes && NoTies(cfg, cat, fid)
    requires IsPlacement(cfg, cat, fid, ids) && IsPlacement(cfg, cat', fid, ids')
    ensures ids == ids'
  {
    var nodes, placed :| IsPlacementOn(cfg, cat, fid, ids, nodes, placed);
    var nodes', placed' :| IsPlacementOn(cfg, cat', fid, ids', nodes', placed');
    assert Live(cat) == Live(cat') && IsView(cat, nodes');
    ViewsAgree(cat, nodes, nodes');
    OrderIndependent(cfg.strategy, cfg.hs, fid, nodes, nodes', cfg.rf, placed, placed');
  }

  /** Under the weighted strategy a live node is on no placement when RF other live nodes each have more than twice its
      free space. */
  lemma DominatedNeverPlaced(cfg: Config, cat: State, fid: string, ids: seq<string>, b: string,
      dominators: set<string>)
    requires cfg.strategy == Weighted && IsPlacement(cfg, cat, fid, ids) && WellFormed(cat)
    requires b in cat.nodes && cat.nodes[b].status == Up && |dominators| >= cfg.rf
    requires forall a :: a in dominators ==>
      && a in cat.nodes && cat.nodes[a].status == Up
      && cat.nodes[a].totalBytes - cat.nodes[a].usedBytes > 0
      && cat.nodes[a].totalBytes - cat.nodes[a].usedBytes > 2 * (cat.nodes[b].totalBytes - cat.nodes[b].usedBytes)
    ensures b !in ids
  {
    var nodes, placed :| IsPlacementOn(cfg, cat, fid, ids, nodes, placed);
    var node := PlacementNode(cat.nodes[b]);
    var above := set a | a in dominators :: PlacementNode(cat.nodes[a]);
    RecordsApart(cat, dominators, above);
    forall x | x in above ensures x in nodes && x.freeBytes > 2 * node.freeBytes {
    }
    DominatedNeverChosen(cfg.hs, fid, nodes, cfg.rf, placed, node, above);
    forall i | 0 <= i < |ids| ensures ids[i] != b {
      assert placed[i] in nodes;
    }
  }

  lemma {:induction false} RecordsApart(cat: State, ids: set<string>, records: set<Node>)
    requires WellFormed(cat) && ids <= cat.nodes.Keys && records == set a | a in ids :: PlacementNode(cat.nodes[a])
    ensures |records| == |ids|
  {
    if ids == {} {
    } else {
      var a :| a in ids;
      var rest := set b | b in ids - {a} :: PlacementNode(cat.nodes[b]);
      RecordsApart(cat, ids - {a}, rest);
      assert records == rest + {PlacementNode(cat.nodes[a])};
    }
  }

  // ---- One fragment -----------------------------------------------------------

  /** How a proposal ends: accepted, refused, or committed although its proposer was told of an error. */
  datatype Verdict = Accepted | Refused | Unsure

  /** A replicate request: the server asked, the fragment, and the server it is to pull the fragment from. */
  datatype Request = Request(to: string, fid: string, from: string)

  /** What the metadata store sends out, and how it went. */
  datatype Action = Asked(request: Request, granted: bool) | Proposed(command: Command, verdict: Verdict)

  /** What a pass did for one fragment: the nodes it asked to copy, those that acknowledged, the list it wrote back, and
      how the proposal of that list ended; a fragment that is left alone counts as written back as it is. */
  datatype Effort = Effort(targets: seq<string>, acked: seq<string>, written: seq<string>, verdict: Verdict) {
    /** Whether the list reached the catalog. */
    const applied: bool := verdict != Refused
  }

  function AddrOf(view: map<string, NodeInfo>, id: string): string {
    if id in view then view[id].addr else ""
  }

  /** Where copies are pulled from: the address of the first listed live node. */
  function SourceAddr(view: map<string, NodeInfo>, ids: seq<string>): string {
    var alive := Restrict(ids, view.Keys);
    if alive == [] then "" else AddrOf(view, alive[0])
  }

  /** One request per target, in order, each naming the source, and whether the target acknowledged. */
  function Asks(view: map<string, NodeInfo>, fid: string, source: string, targets: seq<string>, acked: seq<string>):
      (r: seq<Action>)
    ensures |r| == |targets|
    ensures forall j :: 0 <= j < |r| ==>
      r[j] == Asked(Request("http://" + AddrOf(view, targets[j]), fid, "http://" + source), targets[j] in acked)
  {
    seq(|targets|, j requires 0 <= j < |targets| =>
      Asked(Request("http://" + AddrOf(view, targets[j]), fid, "http://" + source), targets[j] in acked))
  }

  lemma AsksStep(view: map<string, NodeInfo>, fid: string, source: string, targets: seq<string>, acked: seq<string>,
      id: string, ok: bool)
    requires SaneAsks(targets, acked) && id !in targets
    ensures Asks(view, fid, source, targets + [id], if ok then acked + [id] else acked)
      == Asks(view, fid, source, targets, acked)
      + [Asked(Request("http://" + AddrOf(view, id), fid, "http://" + source), ok)]
  {
    assert forall j :: 0 <= j < |targets| ==> targets[j] in targets;
  }

  /** All that a pass sends out for one fragment: the requests, then the proposal of the new list. Recovery is silent
      about a fragment it cannot help. */
  function Sends(p: Pass, view: map<string, NodeInfo>, fid: string, ids: seq<string>, e: Effort): seq<Action> {
    if p == Recovery && e.targets == [] then []
    else
      Asks(view, fid, SourceAddr(view, ids), e.targets, e.acked)
      + [Proposed(UpdateFragment(fid, e.written), e.verdict)]
  }

  ghost predicate SaneEffort(e: Effort) {
    SaneAsks(e.targets, e.acked)
  }

  /** No node is asked twice, and the acknowledgements are some of the requests, in their order. */
  ghost predicate SaneAsks(targets: seq<string>, acked: seq<string>) {
    NoDup(targets) && NoDup(acked) && InOrder(acked, targets) && forall id :: id in acked ==> id in targets
  }

  /** One more node is asked, and acknowledges or not. */
  lemma AskStep(targets: seq<string>, acked: seq<string>, id: string)
    requires SaneAsks(targets, acked) && id !in targets
    ensures SaneAsks(targets + [id], acked) && SaneAsks(targets + [id], acked + [id])
  {
    InOrderStep(acked, targets, id);
    assert forall i :: 0 <= i < |targets| ==> targets[i] in targets;
    assert forall i :: 0 <= i < |acked| ==> acked[i] in acked;
  }

  /** Recovery of one fragment: `ids` is its replica list before. */
  ghost predicate Recovered(rf: nat, live: set<string>, ids: seq<string>, e: Effort) {
    var alive := Restrict(ids, live);
    && SaneEffort(e)
    && (forall t :: t in e.targets ==> t in live && t !in alive)
    && if |alive| >= rf || alive == [] || live <= ToSet(alive)
       then e.targets == [] && e.written == ids && e.verdict == Accepted
       else |e.targets| == Min(rf - |alive|, |live - ToSet(alive)|) && e.written == alive + e.acked
  }

  /** The replicas recovery still owes a fragment: up to RF or all live nodes, if a live source remains. */
  function Owed(rf: nat, live: set<string>, ids: seq<string>): nat {
    var alive := Restrict(ids, live);
    if alive == [] || |alive| >= Min(rf, |live|) then 0 else Min(rf, |live|) - |alive|
  }

  lemma AliveAmongLive(live: set<string>, ids: seq<string>)
    requires NoDup(ids)
    ensures var alive := Restrict(ids, live);
      && NoDup(alive) && ToSet(alive) <= live && |alive| <= |live|
      && |live - ToSet(alive)| == |live| - |alive|
  {
    var alive := Restrict(ids, live);
    RestrictNoDup(ids, live);
    NoDupCardinality(alive);
    SubsetSize(ToSet(alive), live);
    assert ToSet(alive) * live == ToSet(alive);
  }

  lemma RecoveredAsks(rf: nat, live: set<string>, ids: seq<string>, e: Effort)
    requires NoDup(ids) && Recovered(rf, live, ids, e)
    ensures |e.targets| == Owed(rf, live, ids) && |e.acked| <= |e.targets|
  {
    var alive := Restrict(ids, live);
    AliveAmongLive(live, ids);
    NoDupCardinality(e.acked);
    NoDupCardinality(e.targets);
    SubsetSize(ToSet(e.acked), ToSet(e.targets));
    if live <= ToSet(alive) {
      assert live - ToSet(alive) == {};
    } else if |alive| >= |live| {
      SubsetSize(ToSet(alive), live);
    }
  }

  /** Recovery asks for exactly what is owed, and what is acknowledged is no longer owed. */
  lemma RecoveredPays(rf: nat, live: set<string>, ids: seq<string>, e: Effort)
    requires NoDup(ids) && Recovered(rf, live, ids, e)
    ensures |e.targets| == Owed(rf, live, ids)
    ensures Owed(rf, live, e.written) == Owed(rf, live, ids) - |e.acked|
  {
    RecoveredAsks(rf, live, ids, e);
    if e.written != ids {
      AliveAmongLive(live, ids);
      RestrictAll(e.written, live);
    }
  }

  /** Recovery keeps the list well formed, drops no live replica, and leaves a fragment with none live alone. */
  lemma RecoveredKeeps(rf: nat, live: set<string>, ids: seq<string>, e: Effort)
    requires NoDup(ids) && |ids| <= rf && Recovered(rf, live, ids, e)
    ensures NoDup(e.written) && |e.written| <= rf
    ensures forall id :: id in ids && id in live ==> id in e.written
    ensures forall id :: id in e.written ==> id in ids || id in e.acked
    ensures (forall id :: id in ids ==> id !in live) ==> e.written == ids
  {
    var alive := Restrict(ids, live);
    RestrictNoDup(ids, live);
    NoDupCardinality(e.acked);
    NoDupCardinality(e.targets);
    SubsetSize(ToSet(e.acked), ToSet(e.targets));
    assert forall i :: 0 <= i < |alive| ==> alive[i] in alive;
    if forall id :: id in ids ==> id !in live {
      NoMembers(alive);
    }
  }

  /** Whether rebalance finds an address to copy from: that of the first listed live node. */
  predicate Sourced(nodes: map<string, NodeInfo>, live: set<string>, ids: seq<string>)
    requires live <= nodes.Keys
  {
    var alive := Restrict(ids, live);
    alive != [] && (FirstAreMembers(alive); nodes[alive[0]].addr != "")
  }

  /** Rebalancing of one fragment towards its placement `desired`; `sourced` says that a copy source was found. */
  ghost predicate Rebalanced(live: set<string>, sourced: bool, desired: seq<string>, ids: seq<string>, e: Effort) {
    && SaneEffort(e)
    && e.targets == (if sourced then Restrict(desired, live - ToSet(ids)) else [])
    && e.written == Restrict(desired, ToSet(ids) + ToSet(e.acked))
  }

  lemma RebalancedKeeps(live: set<string>, sourced: bool, desired: seq<string>, ids: seq<string>, e: Effort)
    requires NoDup(desired) && Rebalanced(live, sourced, desired, ids, e)
    ensures NoDup(e.written) && |e.written| <= |desired|
    ensures forall id :: id in e.written ==> id in ids || id in e.acked
    ensures forall id :: id in ids && id in desired ==> id in e.written
  {
    RestrictNoDup(desired, ToSet(ids) + ToSet(e.acked));
  }

  /** A list is emptied exactly when nothing it held is still wanted and no copy was acknowledged. */
  lemma RebalanceEmptiesIff(live: set<string>, sourced: bool, desired: seq<string>, ids: seq<string>, e: Effort)
    requires Rebalanced(live, sourced, desired, ids, e)
    ensures e.written == [] <==> e.acked == [] && forall id :: id in desired ==> id !in ids
  {
    FirstAreMembers(e.acked);
    FirstAreMembers(e.written);
  }

  /** The effort that asks as usual and is never acknowledged. */
  function FruitlessEffort(live: set<string>, sourced: bool, desired: seq<string>, ids: seq<string>): Effort {
    Effort(if sourced then Restrict(desired, live - ToSet(ids)) else [], [], Restrict(desired, ToSet(ids)), Accepted)
  }

  lemma FruitlessIsRebalance(live: set<string>, sourced: bool, desired: seq<string>, ids: seq<string>)
    requires NoDup(desired)
    ensures Rebalanced(live, sourced, desired, ids, FruitlessEffort(live, sourced, desired, ids))
  {
    var e := FruitlessEffort(live, sourced, desired, ids);
    RestrictNoDup(desired, live - ToSet(ids));
    RestrictNone(e.targets);
    assert ToSet(e.acked) == {} && ToSet(ids) + {} == ToSet(ids);
  }

  /** What can be told before the pass: the list is sure not to be emptied exactly when some listed node is still
      wanted. */
  lemma RebalanceSafeIff(live: set<string>, sourced: bool, desired: seq<string>, ids: seq<string>)
    requires NoDup(desired)
    ensures (forall e :: Rebalanced(live, sourced, desired, ids, e) ==> e.written != []) <==>
      exists id :: id in desired && id in ids
  {
    if exists id :: id in desired && id in ids {
      forall e | Rebalanced(live, sourced, desired, ids, e) ensures e.written != [] {
        RebalanceEmptiesIff(live, sourced, desired, ids, e);
      }
    } else {
      FruitlessIsRebalance(live, sourced, desired, ids);
      NoMembers(Restrict(desired, ToSet(ids)));
    }
  }

  /** With a wanted live node missing from the list, rebalance asks for copies exactly when the first listed live node
      has an address; the addresses of the others do not help. */
  lemma RebalanceAsksIff(nodes: map<string, NodeInfo>, live: set<string>, desired: seq<string>, ids: seq<string>,
      e: Effort)
    requires live <= nodes.Keys && Rebalanced(live, Sourced(nodes, live, ids), desired, ids, e)
    requires exists id :: id in desired && id in live && id !in ids
    requires exists id :: id in ids && id in live && nodes[id].addr != ""
    ensures var alive := Restrict(ids, live);
      alive != [] && alive[0] in nodes && (e.targets != [] <==> nodes[alive[0]].addr != "")
  {
    var missing :| missing in desired && missing in live && missing !in ids;
    var listed :| listed in ids && listed in live && nodes[listed].addr != "";
    var alive := Restrict(ids, live);
    assert listed in alive;
    FirstAreMembers(alive);
    assert missing in Restrict(desired, live - ToSet(ids));
  }

  /** Three live nodes, the first listed without an address: the wanted node gets no copy, and the list is emptied
      although another listed node is live and has an address. */
  lemma UnaddressedSourceEmpties() returns (nodes: map<string, NodeInfo>, ids: seq<string>, desired: seq<string>)
    ensures nodes.Keys == {"a", "b", "c"} && forall id :: id in nodes ==> nodes[id].id == id && nodes[id].status == Up
    ensures "b" in ids && nodes["b"].addr != "" && desired == ["c"] && NoDup(ids) && NoDup(desired)
    ensures var sourced := Sourced(nodes, nodes.Keys, ids);
      && (forall e :: Rebalanced(nodes.Keys, sourced, desired, ids, e) ==> e.targets == [] && e.written == [])
      && (exists e :: Rebalanced(nodes.Keys, sourced, desired, ids, e))
  {
    nodes := map["a" := NodeInfo("a", "", 0, 0, 0, Up), "b" := NodeInfo("b", "b", 0, 0, 0, Up),
                 "c" := NodeInfo("c", "c", 0, 0, 0, Up)];
    ids, desired := ["a", "b"], ["c"];
    var live := nodes.Keys;
    assert live == {"a", "b", "c"};
    RestrictAll(ids, live);
    var sourced := Sourced(nodes, live, ids);
    assert !sourced;
    forall e | Rebalanced(live, sourced, desired, ids, e) ensures e.targets == [] && e.written == [] {
      FirstAreMembers(e.acked);
      RebalanceEmptiesIff(live, sourced, desired, ids, e);
    }
    FruitlessIsRebalance(live, sourced, desired, ids);
  }

  /** With a source and every copy acknowledged, the list becomes the placement. */
  lemma RebalancedFully(live: set<string>, sourced: bool, desired: seq<string>, ids: seq<string>, e: Effort)
    requires Rebalanced(live, sourced, desired, ids, e) && (forall id :: id in desired ==> id in live)
    requires sourced && ToSet(e.acked) == ToSet(e.targets)
    ensures e.written == desired
  {
    forall id | id in desired ensures id in ToSet(ids) + ToSet(e.acked) {
      if id !in ids {
        assert id in Restrict(desired, live - ToSet(ids));
        assert id in ToSet(e.targets);
      }
    }
    RestrictAll(desired, ToSet(ids) + ToSet(e.acked));
  }

  /** A fragment already on its placement costs nothing and stays. */
  lemma RebalancedInPlace(live: set<string>, sourced: bool, desired: seq<string>, ids: seq<string>, e: Effort)
    requires Rebalanced(live, sourced, desired, ids, e) && ids == desired
    ensures e.targets == [] && e.acked == [] && e.written == ids
  {
    RestrictAll(desired, ToSet(ids) + ToSet(e.acked));
    NoMembers(e.targets);
    NoMembers(e.acked);
  }

  // ---- A whole pass -----------------------------------------------------------

  predicate HasSlot(cat: State, k: string, i: nat) {
    k in cat.keys && i < |cat.keys[k].fragments|
  }

  function ListOf(cat: State, k: string, i: nat): seq<string>
    requires HasSlot(cat, k, i)
  {
    cat.keys[k].fragments[i].nodeIDs
  }

  /** The two catalogs agree on everything but replica lists. */
  ghost predicate OnlyListsDiffer(a: State, b: State) {
    && a.nodes == b.nodes && a.keys.Keys == b.keys.Keys
    && (forall k :: k in a.keys ==> SameButLists(a.keys[k], b.keys[k]))
  }

  predicate SameButLists(a: KeyEntry, b: KeyEntry) {
    && |a.fragments| == |b.fragments| && a.(fragments := []) == b.(fragments := [])
    && (forall i :: 0 <= i < |a.fragments| ==> a.fragments[i].(nodeIDs := []) == b.fragments[i].(nodeIDs := []))
  }

  lemma OnlyListsTransitive(a: State, b: State, c: State)
    requires OnlyListsDiffer(a, b) && OnlyListsDiffer(b, c)
    ensures OnlyListsDiffer(a, c)
  {
    forall k | k in a.keys ensures SameButLists(a.keys[k], c.keys[k]) {
      assert SameButLists(a.keys[k], b.keys[k]) && SameButLists(b.keys[k], c.keys[k]);
    }
  }

  type Journal = map<(string, nat), Effort>

  /** One recovery pass took the catalog from `a` to `b`, with the effort recorded per fragment. */
  ghost predicate RecoveryPass(cfg: Config, a: State, b: State, log: Journal) {
    && OnlyListsDiffer(a, b)
    && forall k, i: nat :: HasSlot(a, k, i) ==> RecoveredSlot(cfg, a, b, log, k, i)
  }

  ghost predicate RecoveredSlot(cfg: Config, a: State, b: State, log: Journal, k: string, i: nat)
    requires HasSlot(a, k, i)
  {
    && HasSlot(b, k, i) && (k, i) in log
    && Recovered(cfg.rf, Live(a), ListOf(a, k, i), log[(k, i)])
    && ListOf(b, k, i) == if log[(k, i)].applied then log[(k, i)].written else ListOf(a, k, i)
  }

  /** One rebalance pass took the catalog from `a` to `b`. */
  ghost predicate RebalancePass(cfg: Config, a: State, b: State, log: Journal) {
    && OnlyListsDiffer(a, b)
    && (Live(a) != {} ==> forall k, i: nat :: HasSlot(a, k, i) ==> RebalancedSlot(cfg, a, b, log, k, i))
    && (Live(a) == {} ==> b == a)
  }

  ghost predicate RebalancedSlot(cfg: Config, a: State, b: State, log: Journal, k: string, i: nat)
    requires HasSlot(a, k, i)
  {
    && HasSlot(b, k, i) && (k, i) in log
    && (exists desired ::
          && IsPlacement(cfg, a, FragmentID(k, i), desired)
          && Rebalanced(Live(a), Sourced(a.nodes, Live(a), ListOf(a, k, i)), desired, ListOf(a, k, i), log[(k, i)]))
    && ListOf(b, k, i) == if log[(k, i)].applied then log[(k, i)].written else ListOf(a, k, i)
  }

  ghost predicate SlotDone(p: Pass, cfg: Config, a: State, b: State, log: Journal, k: string, i: nat)
    requires HasSlot(a, k, i)
  {
    match p
    case Recovery => RecoveredSlot(cfg, a, b, log, k, i)
    case Rebalance => RebalancedSlot(cfg, a, b, log, k, i)
  }

  // ---- What a whole pass sends out ------------------------------------------------

  /** The records of the live nodes. */
  function LiveRecords(cat: State): map<string, NodeInfo> {
    map id | id in cat.nodes && cat.nodes[id].status == Up :: cat.nodes[id]
  }

  function SlotSends(p: Pass, a: State, log: Journal, k: string, i: nat): seq<Action> {
    if HasSlot(a, k, i) && (k, i) in log then
      Sends(p, LiveRecords(a), FragmentID(k, i), ListOf(a, k, i), log[(k, i)])
    else []
  }

  /** For the first n fragments of an entry, in order. */
  function EntrySends(p: Pass, a: State, log: Journal, k: string, n: nat): seq<Action> {
    if n == 0 then [] else EntrySends(p, a, log, k, n - 1) + SlotSends(p, a, log, k, n - 1)
  }

  /** For the entries of the listed keys, in order. */
  function PassSends(p: Pass, a: State, log: Journal, order: seq<string>): seq<Action> {
    if order == [] then []
    else
      var k := order[|order| - 1];
      PassSends(p, a, log, order[..|order| - 1])
      + if k in a.keys then EntrySends(p, a, log, k, |a.keys[k].fragments|) else []
  }

  ghost predicate SameEfforts(log: Journal, log': Journal, k: string) {
    forall i: nat :: ((k, i) in log <==> (k, i) in log') && ((k, i) in log ==> log'[(k, i)] == log[(k, i)])
  }

  lemma {:induction false} EntrySendsSame(p: Pass, a: State, log: Journal, log': Journal, k: string, n: nat)
    requires forall i: nat :: i < n ==> ((k, i) in log <==> (k, i) in log')
    requires forall i: nat :: i < n && (k, i) in log ==> log'[(k, i)] == log[(k, i)]
    ensures EntrySends(p, a, log, k, n) == EntrySends(p, a, log', k, n)
    decreases n
  {
    if n > 0 {
      EntrySendsSame(p, a, log, log', k, n - 1);
    }
  }

  lemma {:induction false} PassSendsSame(p: Pass, a: State, log: Journal, log': Journal, order: seq<string>)
    requires forall k :: k in order ==> SameEfforts(log, log', k)
    ensures PassSends(p, a, log, order) == PassSends(p, a, log', order)
    decreases |order|
  {
    if order != [] {
      var k := order[|order| - 1];
      PassSendsSame(p, a, log, log', order[..|order| - 1]);
      assert SameEfforts(log, log', k);
      if k in a.keys {
        EntrySendsSame(p, a, log, log', k, |a.keys[k].fragments|);
      }
    }
  }

  /** One more fragment of the entry. */
  lemma EntrySendsStep(p: Pass, a: State, log: Journal, k: string, i: nat, e: Effort)
    requires HasSlot(a, k, i)
    ensures EntrySends(p, a, log[(k, i) := e], k, i + 1)
      == EntrySends(p, a, log, k, i) + Sends(p, LiveRecords(a), FragmentID(k, i), ListOf(a, k, i), e)
  {
    EntrySendsSame(p, a, log, log[(k, i) := e], k, i);
  }

  /** One more entry. */
  lemma PassSendsStep(p: Pass, a: State, log: Journal, more: Journal, order: seq<string>, k: string)
    requires k in a.keys && k !in order
    requires (forall s :: s in log ==> s.0 != k) && (forall s :: s in more ==> s.0 == k)
    ensures PassSends(p, a, log + more, order + [k])
      == PassSends(p, a, log, order) + EntrySends(p, a, more, k, |a.keys[k].fragments|)
  {
    assert (order + [k])[..|order|] == order;
    PassSendsSame(p, a, log, log + more, order);
    EntrySendsSame(p, a, more, log + more, k, |a.keys[k].fragments|);
  }

  /** The request was acknowledged, or the proposal took effect. */
  predicate Went(x: Action) {
    match x
    case Asked(_, granted) => granted
    case Proposed(_, verdict) => verdict != Refused
  }

  predicate NothingFailed(sent: seq<Action>) {
    forall j :: 0 <= j < |sent| ==> Went(sent[j])
  }

  lemma PartsWent(front: seq<Action>, rest: seq<Action>)
    requires NothingFailed(front + rest)
    ensures NothingFailed(front) && NothingFailed(rest)
  {
    assert forall j :: 0 <= j < |front| ==> (front + rest)[j] == front[j];
    assert forall j :: 0 <= j < |rest| ==> (front + rest)[|front| + j] == rest[j];
  }

  lemma {:induction false} EntryWent(p: Pass, a: State, log: Journal, k: string, n: nat, i: nat)
    requires NothingFailed(EntrySends(p, a, log, k, n)) && i < n
    ensures NothingFailed(SlotSends(p, a, log, k, i))
    decreases n
  {
    PartsWent(EntrySends(p, a, log, k, n - 1), SlotSends(p, a, log, k, n - 1));
    if i < n - 1 {
      EntryWent(p, a, log, k, n - 1, i);
    }
  }

  lemma {:induction false} PassWent(p: Pass, a: State, log: Journal, order: seq<string>, k: string, i: nat)
    requires NothingFailed(PassSends(p, a, log, order)) && k in order && HasSlot(a, k, i)
    ensures NothingFailed(SlotSends(p, a, log, k, i))
    decreases |order|
  {
    var init, last := order[..|order| - 1], order[|order| - 1];
    PartsWent(PassSends(p, a, log, init),
              if last in a.keys then EntrySends(p, a, log, last, |a.keys[last].fragments|) else []);
    if k == last {
      EntryWent(p, a, log, k, |a.keys[k].fragments|, i);
    } else {
      PassWent(p, a, log, init, k, i);
    }
  }

  /** When nothing sent for a fragment failed, every target acknowledged and the list was written back. */
  lemma SlotWent(p: Pass, view: map<string, NodeInfo>, fid: string, ids: seq<string>, e: Effort)
    requires SaneEffort(e) && NothingFailed(Sends(p, view, fid, ids, e))
    ensures ToSet(e.acked) == ToSet(e.targets) && |e.acked| == |e.targets|
    ensures e.applied || (p == Recovery && e.targets == [])
  {
    var asks := Asks(view, fid, SourceAddr(view, ids), e.targets, e.acked);
    if p != Recovery || e.targets != [] {
      var proposal := [Proposed(UpdateFragment(fid, e.written), e.verdict)];
      PartsWent(asks, proposal);
      assert Went(proposal[0]);
      forall j | 0 <= j < |e.targets| ensures e.targets[j] in e.acked {
        assert Went(asks[j]);
      }
    }
    NoDupCardinality(e.acked);
    NoDupCardinality(e.targets);
    assert ToSet(e.acked) == ToSet(e.targets);
  }

  // ---- Good lists -----------------------------------------------------------------

  /** Every replica list is duplicate-free, at most RF long, and names registered nodes only. */
  ghost predicate GoodLists(rf: nat, cat: State) {
    forall k, i: nat :: HasSlot(cat, k, i) ==> GoodList(rf, cat.nodes.Keys, ListOf(cat, k, i))
  }

  predicate GoodList(rf: nat, registered: set<string>, ids: seq<string>) {
    NoDup(ids) && |ids| <= rf && forall id :: id in ids ==> id in registered
  }

  lemma StepKeepsGoodLists(rf: nat, a: State, c: Command)
    requires GoodLists(rf, a) && !c.UpdateFragment?
    requires c.PutKey? && c.entry.Some? ==>
      forall i: nat :: i < |c.entry.value.fragments| ==> GoodList(rf, a.nodes.Keys, c.entry.value.fragments[i].nodeIDs)
    ensures GoodLists(rf, Step(a, c))
  {
    var b := Step(a, c);
    forall k, i: nat | HasSlot(b, k, i) ensures GoodList(rf, b.nodes.Keys, ListOf(b, k, i)) {
      assert !(c.PutKey? && c.entry.Some? && c.entry.value.key == k) ==> HasSlot(a, k, i);
    }
  }

  lemma RecoveryKeepsGoodLists(cfg: Config, a: State, b: State, log: Journal)
    requires RecoveryPass(cfg, a, b, log) && GoodLists(cfg.rf, a)
    ensures GoodLists(cfg.rf, b)
  {
    forall k, i: nat | HasSlot(b, k, i) ensures GoodList(cfg.rf, b.nodes.Keys, ListOf(b, k, i)) {
      assert SameButLists(a.keys[k], b.keys[k]) && HasSlot(a, k, i) && RecoveredSlot(cfg, a, b, log, k, i);
      RecoveredKeeps(cfg.rf, Live(a), ListOf(a, k, i), log[(k, i)]);
    }
  }

  lemma RebalanceKeepsGoodLists(cfg: Config, a: State, b: State, log: Journal)
    requires RebalancePass(cfg, a, b, log) && GoodLists(cfg.rf, a) && WellFormed(a)
    ensures GoodLists(cfg.rf, b)
  {
    if Live(a) != {} {
      forall k, i: nat | HasSlot(b, k, i) ensures GoodList(cfg.rf, b.nodes.Keys, ListOf(b, k, i)) {
        assert SameButLists(a.keys[k], b.keys[k]) && HasSlot(a, k, i) && RebalancedSlot(cfg, a, b, log, k, i);
        var desired :| IsPlacement(cfg, a, FragmentID(k, i), desired)
          && Rebalanced(Live(a), Sourced(a.nodes, Live(a), ListOf(a, k, i)), desired, ListOf(a, k, i), log[(k, i)]);
        PlacementIsGood(cfg, a, FragmentID(k, i), desired);
        RebalancedKeeps(Live(a), Sourced(a.nodes, Live(a), ListOf(a, k, i)), desired, ListOf(a, k, i), log[(k, i)]);
      }
    }
  }

  // ---- Recovery conservation ----------------------------------------------------

  function OwedAt(rf: nat, live: set<string>, fragments: seq<Info>): nat -> int {
    (i: nat) => if i < |fragments| then Owed(rf, live, fragments[i].nodeIDs) else 0
  }

  function AskedAt(log: Journal, k: string): nat -> int {
    (i: nat) => if (k, i) in log then |log[(k, i)].targets| else 0
  }

  /** Copies that were acknowledged and whose new list reached the catalog. */
  function LandedAt(log: Journal, k: string): nat -> int {
    (i: nat) => if (k, i) in log && log[(k, i)].applied then |log[(k, i)].acked| else 0
  }

  function OwedFn(rf: nat, live: set<string>, cat: State): string -> int {
    (k: string) =>
      if k in cat.keys then SumTo(OwedAt(rf, live, cat.keys[k].fragments), |cat.keys[k].fragments|) else 0
  }

  function AskedFn(log: Journal, cat: State): string -> int {
    (k: string) => if k in cat.keys then SumTo(AskedAt(log, k), |cat.keys[k].fragments|) else 0
  }

  function LandedFn(log: Journal, cat: State): string -> int {
    (k: string) => if k in cat.keys then SumTo(LandedAt(log, k), |cat.keys[k].fragments|) else 0
  }

  /** The replicas owed over the whole catalog. */
  ghost function Shortfall(cfg: Config, cat: State): int {
    SumOver(cat.keys.Keys, OwedFn(cfg.rf, Live(cat), cat))
  }

  lemma SlotConserved(cfg: Config, a: State, b: State, log: Journal, k: string, i: nat)
    requires HasSlot(a, k, i) && RecoveredSlot(cfg, a, b, log, k, i) && NoDup(ListOf(a, k, i))
    ensures |log[(k, i)].targets| == Owed(cfg.rf, Live(a), ListOf(a, k, i))
    ensures Owed(cfg.rf, Live(a), ListOf(b, k, i))
      == Owed(cfg.rf, Live(a), ListOf(a, k, i)) - if log[(k, i)].applied then |log[(k, i)].acked| else 0
  {
    RecoveredPays(cfg.rf, Live(a), ListOf(a, k, i), log[(k, i)]);
  }

  lemma EntrySlot(cfg: Config, a: State, b: State, log: Journal, k: string, i: nat)
    requires RecoveryPass(cfg, a, b, log) && GoodLists(cfg.rf, a) && HasSlot(a, k, i)
    ensures HasSlot(b, k, i) && (k, i) in log
    ensures |log[(k, i)].targets| == Owed(cfg.rf, Live(a), ListOf(a, k, i))
    ensures Owed(cfg.rf, Live(a), ListOf(b, k, i))
      == Owed(cfg.rf, Live(a), ListOf(a, k, i)) - if log[(k, i)].applied then |log[(k, i)].acked| else 0
  {
    assert RecoveredSlot(cfg, a, b, log, k, i) && GoodList(cfg.rf, a.nodes.Keys, ListOf(a, k, i));
    SlotConserved(cfg, a, b, log, k, i);
  }

  lemma EntryConserved(cfg: Config, a: State, b: State, log: Journal, k: string)
    requires RecoveryPass(cfg, a, b, log) && GoodLists(cfg.rf, a) && k in a.keys
    ensures k in b.keys && |b.keys[k].fragments| == |a.keys[k].fragments|
    ensures var n, fs, gs := |a.keys[k].fragments|, a.keys[k].fragments, b.keys[k].fragments;
      && SumTo(AskedAt(log, k), n) == SumTo(OwedAt(cfg.rf, Live(a), fs), n)
      && SumTo(OwedAt(cfg.rf, Live(a), gs), n)
        == SumTo(OwedAt(cfg.rf, Live(a), fs), n) - SumTo(LandedAt(log, k), n)
  {
    assert SameButLists(a.keys[k], b.keys[k]);
    var fs, gs := a.keys[k].fragments, b.keys[k].fragments;
    var owed, owedAfter := OwedAt(cfg.rf, Live(a), fs), OwedAt(cfg.rf, Live(a), gs);
    forall i: nat | i < |fs|
      ensures AskedAt(log, k)(i) == owed(i) && owedAfter(i) == owed(i) - LandedAt(log, k)(i)
    {
      EntrySlot(cfg, a, b, log, k, i);
    }
    SumToSame(AskedAt(log, k), owed, |fs|);
    SumToDifference(owedAfter, owed, LandedAt(log, k), |fs|);
  }

  lemma KeyConserved(cfg: Config, a: State, b: State, log: Journal, k: string)
    requires RecoveryPass(cfg, a, b, log) && GoodLists(cfg.rf, a) && k in a.keys
    ensures AskedFn(log, a)(k) == OwedFn(cfg.rf, Live(a), a)(k)
    ensures OwedFn(cfg.rf, Live(b), b)(k) == OwedFn(cfg.rf, Live(a), a)(k) - LandedFn(log, a)(k)
  {
    assert Live(a) == Live(b);
    EntryConserved(cfg, a, b, log, k);
  }

  /** A pass asks for exactly the copies owed, and the amount owed falls by exactly the copies that landed. */
  lemma RecoveryConserves(cfg: Config, a: State, b: State, log: Journal)
    requires RecoveryPass(cfg, a, b, log) && GoodLists(cfg.rf, a)
    ensures SumOver(a.keys.Keys, AskedFn(log, a)) == Shortfall(cfg, a)
    ensures Shortfall(cfg, b) == Shortfall(cfg, a) - SumOver(a.keys.Keys, LandedFn(log, a))
  {
    var asked, landed := AskedFn(log, a), LandedFn(log, a);
    var before, after := OwedFn(cfg.rf, Live(a), a), OwedFn(cfg.rf, Live(b), b);
    forall k | k in a.keys ensures asked(k) == before(k) && after(k) == before(k) - landed(k) {
      KeyConserved(cfg, a, b, log, k);
    }
    SumSame(a.keys.Keys, asked, before);
    SumDifference(a.keys.Keys, after, before, landed);
  }

  /** When no copy and no catalog update fails, nothing is owed afterwards. */
  lemma RecoveryCompletes(cfg: Config, a: State, b: State, log: Journal)
    requires RecoveryPass(cfg, a, b, log) && GoodLists(cfg.rf, a)
    requires AllWent(a, log)
    ensures Shortfall(cfg, b) == 0
  {
    RecoveryConserves(cfg, a, b, log);
    forall k | k in a.keys ensures AskedFn(log, a)(k) == LandedFn(log, a)(k) {
      AllLanded(a, log, k);
    }
    SumSame(a.keys.Keys, AskedFn(log, a), LandedFn(log, a));
  }

  /** Every copy asked for was acknowledged and every list written back. */
  ghost predicate AllWent(a: State, log: Journal) {
    forall k, i: nat :: HasSlot(a, k, i) && (k, i) in log ==>
      log[(k, i)].applied && |log[(k, i)].acked| == |log[(k, i)].targets|
  }

  lemma AllLanded(a: State, log: Journal, k: string)
    requires AllWent(a, log) && k in a.keys
    ensures SumTo(AskedAt(log, k), |a.keys[k].fragments|) == SumTo(LandedAt(log, k), |a.keys[k].fragments|)
  {
    forall i: nat | i < |a.keys[k].fragments| ensures AskedAt(log, k)(i) == LandedAt(log, k)(i) {
      assert HasSlot(a, k, i);
    }
    SumToSame(AskedAt(log, k), LandedAt(log, k), |a.keys[k].fragments|);
  }

  /** In terms of what was sent out: a pass in which nothing failed leaves nothing owed. */
  lemma RecoverySucceeds(cfg: Config, a: State, b: State, log: Journal, order: seq<string>)
    requires RecoveryPass(cfg, a, b, log) && GoodLists(cfg.rf, a) && ToSet(order) == a.keys.Keys
    requires NothingFailed(PassSends(Recovery, a, log, order))
    ensures Shortfall(cfg, b) == 0
  {
    forall k, i: nat | HasSlot(a, k, i) && (k, i) in log
      ensures log[(k, i)].applied && |log[(k, i)].acked| == |log[(k, i)].targets|
    {
      assert RecoveredSlot(cfg, a, b, log, k, i) && k in ToSet(order);
      PassWent(Recovery, a, log, order, k, i);
      SlotWent(Recovery, LiveRecords(a), FragmentID(k, i), ListOf(a, k, i), log[(k, i)]);
    }
    RecoveryCompletes(cfg, a, b, log);
  }

  // ---- Rebalance: scale-out and fixpoint ------------------------------------------

  /** Node x has joined, or come back up, since every fragment sat exactly on its placement; all nodes live then are
      still live. */
  ghost predicate Joined(before: State, after: State, x: string) {
    && x !in Live(before) && Live(after) == Live(before) + {x} && after.keys == before.keys
    && forall id :: id in Live(before) ==> after.nodes[id] == before.nodes[id]
  }

  ghost predicate OnPlacement(cfg: Config, cat: State) {
    forall k, i: nat :: HasSlot(cat, k, i) ==> IsPlacement(cfg, cat, FragmentID(k, i), ListOf(cat, k, i))
  }

  lemma PlacementAfterJoin(cfg: Config, before: State, after: State, x: string, fid: string, ids: seq<string>,
      ids': seq<string>)
    requires Joined(before, after, x) && WellFormed(before) && WellFormed(after)
      && NoTies(cfg, after, fid)
    requires IsPlacement(cfg, before, fid, ids) && IsPlacement(cfg, after, fid, ids')
    ensures forall id :: id in ids' && id != x ==> id in ids
  {
    var nodes, placed :| IsPlacementOn(cfg, before, fid, ids, nodes, placed);
    var nodes', placed' :| IsPlacementOn(cfg, after, fid, ids', nodes', placed');
    var nx := PlacementNode(after.nodes[x]);
    ViewAfterJoin(before, after, x, nodes, nodes');
    MinimalDisruption(cfg.strategy, cfg.hs, fid, nodes, nx, nodes', cfg.rf, placed, placed');
    forall i | 0 <= i < |ids'| && ids'[i] != x ensures ids'[i] in ids {
      assert placed'[i] in placed;
      var j :| 0 <= j < |placed| && placed[j] == placed'[i];
      assert ids[j] == ids'[i];
    }
  }

  lemma ViewAfterJoin(before: State, after: State, x: string, nodes: seq<Node>, nodes': seq<Node>)
    requires Joined(before, after, x) && WellFormed(before) && WellFormed(after) && IsView(before, nodes)
      && IsView(after, nodes')
    ensures var nx := PlacementNode(after.nodes[x]);
      nx !in nodes && ToSet(nodes') == ToSet(nodes) + {nx} && nx.id == x
      && NoManualWeights(nodes) && nx.freeBytes >= 0 && forall nd :: nd in nodes ==> nd.freeBytes >= 0
  {
    var nx := PlacementNode(after.nodes[x]);
    forall nd ensures nd in nodes' <==> nd in nodes || nd == nx {
      if nd in nodes' && nd.id != x {
        assert nd.id in Live(before);
      }
      if nd in nodes {
        assert nd.id in Live(after);
      }
    }
  }

  lemma ScaleOutList(live: set<string>, sourced: bool, desired: seq<string>, ids: seq<string>, e: Effort,
      x: string)
    requires Rebalanced(live, sourced, desired, ids, e)
    requires (forall id :: id in desired ==> id in live) && (forall id :: id in desired && id != x ==> id in ids)
    ensures e.targets == [] || e.targets == [x]
    ensures sourced && |e.acked| == |e.targets| ==> e.written == desired
  {
    OnlyOne(e.targets, x);
    if sourced && |e.acked| == |e.targets| {
      FirstAreMembers(e.acked);
      assert e.acked == e.targets;
      RebalancedFully(live, sourced, desired, ids, e);
    }
  }

  /** Scale-out cost: after one join each fragment is copied at most once, and only to the new node; when the copies
      succeed, from nodes that have an address, every list equals the new placement. */
  lemma ScaleOut(cfg: Config, before: State, after: State, x: string, b: State, log: Journal, k: string, i: nat)
    requires Joined(before, after, x) && WellFormed(before) && WellFormed(after) && OnPlacement(cfg, before)
    requires RebalancePass(cfg, after, b, log) && HasSlot(before, k, i)
    requires NoTies(cfg, after, FragmentID(k, i)) && cfg.rf > 0 && Live(before) != {}
    ensures (k, i) in log && (log[(k, i)].targets == [] || log[(k, i)].targets == [x])
    ensures log[(k, i)].applied && |log[(k, i)].acked| == |log[(k, i)].targets|
      && (forall id :: id in Live(before) ==> before.nodes[id].addr != "")
      ==> HasSlot(b, k, i) && IsPlacement(cfg, b, FragmentID(k, i), ListOf(b, k, i))
  {
    var fid := FragmentID(k, i);
    assert HasSlot(after, k, i) && RebalancedSlot(cfg, after, b, log, k, i);
    var e, ids := log[(k, i)], ListOf(before, k, i);
    var desired :| IsPlacement(cfg, after, fid, desired)
      && Rebalanced(Live(after), Sourced(after.nodes, Live(after), ids), desired, ids, e);
    PlacementAfterJoin(cfg, before, after, x, fid, ids, desired);
    PlacementIsGood(cfg, before, fid, ids);
    PlacementIsGood(cfg, after, fid, desired);
    assert |Live(before)| > 0;
    assert ids[0] in ids && ids[0] in Live(after);
    assert ids[0] in Restrict(ids, Live(after));
    FirstAreMembers(Restrict(ids, Live(after)));
    ScaleOutList(Live(after), Sourced(after.nodes, Live(after), ids), desired, ids, e, x);
    SameViewSamePlacement(cfg, after, b, fid, desired);
  }

  lemma OnlyOne(s: seq<string>, x: string)
    requires NoDup(s) && forall y :: y in s ==> y == x
    ensures s == [] || s == [x]
  {
    FirstAreMembers(s);
  }

  /** A rebalance that found a source for every fragment, lost no copy and no update, leaves every list on placement. */
  ghost predicate Flawless(a: State, log: Journal) {
    forall k, i: nat :: HasSlot(a, k, i) ==>
      (k, i) in log && log[(k, i)].applied && ToSet(log[(k, i)].acked) == ToSet(log[(k, i)].targets)
      && Sourced(a.nodes, Live(a), ListOf(a, k, i))
  }

  lemma FlawlessReachesPlacement(cfg: Config, a: State, b: State, log: Journal)
    requires RebalancePass(cfg, a, b, log) && Flawless(a, log) && WellFormed(a)
    ensures OnPlacement(cfg, b)
  {
    forall k, i: nat | HasSlot(b, k, i) ensures IsPlacement(cfg, b, FragmentID(k, i), ListOf(b, k, i)) {
      assert SameButLists(a.keys[k], b.keys[k]);
      assert HasSlot(a, k, i);
      var ids := ListOf(a, k, i);
      assert Restrict(ids, Live(a))[0] in Live(a);
      assert RebalancedSlot(cfg, a, b, log, k, i);
      var desired :| IsPlacement(cfg, a, FragmentID(k, i), desired)
        && Rebalanced(Live(a), Sourced(a.nodes, Live(a), ids), desired, ids, log[(k, i)]);
      PlacementIsGood(cfg, a, FragmentID(k, i), desired);
      RebalancedFully(Live(a), true, desired, ids, log[(k, i)]);
      SameViewSamePlacement(cfg, a, b, FragmentID(k, i), desired);
    }
  }

  /** In terms of what was sent out: a pass that finds a source for every fragment, and in which nothing fails, ends
      with every fragment on its placement. */
  lemma RebalanceSucceeds(cfg: Config, a: State, b: State, log: Journal, order: seq<string>)
    requires RebalancePass(cfg, a, b, log) && WellFormed(a) && AllSourced(a)
    requires Live(a) != {} ==> ToSet(order) == a.keys.Keys
    requires NothingFailed(PassSends(Rebalance, a, log, order))
    ensures OnPlacement(cfg, b)
  {
    forall k, i: nat | HasSlot(a, k, i)
      ensures (k, i) in log && log[(k, i)].applied && ToSet(log[(k, i)].acked) == ToSet(log[(k, i)].targets)
    {
      assert Sourced(a.nodes, Live(a), ListOf(a, k, i));
      FirstAreMembers(Restrict(ListOf(a, k, i), Live(a)));
      assert k in ToSet(order);
      assert RebalancedSlot(cfg, a, b, log, k, i);
      PassWent(Rebalance, a, log, order, k, i);
      SlotWent(Rebalance, LiveRecords(a), FragmentID(k, i), ListOf(a, k, i), log[(k, i)]);
    }
    FlawlessReachesPlacement(cfg, a, b, log);
  }

  /** Every fragment's first listed live node exists and has an address. */
  ghost predicate AllSourced(a: State) {
    forall k, i: nat :: HasSlot(a, k, i) ==> Sourced(a.nodes, Live(a), ListOf(a, k, i))
  }

  lemma SameViewSamePlacement(cfg: Config, a: State, b: State, fid: string, ids: seq<string>)
    requires a.nodes == b.nodes && IsPlacement(cfg, a, fid, ids)
    ensures IsPlacement(cfg, b, fid, ids)
  {
    var nodes, placed :| IsPlacementOn(cfg, a, fid, ids, nodes, placed);
    assert Live(a) == Live(b) && IsPlacementOn(cfg, b, fid, ids, nodes, placed);
  }

  /** Fixpoint: on a catalog already on placement a rebalance asks for no copy and changes nothing. */
  lemma RebalanceFixpoint(cfg: Config, a: State, b: State, log: Journal)
    requires RebalancePass(cfg, a, b, log) && OnPlacement(cfg, a)
    requires forall k, i: nat :: HasSlot(a, k, i) ==> NoTies(cfg, a, FragmentID(k, i))
    ensures b == a
    ensures Live(a) != {} ==> forall k, i: nat :: HasSlot(a, k, i) ==> (k, i) in log && log[(k, i)].targets == []
  {
    if Live(a) != {} {
      forall k, i: nat | HasSlot(a, k, i)
        ensures (k, i) in log && log[(k, i)].targets == [] && HasSlot(b, k, i) && ListOf(b, k, i) == ListOf(a, k, i)
      {
        assert RebalancedSlot(cfg, a, b, log, k, i);
        var desired :| IsPlacement(cfg, a, FragmentID(k, i), desired)
          && Rebalanced(Live(a), Sourced(a.nodes, Live(a), ListOf(a, k, i)), desired, ListOf(a, k, i), log[(k, i)]);
        PlacementUnique(cfg, a, a, FragmentID(k, i), ListOf(a, k, i), desired);
        RebalancedInPlace(Live(a), Sourced(a.nodes, Live(a), ListOf(a, k, i)), desired, ListOf(a, k, i),
            log[(k, i)]);
      }
      forall k | k in a.keys ensures a.keys[k] == b.keys[k] {
        SameListsSameEntry(a, b, k);
      }
    }
  }

  lemma SameListsSameEntry(a: State, b: State, k: string)
    requires OnlyListsDiffer(a, b) && k in a.keys
    requires forall i: nat :: HasSlot(a, k, i) ==> HasSlot(b, k, i) && ListOf(b, k, i) == ListOf(a, k, i)
    ensures a.keys[k] == b.keys[k]
  {
    var fs, gs := a.keys[k].fragments, b.keys[k].fragments;
    assert SameButLists(a.keys[k], b.keys[k]);
    forall i: nat | i < |fs| ensures fs[i] == gs[i] {
      assert HasSlot(a, k, i);
      assert fs[i].(nodeIDs := []) == gs[i].(nodeIDs := []);
    }
    assert fs == gs;
    assert a.keys[k].(fragments := []) == b.keys[k].(fragments := []);
  }

  /** A second pass over the same nodes, after one that found every source and lost nothing, has nothing left to do. */
  lemma SecondRebalanceIdle(cfg: Config, a: State, b: State, c: State, log: Journal, log': Journal)
    requires WellFormed(a) && RebalancePass(cfg, a, b, log) && Flawless(a, log) && RebalancePass(cfg, b, c, log')
    requires forall k, i: nat :: HasSlot(b, k, i) ==> NoTies(cfg, b, FragmentID(k, i))
    ensures c == b
    ensures Live(b) != {} ==> forall k, i: nat :: HasSlot(b, k, i) ==> (k, i) in log' && log'[(k, i)].targets == []
  {
    FlawlessReachesPlacement(cfg, a, b, log);
    RebalanceFixpoint(cfg, b, c, log');
  }
}
