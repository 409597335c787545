/** The key and node catalog as a value, the seven commands of the replicated log, and what a log leaves behind. */
module Catalog {
  import opened Collections
  import opened Names

  datatype Info = Info(id: string, key: string, index: nat, size: int, nodeIDs: seq<string>, nodeAddrs: seq<string>)

  datatype KeyEntry = KeyEntry(key: string, totalSize: int, chunkSize: int, fragments: seq<Info>, committed: bool)

  datatype Status = Unset | Up | Down | Draining

  datatype NodeInfo = NodeInfo(id: string, addr: string, totalBytes: int, usedBytes: int, lastSeen: int,
      status: Status) {
    function FreeBytes(): (free: int)
      ensures free >= 0
      ensures usedBytes <= totalBytes ==> usedBytes + free == totalBytes
      ensures usedBytes > totalBytes ==> free == 0
    {
      if totalBytes - usedBytes < 0 then 0 else totalBytes - usedBytes
    }
  }

  datatype State = State(keys: map<string, KeyEntry>, nodes: map<string, NodeInfo>)

  const EMPTY := State(map[], map[])

  datatype Command =
    | PutKey(entry: Option<KeyEntry>)
    | CommitKey(key: string)
    | DeleteKey(key: string)
    | RegisterNode(node: Option<NodeInfo>)
    | Heartbeat(node: Option<NodeInfo>)
    | MarkNodeDown(node: Option<NodeInfo>)
    | UpdateFragment(fragmentID: string, nodeIDs: seq<string>)
    | Unknown

  /** The fragment list after one fragment's replica list is replaced; addresses stay as they are. */
  function Retarget(fragments: seq<Info>, fid: string, nodeIDs: seq<string>): (r: seq<Info>)
    ensures |r| == |fragments|
    ensures forall i :: 0 <= i < |r| ==>
      r[i] == if fragments[i].id == fid then fragments[i].(nodeIDs := nodeIDs) else fragments[i]
  {
    seq(|fragments|, i requires 0 <= i < |fragments| =>
      if fragments[i].id == fid then fragments[i].(nodeIDs := nodeIDs) else fragments[i])
  }

  function Updated(e: KeyEntry, fid: string, nodeIDs: seq<string>): KeyEntry {
    e.(fragments := Retarget(e.fragments, fid, nodeIDs))
  }

  function Beat(n: NodeInfo, beat: NodeInfo): NodeInfo {
    n.(lastSeen := beat.lastSeen, usedBytes := beat.usedBytes, totalBytes := beat.totalBytes, status := Up)
  }

  /** One committed log entry. */
  function Step(s: State, c: Command): State {
    match c
    case PutKey(Some(e)) => s.(keys := s.keys[e.key := e])
    case CommitKey(k) => if k in s.keys then s.(keys := s.keys[k := s.keys[k].(committed := true)]) else s
    case DeleteKey(k) => s.(keys := s.keys - {k})
    case RegisterNode(Some(n)) => s.(nodes := s.nodes[n.id := n])
    case Heartbeat(Some(n)) => if n.id in s.nodes then s.(nodes := s.nodes[n.id := Beat(s.nodes[n.id], n)]) else s
    case MarkNodeDown(Some(n)) =>
      if n.id in s.nodes then s.(nodes := s.nodes[n.id := s.nodes[n.id].(status := Down)]) else s
    case UpdateFragment(fid, ids) =>
      s.(keys := map k | k in s.keys :: Updated(s.keys[k], fid, ids))
    case _ => s
  }

  function Replay(s: State, log: seq<Command>): State {
    if log == [] then s else Step(Replay(s, log[..|log| - 1]), log[|log| - 1])
  }

  /** Cutting a log at any point and carrying on from the state at the cut changes nothing. */
  lemma {:induction false} ReplayAppend(s: State, prefix: seq<Command>, suffix: seq<Command>)
    ensures Replay(s, prefix + suffix) == Replay(Replay(s, prefix), suffix)
  {
    if suffix == [] {
      assert prefix + suffix == prefix;
    } else {
      assert (prefix + suffix)[..|prefix + suffix| - 1] == prefix + suffix[..|suffix| - 1];
      ReplayAppend(s, prefix, suffix[..|suffix| - 1]);
    }
  }

  // ---- Logs whose put entries come from PrepareKey ---------------------------

  /** What PrepareKey guarantees of an entry: its fragments carry the ids of its own key, and it is pending. */
  predicate WellFormedEntry(e: KeyEntry) {
    !e.committed && forall i :: 0 <= i < |e.fragments| ==> e.fragments[i].id == FragmentID(e.key, i)
  }

  predicate WellFormedLog(log: seq<Command>) {
    forall i :: 0 <= i < |log| && log[i].PutKey? && log[i].entry.Some? ==> WellFormedEntry(log[i].entry.value)
  }

  /** Every entry sits under its own key and names its own fragments. */
  predicate WellFormed(s: State) {
    && (forall k :: k in s.keys ==> s.keys[k].key == k)
    && (forall k, i :: k in s.keys && 0 <= i < |s.keys[k].fragments| ==> s.keys[k].fragments[i].id == FragmentID(k, i))
    && (forall id :: id in s.nodes ==> s.nodes[id].id == id)
  }

  lemma StepWellFormed(s: State, c: Command)
    requires WellFormed(s) && (c.PutKey? && c.entry.Some? ==> WellFormedEntry(c.entry.value))
    ensures WellFormed(Step(s, c))
  {
  }

  lemma {:induction false} ReplayWellFormed(log: seq<Command>)
    requires WellFormedLog(log)
    ensures WellFormed(Replay(EMPTY, log))
  {
    if log != [] {
      ReplayWellFormed(log[..|log| - 1]);
      StepWellFormed(Replay(EMPTY, log[..|log| - 1]), log[|log| - 1]);
    }
  }

  function Entry(s: State, k: string): Option<KeyEntry> {
    if k in s.keys then Some(s.keys[k]) else None
  }

  function NodeOf(s: State, id: string): Option<NodeInfo> {
    if id in s.nodes then Some(s.nodes[id]) else None
  }

  /** An entry whose i-th fragment has another replica list. */
  function Reassigned(e: KeyEntry, i: nat, ids: seq<string>): KeyEntry
    requires i < |e.fragments|
  {
    e.(fragments := e.fragments[i := e.fragments[i].(nodeIDs := ids)])
  }

  /** UpdateFragment rewrites the replica list of the one fragment that carries the id, and nothing else. */
  lemma UpdateTouchesOne(s: State, key: string, i: nat, ids: seq<string>)
    requires WellFormed(s)
    ensures var s' := Step(s, UpdateFragment(FragmentID(key, i), ids));
      && s'.nodes == s.nodes && s'.keys.Keys == s.keys.Keys
      && (forall k :: k in s.keys && k != key ==> s'.keys[k] == s.keys[k])
      && (key in s.keys && i >= |s.keys[key].fragments| ==> s'.keys[key] == s.keys[key])
      && (key in s.keys && i < |s.keys[key].fragments| ==> s'.keys[key] == Reassigned(s.keys[key], i, ids))
  {
    var fid := FragmentID(key, i);
    var s' := Step(s, UpdateFragment(fid, ids));
    forall k | k in s.keys
      ensures s'.keys[k] == if k == key && i < |s.keys[k].fragments| then Reassigned(s.keys[k], i, ids) else s.keys[k]
    {
      var fs := s.keys[k].fragments;
      forall j | 0 <= j < |fs| ensures fs[j].id == fid <==> k == key && j == i {
        if fs[j].id == fid {
          FragmentIDInjective(k, j, key, i);
        }
      }
      assert Retarget(fs, fid, ids) == if k == key && i < |fs| then fs[i := fs[i].(nodeIDs := ids)] else fs;
    }
  }

  // ---- Projection on one key or node ------------------------------------------

  ghost predicate AddressesKey(c: Command, k: string) {
    match c
    case PutKey(Some(e)) => e.key == k
    case CommitKey(key) => key == k
    case DeleteKey(key) => key == k
    case UpdateFragment(fid, _) => exists i: nat :: fid == FragmentID(k, i)
    case _ => false
  }

  ghost predicate AddressesNode(c: Command, id: string) {
    (c.RegisterNode? || c.Heartbeat? || c.MarkNodeDown?) && c.node.Some? && c.node.value.id == id
  }

  ghost function KeyLog(log: seq<Command>, k: string): seq<Command> {
    if log == [] then []
    else KeyLog(log[..|log| - 1], k) + (if AddressesKey(log[|log| - 1], k) then [log[|log| - 1]] else [])
  }

  ghost function NodeLog(log: seq<Command>, id: string): seq<Command> {
    if log == [] then []
    else NodeLog(log[..|log| - 1], id) + (if AddressesNode(log[|log| - 1], id) then [log[|log| - 1]] else [])
  }

  lemma IrrelevantToKey(s: State, c: Command, k: string)
    requires WellFormed(s) && !AddressesKey(c, k)
    ensures Entry(Step(s, c), k) == Entry(s, k)
  {
    if c.UpdateFragment? && k in s.keys {
      var fs := s.keys[k].fragments;
      assert Retarget(fs, c.fragmentID, c.nodeIDs) == fs;
    }
  }

  lemma StepAppend(s: State, log: seq<Command>, c: Command)
    ensures Replay(s, log + [c]) == Step(Replay(s, log), c)
  {
    assert (log + [c])[..|log + [c]| - 1] == log;
  }

  /** The final entry of a key depends only on the commands that address the key or one of its fragments. */
  lemma {:induction false} KeyProjection(log: seq<Command>, k: string)
    requires WellFormedLog(log)
    ensures Entry(Replay(EMPTY, log), k) == Entry(Replay(EMPTY, KeyLog(log, k)), k)
  {
    if log != [] {
      var front, c := log[..|log| - 1], log[|log| - 1];
      KeyProjection(front, k);
      ReplayWellFormed(front);
      if AddressesKey(c, k) {
        StepAppend(EMPTY, KeyLog(front, k), c);
      } else {
        IrrelevantToKey(Replay(EMPTY, front), c, k);
        assert KeyLog(log, k) == KeyLog(front, k);
      }
    }
  }

  lemma IrrelevantToNode(s: State, c: Command, id: string)
    requires !AddressesNode(c, id)
    ensures NodeOf(Step(s, c), id) == NodeOf(s, id)
  {
  }

  lemma StepOnNode(s: State, t: State, c: Command, id: string)
    requires NodeOf(s, id) == NodeOf(t, id)
    ensures NodeOf(Step(s, c), id) == NodeOf(Step(t, c), id)
  {
  }

  /** Likewise for a node; here the shape of put entries does not matter. */
  lemma {:induction false} NodeProjection(log: seq<Command>, id: string)
    ensures NodeOf(Replay(EMPTY, log), id) == NodeOf(Replay(EMPTY, NodeLog(log, id)), id)
  {
    if log != [] {
      var front, c := log[..|log| - 1], log[|log| - 1];
      NodeProjection(front, id);
      if AddressesNode(c, id) {
        StepAppend(EMPTY, NodeLog(front, id), c);
        StepOnNode(Replay(EMPTY, front), Replay(EMPTY, NodeLog(front, id)), c, id);
      } else {
        IrrelevantToNode(Replay(EMPTY, front), c, id);
        assert NodeLog(log, id) == NodeLog(front, id);
      }
    }
  }

  // ---- Committed keys ---------------------------------------------------------

  predicate Puts(c: Command, k: string) {
    c.PutKey? && c.entry.Some? && c.entry.value.key == k
  }

  /** Position p holds the last put of k, and no delete of k follows it. */
  predicate LastPut(log: seq<Command>, k: string, p: int) {
    && 0 <= p < |log| && Puts(log[p], k)
    && forall j :: p < j < |log| ==> !Puts(log[j], k) && log[j] != DeleteKey(k)
  }

  ghost predicate PutStands(log: seq<Command>, k: string) {
    exists p :: LastPut(log, k, p)
  }

  ghost predicate CommitStands(log: seq<Command>, k: string) {
    exists p, c :: LastPut(log, k, p) && p < c < |log| && log[c] == CommitKey(k)
  }

  lemma PutStandsStep(log: seq<Command>, c: Command, k: string)
    ensures PutStands(log + [c], k) <==> Puts(c, k) || (c != DeleteKey(k) && PutStands(log, k))
  {
    var all := log + [c];
    assert all[|log|] == c;
    if Puts(c, k) {
      assert LastPut(all, k, |log|);
    } else if c != DeleteKey(k) && PutStands(log, k) {
      var p :| LastPut(log, k, p);
      assert LastPut(all, k, p);
    } else if PutStands(all, k) {
      var p :| LastPut(all, k, p);
      assert forall j :: 0 <= j < |log| ==> log[j] == all[j];
      assert LastPut(log, k, p);
    }
  }

  lemma CommitStandsStep(log: seq<Command>, c: Command, k: string)
    ensures CommitStands(log + [c], k) <==>
      !Puts(c, k) && c != DeleteKey(k) && (CommitStands(log, k) || (c == CommitKey(k) && PutStands(log, k)))
  {
    var all := log + [c];
    assert all[|log|] == c;
    if CommitStands(all, k) {
      var p, q :| LastPut(all, k, p) && p < q < |all| && all[q] == CommitKey(k);
      assert forall j :: 0 <= j < |log| ==> log[j] == all[j];
      assert LastPut(log, k, p);
      assert q < |log| ==> log[q] == CommitKey(k);
    }
    if !Puts(c, k) && c != DeleteKey(k) {
      if CommitStands(log, k) {
        var p, q :| LastPut(log, k, p) && p < q < |log| && log[q] == CommitKey(k);
        assert LastPut(all, k, p) && all[q] == CommitKey(k);
      } else if c == CommitKey(k) && PutStands(log, k) {
        var p :| LastPut(log, k, p);
        assert LastPut(all, k, p) && all[|log|] == CommitKey(k);
      }
    }
  }

  /** A key is present exactly when its last put has no later delete, and committed exactly when a commit follows
      that put too. */
  lemma {:induction false} CommittedIff(log: seq<Command>, k: string)
    requires WellFormedLog(log)
    ensures k in Replay(EMPTY, log).keys <==> PutStands(log, k)
    ensures k in Replay(EMPTY, log).keys && Replay(EMPTY, log).keys[k].committed <==> CommitStands(log, k)
  {
    if log != [] {
      var front, c := log[..|log| - 1], log[|log| - 1];
      assert log == front + [c];
      CommittedIff(front, k);
      PutStandsStep(front, c, k);
      CommitStandsStep(front, c, k);
      CommitNeedsPut(front, k);
    }
  }

  lemma CommitNeedsPut(log: seq<Command>, k: string)
    ensures CommitStands(log, k) ==> PutStands(log, k)
  {
  }
}
