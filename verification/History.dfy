/** What a log leaves behind, told by the positions of its commands: every node record and every key's entry. */
module History {
  import opened Names
  import opened Catalog

  // ---- The last of its kind -------------------------------------------------------

  /** Position p holds the last command of the kind. */
  ghost predicate LastOf(log: seq<Command>, kind: Command -> bool, p: int) {
    && 0 <= p < |log| && kind(log[p])
    && forall j :: p < j < |log| ==> !kind(log[j])
  }

  lemma LastOfStep(log: seq<Command>, c: Command, kind: Command -> bool)
    ensures forall p :: LastOf(log + [c], kind, p) <==> if kind(c) then p == |log| else LastOf(log, kind, p)
  {
    var all := log + [c];
    assert all[|log|] == c;
    forall p ensures LastOf(all, kind, p) <==> if kind(c) then p == |log| else LastOf(log, kind, p) {
      assert forall j :: 0 <= j < |log| ==> all[j] == log[j];
    }
  }

  // ---- Node records ---------------------------------------------------------------

  function Registers(id: string): Command -> bool {
    (c: Command) => c.RegisterNode? && c.node.Some? && c.node.value.id == id
  }

  /** A registration or a heartbeat: what tells of a node's disk. */
  function Reports(id: string): Command -> bool {
    (c: Command) => (c.RegisterNode? || c.Heartbeat?) && c.node.Some? && c.node.value.id == id
  }

  function Addresses(id: string): Command -> bool {
    (c: Command) => (c.RegisterNode? || c.Heartbeat? || c.MarkNodeDown?) && c.node.Some? && c.node.value.id == id
  }

  /** The status a node has after a command that addresses it. */
  function StatusAfter(c: Command): Status
    requires (c.RegisterNode? || c.Heartbeat? || c.MarkNodeDown?) && c.node.Some?
  {
    if c.RegisterNode? then c.node.value.status else if c.Heartbeat? then Up else Down
  }

  ghost predicate AddrTold(log: seq<Command>, id: string, n: NodeInfo) {
    forall p :: LastOf(log, Registers(id), p) ==> n.addr == log[p].node.value.addr
  }

  ghost predicate DiskTold(log: seq<Command>, id: string, n: NodeInfo) {
    forall p :: LastOf(log, Reports(id), p) ==>
      && n.totalBytes == log[p].node.value.totalBytes && n.usedBytes == log[p].node.value.usedBytes
      && n.lastSeen == log[p].node.value.lastSeen
  }

  ghost predicate StatusTold(log: seq<Command>, id: string, n: NodeInfo) {
    forall p :: LastOf(log, Addresses(id), p) ==> n.status == StatusAfter(log[p])
  }

  /** The record agrees with the last registration, the last report and the last command that addresses the node. */
  ghost predicate Recorded(log: seq<Command>, id: string, n: NodeInfo) {
    n.id == id && AddrTold(log, id, n) && DiskTold(log, id, n) && StatusTold(log, id, n)
  }

  lemma Last(log: seq<Command>, c: Command, kind: Command -> bool)
    ensures !kind(c) ==> forall p :: LastOf(log + [c], kind, p) ==> LastOf(log, kind, p) && (log + [c])[p] == log[p]
    ensures kind(c) ==> forall p :: LastOf(log + [c], kind, p) ==> p == |log| && (log + [c])[p] == c
  {
    LastOfStep(log, c, kind);
  }

  lemma RecordedStep(log: seq<Command>, c: Command, id: string, s: State)
    requires id in s.nodes ==> Recorded(log, id, s.nodes[id])
    ensures id in Step(s, c).nodes ==> Recorded(log + [c], id, Step(s, c).nodes[id])
  {
    if id in Step(s, c).nodes {
      AddrStep(log, c, id, s);
      DiskStep(log, c, id, s);
      StatusStep(log, c, id, s);
    }
  }

  lemma AddrStep(log: seq<Command>, c: Command, id: string, s: State)
    requires (id in s.nodes ==> AddrTold(log, id, s.nodes[id])) && id in Step(s, c).nodes
    ensures AddrTold(log + [c], id, Step(s, c).nodes[id])
  {
    Last(log, c, Registers(id));
  }

  lemma DiskStep(log: seq<Command>, c: Command, id: string, s: State)
    requires (id in s.nodes ==> DiskTold(log, id, s.nodes[id])) && id in Step(s, c).nodes
    ensures DiskTold(log + [c], id, Step(s, c).nodes[id])
  {
    Last(log, c, Reports(id));
  }

  lemma StatusStep(log: seq<Command>, c: Command, id: string, s: State)
    requires (id in s.nodes ==> StatusTold(log, id, s.nodes[id])) && id in Step(s, c).nodes
    ensures StatusTold(log + [c], id, Step(s, c).nodes[id])
  {
    Last(log, c, Addresses(id));
  }

  /** A node is known exactly when it was ever registered. */
  lemma {:induction false} NodeKnownIff(log: seq<Command>, id: string)
    ensures id in Replay(EMPTY, log).nodes <==>
      exists p :: 0 <= p < |log| && log[p].RegisterNode? && log[p].node.Some? && log[p].node.value.id == id
    ensures id in Replay(EMPTY, log).nodes <==> exists p :: LastOf(log, Registers(id), p)
    decreases |log|
  {
    if log == [] {
    } else {
      var front, c := log[..|log| - 1], log[|log| - 1];
      assert log == front + [c] && forall p :: 0 <= p < |front| ==> log[p] == front[p];
      NodeKnownIff(front, id);
      LastOfStep(front, c, Registers(id));
      if Registers(id)(c) {
        assert LastOf(log, Registers(id), |front|);
      } else {
        assert forall p :: LastOf(log, Registers(id), p) <==> LastOf(front, Registers(id), p);
      }
    }
  }

  /** Its address is that of its last registration, its sizes and the time it was last seen are those of its last
      registration or heartbeat, and its status is that of the last command that addresses it: as registered, up after a
      heartbeat, down after a mark-down. */
  lemma {:induction false} NodeHistory(log: seq<Command>, id: string)
    ensures id in Replay(EMPTY, log).nodes ==> Recorded(log, id, Replay(EMPTY, log).nodes[id])
    decreases |log|
  {
    if log == [] {
    } else {
      var front, c := log[..|log| - 1], log[|log| - 1];
      assert log == front + [c];
      NodeHistory(front, id);
      RecordedStep(front, c, id, Replay(EMPTY, front));
    }
  }

  /** In particular a known node is live exactly when the last command that addresses it is a heartbeat, or a
      registration that says so. */
  lemma NodeUpIff(log: seq<Command>, id: string, p: int)
    requires id in Replay(EMPTY, log).nodes && LastOf(log, Addresses(id), p)
    ensures Replay(EMPTY, log).nodes[id].status == Up <==>
      log[p].Heartbeat? || (log[p].RegisterNode? && log[p].node.value.status == Up)
  {
    NodeHistory(log, id);
  }

  // ---- Entries --------------------------------------------------------------------

  function Updates(fid: string): Command -> bool {
    (c: Command) => c.UpdateFragment? && c.fragmentID == fid
  }

  /** The entry is the one put at p, but for replica lists: each is that of the last update since then, or the one put
      when there is none. */
  ghost predicate PutUpdated(log: seq<Command>, p: int, e: KeyEntry)
    requires 0 <= p < |log| && log[p].PutKey? && log[p].entry.Some?
  {
    var put := log[p].entry.value;
    && e.key == put.key && e.totalSize == put.totalSize && e.chunkSize == put.chunkSize
    && |e.fragments| == |put.fragments|
    && (forall i :: 0 <= i < |put.fragments| ==> e.fragments[i].(nodeIDs := []) == put.fragments[i].(nodeIDs := []))
    && (forall i: nat, u :: i < |put.fragments| && LastOf(log, Updates(FragmentID(put.key, i)), u) && u > p ==>
          e.fragments[i].nodeIDs == log[u].nodeIDs)
    && (forall i: nat :: i < |put.fragments| && NotUpdatedSince(log, p, FragmentID(put.key, i)) ==>
          e.fragments[i].nodeIDs == put.fragments[i].nodeIDs)
  }

  ghost predicate NotUpdatedSince(log: seq<Command>, p: int, fid: string) {
    forall u :: LastOf(log, Updates(fid), u) ==> u < p
  }

  lemma PutUpdatedFresh(log: seq<Command>, c: Command)
    requires c.PutKey? && c.entry.Some?
    ensures PutUpdated(log + [c], |log|, c.entry.value)
  {
    assert (log + [c])[|log|] == c;
  }

  /** A command that leaves the put standing: a commit, an update, or one about something else. */
  lemma PutUpdatedStep(log: seq<Command>, c: Command, p: int, s: State, k: string)
    requires WellFormed(s) && k in s.keys && LastPut(log, k, p) && PutUpdated(log, p, s.keys[k])
    requires !Puts(c, k) && c != DeleteKey(k)
    ensures k in Step(s, c).keys && PutUpdated(log + [c], p, Step(s, c).keys[k])
  {
    var all, e, put := log + [c], Step(s, c).keys[k], log[p].entry.value;
    assert all[p] == log[p];
    forall i: nat | i < |put.fragments|
      ensures e.fragments[i].(nodeIDs := []) == put.fragments[i].(nodeIDs := [])
      ensures forall u :: LastOf(all, Updates(FragmentID(put.key, i)), u) && u > p ==>
        e.fragments[i].nodeIDs == all[u].nodeIDs
      ensures NotUpdatedSince(all, p, FragmentID(put.key, i)) ==>
        e.fragments[i].nodeIDs == put.fragments[i].nodeIDs
    {
      FragmentStep(log, c, p, s, k, i);
    }
  }

  lemma FragmentStep(log: seq<Command>, c: Command, p: int, s: State, k: string, i: nat)
    requires WellFormed(s) && k in s.keys && LastPut(log, k, p) && PutUpdated(log, p, s.keys[k])
    requires !Puts(c, k) && c != DeleteKey(k) && i < |log[p].entry.value.fragments|
    ensures var put, e := log[p].entry.value, Step(s, c).keys[k];
      && i < |e.fragments| && e.fragments[i].(nodeIDs := []) == put.fragments[i].(nodeIDs := [])
      && (forall u :: LastOf(log + [c], Updates(FragmentID(k, i)), u) && u > p ==>
            e.fragments[i].nodeIDs == (log + [c])[u].nodeIDs)
      && (NotUpdatedSince(log + [c], p, FragmentID(k, i)) ==> e.fragments[i].nodeIDs == put.fragments[i].nodeIDs)
  {
    var kind := Updates(FragmentID(k, i));
    LastOfStep(log, c, kind);
    assert s.keys[k].fragments[i].id == FragmentID(k, i);
    if kind(c) {
      assert LastOf(log + [c], kind, |log|) && (log + [c])[|log|] == c;
    } else {
      assert forall u :: LastOf(log + [c], kind, u) <==> LastOf(log, kind, u);
    }
  }

  lemma LastPutStep(log: seq<Command>, c: Command, k: string, p: int)
    requires LastPut(log + [c], k, p)
    ensures p < |log| ==> LastPut(log, k, p) && !Puts(c, k) && c != DeleteKey(k)
    ensures p == |log| ==> Puts(c, k)
  {
    var all := log + [c];
    assert all[|log|] == c && forall j :: 0 <= j < |log| ==> all[j] == log[j];
  }

  /** A key's entry is the one last put and not deleted since; in it, each fragment's replica list is that of the last
      update of its id since then, or the one put when there is none. */
  lemma {:induction false} EntryHistory(log: seq<Command>, k: string, p: int)
    requires WellFormedLog(log) && LastPut(log, k, p)
    ensures k in Replay(EMPTY, log).keys && PutUpdated(log, p, Replay(EMPTY, log).keys[k])
    decreases |log|
  {
    var front, c := log[..|log| - 1], log[|log| - 1];
    assert log == front + [c];
    LastPutStep(front, c, k, p);
    if p < |front| {
      EntryHistory(front, k, p);
      ReplayWellFormed(front);
      PutUpdatedStep(front, c, p, Replay(EMPTY, front), k);
    } else {
      PutUpdatedFresh(front, c);
    }
  }
}
