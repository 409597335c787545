/** The FSM object: entries and node records on the heap, changed in place by every applied command. */
module Fsm {
  import opened Collections
  import opened Catalog

  /** A key's entry. A shallow copy of it is another object over the same fragments array. */
  class EntryRecord {
    const key: string
    const totalSize: int
    const chunkSize: int
    const fragments: array<Info>
    var committed: bool

    function Value(): KeyEntry
      reads this, fragments
    {
      KeyEntry(key, totalSize, chunkSize, fragments[..], committed)
    }

    constructor FromValue(e: KeyEntry)
      ensures Value() == e && fresh(fragments)
    {
      key, totalSize, chunkSize, committed := e.key, e.totalSize, e.chunkSize, e.committed;
      var a := new Info[|e.fragments|](i requires 0 <= i < |e.fragments| => e.fragments[i]);
      fragments := a;
      new;
      assert fragments[..] == e.fragments;
    }

    constructor ShallowCopy(e: EntryRecord)
      ensures fragments == e.fragments && Value() == e.Value()
    {
      key, totalSize, chunkSize, fragments, committed := e.key, e.totalSize, e.chunkSize, e.fragments, e.committed;
    }

    /** The inner loop of cmdUpdateFragment. */
    method RetargetFragments(fid: string, nodeIDs: seq<string>)
      modifies fragments
      ensures fragments[..] == Retarget(old(fragments[..]), fid, nodeIDs)
    {
      for i := 0 to fragments.Length
        invariant forall j :: 0 <= j < i ==> fragments[j] == Retarget(old(fragments[..]), fid, nodeIDs)[j]
        invariant forall j :: i <= j < fragments.Length ==> fragments[j] == old(fragments[j])
      {
        if fragments[i].id == fid {
          fragments[i] := fragments[i].(nodeIDs := nodeIDs);
        }
      }
    }
  }

  class NodeRecord {
    const id: string
    const addr: string
    var totalBytes: int
    var usedBytes: int
    var lastSeen: int
    var status: Status

    function Value(): NodeInfo
      reads this
    {
      NodeInfo(id, addr, totalBytes, usedBytes, lastSeen, status)
    }

    constructor FromValue(n: NodeInfo)
      ensures Value() == n
    {
      id, addr, totalBytes, usedBytes, lastSeen, status := n.id, n.addr, n.totalBytes, n.usedBytes, n.lastSeen,
          n.status;
    }
  }

  class Machine {
    var keys: map<string, EntryRecord>
    var nodes: map<string, NodeRecord>
    ghost var Repr: set<object>

    /** No two keys share an entry or a fragments array; no two ids share a node record. */
    ghost predicate Valid()
      reads this
    {
      && this in Repr
      && (forall k :: k in keys ==> keys[k] in Repr && keys[k].fragments in Repr)
      && (forall id :: id in nodes ==> nodes[id] in Repr)
      && (forall k, k' :: k in keys && k' in keys && k != k' ==>
        keys[k] != keys[k'] && keys[k].fragments != keys[k'].fragments)
      && (forall id, id' :: id in nodes && id' in nodes && id != id' ==> nodes[id] != nodes[id'])
    }

    function KeyValues(): map<string, KeyEntry>
      requires Valid()
      reads this, Repr
    {
      map k | k in keys :: keys[k].Value()
    }

    function NodeValues(): map<string, NodeInfo>
      requires Valid()
      reads this, Repr
    {
      map id | id in nodes :: nodes[id].Value()
    }

    /** The catalog value this object stands for. */
    function Abs(): State
      requires Valid()
      reads this, Repr
    {
      State(KeyValues(), NodeValues())
    }

    constructor ()
      ensures Valid() && fresh(Repr) && Abs() == EMPTY
    {
      keys, nodes, Repr := map[], map[], {this};
    }

    method Put(e: KeyEntry)
      requires Valid()
      modifies this
      ensures Valid() && fresh(Repr - old(Repr))
      ensures KeyValues() == old(KeyValues())[e.key := e]
      ensures NodeValues() == old(NodeValues())
    {
      var r := new EntryRecord.FromValue(e);
      keys := keys[e.key := r];
      Repr := Repr + {r, r.fragments};
    }

    method Commit(key: string)
      requires Valid()
      modifies Repr
      ensures Valid() && Repr == old(Repr) && keys == old(keys)
      ensures KeyValues() ==
        if key in old(keys) then old(KeyValues())[key := old(KeyValues())[key].(committed := true)]
        else old(KeyValues())
      ensures NodeValues() == old(NodeValues())
    {
      if key in keys {
        keys[key].committed := true;
      }
    }

    method Delete(key: string)
      requires Valid()
      modifies this
      ensures Valid() && Repr == old(Repr)
      ensures KeyValues() == old(KeyValues()) - {key}
      ensures NodeValues() == old(NodeValues())
    {
      keys := keys - {key};
    }

    method Register(n: NodeInfo)
      requires Valid()
      modifies this
      ensures Valid() && fresh(Repr - old(Repr))
      ensures KeyValues() == old(KeyValues())
      ensures NodeValues() == old(NodeValues())[n.id := n]
    {
      var r := new NodeRecord.FromValue(n);
      nodes := nodes[n.id := r];
      Repr := Repr + {r};
    }

    method Beat(n: NodeInfo)
      requires Valid()
      modifies Repr
      ensures Valid() && Repr == old(Repr)
      ensures KeyValues() == old(KeyValues())
      ensures n.id !in old(nodes) ==> NodeValues() == old(NodeValues())
      ensures n.id in old(nodes) ==>
        NodeValues() == old(NodeValues())[n.id := old(NodeValues())[n.id].(lastSeen := n.lastSeen,
          usedBytes := n.usedBytes, totalBytes := n.totalBytes, status := Up)]
    {
      if n.id in nodes {
        var existing := nodes[n.id];
        existing.lastSeen := n.lastSeen;
        existing.usedBytes := n.usedBytes;
        existing.totalBytes := n.totalBytes;
        existing.status := Up;
      }
    }

    method MarkDown(n: NodeInfo)
      requires Valid()
      modifies Repr
      ensures Valid() && Repr == old(Repr)
      ensures KeyValues() == old(KeyValues())
      ensures NodeValues() ==
        if n.id in old(nodes) then old(NodeValues())[n.id := old(NodeValues())[n.id].(status := Down)]
        else old(NodeValues())
    {
      if n.id in nodes {
        nodes[n.id].status := Down;
      }
    }

    method UpdateOne(k: string, fid: string, nodeIDs: seq<string>)
      requires Valid() && k in keys
      modifies keys[k].fragments
      ensures keys[k].Value() == Updated(old(keys[k].Value()), fid, nodeIDs)
      ensures forall k' :: k' in keys && k' != k ==> keys[k'].Value() == old(keys[k'].Value())
      ensures NodeValues() == old(NodeValues())
    {
      keys[k].RetargetFragments(fid, nodeIDs);
    }

    /** Walks the entries in whatever order the map yields them. */
    method Update(fid: string, nodeIDs: seq<string>)
      requires Valid()
      modifies Repr
      ensures Valid() && Repr == old(Repr) && keys == old(keys)
      ensures KeyValues() == map k | k in old(keys) :: Updated(old(KeyValues())[k], fid, nodeIDs)
      ensures NodeValues() == old(NodeValues())
    {
      var left := keys.Keys;
      while left != {}
        invariant left <= keys.Keys && unchanged(this)
        invariant forall k :: k in keys ==>
          keys[k].Value() == if k in left then old(keys[k].Value()) else Updated(old(keys[k].Value()), fid, nodeIDs)
        invariant NodeValues() == old(NodeValues())
        decreases left
      {
        var k :| k in left;
        left := left - {k};
        UpdateOne(k, fid, nodeIDs);
      }
    }

    /** Applies one committed log entry. */
    method Apply(c: Command)
      requires Valid()
      modifies Repr
      ensures Valid() && fresh(Repr - old(Repr))
      ensures Abs() == Step(old(Abs()), c)
    {
      match c
      case PutKey(Some(e)) => Put(e);
      case CommitKey(k) => Commit(k);
      case DeleteKey(k) => Delete(k);
      case RegisterNode(Some(n)) => Register(n);
      case Heartbeat(Some(n)) => Beat(n);
      case MarkNodeDown(Some(n)) => MarkDown(n);
      case UpdateFragment(fid, ids) => Update(fid, ids);
      case _ =>
    }

    /** Applies a stretch of the log. */
    method ApplyAll(log: seq<Command>)
      requires Valid()
      modifies Repr
      ensures Valid() && fresh(Repr - old(Repr))
      ensures Abs() == Replay(old(Abs()), log)
    {
      for i := 0 to |log|
        invariant Valid() && fresh(Repr - old(Repr))
        invariant Abs() == Replay(old(Abs()), log[..i])
      {
        assert log[..i + 1][..i] == log[..i];
        Apply(log[i]);
      }
      assert log[..|log|] == log;
    }

    // ---- Snapshots ------------------------------------------------------------

    /** The snapshot: every entry and node record written out as a value under its key, and no others. What the object
        does later cannot reach it. */
    method Snapshot() returns (s: State)
      requires Valid()
      ensures s.keys.Keys == keys.Keys && forall k :: k in keys ==> s.keys[k] == keys[k].Value()
      ensures s.nodes.Keys == nodes.Keys && forall id :: id in nodes ==> s.nodes[id] == nodes[id].Value()
      ensures s == Abs()
    {
      var entries: map<string, KeyEntry> := map[];
      var left := keys.Keys;
      while left != {}
        invariant left <= keys.Keys && entries.Keys == keys.Keys - left
        invariant forall k :: k in entries ==> entries[k] == keys[k].Value()
        decreases left
      {
        var k :| k in left;
        left := left - {k};
        var e := keys[k];
        entries := entries[k := KeyEntry(e.key, e.totalSize, e.chunkSize, e.fragments[..], e.committed)];
      }
      var infos: map<string, NodeInfo> := map[];
      left := nodes.Keys;
      while left != {}
        invariant left <= nodes.Keys && infos.Keys == nodes.Keys - left
        invariant forall id :: id in infos ==> infos[id] == nodes[id].Value()
        decreases left
      {
        var id :| id in left;
        left := left - {id};
        var n := nodes[id];
        infos := infos[id := NodeInfo(n.id, n.addr, n.totalBytes, n.usedBytes, n.lastSeen, n.status)];
      }
      assert entries == KeyValues() && infos == NodeValues();
      s := State(entries, infos);
    }

    /** Replaces whatever the object held by records freshly built from a snapshot. */
    method Restore(s: State)
      modifies this
      ensures Valid() && fresh(Repr - {this})
      ensures Abs() == s
    {
      ghost var entryRepr, nodeRepr;
      keys, entryRepr := FreshEntries(s.keys);
      nodes, nodeRepr := FreshNodes(s.nodes);
      Repr := {this} + entryRepr + nodeRepr;
      assert Valid();
      assert KeyValues() == s.keys;
      assert NodeValues() == s.nodes;
    }

    // ---- Reads ----------------------------------------------------------------

    /** A copy of the entry object; its fragments array is the one in the catalog. */
    method GetKey(key: string) returns (r: Option<EntryRecord>)
      requires Valid()
      ensures r.Some? <==> key in keys
      ensures r.Some? ==>
        fresh(r.value) && r.value.fragments == keys[key].fragments && r.value.Value() == keys[key].Value()
    {
      if key in keys {
        var cp := new EntryRecord.ShallowCopy(keys[key]);
        r := Some(cp);
      } else {
        r := None;
      }
    }
  }

  method FreshEntries(entries: map<string, KeyEntry>) returns (m: map<string, EntryRecord>, ghost repr: set<object>)
    ensures m.Keys == entries.Keys && fresh(repr)
    ensures forall k :: k in m ==> m[k] in repr && m[k].fragments in repr && m[k].Value() == entries[k]
    ensures forall k, k' :: k in m && k' in m && k != k' ==> m[k] != m[k'] && m[k].fragments != m[k'].fragments
  {
    m, repr := map[], {};
    var left := entries.Keys;
    while left != {}
      invariant left <= entries.Keys && m.Keys == entries.Keys - left && fresh(repr)
      invariant forall k :: k in m ==> m[k] in repr && m[k].fragments in repr && m[k].Value() == entries[k]
      invariant forall k, k' :: k in m && k' in m && k != k' ==> m[k] != m[k'] && m[k].fragments != m[k'].fragments
      decreases left
    {
      var k :| k in left;
      left := left - {k};
      var r := new EntryRecord.FromValue(entries[k]);
      m, repr := m[k := r], repr + {r, r.fragments};
    }
  }

  method FreshNodes(infos: map<string, NodeInfo>) returns (m: map<string, NodeRecord>, ghost repr: set<object>)
    ensures m.Keys == infos.Keys && fresh(repr)
    ensures forall id :: id in m ==> m[id] in repr && m[id].Value() == infos[id]
    ensures forall id, id' :: id in m && id' in m && id != id' ==> m[id] != m[id']
  {
    m, repr := map[], {};
    var left := infos.Keys;
    while left != {}
      invariant left <= infos.Keys && m.Keys == infos.Keys - left && fresh(repr)
      invariant forall id :: id in m ==> m[id] in repr && m[id].Value() == infos[id]
      invariant forall id, id' :: id in m && id' in m && id != id' ==> m[id] != m[id']
      decreases left
    {
      var id :| id in left;
      left := left - {id};
      var r := new NodeRecord.FromValue(infos[id]);
      m, repr := m[id := r], repr + {r};
    }
  }

  /** Two machines that share no object, applying the same log. */
  method Follow(f: Machine, g: Machine, log: seq<Command>)
    requires f.Valid() && g.Valid() && f.Repr !! g.Repr
    modifies f.Repr, g.Repr
    ensures f.Valid() && g.Valid() && f.Repr !! g.Repr
    ensures f.Abs() == Replay(old(f.Abs()), log) && g.Abs() == Replay(old(g.Abs()), log)
  {
    f.ApplyAll(log);
    g.ApplyAll(log);
  }

  /** One machine's snapshot restored into another. */
  method Clone(f: Machine, g: Machine)
    requires f.Valid() && g !in f.Repr
    modifies g
    ensures f.Valid() && g.Valid() && f.Repr !! g.Repr && f.Repr == old(f.Repr) && fresh(g.Repr - {g})
    ensures f.Abs() == old(f.Abs()) && g.Abs() == old(f.Abs())
  {
    var snapshot := f.Snapshot();
    g.Restore(snapshot);
  }

  /** A replica restored from a snapshot at any cut, then fed the rest of the log, ends where the original does;
      the two machines share no object, so neither can disturb the other. */
  method CatchUp(f: Machine, g: Machine, prefix: seq<Command>, suffix: seq<Command>)
    requires f.Valid() && f.Abs() == EMPTY && g !in f.Repr
    modifies f.Repr, g
    ensures f.Valid() && g.Valid() && f.Repr !! g.Repr
    ensures f.Abs() == Replay(EMPTY, prefix + suffix) && g.Abs() == Replay(EMPTY, prefix + suffix)
  {
    f.ApplyAll(prefix);
    Clone(f, g);
    Follow(f, g, suffix);
    ReplayAppend(EMPTY, prefix, suffix);
  }

  /** Replica-list updates show through an earlier copy of the entry, commits do not. */
  method CopySharesFragments(m: Machine, key: string, fid: string, nodeIDs: seq<string>) returns (cp: EntryRecord)
    requires m.Valid() && key in m.keys
    modifies m.Repr
    ensures cp.Value() == Updated(old(m.KeyValues())[key], fid, nodeIDs)
    ensures m.Valid() && key in m.KeyValues() && m.KeyValues()[key] == cp.Value().(committed := true)
  {
    var r := m.GetKey(key);
    cp := r.value;
    m.Update(fid, nodeIDs);
    assert m.KeyValues()[key] == m.keys[key].Value();
    m.Commit(key);
    assert m.KeyValues()[key] == m.keys[key].Value();
  }
}
