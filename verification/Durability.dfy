/** What a read returns in the states the system can reach. */
module Durability {
  import opened Collections
  import opened Names
  import opened Catalog
  import opened Repair
  import opened Protocol
  import Headers
  import Quorum
  import Client

  /** The servers that would answer a read of the fragment, and what they would send. */
  function Replies(t: Sys, unreachable: set<string>, fid: string): map<string, Bytes> {
    map url | url in t.stores && url !in unreachable && fid in t.stores[url] :: t.stores[url][fid]
  }

  /** The upload ran to its end and was answered 201 at quorum w. */
  ghost predicate Acknowledged(p: Put, w: nat) {
    Quorum.Finished(p.fan) && Quorum.Created(p.fan, p.headerEmpty, w)
  }

  /** Two addresses at least, all different, and the replicas' fit to travel in a header. */
  predicate HonestAddrs(addrs: seq<string>) {
    |addrs| >= 2 && NoDup(addrs) && forall a :: a in addrs[1..] ==> Headers.Clean(a)
  }

  /** Honest addresses arrive in the header as they are, and differ from the primary's. */
  lemma HonestHeader(addrs: seq<string>)
    requires HonestAddrs(addrs)
    ensures Headers.NonEmpty(Headers.Split(Headers.Join(addrs[1..]))) == addrs[1..] && Headers.Join(addrs[1..]) != ""
    ensures Quorum.Distinct(addrs[0], addrs[1..]) && {addrs[0]} + ToSet(addrs[1..]) <= ToSet(addrs)
  {
    Headers.HeaderRoundTripIff(addrs[1..]);
    Headers.HeaderRoundTripIff([]);
    assert addrs[1..] != [] && forall j :: 0 <= j < |addrs| - 1 ==> addrs[1..][j] == addrs[j + 1];
  }

  lemma QuorumHolds(s: Sys, p: Put, w: nat)
    requires PutOK(s, p) && Acknowledged(p, w) && HonestAddrs(s.plan[p.fid].info.nodeAddrs)
    ensures |p.fan.holders| >= w && p.fan.holders <= ToSet(s.plan[p.fid].info.nodeAddrs)
  {
    HonestHeader(s.plan[p.fid].info.nodeAddrs);
    Quorum.HoldersCounted(p.fan, w);
  }

  /** A fragment acknowledged at quorum W stays readable: whatever recovery, rebalance, heartbeats and mark-downs do
      afterwards, with fewer than W of its planned addresses unreachable a read returns exactly the uploaded bytes. */
  lemma ReadDurability(rf: nat, before: seq<Event>, s: Sys, u: nat, w: nat, after: seq<Event>, t: Sys,
      k: string, i: nat, unreachable: set<string>, r: Result<Bytes>)
    requires RunsTo(rf, INIT, before, s) && u in s.puts && Acknowledged(s.puts[u], w)
    requires s.puts[u].fid == FragmentID(k, i) && FragmentID(k, i) in s.plan
    requires HonestAddrs(s.plan[FragmentID(k, i)].info.nodeAddrs)
    requires RunsTo(rf, s, after, t) && HasSlot(t.cat, k, i)
    requires |unreachable * ToSet(s.plan[FragmentID(k, i)].info.nodeAddrs)| < w
    requires Client.Downloads(AddrsOf(t.cat, k, i), Replies(t, unreachable, FragmentID(k, i)), r)
    ensures r == Ok(s.plan[FragmentID(k, i)].data)
  {
    InitInv(rf);
    RunKeepsInv(rf, INIT, before, s);
    RunKeepsInv(rf, s, after, t);
    assert PutOK(s, s.puts[u]);
    QuorumHolds(s, s.puts[u], w);
    StaysReadable(rf, s, t, k, i, s.puts[u].fan.holders, unreachable, w, r);
  }

  /** An upload acknowledged by as many servers as there are addresses: after any run every catalogued node holds the
      fragment, byte for byte. */
  lemma AcknowledgedByAllHold(rf: nat, before: seq<Event>, s: Sys, u: nat, after: seq<Event>, t: Sys, k: string,
      i: nat, id: string)
    requires RunsTo(rf, INIT, before, s) && u in s.puts && s.puts[u].fid == FragmentID(k, i)
    requires FragmentID(k, i) in s.plan && HonestAddrs(s.plan[FragmentID(k, i)].info.nodeAddrs)
    requires Acknowledged(s.puts[u], |s.plan[FragmentID(k, i)].info.nodeAddrs|)
    requires RunsTo(rf, s, after, t) && HasSlot(t.cat, k, i) && id in ListOf(t.cat, k, i)
    ensures exists url ::
      (id, url) in t.known && Holds(t, url, FragmentID(k, i))
      && t.stores[url][FragmentID(k, i)] == s.plan[FragmentID(k, i)].data
  {
    var fid := FragmentID(k, i);
    var addrs := s.plan[fid].info.nodeAddrs;
    InitInv(rf);
    RunKeepsInv(rf, INIT, before, s);
    RunKeepsInv(rf, s, after, t);
    assert PutOK(s, s.puts[u]);
    QuorumHolds(s, s.puts[u], |addrs|);
    NoDupCardinality(addrs);
    SubsetSize(s.puts[u].fan.holders, ToSet(addrs));
    forall url | url in t.plan[fid].info.nodeAddrs ensures Holds(t, url, fid) {
      assert Holds(s, url, fid);
    }
    RunJoin(rf, INIT, before, s, after, t);
    CataloguedNodesHold(rf, before + after, t, k, i, id);
  }

  lemma StaysReadable(rf: nat, s: Sys, t: Sys, k: string, i: nat, holders: set<string>, unreachable: set<string>,
      w: nat, r: Result<Bytes>)
    requires Inv(rf, t) && Grows(s, t) && HasSlot(t.cat, k, i) && FragmentID(k, i) in s.plan
    requires forall url :: url in holders ==> Holds(s, url, FragmentID(k, i))
    requires var addrs := ToSet(s.plan[FragmentID(k, i)].info.nodeAddrs);
      |holders| >= w && holders <= addrs && |unreachable * addrs| < w
    requires Client.Downloads(AddrsOf(t.cat, k, i), Replies(t, unreachable, FragmentID(k, i)), r)
    ensures r == Ok(s.plan[FragmentID(k, i)].data)
  {
    var fid := FragmentID(k, i);
    var up := SomeReachable(holders, unreachable, ToSet(s.plan[fid].info.nodeAddrs), w);
    assert Holds(t, up, fid);
    ReadsTheBytes(rf, t, fid, unreachable, AddrsOf(t.cat, k, i), up, r);
  }

  lemma SomeReachable(holders: set<string>, unreachable: set<string>, addrs: set<string>, w: nat) returns (up: string)
    requires |holders| >= w && holders <= addrs && |unreachable * addrs| < w
    ensures up in holders && up !in unreachable
  {
    if holders <= unreachable * addrs {
      SubsetSize(holders, unreachable * addrs);
      assert false;
    }
    up :| up in holders && up !in unreachable * addrs;
  }

  lemma ReadsTheBytes(rf: nat, t: Sys, fid: string, unreachable: set<string>, addrs: seq<string>, up: string,
      r: Result<Bytes>)
    requires Inv(rf, t) && fid in t.plan && t.plan[fid].info.nodeAddrs == addrs
    requires up in addrs && up !in unreachable && Holds(t, up, fid)
    requires Client.Downloads(addrs, Replies(t, unreachable, fid), r)
    ensures r == Ok(t.plan[fid].data)
  {
    var f := t.plan[fid].info;
    assert PlanOK(t, f);
    var j :| 0 <= j < |addrs| && addrs[j] == up;
    assert (f.nodeIDs[j], f.nodeAddrs[j]) in t.known;
    assert addrs[j] != "" && addrs[j] in Replies(t, unreachable, fid);
  }

  /** A read goes by the planned addresses, which no catalog update changes: in every reachable state it returns the
      written bytes exactly when one of those is reachable and holds the fragment, and fails otherwise, whatever copies
      recovery and rebalance have made elsewhere. */
  lemma ReadableIff(rf: nat, run: seq<Event>, t: Sys, k: string, i: nat, unreachable: set<string>, r: Result<Bytes>)
    requires RunsTo(rf, INIT, run, t) && HasSlot(t.cat, k, i)
    requires Client.Downloads(AddrsOf(t.cat, k, i), Replies(t, unreachable, FragmentID(k, i)), r)
    ensures FragmentID(k, i) in t.plan && AddrsOf(t.cat, k, i) == t.plan[FragmentID(k, i)].info.nodeAddrs
    ensures r.Ok? <==> exists url ::
      url in AddrsOf(t.cat, k, i) && url !in unreachable && Holds(t, url, FragmentID(k, i))
    ensures r.Ok? ==> r.value == t.plan[FragmentID(k, i)].data
  {
    InitInv(rf);
    RunKeepsInv(rf, INIT, run, t);
    var fid, addrs := FragmentID(k, i), AddrsOf(t.cat, k, i);
    if r.Ok? {
      var j: nat :| Client.FirstAnswer(addrs, Replies(t, unreachable, fid), j);
      assert addrs[j] in addrs && Holds(t, addrs[j], fid);
    }
    if up :| up in addrs && up !in unreachable && Holds(t, up, fid) {
      ReadsTheBytes(rf, t, fid, unreachable, addrs, up, r);
    }
  }

  /** A run after which a catalogued node holds the fragment and is reachable, and yet the read fails. */
  lemma RecoveredCopyUnread() returns (run: seq<Event>, t: Sys)
    ensures RunsTo(2, INIT, run, t) && HasSlot(t.cat, "k", 0)
    ensures "b" in ListOf(t.cat, "k", 0) && ("b", BaseURL("b")) in t.known && Holds(t, BaseURL("b"), FragmentID("k", 0))
    ensures Client.Downloads(AddrsOf(t.cat, "k", 0), Replies(t, {BaseURL("a")}, FragmentID("k", 0)),
      Err("all replicas failed"))
  {
    var f := Info(FragmentID("k", 0), "k", 0, 1, ["a"], [BaseURL("a")]);
    var s;
    run, s := RunRecovery(f);
    RunAppend(2, INIT, run, s, WriteBack(0, true));
    run, t := run + [WriteBack(0, true)], Exec(2, s, WriteBack(0, true));
    RecovererIsSane(f.id);
    assert t.stores == s.stores && t.known == s.known && t.cat == Step(s.cat, UpdateFragment(f.id, ["a", "b"]));
    assert t.cat.keys["k"].fragments[0] == f.(nodeIDs := ["a", "b"]);
    assert ["a", "b"][1] == "b";
    assert AddrsOf(t.cat, "k", 0) == [BaseURL("a")];
    assert BaseURL("a") !in Replies(t, {BaseURL("a")}, f.id);
  }

  /** Recovery's worker copies the fragment to node b. */
  lemma RunRecovery(f: Info) returns (run: seq<Event>, t: Sys)
    requires f == Info(FragmentID("k", 0), "k", 0, 1, ["a"], [BaseURL("a")])
    ensures RunsTo(2, INIT, run, t) && HasSlot(t.cat, "k", 0) && t.cat.keys["k"].fragments == [f]
    ensures t.workers == map[0 := Recoverer(f.id).(next := 1, acked := ["b"])] && ("b", BaseURL("b")) in t.known
    ensures Holds(t, BaseURL("b"), f.id)
  {
    run, t := RunBegin(f);
    assert Recoverer(f.id).acked + ["b"] == ["b"];
    RunAppend(2, INIT, run, t, CopyAcked(0));
    run, t := run + [CopyAcked(0)], Exec(2, t, CopyAcked(0));
  }

  /** Node b joins and a recovery worker picks it. */
  lemma RunBegin(f: Info) returns (run: seq<Event>, t: Sys)
    requires f == Info(FragmentID("k", 0), "k", 0, 1, ["a"], [BaseURL("a")])
    ensures RunsTo(2, INIT, run, t) && HasSlot(t.cat, "k", 0) && t.cat.keys["k"].fragments == [f]
    ensures t.workers == map[0 := Recoverer(f.id)] && CanCopy(t, Recoverer(f.id)) && ("b", BaseURL("b")) in t.known
  {
    run, t := RunOneUpload(f);
    var register, begin := NodeCommand(RegisterNode(Some(NodeInfo("b", "b", 0, 0, 0, Up)))), Begin(0, Recoverer(f.id));
    RunAppend(2, INIT, run, t, register);
    run, t := run + [register], Exec(2, t, register);
    RecovererIsSane(f.id);
    RunAppend(2, INIT, run, t, begin);
    run, t := run + [begin], Exec(2, t, begin);
  }

  lemma RecovererIsSane(fid: string)
    ensures WellBegun(2, Recoverer(fid)) && Source(Recoverer(fid)) == Some(BaseURL("a"))
      && Recoverer(fid).view.Keys == {"a", "b"}
    ensures Written(Recoverer(fid).(next := 1, acked := ["b"])) == ["a", "b"]
  {
    assert Recoverer(fid).view.Keys == {"a", "b"};
    assert Restrict(["a"], {"a", "b"}) == ["a"];
  }

  /** A recovery worker that found the fragment on node a and picked node b. */
  function Recoverer(fid: string): Worker {
    Worker(Recovery, fid, ["a"], map["a" := BaseURL("a"), "b" := BaseURL("b")], [], ["b"], 0, [])
  }

  /** One node, one fragment planned on it and uploaded to it. */
  lemma RunOneUpload(f: Info) returns (run: seq<Event>, t: Sys)
    requires f == Info(FragmentID("k", 0), "k", 0, 1, ["a"], [BaseURL("a")])
    ensures RunsTo(2, INIT, run, t) && HasSlot(t.cat, "k", 0) && t.cat.keys["k"].fragments == [f]
    ensures t.cat.nodes.Keys == {"a"} && ("a", BaseURL("a")) in t.known && (f.id, ["a"]) in t.lists
    ensures t.workers == map[] && t.stores.Keys == {BaseURL("a")} && Holds(t, BaseURL("a"), f.id)
  {
    var register := NodeCommand(RegisterNode(Some(NodeInfo("a", "a", 0, 0, 0, Up))));
    var prepare := Prepare(KeyEntry("k", 1, 1, [f], false), [[7]]);
    run, t := [], INIT;
    RunAppend(2, INIT, run, t, register);
    run, t := run + [register], Exec(2, t, register);
    RunAppend(2, INIT, run, t, prepare);
    run, t := run + [prepare], Exec(2, t, prepare);
    assert HasSlot(t.cat, "k", 0);
    ListInCatalog(t.cat, "k", 0);
    AddPlansAt(map[], [f], [[7]], f.id);
    RunAppend(2, INIT, run, t, PutBegin(0, f.id));
    run, t := run + [PutBegin(0, f.id)], Exec(2, t, PutBegin(0, f.id));
  }
}
