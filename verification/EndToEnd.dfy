/** From a value's upload to its download: what both clients read back after any run of the system. */
module EndToEnd {
  import opened Collections
  import opened Names
  import opened Catalog
  import opened Planner
  import opened Repair
  import opened Protocol
  import opened Durability
  import Layout
  import Client

  // ---- Writing --------------------------------------------------------------------------

  /** The bodies on record for the fragments of the key. */
  ghost predicate Recorded(s: Sys, k: string, bodies: seq<Bytes>) {
    forall i: nat :: i < |bodies| ==> FragmentID(k, i) in s.plan && s.plan[FragmentID(k, i)].data == bodies[i]
  }

  /** kvctl put on an entry planned for the file: it runs out of chunks exactly when the file is empty, and otherwise
      the system goes on with the file's chunks on record for the entry's fragments. */
  method KvctlPut(ghost rf: nat, ghost s: Sys, entry: KeyEntry, r: Layout.Reader)
      returns (o: Layout.PutOutcome, ghost t: Sys)
    requires EntryFits(rf, s, entry) && entry.chunkSize > 0 && Fits(|r.rest|, entry.chunkSize) && !r.end.Fault?
    requires entry.chunkSize <= MAX_INT64
      && Layout.PlannedFor(entry.fragments, entry.key, |r.rest|, entry.chunkSize)
    modifies r
    ensures o.OutOfRange? <==> old(r.rest) == []
    ensures o.Uploads? <==> old(r.rest) != []
    ensures o.Uploads? ==>
      && RunsTo(rf, s, [Prepare(entry, o.bodies)], t)
      && Recorded(t, entry.key, Layout.Uploaded(old(r.rest), entry.chunkSize))
  {
    ghost var value := r.rest;
    Layout.PutOutOfRangeIff(entry.key, value, entry.chunkSize, entry.fragments);
    o := Layout.CmdPut(entry.key, r, entry.chunkSize, entry.fragments);
    t := s;
    if o.Uploads? {
      t := PrepareRecords(rf, s, entry, o.bodies);
    }
  }

  lemma PrepareRecords(rf: nat, s: Sys, entry: KeyEntry, bodies: seq<Bytes>) returns (t: Sys)
    requires EntryFits(rf, s, entry) && |bodies| == |entry.fragments|
    ensures RunsTo(rf, s, [Prepare(entry, bodies)], t) && Recorded(t, entry.key, bodies)
  {
    t := Exec(rf, s, Prepare(entry, bodies));
    RunFirst(rf, s, Prepare(entry, bodies), [], t);
    assert [Prepare(entry, bodies)] + [] == [Prepare(entry, bodies)];
    PlansRecorded(s.plan, entry, bodies);
    forall i: nat | i < |bodies|
      ensures FragmentID(entry.key, i) in t.plan && t.plan[FragmentID(entry.key, i)].data == bodies[i]
    {
      assert entry.fragments[i].id == FragmentID(entry.key, i);
    }
  }

  // ---- Reading --------------------------------------------------------------------------

  /** A fragment's upload was answered 201 at quorum w, over honest addresses of which fewer than w are unreachable. */
  ghost predicate FragmentAcked(s: Sys, u: nat, w: nat, fid: string, unreachable: set<string>) {
    && u in s.puts && s.puts[u].fid == fid && Acknowledged(s.puts[u], w)
    && fid in s.plan && HonestAddrs(s.plan[fid].info.nodeAddrs)
    && |unreachable * ToSet(s.plan[fid].info.nodeAddrs)| < w
  }

  /** The same, of an upload of that body. */
  ghost predicate FragmentSafe(s: Sys, u: nat, w: nat, fid: string, body: Bytes, unreachable: set<string>) {
    FragmentAcked(s, u, w, fid, unreachable) && s.plan[fid].data == body
  }

  /** Every fragment of the value was uploaded safely, by the uploads listed. */
  ghost predicate ValueSafe(s: Sys, puts: seq<nat>, w: nat, k: string, bodies: seq<Bytes>, unreachable: set<string>) {
    && |puts| == |bodies|
    && forall i: nat :: i < |puts| ==> FragmentSafe(s, puts[i], w, FragmentID(k, i), bodies[i], unreachable)
  }

  /** What a put has on record is what its acknowledged uploads stored, whatever ran in between. */
  lemma RecordedIsSafe(rf: nat, before: seq<Event>, t: Sys, k: string, bodies: seq<Bytes>, mid: seq<Event>, s: Sys,
      puts: seq<nat>, w: nat, unreachable: set<string>)
    requires RunsTo(rf, INIT, before, t) && Recorded(t, k, bodies) && RunsTo(rf, t, mid, s)
    requires |puts| == |bodies|
      && forall i: nat :: i < |puts| ==> FragmentAcked(s, puts[i], w, FragmentID(k, i), unreachable)
    ensures RunsTo(rf, INIT, before + mid, s) && ValueSafe(s, puts, w, k, bodies, unreachable)
  {
    InitInv(rf);
    RunKeepsInv(rf, INIT, before, t);
    RunKeepsInv(rf, t, mid, s);
    RunJoin(rf, INIT, before, t, mid, s);
  }

  /** The entry of the key lists as many fragments as the value has bodies. */
  predicate EntryOf(cat: State, k: string, count: nat) {
    k in cat.keys && |cat.keys[k].fragments| == count
  }

  function EntryAddrs(cat: State, k: string): (addrs: seq<seq<string>>)
    requires k in cat.keys
    ensures |addrs| == |cat.keys[k].fragments|
    ensures forall i: nat :: i < |addrs| ==> HasSlot(cat, k, i) && addrs[i] == AddrsOf(cat, k, i)
  {
    seq(|cat.keys[k].fragments|, i requires 0 <= i < |cat.keys[k].fragments| => cat.keys[k].fragments[i].nodeAddrs)
  }

  function EntryReplies(t: Sys, unreachable: set<string>, k: string, count: nat): (r: seq<map<string, Bytes>>)
    ensures |r| == count && forall i: nat :: i < count ==> r[i] == Replies(t, unreachable, FragmentID(k, i))
  {
    seq(count, i requires 0 <= i < count => Replies(t, unreachable, FragmentID(k, i)))
  }

  /** After any run every read of a safely uploaded value's fragment gives its body, and the servers that answer for it
      answer with nothing else. */
  lemma FragmentReadable(rf: nat, before: seq<Event>, s: Sys, u: nat, w: nat, body: Bytes, after: seq<Event>, t: Sys,
      k: string, i: nat, unreachable: set<string>)
    requires RunsTo(rf, INIT, before, s) && FragmentSafe(s, u, w, FragmentID(k, i), body, unreachable)
    requires RunsTo(rf, s, after, t) && HasSlot(t.cat, k, i)
    ensures AddrsOf(t.cat, k, i) != []
    ensures !Layout.Unanswered(AddrsOf(t.cat, k, i), Replies(t, unreachable, FragmentID(k, i)))
    ensures forall url :: url in Replies(t, unreachable, FragmentID(k, i)) ==>
      Replies(t, unreachable, FragmentID(k, i))[url] == body
    ensures forall r :: Client.Downloads(AddrsOf(t.cat, k, i), Replies(t, unreachable, FragmentID(k, i)), r) ==>
      r == Ok(body)
  {
    var fid, addrs, replies := FragmentID(k, i), AddrsOf(t.cat, k, i), Replies(t, unreachable, FragmentID(k, i));
    forall r | Client.Downloads(addrs, replies, r) ensures r == Ok(body) {
      ReadDurability(rf, before, s, u, w, after, t, k, i, unreachable, r);
    }
    if Layout.Unanswered(addrs, replies) {
      assert Client.Downloads(addrs, replies, Err(""));
    }
    RunJoin(rf, INIT, before, s, after, t);
    CatalogSound(rf, before + after, t, k, i);
    BodiesServed(rf, before, s, after, t, fid, unreachable);
  }

  lemma BodiesServed(rf: nat, before: seq<Event>, s: Sys, after: seq<Event>, t: Sys, fid: string,
      unreachable: set<string>)
    requires RunsTo(rf, INIT, before, s) && RunsTo(rf, s, after, t) && fid in s.plan
    ensures forall url :: url in Replies(t, unreachable, fid) ==>
      Replies(t, unreachable, fid)[url] == s.plan[fid].data
  {
    InitInv(rf);
    RunKeepsInv(rf, INIT, before, s);
    RunKeepsInv(rf, s, after, t);
    forall url | url in Replies(t, unreachable, fid) ensures Replies(t, unreachable, fid)[url] == s.plan[fid].data {
      assert Holds(t, url, fid);
    }
  }

  lemma EntryReadable(rf: nat, before: seq<Event>, s: Sys, puts: seq<nat>, w: nat, bodies: seq<Bytes>,
      after: seq<Event>, t: Sys, k: string, unreachable: set<string>)
    requires RunsTo(rf, INIT, before, s) && ValueSafe(s, puts, w, k, bodies, unreachable)
    requires RunsTo(rf, s, after, t) && EntryOf(t.cat, k, |bodies|)
    ensures var addrs, replies := EntryAddrs(t.cat, k), EntryReplies(t, unreachable, k, |bodies|);
      && (forall i :: 0 <= i < |addrs| ==> addrs[i] != []) && !Layout.Starved(addrs, replies)
      && Layout.Serve(replies, bodies)
  {
    var addrs, replies := EntryAddrs(t.cat, k), EntryReplies(t, unreachable, k, |bodies|);
    forall i: nat | i < |bodies|
      ensures addrs[i] != [] && !Layout.Unanswered(addrs[i], replies[i])
      ensures forall url :: url in replies[i] ==> replies[i][url] == bodies[i]
    {
      assert HasSlot(t.cat, k, i);
      FragmentReadable(rf, before, s, puts[i], w, bodies[i], after, t, k, i, unreachable);
    }
  }

  /** kvctl get after any run: with every fragment acknowledged at quorum W and fewer than W of its addresses
      unreachable, what it writes out is the value. */
  method KvctlGet(ghost rf: nat, ghost before: seq<Event>, ghost s: Sys, ghost puts: seq<nat>, ghost w: nat,
      ghost value: Bytes, ghost c: nat, ghost after: seq<Event>, ghost t: Sys, ghost k: string,
      ghost unreachable: set<string>, results: seq<Result<Bytes>>)
      returns (r: Result<Bytes>)
    requires c > 0 && RunsTo(rf, INIT, before, s) && ValueSafe(s, puts, w, k, Layout.Uploaded(value, c), unreachable)
    requires RunsTo(rf, s, after, t) && EntryOf(t.cat, k, |puts|)
    requires Layout.Reads(EntryAddrs(t.cat, k), EntryReplies(t, unreachable, k, |puts|), results)
    ensures r == Ok(value)
  {
    EntryReadable(rf, before, s, puts, w, Layout.Uploaded(value, c), after, t, k, unreachable);
    Layout.ReadersAgree(value, c, EntryAddrs(t.cat, k), EntryReplies(t, unreachable, k, |puts|), results);
    r := Layout.CollectAndWrite(results, None);
  }

  /** GetValue after any run, under the same conditions. */
  method HarnessGet(ghost rf: nat, ghost before: seq<Event>, ghost s: Sys, ghost puts: seq<nat>, ghost w: nat,
      ghost value: Bytes, ghost after: seq<Event>, ghost t: Sys, ghost k: string, ghost unreachable: set<string>,
      totalSize: nat, chunkSize: int, addrs: seq<seq<string>>, replies: seq<map<string, Bytes>>)
      returns (r: Result<Bytes>)
    requires totalSize == |value| && RunsTo(rf, INIT, before, s)
    requires ValueSafe(s, puts, w, k, Layout.Uploaded(value, ChunkSizeOr(chunkSize)), unreachable)
    requires RunsTo(rf, s, after, t) && EntryOf(t.cat, k, |puts|)
    requires addrs == EntryAddrs(t.cat, k) && replies == EntryReplies(t, unreachable, k, |puts|)
    ensures r == Ok(value)
  {
    EntryReadable(rf, before, s, puts, w, Layout.Uploaded(value, ChunkSizeOr(chunkSize)), after, t, k, unreachable);
    r := Layout.GetValue(totalSize, chunkSize, addrs, replies, value);
  }

  /** From a put to a get: once the bodies are on record, every fragment is acknowledged at quorum W in some later
      state, and fewer than W of its addresses are unreachable after whatever follows, kvctl's reads all succeed and
      join up to the value. */
  lemma RoundTrip(rf: nat, before: seq<Event>, r: Sys, k: string, value: Bytes, c: nat, mid: seq<Event>, s: Sys,
      puts: seq<nat>, w: nat, after: seq<Event>, t: Sys, unreachable: set<string>, results: seq<Result<Bytes>>)
    requires c > 0 && RunsTo(rf, INIT, before, r) && Recorded(r, k, Layout.Uploaded(value, c)) && RunsTo(rf, r, mid, s)
    requires |puts| == |Layout.Uploaded(value, c)|
      && forall i: nat :: i < |puts| ==> FragmentAcked(s, puts[i], w, FragmentID(k, i), unreachable)
    requires RunsTo(rf, s, after, t) && EntryOf(t.cat, k, |puts|)
    requires Layout.Reads(EntryAddrs(t.cat, k), EntryReplies(t, unreachable, k, |puts|), results)
    ensures (forall i :: 0 <= i < |results| ==> results[i].Ok?) && Layout.Concat(Layout.Bodies(results)) == value
  {
    RecordedIsSafe(rf, before, r, k, Layout.Uploaded(value, c), mid, s, puts, w, unreachable);
    EntryReadable(rf, before + mid, s, puts, w, Layout.Uploaded(value, c), after, t, k, unreachable);
    Layout.ReadersAgree(value, c, EntryAddrs(t.cat, k), EntryReplies(t, unreachable, k, |puts|), results);
  }
}
