/** How a value is cut into fragments and put together again, by the splitter, the planner and both clients. */
module Layout {
  import opened Collections
  import opened Names
  import opened Catalog
  import opened Planner
  import Client

  // ---- Chunks ---------------------------------------------------------------------

  /** The value cut every c bytes. */
  function Chunks(data: Bytes, c: nat): (r: seq<Bytes>)
    requires c > 0
    ensures data == [] <==> r == []
    decreases |data|
  {
    if data == [] then []
    else if |data| <= c then [data]
    else [data[..c]] + Chunks(data[c..], c)
  }

  function Concat(parts: seq<Bytes>): Bytes {
    if parts == [] then [] else Concat(parts[..|parts| - 1]) + parts[|parts| - 1]
  }

  lemma {:induction false} ConcatAppend(a: seq<Bytes>, b: seq<Bytes>)
    ensures Concat(a + b) == Concat(a) + Concat(b)
  {
    if b == [] {
      assert a + b == a;
    } else {
      assert (a + b)[..|a + b| - 1] == a + b[..|b| - 1];
      ConcatAppend(a, b[..|b| - 1]);
    }
  }

  lemma ConcatOne(p: Bytes)
    ensures Concat([p]) == p
  {
    assert [p][..0] == [];
  }

  lemma {:induction false} ChunksConcat(data: Bytes, c: nat)
    requires c > 0
    ensures Concat(Chunks(data, c)) == data
    decreases |data|
  {
    if |data| > c {
      ChunksConcat(data[c..], c);
      ConcatAppend([data[..c]], Chunks(data[c..], c));
      ConcatOne(data[..c]);
    } else if data != [] {
      ConcatOne(data);
    }
  }

  /** Whole chunks can be cut off the front first. */
  lemma {:induction false} ChunksAppend(front: Bytes, rest: Bytes, c: nat, n: nat)
    requires c > 0 && |front| == n * c
    ensures Chunks(front + rest, c) == Chunks(front, c) + Chunks(rest, c)
    decreases n
  {
    if n == 0 {
      assert front + rest == rest;
    } else {
      ProductMonotone(1, n, c);
      assert n * c == (n - 1) * c + c;
      ChunksAppend(front[c..], rest, c, n - 1);
      ChunksFirst(front, c);
      ChunksFirst(front + rest, c);
      assert (front + rest)[c..] == front[c..] + rest && (front + rest)[..c] == front[..c];
    }
  }

  lemma ChunksFirst(data: Bytes, c: nat)
    requires c > 0 && |data| >= c
    ensures Chunks(data, c) == [data[..c]] + Chunks(data[c..], c)
  {
    if |data| == c {
      assert data[..c] == data && data[c..] == [];
    }
  }

  // ---- Splitting a reader -----------------------------------------------------------

  /** How a reader ends once its bytes are used up. */
  datatype End = EOF | UnexpectedEOF | Fault(message: string)

  /** A reader that hands out its bytes in pieces of whatever size it likes, now and then none at all. */
  class Reader {
    var rest: Bytes
    var stalls: nat
    const end: End

    constructor (data: Bytes, stalls: nat, end: End)
      ensures rest == data && this.end == end
    {
      this.rest, this.stalls := data, stalls;
      this.end := end;
    }

    /** Fills some of the buffer from position `from` on, possibly with the end along with the last bytes; it comes back
        with nothing and no end only finitely often. */
    method Read(buf: array<byte>, from: nat) returns (n: nat, err: Option<End>)
      requires from < buf.Length
      modifies this, buf
      ensures from + n <= buf.Length && n <= |old(rest)| && rest == old(rest)[n..]
      ensures buf[..from + n] == old(buf[..from]) + old(rest)[..n]
      ensures err.Some? ==> rest == [] && err.value == end
      ensures n == 0 && err.None? ==> stalls < old(stalls)
      ensures stalls <= old(stalls)
    {
      var idle: bool := *;
      if idle && stalls > 0 {
        stalls := stalls - 1;
        return 0, None;
      }
      if rest == [] {
        return 0, Some(end);
      }
      n :| 0 < n <= buf.Length - from && n <= |rest|;
      for i := 0 to n
        invariant rest == old(rest) && stalls == old(stalls) && buf[..from + i] == old(buf[..from]) + rest[..i]
      {
        buf[from + i] := rest[i];
      }
      rest := rest[n..];
      var atOnce: bool := *;
      err := if rest == [] && atOnce then Some(end) else None;
    }

    /** io.ReadFull. */
    method ReadFull(buf: array<byte>) returns (n: nat, err: Option<End>)
      requires buf.Length > 0
      modifies this, buf
      ensures n == Min(buf.Length, |old(rest)|) && buf[..n] == old(rest)[..n] && rest == old(rest)[n..]
      ensures n == buf.Length ==> err == None
      ensures n == 0 ==> err == Some(end)
      ensures 0 < n < buf.Length ==> err == Some(if end.EOF? then UnexpectedEOF else end)
    {
      n, err := 0, None;
      while n < buf.Length && err == None
        invariant n <= buf.Length && n <= |old(rest)| && rest == old(rest)[n..] && buf[..n] == old(rest)[..n]
        invariant err.Some? ==> rest == [] && err.value == end
        decreases buf.Length - n, stalls, err == None
      {
        ghost var m := n;
        var got;
        got, err := Read(buf, n);
        n := n + got;
        assert old(rest)[..n] == old(rest)[..m] + old(rest)[m..][..got];
      }
      if n >= buf.Length {
        err := None;
      } else if n > 0 && err == Some(EOF) {
        err := Some(UnexpectedEOF);
      }
    }
  }

  datatype SplitPlan = SplitPlan(key: string, totalSize: nat, chunkSize: nat, fragments: seq<Info>)

  /** The fragment infos Split records for a list of chunks. */
  ghost predicate Describes(fragments: seq<Info>, key: string, chunks: seq<Bytes>) {
    && |fragments| == |chunks|
    && forall i: nat :: i < |chunks| ==> fragments[i] == Info(FragmentID(key, i), key, i, |chunks[i]|, [], [])
  }

  lemma DescribesOneMore(fragments: seq<Info>, key: string, chunks: seq<Bytes>, buf: Bytes)
    requires Describes(fragments, key, chunks)
    ensures Describes(fragments + [Info(FragmentID(key, |chunks|), key, |chunks|, |buf|, [], [])], key, chunks + [buf])
  {
  }

  /** The plan lists the chunks and counts their bytes. */
  ghost predicate Records(plan: SplitPlan, chunks: seq<Bytes>) {
    Describes(plan.fragments, plan.key, chunks) && plan.totalSize == |Concat(chunks)|
  }

  /** One more chunk in the plan, with the next index. */
  method Record(plan: SplitPlan, ghost chunks: seq<Bytes>, chunk: Bytes) returns (more: SplitPlan)
    requires Records(plan, chunks)
    ensures Records(more, chunks + [chunk]) && more.key == plan.key && more.chunkSize == plan.chunkSize
  {
    DescribesOneMore(plan.fragments, plan.key, chunks, chunk);
    ConcatOneMore(chunks, chunk);
    var index := |plan.fragments|;
    more := plan.(fragments := plan.fragments + [Info(FragmentID(plan.key, index), plan.key, index, |chunk|, [], [])],
                  totalSize := plan.totalSize + |chunk|);
  }

  /** The callback fails on the chunk of this index, if there is such a chunk. */
  predicate Refused(failAt: Option<nat>, all: seq<Bytes>) {
    failAt.Some? && failAt.value < |all|
  }

  /** The chunks the callback gets to see. */
  function Delivered(failAt: Option<nat>, all: seq<Bytes>): seq<Bytes> {
    if Refused(failAt, all) then all[..failAt.value + 1] else all
  }

  /** Split. However the reader breaks up its reads into the one buffer, the chunks are the value cut every c bytes, up
      to the first the callback refuses; the only other error is a reader fault. A reader that stops early with
      UnexpectedEOF is taken for a complete one. */
  method Split(key: string, r: Reader, chunkSize: int, failAt: Option<nat>)
      returns (plan: SplitPlan, chunks: seq<Bytes>, err: Option<string>)
    modifies r
    ensures plan.key == key && plan.chunkSize == if chunkSize <= 0 then 8388608 else chunkSize
    ensures chunks == Delivered(failAt, Chunks(old(r.rest), plan.chunkSize)) && Records(plan, chunks)
    ensures err.Some? <==> Refused(failAt, Chunks(old(r.rest), plan.chunkSize)) || r.end.Fault?
  {
    var c := ChunkSizeOr(chunkSize);
    var buf := new byte[c];
    plan := SplitPlan(key, 0, c, []);
    chunks := [];
    var index := 0;
    ghost var data, done: nat := r.rest, 0;
    while true
      invariant fresh(buf) && buf.Length == c && done == index * c <= |data| && r.rest == data[done..]
      invariant chunks == Chunks(data[..done], c) && |chunks| == index
      invariant plan.key == key && plan.chunkSize == c && Records(plan, chunks)
      invariant failAt.Some? ==> index <= failAt.value
      decreases |r.rest|
    {
      ghost var before, left := chunks, r.rest;
      var n, e := r.ReadFull(buf);
      var chunk := buf[..n];
      if n > 0 {
        plan := Record(plan, chunks, chunk);
        chunks := chunks + [chunk];
        if failAt == Some(index) {
          ReadSoFar(data, c, index, done, before, left, chunk);
          return plan, chunks, Some("callback");
        }
      }
      if e == Some(EOF) || e == Some(UnexpectedEOF) {
        LastRead(data, c, index, done, before, left, chunk, chunks);
        return plan, chunks, None;
      }
      if e.Some? {
        LastRead(data, c, index, done, before, left, chunk, chunks);
        return plan, chunks, Some("reading input");
      }
      FullRead(data, c, index, done, before, left, chunk);
      index := index + 1;
      done := done + c;
    }
  }

  lemma ConcatOneMore(parts: seq<Bytes>, p: Bytes)
    ensures Concat(parts + [p]) == Concat(parts) + p
  {
    assert (parts + [p])[..|parts|] == parts;
  }

  lemma ReadSoFar(data: Bytes, c: nat, index: nat, done: nat, before: seq<Bytes>, left: Bytes, buf: Bytes)
    requires c > 0 && done == index * c <= |data| && left == data[done..] && before == Chunks(data[..done], c)
    requires |before| == index && buf == left[..Min(c, |left|)] && buf != []
    ensures index < |Chunks(data, c)| && before + [buf] == Chunks(data, c)[..index + 1]
  {
    if |buf| == c {
      FullRead(data, c, index, done, before, left, buf);
      assert data == data[..done + c] + data[done + c..];
      ChunksAppend(data[..done + c], data[done + c..], c, index + 1);
    } else {
      LastRead(data, c, index, done, before, left, buf, before + [buf]);
    }
  }

  lemma FullRead(data: Bytes, c: nat, index: nat, done: nat, before: seq<Bytes>, left: Bytes, buf: Bytes)
    requires c > 0 && done == index * c <= |data| && left == data[done..] && before == Chunks(data[..done], c)
    requires |buf| == c <= |left| && buf == left[..c]
    ensures done + c == (index + 1) * c <= |data| && left[c..] == data[done + c..]
    ensures before + [buf] == Chunks(data[..done + c], c)
  {
    assert data[..done + c] == data[..done] + buf;
    ChunksAppend(data[..done], buf, c, index);
    assert Chunks(buf, c) == [buf];
  }

  lemma LastRead(data: Bytes, c: nat, index: nat, done: nat, before: seq<Bytes>, left: Bytes, buf: Bytes,
      chunks: seq<Bytes>)
    requires c > 0 && done == index * c <= |data| && left == data[done..] && before == Chunks(data[..done], c)
    requires buf == left && |buf| <= c && chunks == (if |buf| > 0 then before + [buf] else before)
    ensures chunks == Chunks(data, c)
  {
    assert data == data[..done] + buf;
    ChunksAppend(data[..done], buf, c, index);
  }

  // ---- Assembling ---------------------------------------------------------------------

  /** The stored bodies of a list of fragments, joined in order. */
  function Gather(fragments: seq<Info>, fetch: map<string, Bytes>): Bytes
    requires forall f :: f in fragments ==> f.id in fetch
  {
    if fragments == [] then []
    else
      var last := fragments[|fragments| - 1];
      assert last in fragments;
      Gather(fragments[..|fragments| - 1], fetch) + fetch[last.id]
  }

  /** Assemble: writes the fragments in order and stops at the first that cannot be fetched or written; `failAt` is the
      fragment whose write fails, if one does. */
  method Assemble(fragments: seq<Info>, fetch: map<string, Bytes>, failAt: Option<nat>) returns (out: Bytes, err: bool)
    ensures err <==> exists i: nat :: i < |fragments| && (fragments[i].id !in fetch || failAt == Some(i))
    ensures !err ==> (forall f :: f in fragments ==> f.id in fetch) && out == Gather(fragments, fetch)
  {
    out := [];
    for i := 0 to |fragments|
      invariant forall j :: 0 <= j < i ==> fragments[j].id in fetch && failAt != Some(j)
      invariant out == Gather(fragments[..i], fetch)
    {
      if fragments[i].id !in fetch {
        return out, true;
      }
      if failAt == Some(i) {
        return out, true;
      }
      assert fragments[..i + 1][..i] == fragments[..i];
      out := out + fetch[fragments[i].id];
    }
    assert fragments[..|fragments|] == fragments;
    err := false;
  }

  lemma {:induction false} GatherConcat(fragments: seq<Info>, fetch: map<string, Bytes>, chunks: seq<Bytes>)
    requires |fragments| == |chunks| && forall i :: 0 <= i < |chunks| ==>
      fragments[i].id in fetch && fetch[fragments[i].id] == chunks[i]
    ensures (forall f :: f in fragments ==> f.id in fetch) && Gather(fragments, fetch) == Concat(chunks)
  {
    if chunks != [] {
      GatherConcat(fragments[..|fragments| - 1], fetch, chunks[..|chunks| - 1]);
    }
  }

  /** Assemble after Split is the identity. */
  lemma AssembleSplit(key: string, data: Bytes, c: nat, fragments: seq<Info>, fetch: map<string, Bytes>)
    requires c > 0 && Describes(fragments, key, Chunks(data, c))
    requires forall i: nat :: i < |fragments| ==>
      FragmentID(key, i) in fetch && fetch[FragmentID(key, i)] == Chunks(data, c)[i]
    ensures (forall f :: f in fragments ==> f.id in fetch) && Gather(fragments, fetch) == data
  {
    GatherConcat(fragments, fetch, Chunks(data, c));
    ChunksConcat(data, c);
  }

  // ---- The planner agrees with the splitter ---------------------------------------------

  lemma SliceShift(data: Bytes, c: nat, from: nat, to: nat)
    requires from <= to && to + c <= |data|
    ensures data[c..][from..to] == data[from + c..to + c]
  {
  }

  lemma {:induction false} ChunkAt(data: Bytes, c: nat, i: nat)
    requires c > 0 && i < |Chunks(data, c)|
    ensures i * c < |data| && Chunks(data, c)[i] == data[i * c..Min(i * c + c, |data|)]
    decreases i
  {
    if i > 0 {
      ChunkAt(data[c..], c, i - 1);
      var from := (i - 1) * c;
      assert i * c == from + c;
      SliceShift(data, c, from, Min(from + c, |data| - c));
    }
  }

  lemma {:induction false} ChunkCount(data: Bytes, c: nat)
    requires c > 0 && data != []
    ensures |Chunks(data, c)| == (|data| - 1) / c + 1
    decreases |data|
  {
    if |data| <= c {
      SmallQuotient(|data| - 1, c);
    } else {
      ChunkCount(data[c..], c);
      AddOneChunk(|data| - c - 1, c);
    }
  }

  /** For the same value the planner and the splitter agree on count and sizes exactly when the value is not empty. */
  lemma PlannerEqualsSplitterIff(data: Bytes, c: Int64)
    requires Fits(|data|, c)
    ensures FragmentCount(|data|, c) == |Chunks(data, c)| <==> data != []
    ensures forall i: nat :: i < |Chunks(data, c)| ==>
      |Chunks(data, c)[i]| == FragmentSize(|data|, c, FragmentCount(|data|, c), i)
  {
    CountIsCeiling(|data|, c);
    if data != [] {
      ChunkCount(data, c);
      var count := FragmentCount(|data|, c);
      forall i: nat | i < |Chunks(data, c)| ensures |Chunks(data, c)[i]| == FragmentSize(|data|, c, count, i) {
        ChunkAt(data, c, i);
        LastChunk(|data|, c);
        if i < count - 1 {
          NotLast(|data|, c, count, i);
        }
      }
    }
  }

  /** The infos PrepareKey plans for a value of that size. */
  ghost predicate PlannedFor(fragments: seq<Info>, key: string, total: Int64, c: Int64)
    requires c > 0
  {
    && |fragments| == FragmentCount(total, c)
    && forall i: nat :: i < |fragments| ==>
      fragments[i].id == FragmentID(key, i) && fragments[i].index == i
      && fragments[i].size == FragmentSize(total, c, |fragments|, i)
  }

  /** The plan names exactly the fragments the splitter yields, with the same ids, indices and sizes, when the value is
      not empty; when it is, the plan has a fragment too many. */
  lemma PlanMatchesSplitIff(key: string, data: Bytes, c: Int64, planned: seq<Info>, split: seq<Info>)
    requires Fits(|data|, c) && PlannedFor(planned, key, |data|, c) && Describes(split, key, Chunks(data, c))
    ensures |planned| == |split| <==> data != []
    ensures forall i: nat :: i < |split| ==>
      i < |planned| && planned[i].id == split[i].id && planned[i].index == split[i].index
      && planned[i].size == split[i].size
  {
    PlannerEqualsSplitterIff(data, c);
  }

  lemma NotLast(total: nat, c: nat, count: nat, i: nat)
    requires c > 0 && i < count - 1 && total > (count - 1) * c
    ensures i * c + c <= total
  {
    assert i * c + c == (i + 1) * c;
    ProductMonotone(i + 1, count - 1, c);
  }

  // ---- The second client: slices by offset ----------------------------------------------

  /** PutValue's slice for a planned fragment. */
  function OffsetSlice(data: Bytes, c: nat, index: nat, size: nat): Bytes
    requires index * c <= |data|
  {
    data[index * c..Min(index * c + size, |data|)]
  }

  lemma OffsetSliceIsChunk(data: Bytes, c: nat, i: nat, size: nat)
    requires c > 0 && i < |Chunks(data, c)| && size == |Chunks(data, c)[i]|
    ensures i * c <= |data| && OffsetSlice(data, c, i, size) == Chunks(data, c)[i]
  {
    ChunkAt(data, c, i);
    SliceBySize(data, i * c, c, size);
  }

  /** Slicing by offset gives the splitter's chunks, for every planned fragment of a non-empty value. */
  lemma OffsetSlicesAreChunks(data: Bytes, c: Int64, i: nat, size: int)
    requires data != [] && Fits(|data|, c) && i < FragmentCount(|data|, c)
    requires size == FragmentSize(|data|, c, FragmentCount(|data|, c), i)
    ensures i < |Chunks(data, c)| && i * c <= |data| && size >= 0
    ensures OffsetSlice(data, c, i, size) == Chunks(data, c)[i]
  {
    PlannerEqualsSplitterIff(data, c);
    OffsetSliceIsChunk(data, c, i, |Chunks(data, c)[i]|);
  }

  /** The bodies stored for a value: its chunks, and one empty body for an empty value. */
  function Uploaded(data: Bytes, c: nat): (r: seq<Bytes>)
    requires c > 0
    ensures r != []
  {
    if data == [] then [[]] else Chunks(data, c)
  }

  lemma UploadedConcat(data: Bytes, c: nat)
    requires c > 0
    ensures Concat(Uploaded(data, c)) == data
  {
    if data == [] {
      ConcatOne([]);
    } else {
      ChunksConcat(data, c);
    }
  }

  /** PutValue: the body it uploads for each planned fragment, or none for a fragment without addresses. */
  method PutValue(key: string, data: Bytes, chunkSize: Int64, fragments: seq<Info>) returns (bodies: seq<Option<Bytes>>)
    requires Fits(|data|, ChunkSizeOr(chunkSize)) && PlannedFor(fragments, key, |data|, ChunkSizeOr(chunkSize))
    ensures |bodies| == |fragments| == |Uploaded(data, ChunkSizeOr(chunkSize))|
    ensures forall k :: 0 <= k < |bodies| ==>
      bodies[k] == if fragments[k].nodeAddrs == [] then None else Some(Uploaded(data, ChunkSizeOr(chunkSize))[k])
  {
    var c := ChunkSizeOr(chunkSize);
    bodies := [];
    if data == [] {
      EmptyValue(c);
    } else {
      PlannerEqualsSplitterIff(data, c);
    }
    for k := 0 to |fragments|
      invariant |bodies| == k && |fragments| == |Uploaded(data, c)|
      invariant forall j :: 0 <= j < k ==>
        bodies[j] == if fragments[j].nodeAddrs == [] then None else Some(Uploaded(data, c)[j])
    {
      if data != [] {
        OffsetSlicesAreChunks(data, c, k, fragments[k].size);
      }
      var start := fragments[k].index * c;
      var end := start + fragments[k].size;
      if end > |data| {
        end := |data|;
      }
      var chunk := data[start..end];
      bodies := bodies + [if |fragments[k].nodeAddrs| == 0 then None else Some(chunk)];
    }
  }

  lemma SliceBySize(data: Bytes, from: nat, c: nat, size: nat)
    requires from <= |data| && size == Min(from + c, |data|) - from
    ensures data[from..Min(from + size, |data|)] == data[from..Min(from + c, |data|)]
  {
  }

  /** On an empty value the clients part ways: one fragment is planned, the offset client uploads an empty body for it,
      the splitter has no chunk to send. */
  lemma EmptyValue(c: Int64)
    requires 0 < c
    ensures FragmentCount(0, c) == 1 && Chunks([], c) == [] && OffsetSlice([], c, 0, FragmentSize(0, c, 1, 0)) == []
  {
    SmallQuotient(c - 1, c);
    SmallQuotient(0, c);
  }

  // ---- The first client: chunks by index --------------------------------------------------

  datatype PutOutcome = Uploads(bodies: seq<Bytes>) | SplitFailed | OutOfRange

  /** cmdPut: splits the file and gives chunk i to planned fragment i, whether or not there is one. */
  method CmdPut(key: string, r: Reader, chunkSize: int, planned: seq<Info>) returns (o: PutOutcome)
    modifies r
    ensures o.SplitFailed? <==> r.end.Fault?
    ensures !r.end.Fault? ==> (o.OutOfRange? <==> |planned| > |Chunks(old(r.rest), ChunkSizeOr(chunkSize))|)
    ensures o.Uploads? ==>
      |planned| <= |Chunks(old(r.rest), ChunkSizeOr(chunkSize))|
      && o.bodies == Chunks(old(r.rest), ChunkSizeOr(chunkSize))[..|planned|]
  {
    var _, chunks, err := Split(key, r, chunkSize, None);
    if err.Some? {
      return SplitFailed;
    }
    var bodies: seq<Bytes> := [];
    for i := 0 to |planned|
      invariant i <= |chunks| && bodies == chunks[..i]
    {
      if i >= |chunks| {
        return OutOfRange;
      }
      TakeStep(chunks, i);
      bodies := bodies + [chunks[i]];
    }
    o := Uploads(bodies);
  }

  /** Planned for the file's size, the put runs out of chunks exactly on an empty file; otherwise every chunk goes to
      its fragment. */
  lemma PutOutOfRangeIff(key: string, data: Bytes, c: Int64, planned: seq<Info>)
    requires Fits(|data|, c) && PlannedFor(planned, key, |data|, c)
    ensures |planned| > |Chunks(data, c)| <==> data == []
    ensures data != [] ==> |planned| == |Chunks(data, c)| && Chunks(data, c)[..|planned|] == Uploaded(data, c)
  {
    PlannerEqualsSplitterIff(data, c);
    CountIsCeiling(|data|, c);
  }

  // ---- Reading back -----------------------------------------------------------------------

  function Below(n: nat): (r: set<nat>)
    ensures forall i: nat :: i in r <==> i < n
  {
    if n == 0 then {} else Below(n - 1) + {n - 1}
  }

  /** The bodies of the results, nothing standing for an error. */
  function Bodies(results: seq<Result<Bytes>>): (r: seq<Bytes>)
    ensures |r| == |results|
    ensures forall i :: 0 <= i < |results| ==> r[i] == if results[i].Ok? then results[i].value else []
  {
    seq(|results|, i requires 0 <= i < |results| => if results[i].Ok? then results[i].value else [])
  }

  /** kvctl get: results arrive on a channel in any order, are kept by index, and are written out in index order;
      `failAt` is the fragment whose write fails, if one does. */
  method CollectAndWrite(results: seq<Result<Bytes>>, failAt: Option<nat>) returns (r: Result<Bytes>)
    ensures r.Ok? <==> forall i: nat :: i < |results| ==> results[i].Ok? && failAt != Some(i)
    ensures r.Ok? ==> r.value == Concat(Bodies(results))
  {
    var fetches: map<nat, Bytes> := map[];
    var inFlight := Below(|results|);
    while inFlight != {}
      invariant forall i :: i in inFlight ==> 0 <= i < |results|
      invariant forall i: nat :: i < |results| && i !in inFlight ==> i in fetches && results[i] == Ok(fetches[i])
      decreases inFlight
    {
      var i :| i in inFlight;
      inFlight := inFlight - {i};
      if results[i].Err? {
        return Err(results[i].message);
      }
      fetches := fetches[i := results[i].value];
    }
    ghost var bodies := Bodies(results);
    var out: Bytes := [];
    for i := 0 to |results|
      invariant out == Concat(bodies[..i]) && forall j: nat :: j < i ==> failAt != Some(j)
    {
      if failAt == Some(i) {
        return Err("writing output");
      }
      assert bodies[..i + 1][..i] == bodies[..i];
      out := out + fetches[i];
    }
    assert bodies[..|results|] == bodies;
    r := Ok(out);
  }

  /** What a fragment's goroutine ends with: a body, an error, or neither when the fragment lists no address. */
  datatype Fetch = Body(data: Bytes) | Error(message: string) | NoAddress

  /** No listed address answers. */
  predicate Unanswered(addrs: seq<string>, replies: map<string, Bytes>) {
    forall j :: 0 <= j < |addrs| ==> addrs[j] == "" || addrs[j] !in replies
  }

  /** The goroutine's search for a body; it reports no error when there was no address to try. */
  method FetchFragment(addrs: seq<string>, replies: map<string, Bytes>) returns (f: Fetch)
    ensures f.NoAddress? <==> addrs == []
    ensures f.Body? <==> !Unanswered(addrs, replies)
    ensures f.Body? ==> Client.Downloads(addrs, replies, Ok(f.data))
  {
    f := NoAddress;
    for j := 0 to |addrs|
      invariant forall i :: 0 <= i < j ==> addrs[i] == "" || addrs[i] !in replies
      invariant !f.Body? && (f.NoAddress? <==> j == 0)
    {
      if addrs[j] == "" || addrs[j] !in replies {
        f := Error("status");
        continue;
      }
      assert Client.FirstAnswer(addrs, replies, j);
      return Body(replies[addrs[j]]);
    }
  }

  /** The chunk a byte position falls in. */
  function ChunkIndex(p: nat, c: nat): nat
    requires c > 0
  {
    if p < c then 0 else 1 + ChunkIndex(p - c, c)
  }

  lemma {:induction false} InChunk(p: nat, c: nat, i: nat)
    requires c > 0
    ensures i * c <= p < i * c + c <==> ChunkIndex(p, c) == i
    decreases p
  {
    if p >= c && i > 0 {
      InChunk(p - c, c, i - 1);
      assert i * c == (i - 1) * c + c;
    } else if i > 0 {
      assert i * c == (i - 1) * c + c && (i - 1) * c >= 0;
    }
  }

  /** copy(result[offset:], data). */
  method CopyInto(result: array<byte>, offset: nat, data: Bytes)
    requires offset <= result.Length
    modifies result
    ensures forall p :: 0 <= p < result.Length ==>
      result[p] == if offset <= p < offset + |data| then data[p - offset] else old(result[p])
  {
    var n := if |data| <= result.Length - offset then |data| else result.Length - offset;
    for q := 0 to n
      invariant forall p :: 0 <= p < result.Length ==>
        result[p] == if offset <= p < offset + q then data[p - offset] else old(result[p])
    {
      result[offset + q] := data[q];
    }
  }

  /** A goroutine's write: its own chunk, under the mutex. */
  method WriteChunk(result: array<byte>, ghost value: Bytes, c: nat, i: nat, data: Bytes)
    requires c > 0 && i < |Uploaded(value, c)| && data == Uploaded(value, c)[i] && result.Length == |value|
    modifies result
    ensures forall p: nat :: p < |value| ==> result[p] == if ChunkIndex(p, c) == i then value[p] else old(result[p])
  {
    if value != [] {
      ChunkAt(value, c, i);
    }
    var offset := i * c;
    CopyInto(result, offset, data);
    forall p: nat | p < |value| ensures result[p] == if ChunkIndex(p, c) == i then value[p] else old(result[p]) {
      InChunk(p, c, i);
    }
  }

  /** Whoever answers for a fragment answers with the body stored for it. */
  predicate Serve(replies: seq<map<string, Bytes>>, bodies: seq<Bytes>) {
    && |replies| == |bodies|
    && forall i, url :: 0 <= i < |replies| && url in replies[i] ==> replies[i][url] == bodies[i]
  }

  /** The value with zeros in place of the fragments that no one answered for. */
  predicate Zeroed(bytes: Bytes, value: Bytes, c: nat, addrs: seq<seq<string>>, replies: seq<map<string, Bytes>>)
    requires c > 0 && |addrs| == |replies|
  {
    && |bytes| == |value|
    && forall p: nat :: p < |value| ==>
      ChunkIndex(p, c) < |addrs|
      && bytes[p] == if Unanswered(addrs[ChunkIndex(p, c)], replies[ChunkIndex(p, c)]) then 0 else value[p]
  }

  /** Some fragment lists addresses and none of them answers. */
  predicate Starved(addrs: seq<seq<string>>, replies: seq<map<string, Bytes>>)
    requires |addrs| == |replies|
  {
    exists i :: 0 <= i < |addrs| && addrs[i] != [] && Unanswered(addrs[i], replies[i])
  }

  /** GetValue: one goroutine a fragment, finishing in any order, each copying its body to its own offset. It fails
      exactly when a fragment's addresses all fail, and otherwise gives the value, provided every fragment lists an
      address. */
  method GetValue(totalSize: nat, chunkSize: int, addrs: seq<seq<string>>, replies: seq<map<string, Bytes>>,
      ghost value: Bytes)
      returns (r: Result<Bytes>)
    requires |value| == totalSize && |addrs| == |replies| && Serve(replies, Uploaded(value, ChunkSizeOr(chunkSize)))
    ensures r.Err? <==> Starved(addrs, replies)
    ensures r.Ok? ==> Zeroed(r.value, value, ChunkSizeOr(chunkSize), addrs, replies)
    ensures r.Ok? && (forall i :: 0 <= i < |addrs| ==> addrs[i] != []) ==> r.value == value
  {
    var c := ChunkSizeOr(chunkSize);
    var result := new byte[totalSize](_ => 0);
    var failed: set<nat> := {};
    var running := Below(|addrs|);
    while running != {}
      invariant forall i: nat :: i in running ==> i < |addrs|
      invariant forall p: nat :: p < |value| ==>
        result[p] == if Written(p, c, addrs, replies, running) then value[p] else 0
      invariant forall i: nat :: i in failed <==>
        i < |addrs| && i !in running && addrs[i] != [] && Unanswered(addrs[i], replies[i])
      decreases running
    {
      var i :| i in running;
      running := running - {i};
      var f := FetchFragment(addrs[i], replies[i]);
      if f.Body? {
        WriteChunk(result, value, c, i, f.data);
      } else if f.Error? {
        failed := failed + {i};
      }
    }
    if failed != {} {
      return Err("status");
    }
    forall p: nat | p < |value| ensures ChunkIndex(p, c) < |addrs| {
      ChunkOf(value, c, p);
    }
    r := Ok(result[..]);
  }

  /** The fragment a byte belongs to has been fetched and copied. */
  predicate Written(p: nat, c: nat, addrs: seq<seq<string>>, replies: seq<map<string, Bytes>>, running: set<nat>)
    requires c > 0 && |addrs| == |replies|
  {
    var i := ChunkIndex(p, c);
    i < |addrs| && i !in running && !Unanswered(addrs[i], replies[i])
  }

  lemma {:induction false} ChunkOf(value: Bytes, c: nat, p: nat)
    requires c > 0 && p < |value|
    ensures ChunkIndex(p, c) < |Chunks(value, c)|
    decreases p
  {
    if p >= c {
      ChunkOf(value[c..], c, p - c);
      ChunksFirst(value, c);
    }
  }

  /** What kvctl reads for the fragments of an entry. */
  ghost predicate Reads(addrs: seq<seq<string>>, replies: seq<map<string, Bytes>>, results: seq<Result<Bytes>>) {
    && |addrs| == |replies| == |results|
    && forall i :: 0 <= i < |results| ==> Client.Downloads(addrs[i], replies[i], results[i])
  }

  /** On an entry whose fragments all list an address, the two clients succeed on the same occasions, with the same
      bytes: those of the value. */
  lemma ReadersAgree(value: Bytes, c: nat, addrs: seq<seq<string>>, replies: seq<map<string, Bytes>>,
      results: seq<Result<Bytes>>)
    requires c > 0 && Reads(addrs, replies, results) && Serve(replies, Uploaded(value, c))
    requires forall i :: 0 <= i < |addrs| ==> addrs[i] != []
    ensures (forall i :: 0 <= i < |results| ==> results[i].Ok?) <==> !Starved(addrs, replies)
    ensures !Starved(addrs, replies) ==> Concat(Bodies(results)) == value
  {
    forall i | 0 <= i < |results|
      ensures results[i].Ok? <==> !Unanswered(addrs[i], replies[i])
      ensures results[i].Ok? ==> results[i].value == Uploaded(value, c)[i]
    {
      assert Client.Downloads(addrs[i], replies[i], results[i]);
    }
    if !Starved(addrs, replies) {
      assert Bodies(results) == Uploaded(value, c);
      UploadedConcat(value, c);
    }
  }
}
