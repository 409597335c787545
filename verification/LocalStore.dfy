/** One node's fragment store: chunk files beside an index, refining a plain map from ids to bytes. */
module LocalStore {
  import opened Collections
  import opened Names

  datatype Meta = Meta(id: string, size: nat)

  /** The chunk files by path and the index by id. */
  datatype Disk = Disk(files: map<string, Bytes>, index: map<string, Meta>)

  /** Where an operation fails, if it does; a failed write leaves what removing the file could not undo. */
  datatype Fault = NoFault | FileFault | WriteFault(left: Option<Bytes>) | IndexFault

  datatype Op = Put(id: string, data: Bytes, fault: Fault) | Delete(id: string, fault: Fault)

  function WithFile(files: map<string, Bytes>, path: string, content: Option<Bytes>): map<string, Bytes> {
    if content.None? then files - {path} else files[path := content.value]
  }

  /** os.Create truncates, a failed write tries to remove the file, and the index is only reached after the file is
      closed. */
  function DiskPut(d: Disk, dir: string, id: string, data: Bytes, fault: Fault): Disk {
    var path := ChunkPath(dir, id);
    match fault
    case FileFault => d
    case WriteFault(left) => d.(files := WithFile(d.files, path, left))
    case IndexFault => d.(files := d.files[path := data])
    case NoFault => Disk(d.files[path := data], d.index[id := Meta(id, |data|)])
  }

  /** Removing a missing file is no error; any other failure to remove it leaves the index alone. */
  function DiskDelete(d: Disk, dir: string, id: string, fault: Fault): Disk {
    var path := ChunkPath(dir, id);
    match fault
    case IndexFault => d.(files := d.files - {path})
    case NoFault => Disk(d.files - {path}, d.index - {id})
    case _ => d
  }

  function Exec(d: Disk, dir: string, op: Op): Disk {
    match op
    case Put(id, data, fault) => DiskPut(d, dir, id, data, fault)
    case Delete(id, fault) => DiskDelete(d, dir, id, fault)
  }

  /** The same operation on a plain map, where a failed one has no effect. */
  function Plain(m: map<string, Bytes>, op: Op): map<string, Bytes> {
    match op
    case Put(id, data, NoFault) => m[id := data]
    case Delete(id, NoFault) => m - {id}
    case _ => m
  }

  /** The map the disk stands for. */
  function View(d: Disk, dir: string): map<string, Bytes> {
    map id | id in d.index && ChunkPath(dir, id) in d.files :: d.files[ChunkPath(dir, id)]
  }

  /** Every indexed fragment has its file, of the indexed size. */
  predicate Agrees(d: Disk, dir: string) {
    forall id :: id in d.index ==>
      ChunkPath(dir, id) in d.files && d.index[id] == Meta(id, |d.files[ChunkPath(dir, id)]|)
  }

  /** No two of the ids share a chunk file. */
  predicate CollisionFree(dir: string, ids: set<string>) {
    forall a, b :: a in ids && b in ids && ChunkPath(dir, a) == ChunkPath(dir, b) ==> a == b
  }

  /** The ids of a set of fragments given by key and index. */
  function IDsOf(fragments: set<(string, nat)>): set<string> {
    set f | f in fragments :: FragmentID(f.0, f.1)
  }

  /** The fragments' ids share no chunk file exactly when no two of them have keys alike but for "/" and "_". */
  lemma CollisionFreeIff(dir: string, fragments: set<(string, nat)>)
    ensures CollisionFree(dir, IDsOf(fragments)) <==>
      forall f, g :: f in fragments && g in fragments && Escape(f.0) == Escape(g.0) && f.1 == g.1 ==> f == g
  {
    forall f, g | f in fragments && g in fragments
      ensures ChunkPath(dir, FragmentID(f.0, f.1)) == ChunkPath(dir, FragmentID(g.0, g.1)) <==>
        Escape(f.0) == Escape(g.0) && f.1 == g.1
      ensures FragmentID(f.0, f.1) in IDsOf(fragments)
      ensures FragmentID(f.0, f.1) == FragmentID(g.0, g.1) ==> f == g
    {
      SameChunkPathIff(dir, f.0, f.1, g.0, g.1);
      if FragmentID(f.0, f.1) == FragmentID(g.0, g.1) {
        FragmentIDInjective(f.0, f.1, g.0, g.1);
      }
    }
  }

  /** In particular fragment ids of slash-free keys never collide. */
  lemma FragmentIDsCollisionFree(dir: string, fragments: set<(string, nat)>)
    requires forall f :: f in fragments ==> '/' !in f.0
    ensures CollisionFree(dir, IDsOf(fragments))
  {
    forall f | f in fragments ensures Escape(f.0) == f.0 {
      NothingToEscape(f.0);
    }
    CollisionFreeIff(dir, fragments);
  }

  /** The operations after which disk and plain map still agree: those that complete, those that fail before touching
      the file, and failed ones on ids not indexed (or that happened to leave the same bytes). */
  predicate Harmless(d: Disk, dir: string, op: Op) {
    match op
    case Put(id, data, fault) =>
      fault == NoFault || fault == FileFault || id !in d.index
      || (ChunkPath(dir, id) in d.files
          && (if fault == IndexFault then Some(data) else fault.left) == Some(d.files[ChunkPath(dir, id)]))
    case Delete(id, fault) => fault != IndexFault || id !in d.index
  }

  /** An operation on one id leaves the index entry and the file of every other id alone. */
  lemma OthersUntouched(d: Disk, dir: string, ids: set<string>, op: Op, id: string)
    requires CollisionFree(dir, ids) && op.id in ids && id in ids && id != op.id
    ensures var d', path := Exec(d, dir, op), ChunkPath(dir, id);
      && (id in d'.index <==> id in d.index) && (id in d.index ==> d'.index[id] == d.index[id])
      && (path in d'.files <==> path in d.files) && (path in d.files ==> d'.files[path] == d.files[path])
  {
    assert ChunkPath(dir, id) != ChunkPath(dir, op.id);
  }

  lemma AgreementKept(d: Disk, dir: string, ids: set<string>, op: Op)
    requires Agrees(d, dir) && CollisionFree(dir, ids) && d.index.Keys <= ids && op.id in ids
    requires Harmless(d, dir, op)
    ensures Agrees(Exec(d, dir, op), dir)
  {
    var d' := Exec(d, dir, op);
    forall id | id in d'.index
      ensures ChunkPath(dir, id) in d'.files && d'.index[id] == Meta(id, |d'.files[ChunkPath(dir, id)]|)
    {
      if id != op.id {
        OthersUntouched(d, dir, ids, op, id);
      }
    }
  }

  /** At one id, the map holds the file the disk has indexed. */
  predicate Shows(m: map<string, Bytes>, d: Disk, path: string, id: string) {
    && (id in m <==> id in d.index)
    && (id in d.index ==> path in d.files && m[id] == d.files[path])
  }

  lemma ViewShows(d: Disk, dir: string, id: string)
    requires Agrees(d, dir)
    ensures Shows(View(d, dir), d, ChunkPath(dir, id), id)
  {
  }

  lemma PlainShows(d: Disk, dir: string, ids: set<string>, op: Op, m: map<string, Bytes>, id: string)
    requires CollisionFree(dir, ids) && d.index.Keys <= ids && op.id in ids && Harmless(d, dir, op)
    requires Shows(m, d, ChunkPath(dir, id), id)
    ensures Shows(Plain(m, op), Exec(d, dir, op), ChunkPath(dir, id), id)
  {
    if id in ids && id != op.id {
      OthersUntouched(d, dir, ids, op, id);
    }
  }

  lemma HarmlessKept(d: Disk, dir: string, ids: set<string>, op: Op)
    requires Agrees(d, dir) && CollisionFree(dir, ids) && d.index.Keys <= ids && op.id in ids
    requires Harmless(d, dir, op)
    ensures Agrees(Exec(d, dir, op), dir)
    ensures View(Exec(d, dir, op), dir) == Plain(View(d, dir), op)
  {
    AgreementKept(d, dir, ids, op);
    var m, m' := View(d, dir), View(Exec(d, dir, op), dir);
    forall id ensures (id in m' <==> id in Plain(m, op)) && (id in m' ==> m'[id] == Plain(m, op)[id]) {
      ViewShows(d, dir, id);
      PlainShows(d, dir, ids, op, m, id);
      ViewShows(Exec(d, dir, op), dir, id);
    }
  }

  lemma HarmfulBreaks(d: Disk, dir: string, op: Op)
    requires Agrees(d, dir) && !Harmless(d, dir, op)
    ensures Agrees(Exec(d, dir, op), dir) ==> View(Exec(d, dir, op), dir) != Plain(View(d, dir), op)
  {
    var d', path := Exec(d, dir, op), ChunkPath(dir, op.id);
    assert op.id in d.index && op.id in d'.index;
    if path in d'.files {
      assert View(d', dir)[op.id] == d'.files[path];
      assert Plain(View(d, dir), op)[op.id] == d.files[path];
    }
  }

  /** A failed overwrite of an indexed fragment, or a delete that stops half way, breaks the agreement: exactly then. */
  lemma AgreementKeptIff(d: Disk, dir: string, ids: set<string>, op: Op)
    requires Agrees(d, dir) && CollisionFree(dir, ids) && d.index.Keys <= ids && op.id in ids
    ensures Kept(d, dir, op) <==> Harmless(d, dir, op)
    ensures Exec(d, dir, op).index.Keys <= ids
  {
    if Harmless(d, dir, op) {
      HarmlessKept(d, dir, ids, op);
    } else {
      HarmfulBreaks(d, dir, op);
    }
  }

  /** What can be told beforehand: an operation keeps the agreement whatever goes wrong exactly when its id is not
      indexed. */
  lemma SafeUnderFaultsIff(d: Disk, dir: string, ids: set<string>, id: string, data: Bytes)
    requires Agrees(d, dir) && CollisionFree(dir, ids) && d.index.Keys <= ids && id in ids
    ensures (forall fault :: Kept(d, dir, Put(id, data, fault))) <==> id !in d.index
    ensures (forall fault :: Kept(d, dir, Delete(id, fault))) <==> id !in d.index
  {
    forall fault
      ensures Kept(d, dir, Put(id, data, fault)) <==> Harmless(d, dir, Put(id, data, fault))
      ensures Kept(d, dir, Delete(id, fault)) <==> Harmless(d, dir, Delete(id, fault))
    {
      AgreementKeptIff(d, dir, ids, Put(id, data, fault));
      AgreementKeptIff(d, dir, ids, Delete(id, fault));
    }
    if id in d.index {
      assert !Harmless(d, dir, Put(id, data, WriteFault(None))) && !Harmless(d, dir, Delete(id, IndexFault));
    }
  }

  /** After the operation files and index agree, and stand for what the plain map holds. */
  ghost predicate Kept(d: Disk, dir: string, op: Op) {
    Agrees(Exec(d, dir, op), dir) && View(Exec(d, dir, op), dir) == Plain(View(d, dir), op)
  }

  function Run(d: Disk, dir: string, ops: seq<Op>): Disk {
    if ops == [] then d else Exec(Run(d, dir, ops[..|ops| - 1]), dir, ops[|ops| - 1])
  }

  function PlainRun(m: map<string, Bytes>, ops: seq<Op>): map<string, Bytes> {
    if ops == [] then m else Plain(PlainRun(m, ops[..|ops| - 1]), ops[|ops| - 1])
  }

  /** The operations of a run, each harmless where it happens. */
  predicate AllHarmless(d: Disk, dir: string, ops: seq<Op>) {
    ops == [] || (AllHarmless(d, dir, ops[..|ops| - 1]) && Harmless(Run(d, dir, ops[..|ops| - 1]), dir, ops[|ops| - 1]))
  }

  /** Over any run of harmless operations on collision-free ids the store is the plain map. */
  lemma {:induction false} StoreRefinesMap(dir: string, ids: set<string>, ops: seq<Op>)
    requires CollisionFree(dir, ids) && (forall i :: 0 <= i < |ops| ==> ops[i].id in ids)
    requires AllHarmless(Disk(map[], map[]), dir, ops)
    ensures var d := Run(Disk(map[], map[]), dir, ops);
      Agrees(d, dir) && d.index.Keys <= ids && View(d, dir) == PlainRun(map[], ops)
  {
    if ops == [] {
      assert View(Disk(map[], map[]), dir) == map[];
    } else {
      StoreRefinesMap(dir, ids, ops[..|ops| - 1]);
      AgreementKeptIff(Run(Disk(map[], map[]), dir, ops[..|ops| - 1]), dir, ids, ops[|ops| - 1]);
    }
  }

  function SizeFn(index: map<string, Meta>): string -> int {
    (id: string) => if id in index then index[id].size else 0
  }

  function LengthFn(m: map<string, Bytes>): string -> int {
    (id: string) => if id in m then |m[id]| else 0
  }

  /** While disk and map agree, the indexed sizes add up to the stored lengths. */
  lemma UsageIsStored(d: Disk, dir: string)
    requires Agrees(d, dir)
    ensures d.index.Keys == View(d, dir).Keys
    ensures SumOver(d.index.Keys, SizeFn(d.index)) == SumOver(View(d, dir).Keys, LengthFn(View(d, dir)))
  {
    var zero := (id: string) => 0;
    SumDifference(d.index.Keys, SizeFn(d.index), LengthFn(View(d, dir)), zero);
    SumZero(d.index.Keys, zero);
  }

  // ---- The order of the index -----------------------------------------------------

  /** The index keeps its keys in the order of their bytes, which is that of their characters. */
  predicate Before(a: string, b: string) {
    b != "" && (a == "" || a[0] < b[0] || (a[0] == b[0] && Before(a[1..], b[1..])))
  }

  lemma {:induction false} BeforeTotal(a: string, b: string)
    ensures a == b || Before(a, b) || Before(b, a)
    ensures !(Before(a, b) && Before(b, a)) && !Before(a, a)
  {
    if a != "" && b != "" && a[0] == b[0] {
      BeforeTotal(a[1..], b[1..]);
      assert a == [a[0]] + a[1..] && b == [b[0]] + b[1..];
    }
    if a != "" {
      BeforeTotal(a[1..], a[1..]);
    }
  }

  /** One name comes before another exactly when it is a proper start of it, or has the lower character at the first
      place where they differ. */
  lemma {:induction false} BeforeIff(a: string, b: string)
    ensures Before(a, b) <==>
      exists n :: 0 <= n <= |a| && n < |b| && a[..n] == b[..n] && (n < |a| ==> a[n] < b[n])
  {
    if Before(a, b) {
      var n := FirstDifference(a, b);
    }
    if n :| 0 <= n <= |a| && n < |b| && a[..n] == b[..n] && (n < |a| ==> a[n] < b[n]) {
      DiffersAt(a, b, n);
    }
  }

  lemma {:induction false} FirstDifference(a: string, b: string) returns (n: nat)
    requires Before(a, b)
    ensures n <= |a| && n < |b| && a[..n] == b[..n] && (n < |a| ==> a[n] < b[n])
  {
    if a != "" && a[0] == b[0] {
      var m := FirstDifference(a[1..], b[1..]);
      n := m + 1;
      assert a[..n] == [a[0]] + a[1..][..m] && b[..n] == [b[0]] + b[1..][..m];
    } else {
      n := 0;
    }
  }

  lemma {:induction false} DiffersAt(a: string, b: string, n: nat)
    requires n <= |a| && n < |b| && a[..n] == b[..n] && (n < |a| ==> a[n] < b[n])
    ensures Before(a, b)
    decreases n
  {
    if n > 0 {
      assert a[0] == a[..n][0] && b[0] == b[..n][0];
      assert a[1..][..n - 1] == a[..n][1..] && b[1..][..n - 1] == b[..n][1..];
      DiffersAt(a[1..], b[1..], n - 1);
    }
  }

  lemma {:induction false} BeforeTransitive(a: string, b: string, c: string)
    requires Before(a, b) && Before(b, c)
    ensures Before(a, c)
  {
    if a != "" && a[0] == b[0] == c[0] {
      BeforeTransitive(a[1..], b[1..], c[1..]);
    }
  }

  predicate IsLeast(ids: set<string>, id: string) {
    id in ids && forall x :: x in ids && x != id ==> Before(id, x)
  }

  lemma {:induction false} LeastExists(ids: set<string>)
    requires ids != {}
    ensures exists id :: IsLeast(ids, id)
  {
    var x :| x in ids;
    var rest := ids - {x};
    if rest == {} {
      assert ids == {x};
      assert IsLeast(ids, x);
    } else {
      LeastExists(rest);
      var y :| IsLeast(rest, y);
      BeforeTotal(x, y);
      var least := if Before(x, y) then x else y;
      forall z | z in ids && z != least ensures Before(least, z) {
        if least == x && z != y {
          BeforeTransitive(x, y, z);
        }
      }
      assert IsLeast(ids, least);
    }
  }

  datatype Error = NotFound | IOError

  datatype Answer<T> = Answer(value: T) | Failure(error: Error)

  class Store {
    const dir: string
    var files: map<string, Bytes>
    var index: map<string, Meta>

    function OnDisk(): Disk
      reads this
    {
      Disk(files, index)
    }

    /** Open finds what the directory and the index hold already. */
    constructor (dir: string, d: Disk)
      ensures this.dir == dir && OnDisk() == d
    {
      this.dir := dir;
      files, index := d.files, d.index;
    }

    /** Put; `fault` says which system call fails. */
    method Put(id: string, data: Bytes, fault: Fault) returns (ok: bool)
      modifies this
      ensures ok <==> fault == NoFault
      ensures OnDisk() == Exec(old(OnDisk()), dir, Op.Put(id, data, fault))
      ensures ok ==> dir + "/" + Escape(id) + ".chunk" in files && files[dir + "/" + Escape(id) + ".chunk"] == data
    {
      var path := ChunkPath(dir, id);
      if fault == FileFault {
        return false;
      }
      files := files[path := []];
      if fault.WriteFault? {
        files := WithFile(files, path, fault.left);
        return false;
      }
      files := files[path := data];
      var meta := Meta(id, |data|);
      if fault == IndexFault {
        return false;
      }
      index := index[id := meta];
      ok := true;
    }

    /** Delete; a missing file is not an error. */
    method Delete(id: string, fault: Fault) returns (ok: bool)
      modifies this
      ensures ok <==> fault == NoFault
      ensures OnDisk() == Exec(old(OnDisk()), dir, Op.Delete(id, fault))
    {
      if fault == FileFault || fault.WriteFault? {
        return false;
      }
      files := files - {ChunkPath(dir, id)};
      if fault == IndexFault {
        return false;
      }
      index := index - {id};
      ok := true;
    }

    /** Get: what the plain map holds, or NotFound; `fault` says that reading the file fails. */
    method Get(id: string, fault: bool) returns (r: Answer<Bytes>)
      ensures r ==
        if id !in View(OnDisk(), dir) then Failure(NotFound)
        else if fault then Failure(IOError)
        else Answer(View(OnDisk(), dir)[id])
    {
      if id !in index {
        return Failure(NotFound);
      }
      var path := ChunkPath(dir, id);
      if path !in files {
        return Failure(NotFound);
      }
      if fault {
        return Failure(IOError);
      }
      r := Answer(files[path]);
    }

    /** GetStream: the bytes, and the size from the index, which is their number while index and files agree. */
    method GetStream(id: string, fault: bool) returns (r: Answer<(Bytes, nat)>)
      ensures r.Failure? <==> id !in View(OnDisk(), dir) || fault
      ensures r.Failure? ==> r.error == if id in View(OnDisk(), dir) then IOError else NotFound
      ensures r.Answer? ==> r.value.0 == View(OnDisk(), dir)[id] && (Agrees(OnDisk(), dir) ==> r.value.1 == |r.value.0|)
    {
      if id !in index {
        return Failure(NotFound);
      }
      var path := ChunkPath(dir, id);
      if path !in files {
        return Failure(NotFound);
      }
      if fault {
        return Failure(IOError);
      }
      r := Answer((files[path], index[id].size));
    }

    /** List: the indexed ids, each once, in the order the index keeps them. */
    method List() returns (ids: seq<string>)
      ensures ToSet(ids) == index.Keys && forall i, j :: 0 <= i < j < |ids| ==> Before(ids[i], ids[j])
    {
      ids := [];
      var left := index.Keys;
      while left != {}
        invariant left <= index.Keys && forall id :: id in ids <==> id in index && id !in left
        invariant forall i, j :: 0 <= i < j < |ids| ==> Before(ids[i], ids[j])
        invariant forall i, id :: 0 <= i < |ids| && id in left ==> Before(ids[i], id)
        decreases left
      {
        LeastExists(left);
        var id :| IsLeast(left, id);
        left := left - {id};
        ids := ids + [id];
      }
    }

    /** DiskUsage: the sum of the indexed sizes, which is that of the stored lengths while index and files agree. */
    method DiskUsage() returns (total: int)
      ensures total == SumOver(index.Keys, SizeFn(index))
      ensures Agrees(OnDisk(), dir) ==> total == SumOver(View(OnDisk(), dir).Keys, LengthFn(View(OnDisk(), dir)))
    {
      total := 0;
      var left := index.Keys;
      while left != {}
        invariant left <= index.Keys
        invariant total + SumOver(left, SizeFn(index)) == SumOver(index.Keys, SizeFn(index))
        decreases left
      {
        var id :| id in left;
        SumTakeOut(left, SizeFn(index), id);
        left := left - {id};
        total := total + index[id].size;
      }
      if Agrees(OnDisk(), dir) {
        UsageIsStored(OnDisk(), dir);
      }
    }
  }
}
