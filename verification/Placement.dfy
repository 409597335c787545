/** The three placement strategies, each proved to pick the n best nodes by a rank that looks at one node at a time. */
module Placement {
  import opened Collections
  import opened Names
  import opened Ranking

  const TWO_32: nat := 0x1_0000_0000
  const MAX_UINT64: nat := 0xFFFF_FFFF_FFFF_FFFF
  const DEFAULT_VNODES: nat := 150

  type Word32 = x: nat | x < TWO_32
  type Word64 = x: nat | x <= MAX_UINT64

  /** The two hash functions; nothing is assumed about them but their range. */
  datatype Hashing = Hashing(hash32: string -> Word32, hash64: string -> Word64)

  datatype Node = Node(id: string, freeBytes: int, totalBytes: int, weight: real)

  /** newPlacer never sets VNodes, so its consistent-hash ring has the default number of them. */
  datatype Strategy = ConsistentHash(vnodes: int) | Rendezvous | Weighted

  function NewPlacer(name: string): Strategy {
    if name == "rendezvous" then Rendezvous
    else if name == "weighted" then Weighted
    else ConsistentHash(0)
  }

  predicate UniqueIDs(nodes: seq<Node>) {
    forall i, j :: 0 <= i < j < |nodes| ==> nodes[i].id != nodes[j].id
  }

  function IDs(nodes: seq<Node>): set<string> {
    set nd | nd in nodes :: nd.id
  }

  /** Of several nodes with one id, the last: what nodeByID keeps. */
  function Lasts(nodes: seq<Node>): (r: seq<Node>)
    ensures |r| <= |nodes| && (r == [] <==> nodes == [])
    ensures forall nd :: nd in r ==> nd in nodes
  {
    if nodes == [] then []
    else if nodes[0].id in IDs(nodes[1..]) then Lasts(nodes[1..])
    else [nodes[0]] + Lasts(nodes[1..])
  }

  lemma {:induction false} LastsHold(nodes: seq<Node>, k: nat)
    requires k < |nodes| && forall j :: k < j < |nodes| ==> nodes[j].id != nodes[k].id
    ensures nodes[k] in Lasts(nodes)
  {
    if k > 0 {
      LastsHold(nodes[1..], k - 1);
    }
  }

  /** The node is the last with its id. */
  ghost predicate IsLastOf(nodes: seq<Node>, nd: Node, id: string) {
    nd.id == id && exists k :: 0 <= k < |nodes| && nodes[k] == nd && forall j :: k < j < |nodes| ==> nodes[j].id != id
  }

  lemma {:induction false} LastsAreLast(nodes: seq<Node>, nd: Node)
    requires nd in Lasts(nodes)
    ensures IsLastOf(nodes, nd, nd.id)
  {
    if nodes[0].id in IDs(nodes[1..]) || nd in Lasts(nodes[1..]) {
      LastsAreLast(nodes[1..], nd);
      var k :| 0 <= k < |nodes| - 1 && nodes[1..][k] == nd
        && forall j :: k < j < |nodes| - 1 ==> nodes[1..][j].id != nd.id;
      assert nodes[k + 1] == nd;
      forall j | k + 1 < j < |nodes| ensures nodes[j].id != nd.id {
        assert nodes[j] == nodes[1..][j - 1];
      }
    } else {
      assert nodes[0] == nd;
      forall j | 0 < j < |nodes| ensures nodes[j].id != nd.id {
        assert nodes[j] == nodes[1..][j - 1] && nodes[1..][j - 1].id in IDs(nodes[1..]);
      }
    }
  }

  lemma IDsFirst(nd: Node, rest: seq<Node>)
    ensures IDs([nd] + rest) == {nd.id} + IDs(rest)
  {
    assert forall x :: x in [nd] + rest <==> x == nd || x in rest;
  }

  lemma {:induction false} LastsIDs(nodes: seq<Node>)
    ensures IDs(Lasts(nodes)) == IDs(nodes)
  {
    if nodes != [] {
      LastsIDs(nodes[1..]);
      assert nodes == [nodes[0]] + nodes[1..];
      IDsFirst(nodes[0], nodes[1..]);
      IDsFirst(nodes[0], Lasts(nodes[1..]));
    }
  }

  lemma UniqueFirst(nd: Node, rest: seq<Node>)
    requires UniqueIDs(rest) && nd.id !in IDs(rest)
    ensures UniqueIDs([nd] + rest)
  {
    assert forall i :: 0 <= i < |rest| ==> rest[i].id in IDs(rest);
  }

  lemma {:induction false} LastsUnique(nodes: seq<Node>)
    ensures UniqueIDs(Lasts(nodes))
  {
    if nodes != [] {
      LastsUnique(nodes[1..]);
      LastsIDs(nodes[1..]);
      if nodes[0].id !in IDs(nodes[1..]) {
        UniqueFirst(nodes[0], Lasts(nodes[1..]));
      }
    }
  }

  lemma {:induction false} UniqueLasts(nodes: seq<Node>)
    requires UniqueIDs(nodes)
    ensures Lasts(nodes) == nodes
  {
    if nodes != [] {
      UniqueLasts(nodes[1..]);
      assert nodes == [nodes[0]] + nodes[1..];
    }
  }

  // ---- Ranks ----------------------------------------------------------------

  function VNodes(st: Strategy): (v: nat)
    requires st.ConsistentHash?
    ensures v > 0
  {
    if st.vnodes <= 0 then DEFAULT_VNODES else st.vnodes
  }

  function RingKey(id: string, i: nat): string {
    Joined(id, '#', i)
  }

  /** Ring keys of different nodes, or of different positions of one node, are different. */
  lemma RingKeyInjective(id: string, i: nat, id': string, j: nat)
    requires RingKey(id, i) == RingKey(id', j)
    ensures id == id' && i == j
  {
    JoinedInjective(id, i, id', j, '#');
  }

  /** How far clockwise from the fragment's hash a ring position lies. */
  function Clockwise(from: Word32, to: Word32): (d: Word32)
    ensures (from + d) % TWO_32 == to
  {
    if to >= from then to - from else to + TWO_32 - from
  }

  /** The clockwise distance to the nearest of a node's first v ring positions. */
  function Nearest(h32: string -> Word32, id: string, v: nat, from: Word32): Word32
    requires v > 0
  {
    var last := Clockwise(from, h32(RingKey(id, v - 1)));
    if v == 1 then last
    else
      var rest := Nearest(h32, id, v - 1, from);
      if last < rest then last else rest
  }

  lemma {:induction false} NearestIsLeast(h32: string -> Word32, id: string, v: nat, from: Word32)
    requires v > 0
    ensures forall i :: 0 <= i < v ==> Nearest(h32, id, v, from) <= Clockwise(from, h32(RingKey(id, i)))
    ensures exists i :: 0 <= i < v && Nearest(h32, id, v, from) == Clockwise(from, h32(RingKey(id, i)))
  {
    if v > 1 {
      NearestIsLeast(h32, id, v - 1, from);
    }
  }

  /** Some ring position of x is no further clockwise than any of y, among the first v of each. */
  ghost predicate Nearer(h32: string -> Word32, v: nat, from: Word32, x: string, y: string) {
    exists i: nat :: i < v && forall j: nat :: j < v ==>
      Clockwise(from, h32(x + "#" + Decimal(i))) <= Clockwise(from, h32(y + "#" + Decimal(j)))
  }

  lemma NearestReached(h32: string -> Word32, id: string, v: nat, from: Word32) returns (i: nat)
    requires v > 0
    ensures i < v && Nearest(h32, id, v, from) == Clockwise(from, h32(id + "#" + Decimal(i)))
    ensures forall j: nat :: j < v ==> Nearest(h32, id, v, from) <= Clockwise(from, h32(id + "#" + Decimal(j)))
  {
    NearestIsLeast(h32, id, v, from);
    forall j: nat | j < v ensures Nearest(h32, id, v, from) <= Clockwise(from, h32(id + "#" + Decimal(j))) {
      assert RingKey(id, j) == id + "#" + Decimal(j);
    }
    i :| 0 <= i < v && Nearest(h32, id, v, from) == Clockwise(from, h32(RingKey(id, i)));
  }

  lemma NearerIff(h32: string -> Word32, v: nat, from: Word32, x: string, y: string)
    requires v > 0
    ensures Nearer(h32, v, from, x, y) <==> Nearest(h32, x, v, from) <= Nearest(h32, y, v, from)
  {
    var i := NearestReached(h32, x, v, from);
    var j := NearestReached(h32, y, v, from);
    if Nearest(h32, x, v, from) <= Nearest(h32, y, v, from) {
      assert forall j: nat :: j < v ==>
        Clockwise(from, h32(x + "#" + Decimal(i))) <= Clockwise(from, h32(y + "#" + Decimal(j)));
    }
  }

  function TotalFree(nodes: seq<Node>): int {
    if nodes == [] then 0 else TotalFree(nodes[..|nodes| - 1]) + nodes[|nodes| - 1].freeBytes
  }

  function WeightFactor(nd: Node, totalFree: int, count: nat): real
    requires count > 0
  {
    if nd.weight > 0.0 then nd.weight
    else if totalFree > 0 then nd.freeBytes as real / totalFree as real
    else 1.0 / count as real
  }

  function Fraction(h: Word64): (f: real)
    ensures 0.0 <= f <= 1.0
  {
    h as real / MAX_UINT64 as real
  }

  function HashFactor(h: Word64): real {
    0.5 + 0.5 * Fraction(h)
  }

  /** The hash as a factor runs from one half to one, in proportion. */
  lemma HashFactorLinear(h: Word64)
    ensures 0.5 <= HashFactor(h) <= 1.0
    ensures HashFactor(h) * (2 * 0xFFFF_FFFF_FFFF_FFFF) as real == (0xFFFF_FFFF_FFFF_FFFF + h) as real
  {
    assert 0.0 <= Fraction(h) <= 1.0;
  }

  function HrwScore(h64: string -> Word64, fid: string, nd: Node): real {
    Fraction(h64(nd.id + "|" + fid))
  }

  function WeightedScore(h64: string -> Word64, fid: string, totalFree: int, count: nat, nd: Node): real
    requires count > 0
  {
    WeightFactor(nd, totalFree, count) * HashFactor(h64(nd.id + "|" + fid))
  }

  /** The rank a strategy gives a node for a fragment; lower is chosen first. */
  function Rank(st: Strategy, hs: Hashing, fid: string, nodes: seq<Node>): Node -> real {
    match st
    case ConsistentHash(_) => (nd: Node) => Nearest(hs.hash32, nd.id, VNodes(st), hs.hash32(fid)) as real
    case Rendezvous => (nd: Node) => -HrwScore(hs.hash64, fid, nd)
    case Weighted =>
      var count := if |nodes| > 0 then |nodes| else 1;
      (nd: Node) => -WeightedScore(hs.hash64, fid, TotalFree(nodes), count, nd)
  }

  // ---- Sorting --------------------------------------------------------------

  /** sort.Slice: some ascending rearrangement; nothing is promised about the order of ties. */
  method SortSlice<T(!new)>(s: seq<T>, key: T -> real) returns (r: seq<T>)
    ensures multiset(r) == multiset(s)
    ensures forall i, j :: 0 <= i < j < |r| ==> key(r[i]) <= key(r[j])
  {
    r := [];
    for n := 0 to |s|
      invariant multiset(r) == multiset(s[..n])
      invariant forall i, j :: 0 <= i < j < |r| ==> key(r[i]) <= key(r[j])
    {
      assert s[..n + 1] == s[..n] + [s[n]];
      SortedInsert(r, s[n], key);
      r := InsertAt(r, Slot(r, s[n], key), s[n]);
    }
    assert s[..|s|] == s;
  }

  // ---- Rendezvous and Weighted ----------------------------------------------

  datatype Scored = Scored(score: real, node: Node)

  function ByScore(): Scored -> real {
    (sc: Scored) => -sc.score
  }

  function NodesOf(scores: seq<Scored>): (nodes: seq<Node>)
    ensures |nodes| == |scores|
    ensures forall i :: 0 <= i < |nodes| ==> nodes[i] == scores[i].node
  {
    seq(|scores|, i requires 0 <= i < |scores| => scores[i].node)
  }

  lemma NodesOfCut(b: seq<Scored>, k: nat)
    requires k < |b|
    ensures NodesOf(b) == NodesOf(b[..k]) + [b[k].node] + NodesOf(b[k + 1..])
    ensures NodesOf(b[..k] + b[k + 1..]) == NodesOf(b[..k]) + NodesOf(b[k + 1..])
  {
  }

  lemma {:induction false} NodesRearranged(a: seq<Scored>, b: seq<Scored>)
    requires multiset(a) == multiset(b)
    ensures multiset(NodesOf(a)) == multiset(NodesOf(b))
    decreases |a|
  {
    if a == [] {
      assert |b| == |multiset(b)|;
    } else {
      var front, x := a[..|a| - 1], a[|a| - 1];
      assert x in multiset(b);
      var k :| 0 <= k < |b| && b[k] == x;
      RestRearranged(a, b, k);
      NodesRearranged(front, b[..k] + b[k + 1..]);
      NodesOfCut(b, k);
      assert NodesOf(a) == NodesOf(front) + [x.node];
    }
  }

  /** The shared tail of both score-based placers: sort by descending score, keep the first n. */
  method TopScores(scores: seq<Scored>, ghost nodes: seq<Node>, n: nat, ghost rank: Node -> real)
      returns (result: seq<Node>)
    requires NodesOf(scores) == nodes && forall sc :: sc in scores ==> rank(sc.node) == -sc.score
    ensures IsBestOf(result, nodes, n, rank)
  {
    var sorted := SortSlice(scores, ByScore());
    NodesRearranged(scores, sorted);
    SameElements(scores, sorted);
    ghost var all := NodesOf(sorted);
    assert |all| == |scores| by { assert |multiset(sorted)| == |multiset(scores)|; }
    var m := if n > |scores| then |scores| else n;
    result := [];
    for i := 0 to m
      invariant result == all[..i]
    {
      result := result + [sorted[i].node];
    }
    forall i, j | 0 <= i < j < |all| ensures rank(all[i]) <= rank(all[j]) {
      assert sorted[i] in sorted && sorted[j] in sorted && ByScore()(sorted[i]) <= ByScore()(sorted[j]);
    }
    assert IsOrdering(all, nodes, rank);
  }

  /** The hash of the node's id and the fragment's is no lower. */
  predicate HashNoLower(hs: Hashing, fid: string, x: Node, y: Node) {
    hs.hash64(x.id + "|" + fid) >= hs.hash64(y.id + "|" + fid)
  }

  lemma HigherHash(hs: Hashing, fid: string, nodes: seq<Node>, x: Node, y: Node)
    ensures Rank(Rendezvous, hs, fid, nodes)(x) <= Rank(Rendezvous, hs, fid, nodes)(y) <==> HashNoLower(hs, fid, x, y)
  {
    FractionOrder(hs.hash64(x.id + "|" + fid), hs.hash64(y.id + "|" + fid));
  }

  lemma FractionOrder(a: Word64, b: Word64)
    ensures Fraction(a) >= Fraction(b) <==> a >= b
  {
  }

  /** The nodes with the highest hashes of id and fragment, highest first; what is left over has none higher. */
  method PlaceRendezvous(hs: Hashing, fid: string, nodes: seq<Node>, n: nat) returns (result: seq<Node>)
    ensures IsBestOf(result, nodes, n, Rank(Rendezvous, hs, fid, nodes))
    ensures |result| == Min(n, |nodes|) && multiset(result) <= multiset(nodes)
    ensures forall i, j :: 0 <= i < j < |result| ==> HashNoLower(hs, fid, result[i], result[j])
    ensures forall x, y :: x in result && multiset(result)[y] < multiset(nodes)[y] ==> HashNoLower(hs, fid, x, y)
  {
    var scores: seq<Scored> := [];
    for i := 0 to |nodes|
      invariant |scores| == i
      invariant forall k :: 0 <= k < i ==>
        scores[k].node == nodes[k] && scores[k].score == HrwScore(hs.hash64, fid, nodes[k])
    {
      var h := hs.hash64(nodes[i].id + "|" + fid);
      scores := scores + [Scored(h as real / MAX_UINT64 as real, nodes[i])];
    }
    result := TopScores(scores, nodes, n, Rank(Rendezvous, hs, fid, nodes));
    BestOfBounds(result, nodes, n, Rank(Rendezvous, hs, fid, nodes));
    forall x, y ensures Rank(Rendezvous, hs, fid, nodes)(x) <= Rank(Rendezvous, hs, fid, nodes)(y) <==>
      HashNoLower(hs, fid, x, y)
    {
      HigherHash(hs, fid, nodes, x, y);
    }
  }

  method SumFree(nodes: seq<Node>) returns (totalFree: int)
    ensures totalFree == TotalFree(nodes)
  {
    totalFree := 0;
    for i := 0 to |nodes|
      invariant totalFree == TotalFree(nodes[..i])
    {
      assert nodes[..i + 1][..i] == nodes[..i];
      totalFree := totalFree + nodes[i].freeBytes;
    }
    assert nodes[..|nodes|] == nodes;
  }

  /** The node's share: its manual weight, or else its part of the total free space, or else, when there is none, an
      equal part. */
  ghost predicate IsShare(w: real, nd: Node, nodes: seq<Node>) {
    && (nd.weight > 0.0 ==> w == nd.weight)
    && (nd.weight <= 0.0 && TotalFree(nodes) > 0 ==> w * TotalFree(nodes) as real == nd.freeBytes as real)
    && (nd.weight <= 0.0 && TotalFree(nodes) <= 0 ==> w * |nodes| as real == 1.0)
  }

  /** Share times hash factor is no lower for x. */
  ghost predicate ScoreNoLower(hs: Hashing, fid: string, nodes: seq<Node>, x: Node, y: Node) {
    forall v, w :: IsShare(v, x, nodes) && IsShare(w, y, nodes) ==>
      v * HashFactor(hs.hash64(x.id + "|" + fid)) >= w * HashFactor(hs.hash64(y.id + "|" + fid))
  }

  lemma Quotient(w: real, a: real, t: real)
    requires t > 0.0
    ensures w * t == a <==> w == a / t
  {
    assert a / t * t == a;
    if w * t == a {
      assert (w - a / t) * t == 0.0;
    }
  }

  lemma ShareIsFactor(w: real, nd: Node, nodes: seq<Node>)
    requires nodes != []
    ensures IsShare(w, nd, nodes) <==> w == WeightFactor(nd, TotalFree(nodes), |nodes|)
  {
    if nd.weight <= 0.0 {
      if TotalFree(nodes) > 0 {
        Quotient(w, nd.freeBytes as real, TotalFree(nodes) as real);
      } else {
        Quotient(w, 1.0, |nodes| as real);
      }
    }
  }

  lemma HigherScore(hs: Hashing, fid: string, nodes: seq<Node>, x: Node, y: Node)
    requires nodes != []
    ensures Rank(Weighted, hs, fid, nodes)(x) <= Rank(Weighted, hs, fid, nodes)(y) <==>
      ScoreNoLower(hs, fid, nodes, x, y)
  {
    var v, w := WeightFactor(x, TotalFree(nodes), |nodes|), WeightFactor(y, TotalFree(nodes), |nodes|);
    OnlyShare(x, nodes, v);
    OnlyShare(y, nodes, w);
    assert IsShare(v, x, nodes) && IsShare(w, y, nodes);
  }

  lemma ScoreIs(h64: string -> Word64, fid: string, totalFree: int, count: nat, nd: Node, factor: real, r: real)
    requires count > 0 && factor == WeightFactor(nd, totalFree, count)
    requires r == h64(nd.id + "|" + fid) as real / MAX_UINT64 as real
    ensures factor * (0.5 + 0.5 * r) == WeightedScore(h64, fid, totalFree, count, nd)
  {
    assert 0.5 + 0.5 * r == HashFactor(h64(nd.id + "|" + fid));
  }

  lemma OnlyShare(nd: Node, nodes: seq<Node>, w: real)
    requires nodes != [] && w == WeightFactor(nd, TotalFree(nodes), |nodes|)
    ensures forall u :: IsShare(u, nd, nodes) <==> u == w
  {
    forall u ensures IsShare(u, nd, nodes) <==> u == w {
      ShareIsFactor(u, nd, nodes);
    }
  }

  /** The nodes with the highest scores, highest first; what is left over has none higher. */
  method PlaceWeighted(hs: Hashing, fid: string, nodes: seq<Node>, n: nat) returns (result: seq<Node>)
    ensures IsBestOf(result, nodes, n, Rank(Weighted, hs, fid, nodes))
    ensures |result| == Min(n, |nodes|) && multiset(result) <= multiset(nodes)
    ensures forall i, j :: 0 <= i < j < |result| ==> ScoreNoLower(hs, fid, nodes, result[i], result[j])
    ensures forall x, y :: x in result && multiset(result)[y] < multiset(nodes)[y] ==>
      ScoreNoLower(hs, fid, nodes, x, y)
  {
    var totalFree := SumFree(nodes);
    var scores: seq<Scored> := [];
    for i := 0 to |nodes|
      invariant |scores| == i
      invariant forall k :: 0 <= k < i ==>
        scores[k].node == nodes[k] && scores[k].score == WeightedScore(hs.hash64, fid, totalFree, |nodes|, nodes[k])
    {
      var nd := nodes[i];
      var weightFactor;
      if nd.weight > 0.0 {
        weightFactor := nd.weight;
      } else if totalFree > 0 {
        weightFactor := nd.freeBytes as real / totalFree as real;
      } else {
        weightFactor := 1.0 / |nodes| as real;
      }
      var randComponent := hs.hash64(nd.id + "|" + fid) as real / MAX_UINT64 as real;
      ScoreIs(hs.hash64, fid, totalFree, |nodes|, nd, weightFactor, randComponent);
      scores := scores + [Scored(weightFactor * (0.5 + 0.5 * randComponent), nd)];
    }
    result := TopScores(scores, nodes, n, Rank(Weighted, hs, fid, nodes));
    WeightedChoice(hs, fid, nodes, n, result);
  }

  lemma WeightedChoice(hs: Hashing, fid: string, nodes: seq<Node>, n: nat, result: seq<Node>)
    requires IsBestOf(result, nodes, n, Rank(Weighted, hs, fid, nodes))
    ensures |result| == Min(n, |nodes|) && multiset(result) <= multiset(nodes)
    ensures forall i, j :: 0 <= i < j < |result| ==> ScoreNoLower(hs, fid, nodes, result[i], result[j])
    ensures forall x, y :: x in result && multiset(result)[y] < multiset(nodes)[y] ==>
      ScoreNoLower(hs, fid, nodes, x, y)
  {
    var rank := Rank(Weighted, hs, fid, nodes);
    BestOfBounds(result, nodes, n, rank);
    if nodes != [] {
      forall x, y ensures rank(x) <= rank(y) <==> ScoreNoLower(hs, fid, nodes, x, y) {
        HigherScore(hs, fid, nodes, x, y);
      }
    }
  }

  // ---- ConsistentHash -------------------------------------------------------

  datatype RingEntry = RingEntry(hash: Word32, nodeID: string)

  function ByHash(): RingEntry -> real {
    (e: RingEntry) => e.hash as real
  }

  /** The ring positions of one node. */
  function VirtualNodes(h32: string -> Word32, id: string, v: nat): (s: seq<RingEntry>)
    ensures |s| == v
    ensures forall i :: 0 <= i < v ==> s[i] == RingEntry(h32(RingKey(id, i)), id)
  {
    if v == 0 then [] else VirtualNodes(h32, id, v - 1) + [RingEntry(h32(RingKey(id, v - 1)), id)]
  }

  /** The ring positions of all nodes, in the order they are generated. */
  function Unsorted(h32: string -> Word32, nodes: seq<Node>, v: nat): (s: seq<RingEntry>)
    ensures |s| == |nodes| * v
  {
    if nodes == [] then []
    else Unsorted(h32, nodes[..|nodes| - 1], v) + VirtualNodes(h32, nodes[|nodes| - 1].id, v)
  }

  lemma {:induction false} UnsortedHolds(h32: string -> Word32, nodes: seq<Node>, v: nat)
    ensures forall e :: e in Unsorted(h32, nodes, v) ==> OnRing(h32, nodes, v, e)
    ensures forall nd, i :: nd in nodes && 0 <= i < v ==>
      RingEntry(h32(RingKey(nd.id, i)), nd.id) in Unsorted(h32, nodes, v)
  {
    if nodes == [] {
    } else {
      var front, last := nodes[..|nodes| - 1], nodes[|nodes| - 1];
      UnsortedHolds(h32, front, v);
      assert nodes == front + [last];
      var mine := VirtualNodes(h32, last.id, v);
      forall e | e in Unsorted(h32, nodes, v) ensures OnRing(h32, nodes, v, e) {
        if e in mine {
          var i :| 0 <= i < v && mine[i] == e;
          assert last in nodes && e == RingEntry(h32(RingKey(last.id, i)), last.id);
        } else {
          assert OnRing(h32, front, v, e);
        }
      }
      forall nd, i | nd in nodes && 0 <= i < v
        ensures RingEntry(h32(RingKey(nd.id, i)), nd.id) in Unsorted(h32, nodes, v)
      {
        if nd == last {
          assert mine[i] in mine;
        }
      }
    }
  }

  ghost predicate OnRing(h32: string -> Word32, nodes: seq<Node>, v: nat, e: RingEntry) {
    exists nd, i :: nd in nodes && 0 <= i < v && e == RingEntry(h32(RingKey(nd.id, i)), nd.id)
  }

  /** The sorted ring read clockwise from the fragment's hash. */
  ghost predicate IsRotation(ring: seq<RingEntry>, start: nat, walk: seq<RingEntry>) {
    start <= |ring| && walk == ring[start..] + ring[..start]
  }

  lemma WalkSorted(ring: seq<RingEntry>, start: nat, walk: seq<RingEntry>, fh: Word32)
    requires IsRotation(ring, start, walk)
    requires forall i, j :: 0 <= i < j < |ring| ==> ring[i].hash <= ring[j].hash
    requires forall i :: 0 <= i < start ==> ring[i].hash < fh
    requires forall i :: start <= i < |ring| ==> ring[i].hash >= fh
    ensures forall i, j :: 0 <= i < j < |walk| ==> Clockwise(fh, walk[i].hash) <= Clockwise(fh, walk[j].hash)
  {
  }

  lemma OnceAround(a: nat, n: nat)
    requires n > 0 && a <= 2 * n
    ensures a % n == if a < n then a else if a < 2 * n then a - n else 0
  {
    if n <= a < 2 * n {
      assert a == n + (a - n);
    }
  }

  /** The loop's index arithmetic: position i of the walk, and its first position again after a full rotation. */
  lemma WalkIndex(ring: seq<RingEntry>, start: nat, walk: seq<RingEntry>, i: nat)
    requires IsRotation(ring, start, walk) && i <= |ring| && |ring| > 0
    ensures (start + i) % |ring| < |ring|
    ensures ring[(start + i) % |ring|] == walk[if i == |ring| then 0 else i]
  {
    OnceAround(start + i, |ring|);
  }

  /** What the walk over the ring has established after its first i positions. */
  ghost predicate Walked(h32: string -> Word32, nodes: seq<Node>, v: nat, fh: Word32, walk: seq<RingEntry>, i: nat,
      seen: set<string>, result: seq<Node>)
    requires v > 0
  {
    && i <= |walk|
    && (forall k :: 0 <= k < i ==> walk[k].nodeID in seen)
    && seen == IDs(result)
    && (forall x :: x in result ==> x in nodes)
    && UniqueIDs(result)
    && (forall a, b :: 0 <= a < b < |result| ==> Nearest(h32, result[a].id, v, fh) <= Nearest(h32, result[b].id, v, fh))
    && (forall x, k :: x in result && i <= k < |walk| ==> Nearest(h32, x.id, v, fh) <= Clockwise(fh, walk[k].hash))
  }

  /** The walk holds exactly the ring positions of the nodes, nearest first. */
  ghost predicate IsWalk(h32: string -> Word32, nodes: seq<Node>, v: nat, fh: Word32, walk: seq<RingEntry>) {
    && (forall k :: 0 <= k < |walk| ==> OnRing(h32, nodes, v, walk[k]))
    && (forall nd, i :: nd in nodes && 0 <= i < v ==> RingEntry(h32(RingKey(nd.id, i)), nd.id) in walk)
    && (forall i, j :: 0 <= i < j < |walk| ==> Clockwise(fh, walk[i].hash) <= Clockwise(fh, walk[j].hash))
  }

  /** A node met for the first time is met at its nearest position. */
  lemma FirstMeeting(h32: string -> Word32, nodes: seq<Node>, v: nat, fh: Word32, walk: seq<RingEntry>, i: nat)
    requires v > 0 && IsWalk(h32, nodes, v, fh, walk) && UniqueIDs(nodes)
    requires i < |walk| && forall k :: 0 <= k < i ==> walk[k].nodeID != walk[i].nodeID
    ensures Nearest(h32, walk[i].nodeID, v, fh) == Clockwise(fh, walk[i].hash)
  {
    assert OnRing(h32, nodes, v, walk[i]);
    var id := walk[i].nodeID;
    NearestIsLeast(h32, id, v, fh);
    var best :| 0 <= best < v && Nearest(h32, id, v, fh) == Clockwise(fh, h32(RingKey(id, best)));
    assert RingEntry(h32(RingKey(id, best)), id) in walk;
    var k :| 0 <= k < |walk| && walk[k] == RingEntry(h32(RingKey(id, best)), id);
    assert k >= i;
  }

  lemma WalkDone(h32: string -> Word32, nodes: seq<Node>, v: nat, fh: Word32, walk: seq<RingEntry>, i: nat,
      seen: set<string>, result: seq<Node>, y: Node)
    requires v > 0 && IsWalk(h32, nodes, v, fh, walk) && UniqueIDs(nodes)
    requires Walked(h32, nodes, v, fh, walk, i, seen, result)
    requires y in nodes && y !in result
    ensures exists k ::
      i <= k < |walk| && walk[k].nodeID == y.id && Nearest(h32, y.id, v, fh) == Clockwise(fh, walk[k].hash)
  {
    NearestIsLeast(h32, y.id, v, fh);
    var best :| 0 <= best < v && Nearest(h32, y.id, v, fh) == Clockwise(fh, h32(RingKey(y.id, best)));
    assert RingEntry(h32(RingKey(y.id, best)), y.id) in walk;
    var k :| 0 <= k < |walk| && walk[k] == RingEntry(h32(RingKey(y.id, best)), y.id);
    forall x | x in result ensures x.id != y.id {
      if x.id == y.id {
        SameID(nodes, x, y);
      }
    }
  }

  lemma SameID(nodes: seq<Node>, x: Node, y: Node)
    requires UniqueIDs(nodes) && x in nodes && y in nodes && x.id == y.id
    ensures x == y
  {
  }

  lemma WalkedTopN(h32: string -> Word32, nodes: seq<Node>, v: nat, fh: Word32, walk: seq<RingEntry>, i: nat,
      seen: set<string>, result: seq<Node>, n: nat, rank: Node -> real)
    requires v > 0 && IsWalk(h32, nodes, v, fh, walk) && UniqueIDs(nodes)
    requires Walked(h32, nodes, v, fh, walk, i, seen, result)
    requires |result| == Min(n, |nodes|)
    requires forall nd :: rank(nd) == Nearest(h32, nd.id, v, fh) as real
    ensures IsTopN(result, nodes, n, rank)
  {
    forall x, y | x in result && y in nodes && y !in result ensures rank(x) <= rank(y) {
      WalkDone(h32, nodes, v, fh, walk, i, seen, result, y);
    }
  }

  /** One position of the walk: an owner already seen is skipped, a new one is appended. */
  lemma WalkStep(h32: string -> Word32, nodes: seq<Node>, v: nat, fh: Word32, walk: seq<RingEntry>, i: nat,
      seen: set<string>, result: seq<Node>, nd: Node)
    requires v > 0 && IsWalk(h32, nodes, v, fh, walk) && UniqueIDs(nodes)
    requires i < |walk| && Walked(h32, nodes, v, fh, walk, i, seen, result)
    requires nd in nodes && nd.id == walk[i].nodeID
    ensures nd.id in seen ==> Walked(h32, nodes, v, fh, walk, i + 1, seen, result)
    ensures nd.id !in seen ==> Walked(h32, nodes, v, fh, walk, i + 1, seen + {nd.id}, result + [nd])
  {
    if nd.id !in seen {
      FirstMeeting(h32, nodes, v, fh, walk, i);
      WalkAppend(h32, nodes, v, fh, walk, i, seen, result, nd);
    }
  }

  lemma AppendUnique(result: seq<Node>, nd: Node)
    requires UniqueIDs(result) && nd.id !in IDs(result)
    ensures UniqueIDs(result + [nd]) && IDs(result + [nd]) == IDs(result) + {nd.id}
  {
    assert forall a :: 0 <= a < |result| ==> result[a].id in IDs(result);
  }

  lemma AppendNearest(h32: string -> Word32, v: nat, fh: Word32, result: seq<Node>, nd: Node)
    requires v > 0
    requires forall a, b :: 0 <= a < b < |result| ==>
      Nearest(h32, result[a].id, v, fh) <= Nearest(h32, result[b].id, v, fh)
    requires forall x :: x in result ==> Nearest(h32, x.id, v, fh) <= Nearest(h32, nd.id, v, fh)
    ensures var grown := result + [nd];
      forall a, b :: 0 <= a < b < |grown| ==> Nearest(h32, grown[a].id, v, fh) <= Nearest(h32, grown[b].id, v, fh)
  {
    assert forall a :: 0 <= a < |result| ==> result[a] in result;
  }

  lemma WalkAppend(h32: string -> Word32, nodes: seq<Node>, v: nat, fh: Word32, walk: seq<RingEntry>, i: nat,
      seen: set<string>, result: seq<Node>, nd: Node)
    requires v > 0 && i < |walk| && Walked(h32, nodes, v, fh, walk, i, seen, result)
    requires nd in nodes && nd.id == walk[i].nodeID && nd.id !in seen
    requires Nearest(h32, nd.id, v, fh) == Clockwise(fh, walk[i].hash)
    requires forall k :: i <= k < |walk| ==> Clockwise(fh, walk[i].hash) <= Clockwise(fh, walk[k].hash)
    ensures Walked(h32, nodes, v, fh, walk, i + 1, seen + {nd.id}, result + [nd])
  {
    assert forall x :: x in result + [nd] <==> x in result || x == nd;
    AppendUnique(result, nd);
    AppendNearest(h32, v, fh, result, nd);
  }

  lemma WalkStart(h32: string -> Word32, nodes: seq<Node>, v: nat, fh: Word32, walk: seq<RingEntry>)
    requires v > 0
    ensures Walked(h32, nodes, v, fh, walk, 0, {}, [])
  {
    assert IDs([]) == {};
  }

  /** The walk's next position, as the loop computes it; past a full rotation it finds nothing new. */
  lemma WalkIteration(h32: string -> Word32, nodes: seq<Node>, v: nat, fh: Word32, ring: seq<RingEntry>, start: nat,
      walk: seq<RingEntry>, i: nat, seen: set<string>, result: seq<Node>, nodeMap: map<string, Node>)
    requires v > 0 && IsRotation(ring, start, walk) && IsWalk(h32, nodes, v, fh, walk) && UniqueIDs(nodes)
    requires i <= |ring| && nodes != [] && Walked(h32, nodes, v, fh, walk, i, seen, result)
    requires forall nd :: nd in nodes ==> nd.id in nodeMap && nodeMap[nd.id] == nd
    ensures |ring| > 0 && (start + i) % |ring| < |ring|
    ensures Visited(h32, nodes, v, fh, walk, i, seen, result, nodeMap, ring[(start + i) % |ring|].nodeID)
  {
    assert nodes[0] in nodes && RingEntry(h32(RingKey(nodes[0].id, 0)), nodes[0].id) in walk;
    WalkIndex(ring, start, walk, i);
    WalkVisit(h32, nodes, v, fh, walk, i, seen, result, nodeMap);
  }

  /** What visiting an owner at position i does: a new one is taken, a known one skipped; past the end none is new. */
  ghost predicate Visited(h32: string -> Word32, nodes: seq<Node>, v: nat, fh: Word32, walk: seq<RingEntry>, i: nat,
      seen: set<string>, result: seq<Node>, nodeMap: map<string, Node>, nid: string)
    requires v > 0
  {
    && nid in nodeMap
    && (i >= |walk| ==> nid in seen && |result| == |nodes|)
    && (i < |walk| && nid in seen ==> Walked(h32, nodes, v, fh, walk, i + 1, seen, result))
    && (i < |walk| && nid !in seen ==>
          Walked(h32, nodes, v, fh, walk, i + 1, seen + {nid}, result + [nodeMap[nid]]))
  }

  lemma WalkVisit(h32: string -> Word32, nodes: seq<Node>, v: nat, fh: Word32, walk: seq<RingEntry>, i: nat,
      seen: set<string>, result: seq<Node>, nodeMap: map<string, Node>)
    requires v > 0 && IsWalk(h32, nodes, v, fh, walk) && UniqueIDs(nodes) && walk != []
    requires i <= |walk| && Walked(h32, nodes, v, fh, walk, i, seen, result)
    requires forall nd :: nd in nodes ==> nd.id in nodeMap && nodeMap[nd.id] == nd
    ensures var at := if i == |walk| then 0 else i;
      Visited(h32, nodes, v, fh, walk, i, seen, result, nodeMap, walk[at].nodeID)
  {
    if i == |walk| {
      FullRotation(h32, nodes, v, fh, walk, seen, result);
      OwnerMapped(h32, nodes, v, fh, walk, 0, nodeMap);
    } else {
      OwnerMapped(h32, nodes, v, fh, walk, i, nodeMap);
      WalkStep(h32, nodes, v, fh, walk, i, seen, result, nodeMap[walk[i].nodeID]);
    }
  }

  lemma OwnerMapped(h32: string -> Word32, nodes: seq<Node>, v: nat, fh: Word32, walk: seq<RingEntry>, i: nat,
      nodeMap: map<string, Node>)
    requires IsWalk(h32, nodes, v, fh, walk) && i < |walk|
    requires forall nd :: nd in nodes ==> nd.id in nodeMap && nodeMap[nd.id] == nd
    ensures walk[i].nodeID in nodeMap && nodeMap[walk[i].nodeID] in nodes
    ensures nodeMap[walk[i].nodeID].id == walk[i].nodeID
  {
    assert OnRing(h32, nodes, v, walk[i]);
  }

  /** A full rotation meets every node. */
  lemma FullRotation(h32: string -> Word32, nodes: seq<Node>, v: nat, fh: Word32, walk: seq<RingEntry>,
      seen: set<string>, result: seq<Node>)
    requires v > 0 && IsWalk(h32, nodes, v, fh, walk) && UniqueIDs(nodes)
    requires Walked(h32, nodes, v, fh, walk, |walk|, seen, result)
    ensures |result| == |nodes|
  {
    forall y | y in nodes ensures y in result {
      if y !in result {
        WalkDone(h32, nodes, v, fh, walk, |walk|, seen, result, y);
      }
    }
    NoDupCardinality(nodes);
    NoDupCardinality(result);
    assert ToSet(nodes) == ToSet(result);
  }

  /** nodeByID. */
  method NodeByID(nodes: seq<Node>) returns (m: map<string, Node>)
    ensures m.Keys == IDs(nodes)
    ensures forall nd :: nd in Lasts(nodes) ==> nd.id in m && m[nd.id] == nd
  {
    m := map[];
    for i := 0 to |nodes|
      invariant m.Keys == IDs(nodes[..i])
      invariant forall id :: id in m ==> IsLastOf(nodes[..i], m[id], id)
    {
      assert nodes[..i + 1] == nodes[..i] + [nodes[i]];
      LastOfMore(nodes[..i], nodes[i]);
      m := m[nodes[i].id := nodes[i]];
    }
    assert nodes[..|nodes|] == nodes;
    forall nd | nd in Lasts(nodes) ensures nd.id in m && m[nd.id] == nd {
      LastsIDs(nodes);
      assert nd.id in IDs(nodes);
      LastOfIsKept(nodes, m[nd.id], nd);
    }
  }

  lemma LastOfMore(front: seq<Node>, nd: Node)
    ensures IDs(front + [nd]) == IDs(front) + {nd.id}
    ensures IsLastOf(front + [nd], nd, nd.id)
    ensures forall x, id :: id != nd.id && IsLastOf(front, x, id) ==> IsLastOf(front + [nd], x, id)
  {
    var all := front + [nd];
    assert forall x :: x in all <==> x in front || x == nd;
    assert all[|front|] == nd;
    forall x, id | id != nd.id && IsLastOf(front, x, id) ensures IsLastOf(all, x, id) {
      var k :| 0 <= k < |front| && front[k] == x && forall j :: k < j < |front| ==> front[j].id != id;
      assert all[k] == x;
    }
  }

  lemma LastOfIsKept(nodes: seq<Node>, x: Node, nd: Node)
    requires IsLastOf(nodes, x, nd.id) && nd in Lasts(nodes)
    ensures x == nd
  {
    var k :| 0 <= k < |nodes| && nodes[k] == x && forall j :: k < j < |nodes| ==> nodes[j].id != nd.id;
    LastsHold(nodes, k);
    LastsUnique(nodes);
    SameID(Lasts(nodes), nd, x);
  }

  /** The ring has vn positions for each node, at the hashes of its id with a number, and no others. */
  ghost predicate IsRingOf(ring: seq<RingEntry>, h32: string -> Word32, nodes: seq<Node>, vn: nat) {
    && |ring| == |nodes| * vn
    && forall e :: e in ring <==>
      exists nd, i: nat :: nd in nodes && i < vn && e == RingEntry(h32(nd.id + "#" + Decimal(i)), nd.id)
  }

  lemma OnRingText(h32: string -> Word32, nodes: seq<Node>, vn: nat, e: RingEntry)
    ensures OnRing(h32, nodes, vn, e) <==>
      exists nd, i: nat :: nd in nodes && i < vn && e == RingEntry(h32(nd.id + "#" + Decimal(i)), nd.id)
  {
    if OnRing(h32, nodes, vn, e) {
      var nd, i :| nd in nodes && 0 <= i < vn && e == RingEntry(h32(RingKey(nd.id, i)), nd.id);
      assert nd in nodes && e == RingEntry(h32(nd.id + "#" + Decimal(i)), nd.id);
    }
    if nd, i: nat :| nd in nodes && i < vn && e == RingEntry(h32(nd.id + "#" + Decimal(i)), nd.id) {
      assert e == RingEntry(h32(RingKey(nd.id, i)), nd.id);
    }
  }

  lemma RingHolds(h32: string -> Word32, nodes: seq<Node>, vn: nat, ring: seq<RingEntry>)
    requires multiset(ring) == multiset(Unsorted(h32, nodes, vn))
    ensures IsRingOf(ring, h32, nodes, vn)
  {
    var unsorted := Unsorted(h32, nodes, vn);
    assert |ring| == |multiset(ring)| && |unsorted| == |multiset(unsorted)|;
    UnsortedHolds(h32, nodes, vn);
    SameElements(ring, unsorted);
    forall e ensures e in ring <==> OnRing(h32, nodes, vn, e) {
      if OnRing(h32, nodes, vn, e) {
        var nd, i :| nd in nodes && 0 <= i < vn && e == RingEntry(h32(RingKey(nd.id, i)), nd.id);
        assert e in unsorted;
      }
    }
    forall e ensures e in ring <==>
      exists nd, i: nat :: nd in nodes && i < vn && e == RingEntry(h32(nd.id + "#" + Decimal(i)), nd.id)
    {
      OnRingText(h32, nodes, vn, e);
    }
  }

  /** The ring of the nodes, in ascending order. */
  method BuildRing(h32: string -> Word32, nodes: seq<Node>, vn: nat) returns (ring: seq<RingEntry>)
    ensures IsRingOf(ring, h32, nodes, vn)
    ensures multiset(ring) == multiset(Unsorted(h32, nodes, vn))
    ensures forall i, j :: 0 <= i < j < |ring| ==> ring[i].hash <= ring[j].hash
  {
    ring := [];
    for j := 0 to |nodes|
      invariant ring == Unsorted(h32, nodes[..j], vn)
    {
      ghost var before := ring;
      for i := 0 to vn
        invariant ring == before + VirtualNodes(h32, nodes[j].id, i)
      {
        var key := RingKey(nodes[j].id, i);
        ring := ring + [RingEntry(h32(key), nodes[j].id)];
      }
      assert nodes[..j + 1][..j] == nodes[..j];
    }
    assert nodes[..|nodes|] == nodes;
    ghost var unsorted := ring;
    ring := SortSlice(ring, ByHash());
    RingHolds(h32, nodes, vn, ring);
    forall i, j | 0 <= i < j < |ring| ensures ring[i].hash <= ring[j].hash {
      assert ByHash()(ring[i]) <= ByHash()(ring[j]);
    }
  }

  method SearchRing(ring: seq<RingEntry>, fh: Word32) returns (start: nat)
    requires forall i, j :: 0 <= i < j < |ring| ==> ring[i].hash <= ring[j].hash
    ensures start <= |ring|
    ensures forall i :: 0 <= i < start ==> ring[i].hash < fh
    ensures forall i :: start <= i < |ring| ==> ring[i].hash >= fh
  {
    var lo, hi := 0, |ring|;
    while lo < hi
      invariant 0 <= lo <= hi <= |ring|
      invariant forall i :: 0 <= i < lo ==> ring[i].hash < fh
      invariant forall i :: hi <= i < |ring| ==> ring[i].hash >= fh
    {
      var mid := (lo + hi) / 2;
      if ring[mid].hash >= fh {
        hi := mid;
      } else {
        lo := mid + 1;
      }
    }
    start := lo;
  }

  /** The ring walk. It never divides by an empty ring, and the guard on i only ends it when every node has been
      taken. */
  method PlaceConsistentHash(st: Strategy, hs: Hashing, fid: string, nodes: seq<Node>, n: nat)
      returns (result: seq<Node>)
    requires st.ConsistentHash?
    ensures IsTopN(result, Lasts(nodes), n, Rank(st, hs, fid, nodes))
    ensures TakesNearest(result, hs.hash32, if st.vnodes <= 0 then 150 else st.vnodes, hs.hash32(fid), nodes, n)
  {
    var vn := VNodes(st);
    var m := if n > |nodes| then |nodes| else n;
    var ring := BuildRing(hs.hash32, nodes, vn);
    var fh := hs.hash32(fid);
    var start := SearchRing(ring, fh);
    RingServes(hs.hash32, nodes, vn, fh, ring, start);
    var nodeMap := NodeByID(nodes);
    ghost var i, seen;
    result, i, seen := WalkRing(hs.hash32, Lasts(nodes), vn, fh, ring, start, m, nodeMap);
    WalkedChoice(st, hs, fid, nodes, ring[start..] + ring[..start], i, seen, result, n);
    NearestChosen(st, hs, fid, nodes, n, result);
  }

  /** One node for each of the n nearest ids, the last that carries it, nearest first. */
  ghost predicate TakesNearest(result: seq<Node>, h32: string -> Word32, v: nat, from: Word32, nodes: seq<Node>,
      n: nat) {
    && |result| == Min(n, |IDs(nodes)|) && UniqueIDs(result)
    && (forall x :: x in result ==> IsLastOf(nodes, x, x.id))
    && (forall i, j :: 0 <= i < j < |result| ==> Nearer(h32, v, from, result[i].id, result[j].id))
    && (forall x, y :: x in result && y in nodes && y.id !in IDs(result) ==> Nearer(h32, v, from, x.id, y.id))
  }

  lemma NearestChosen(st: Strategy, hs: Hashing, fid: string, nodes: seq<Node>, n: nat, result: seq<Node>)
    requires st.ConsistentHash? && IsTopN(result, Lasts(nodes), n, Rank(st, hs, fid, nodes))
    ensures TakesNearest(result, hs.hash32, if st.vnodes <= 0 then 150 else st.vnodes, hs.hash32(fid), nodes, n)
  {
    LastsCount(nodes);
    LastsUnique(nodes);
    ChosenUnique(Lasts(nodes), result);
    forall x | x in result ensures IsLastOf(nodes, x, x.id) {
      LastsAreLast(nodes, x);
    }
    NearestFirst(hs.hash32, VNodes(st), hs.hash32(fid), nodes, result, Rank(st, hs, fid, nodes));
  }

  lemma NearestFirst(h32: string -> Word32, v: nat, from: Word32, nodes: seq<Node>, result: seq<Node>,
      rank: Node -> real)
    requires v > 0 && forall nd :: rank(nd) == Nearest(h32, nd.id, v, from) as real
    requires forall i, j :: 0 <= i < j < |result| ==> rank(result[i]) <= rank(result[j])
    requires forall x, y :: x in result && y in Lasts(nodes) && y !in result ==> rank(x) <= rank(y)
    ensures forall i, j :: 0 <= i < j < |result| ==> Nearer(h32, v, from, result[i].id, result[j].id)
    ensures forall x, y :: x in result && y in nodes && y.id !in IDs(result) ==> Nearer(h32, v, from, x.id, y.id)
  {
    forall i, j | 0 <= i < j < |result| ensures Nearer(h32, v, from, result[i].id, result[j].id) {
      assert rank(result[i]) <= rank(result[j]);
      NearerIff(h32, v, from, result[i].id, result[j].id);
    }
    LastsIDs(nodes);
    forall x, y | x in result && y in nodes && y.id !in IDs(result) ensures Nearer(h32, v, from, x.id, y.id) {
      assert y.id in IDs(Lasts(nodes));
      var kept :| kept in Lasts(nodes) && kept.id == y.id;
      assert rank(x) <= rank(kept);
      NearerIff(h32, v, from, x.id, y.id);
    }
  }

  lemma LastsCount(nodes: seq<Node>)
    ensures IDs(Lasts(nodes)) == IDs(nodes) && |Lasts(nodes)| == |IDs(nodes)|
  {
    LastsIDs(nodes);
    LastsUnique(nodes);
    UniqueCount(Lasts(nodes));
  }

  lemma {:induction false} UniqueCount(nodes: seq<Node>)
    requires UniqueIDs(nodes)
    ensures |IDs(nodes)| == |nodes|
  {
    if nodes == [] {
      assert IDs(nodes) == {};
    } else {
      var init, last := nodes[..|nodes| - 1], nodes[|nodes| - 1];
      UniqueCount(init);
      LastIDNew(nodes);
    }
  }

  lemma LastIDNew(nodes: seq<Node>)
    requires UniqueIDs(nodes) && nodes != []
    ensures var init, last := nodes[..|nodes| - 1], nodes[|nodes| - 1];
      last.id !in IDs(init) && IDs(nodes) == IDs(init) + {last.id}
  {
    var init, last := nodes[..|nodes| - 1], nodes[|nodes| - 1];
    assert nodes == init + [last];
    LastOfMore(init, last);
  }

  lemma ChosenUnique(nodes: seq<Node>, result: seq<Node>)
    requires UniqueIDs(nodes) && NoDup(result) && forall x :: x in result ==> x in nodes
    ensures UniqueIDs(result)
  {
    forall i, j | 0 <= i < j < |result| ensures result[i].id != result[j].id {
      assert result[i] in nodes && result[j] in nodes;
      if result[i].id == result[j].id {
        SameID(nodes, result[i], result[j]);
      }
    }
  }

  lemma WalkedChoice(st: Strategy, hs: Hashing, fid: string, nodes: seq<Node>, walk: seq<RingEntry>, i: nat,
      seen: set<string>, result: seq<Node>, n: nat)
    requires st.ConsistentHash? && UniqueIDs(Lasts(nodes))
    requires IsWalk(hs.hash32, Lasts(nodes), VNodes(st), hs.hash32(fid), walk)
    requires Walked(hs.hash32, Lasts(nodes), VNodes(st), hs.hash32(fid), walk, i, seen, result)
    requires |result| == Min(n, |Lasts(nodes)|)
    ensures IsTopN(result, Lasts(nodes), n, Rank(st, hs, fid, nodes))
  {
    WalkedTopN(hs.hash32, Lasts(nodes), VNodes(st), hs.hash32(fid), walk, i, seen, result, n, Rank(st, hs, fid, nodes));
  }

  lemma RingServes(h32: string -> Word32, nodes: seq<Node>, vn: nat, fh: Word32, ring: seq<RingEntry>, start: nat)
    requires multiset(ring) == multiset(Unsorted(h32, nodes, vn)) && start <= |ring|
    requires forall i, j :: 0 <= i < j < |ring| ==> ring[i].hash <= ring[j].hash
    requires forall i :: 0 <= i < start ==> ring[i].hash < fh
    requires forall i :: start <= i < |ring| ==> ring[i].hash >= fh
    ensures UniqueIDs(Lasts(nodes)) && IsWalk(h32, Lasts(nodes), vn, fh, ring[start..] + ring[..start])
  {
    RingIsWalk(h32, nodes, vn, fh, ring, start, ring[start..] + ring[..start]);
    LastsUnique(nodes);
    WalkOfLasts(h32, nodes, vn, fh, ring[start..] + ring[..start]);
  }

  /** Repeated ids put the same positions on the ring twice; the walk is one of the nodes kept for the ids. */
  lemma WalkOfLasts(h32: string -> Word32, nodes: seq<Node>, v: nat, fh: Word32, walk: seq<RingEntry>)
    requires IsWalk(h32, nodes, v, fh, walk)
    ensures IsWalk(h32, Lasts(nodes), v, fh, walk)
  {
    LastsIDs(nodes);
    forall k | 0 <= k < |walk| ensures OnRing(h32, Lasts(nodes), v, walk[k]) {
      assert OnRing(h32, nodes, v, walk[k]);
      var nd, i :| nd in nodes && 0 <= i < v && walk[k] == RingEntry(h32(RingKey(nd.id, i)), nd.id);
      assert nd.id in IDs(Lasts(nodes));
      var kept :| kept in Lasts(nodes) && kept.id == nd.id;
      assert walk[k] == RingEntry(h32(RingKey(kept.id, i)), kept.id);
    }
  }

  /** The loop of the ring walk: it takes m nodes, or all of them, each owner clockwise from `start` when first met. */
  method WalkRing(ghost h32: string -> Word32, ghost nodes: seq<Node>, ghost v: nat, ghost fh: Word32,
      ring: seq<RingEntry>, start: nat, m: nat, nodeMap: map<string, Node>)
      returns (result: seq<Node>, ghost i: nat, ghost seenIDs: set<string>)
    requires v > 0 && UniqueIDs(nodes) && (m > 0 ==> nodes != []) && start <= |ring|
    requires IsWalk(h32, nodes, v, fh, ring[start..] + ring[..start])
    requires forall nd :: nd in nodes ==> nd.id in nodeMap && nodeMap[nd.id] == nd
    ensures |result| == Min(m, |nodes|)
    ensures Walked(h32, nodes, v, fh, ring[start..] + ring[..start], i, seenIDs, result)
  {
    ghost var walk := ring[start..] + ring[..start];
    var seen: set<string> := {};
    result := [];
    var p := 0;
    WalkStart(h32, nodes, v, fh, walk);
    while |result| < m
      invariant 0 <= p <= |ring| && |result| <= m
      invariant Walked(h32, nodes, v, fh, walk, p, seen, result)
      decreases |ring| - p
    {
      WalkIteration(h32, nodes, v, fh, ring, start, walk, p, seen, result, nodeMap);
      var idx := (start + p) % |ring|;
      var nid := ring[idx].nodeID;
      if nid !in seen {
        seen := seen + {nid};
        result := result + [nodeMap[nid]];
      }
      if p >= |ring| {
        break;
      }
      p := p + 1;
    }
    TakenFromNodes(nodes, result);
    i, seenIDs := p, seen;
  }

  lemma TakenFromNodes(nodes: seq<Node>, result: seq<Node>)
    requires UniqueIDs(result) && forall x :: x in result ==> x in nodes
    ensures |result| <= |nodes|
  {
    NoDupCardinality(result);
    SubsetSize(ToSet(result), ToSet(nodes));
    SetNoLarger(nodes);
  }

  lemma RotationHolds(ring: seq<RingEntry>, start: nat, walk: seq<RingEntry>)
    requires IsRotation(ring, start, walk)
    ensures multiset(walk) == multiset(ring) && |walk| == |ring|
  {
    assert ring == ring[..start] + ring[start..];
  }

  lemma RingIsWalk(h32: string -> Word32, nodes: seq<Node>, vn: nat, fh: Word32, ring: seq<RingEntry>, start: nat,
      walk: seq<RingEntry>)
    requires multiset(ring) == multiset(Unsorted(h32, nodes, vn)) && IsRotation(ring, start, walk)
    requires forall i, j :: 0 <= i < j < |ring| ==> ring[i].hash <= ring[j].hash
    requires forall i :: 0 <= i < start ==> ring[i].hash < fh
    requires forall i :: start <= i < |ring| ==> ring[i].hash >= fh
    ensures IsWalk(h32, nodes, vn, fh, walk) && |walk| == |ring|
  {
    WalkSorted(ring, start, walk, fh);
    RotationHolds(ring, start, walk);
    WalkHolds(h32, nodes, vn, walk);
  }

  lemma WalkHolds(h32: string -> Word32, nodes: seq<Node>, vn: nat, walk: seq<RingEntry>)
    requires multiset(walk) == multiset(Unsorted(h32, nodes, vn))
    ensures forall k :: 0 <= k < |walk| ==> OnRing(h32, nodes, vn, walk[k])
    ensures forall nd, i :: nd in nodes && 0 <= i < vn ==> RingEntry(h32(RingKey(nd.id, i)), nd.id) in walk
  {
    UnsortedHolds(h32, nodes, vn);
    SameElements(walk, Unsorted(h32, nodes, vn));
    assert forall k :: 0 <= k < |walk| ==> walk[k] in walk;
  }

  // ---- All strategies -------------------------------------------------------

  /** What a strategy answers: a choice among the nodes kept for their ids, or the start of an ordering of all. */
  ghost predicate IsPlaced(result: seq<Node>, st: Strategy, hs: Hashing, fid: string, nodes: seq<Node>, n: nat) {
    if st.ConsistentHash? then IsTopN(result, Lasts(nodes), n, Rank(st, hs, fid, nodes))
    else IsBestOf(result, nodes, n, Rank(st, hs, fid, nodes))
  }

  /** When no id repeats, as in lists that come from the catalog, all strategies choose the n best nodes. */
  lemma PlacedTopN(result: seq<Node>, st: Strategy, hs: Hashing, fid: string, nodes: seq<Node>, n: nat)
    requires IsPlaced(result, st, hs, fid, nodes, n) && UniqueIDs(nodes)
    ensures IsTopN(result, nodes, n, Rank(st, hs, fid, nodes))
  {
    UniqueLasts(nodes);
    if !st.ConsistentHash? {
      BestOfIsTopN(result, nodes, n, Rank(st, hs, fid, nodes));
    }
  }

  method Place(st: Strategy, hs: Hashing, fid: string, nodes: seq<Node>, n: nat) returns (result: seq<Node>)
    ensures IsPlaced(result, st, hs, fid, nodes, n)
    ensures UniqueIDs(nodes) ==> IsTopN(result, nodes, n, Rank(st, hs, fid, nodes))
  {
    match st {
      case ConsistentHash(_) => result := PlaceConsistentHash(st, hs, fid, nodes, n);
      case Rendezvous => result := PlaceRendezvous(hs, fid, nodes, n);
      case Weighted => result := PlaceWeighted(hs, fid, nodes, n);
    }
    if UniqueIDs(nodes) {
      PlacedTopN(result, st, hs, fid, nodes, n);
    }
  }
}
