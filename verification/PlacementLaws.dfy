/** What holds of every placement: order independence, minimal disruption, dominance of free space. */
module PlacementLaws {
  import opened Collections
  import opened Ranking
  import opened Placement

  // ---- Ties -----------------------------------------------------------------

  /** No two positions of different nodes on the ring coincide. */
  ghost predicate NoRingCollisions(h32: string -> Word32, nodes: seq<Node>, v: nat) {
    forall a, b, i, j :: a in nodes && b in nodes && a.id != b.id && 0 <= i < v && 0 <= j < v
      ==> h32(RingKey(a.id, i)) != h32(RingKey(b.id, j))
  }

  lemma NoCollisionsNoTies(st: Strategy, hs: Hashing, fid: string, nodes: seq<Node>)
    requires st.ConsistentHash? && UniqueIDs(nodes) && NoRingCollisions(hs.hash32, nodes, VNodes(st))
    ensures TieFree(nodes, Rank(st, hs, fid, nodes))
    ensures forall n: nat :: Determined(nodes, n, Rank(st, hs, fid, nodes))
  {
    var v, fh := VNodes(st), hs.hash32(fid);
    forall a, b | a in nodes && b in nodes && Rank(st, hs, fid, nodes)(a) == Rank(st, hs, fid, nodes)(b)
      ensures a == b
    {
      NearestIsLeast(hs.hash32, a.id, v, fh);
      NearestIsLeast(hs.hash32, b.id, v, fh);
      var i :| 0 <= i < v && Nearest(hs.hash32, a.id, v, fh) == Clockwise(fh, hs.hash32(RingKey(a.id, i)));
      var j :| 0 <= j < v && Nearest(hs.hash32, b.id, v, fh) == Clockwise(fh, hs.hash32(RingKey(b.id, j)));
      assert hs.hash32(RingKey(a.id, i)) == hs.hash32(RingKey(b.id, j));
      SameID(nodes, a, b);
    }
    forall n: nat ensures Determined(nodes, n, Rank(st, hs, fid, nodes)) {
      TieFreeDetermined(nodes, n, Rank(st, hs, fid, nodes));
    }
  }

  // ---- Order independence ---------------------------------------------------

  lemma {:induction false} TotalFreeAppend(a: seq<Node>, b: seq<Node>)
    ensures TotalFree(a + b) == TotalFree(a) + TotalFree(b)
  {
    if b == [] {
      assert a + b == a;
    } else {
      assert (a + b)[..|a + b| - 1] == a + b[..|b| - 1];
      TotalFreeAppend(a, b[..|b| - 1]);
    }
  }

  lemma TotalFreeWithout(front: seq<Node>, x: Node, tail: seq<Node>)
    ensures TotalFree(front + [x] + tail) == TotalFree(front + tail) + x.freeBytes
  {
    TotalFreeAppend(front, tail);
    TotalFreeAppend(front + [x], tail);
    TotalFreeAppend(front, [x]);
    TotalFreeOne(x);
  }

  lemma TotalFreeOne(x: Node)
    ensures TotalFree([x]) == x.freeBytes
  {
    assert [x][..0] == [];
  }

  lemma {:induction false} TotalFreeRearranged(a: seq<Node>, b: seq<Node>)
    requires multiset(a) == multiset(b)
    ensures TotalFree(a) == TotalFree(b)
  {
    if a == [] {
      assert |b| == |multiset(b)|;
    } else {
      var x := a[|a| - 1];
      assert x in multiset(b);
      var k :| 0 <= k < |b| && b[k] == x;
      RestRearranged(a, b, k);
      TotalFreeRearranged(a[..|a| - 1], b[..k] + b[k + 1..]);
      TotalFreeWithout(b[..k], x, b[k + 1..]);
      assert b == b[..k] + [x] + b[k + 1..];
    }
  }

  /** Every strategy gives the same list for every order in which the same nodes are offered, unless a tie reaches the
      n best. */
  lemma OrderIndependent(st: Strategy, hs: Hashing, fid: string, nodes1: seq<Node>, nodes2: seq<Node>, n: nat,
      r1: seq<Node>, r2: seq<Node>)
    requires UniqueIDs(nodes1) && UniqueIDs(nodes2) && ToSet(nodes1) == ToSet(nodes2)
    requires Determined(nodes1, n, Rank(st, hs, fid, nodes1))
    requires IsTopN(r1, nodes1, n, Rank(st, hs, fid, nodes1)) && IsTopN(r2, nodes2, n, Rank(st, hs, fid, nodes2))
    ensures r1 == r2
  {
    SameSetSameMultiset(nodes1, nodes2);
    TotalFreeRearranged(nodes1, nodes2);
    TopNReranked(r2, nodes2, n, Rank(st, hs, fid, nodes2), Rank(st, hs, fid, nodes1));
    TopNUnique(r1, nodes1, r2, nodes2, n, Rank(st, hs, fid, nodes1));
  }

  // ---- Minimal disruption ---------------------------------------------------

  predicate NoManualWeights(nodes: seq<Node>) {
    forall nd :: nd in nodes ==> nd.weight == 0.0
  }

  /** When a join leaves the order of the old nodes alone: always for hashing; for Weighted without manual weights, when
      free space is never negative or adds up to something. */
  predicate Rescalable(st: Strategy, nodes: seq<Node>, x: Node) {
    st.Weighted? ==>
      NoManualWeights(nodes) && x.freeBytes >= 0
      && (TotalFree(nodes) > 0 || forall nd :: nd in nodes ==> nd.freeBytes >= 0)
  }

  lemma TotalFreeJoin(nodes: seq<Node>, x: Node, nodes': seq<Node>)
    requires UniqueIDs(nodes) && UniqueIDs(nodes') && x !in nodes && ToSet(nodes') == ToSet(nodes) + {x}
    ensures TotalFree(nodes') == TotalFree(nodes) + x.freeBytes
  {
    var joined := nodes + [x];
    assert ToSet(joined) == ToSet(nodes) + {x};
    assert NoDup(joined) by { assert forall i :: 0 <= i < |nodes| ==> nodes[i] in nodes; }
    SameSetSameMultiset(joined, nodes');
    TotalFreeRearranged(joined, nodes');
    TotalFreeAppend(nodes, [x]);
    assert [x][..0] == [];
  }

  lemma DivMonotone(a: real, b: real, t: real)
    requires t > 0.0 && a <= b
    ensures a / t <= b / t
  {
    assert b / t == a / t + (b - a) / t;
  }

  lemma Rescaled(free1: int, free2: int, total: int, total': int, f1: real, f2: real)
    requires total > 0 && total' > 0
    requires free1 as real / total as real * f1 <= free2 as real / total as real * f2
    ensures free1 as real / total' as real * f1 <= free2 as real / total' as real * f2
  {
    var a, b, t, t' := free1 as real * f1, free2 as real * f2, total as real, total' as real;
    assert free1 as real / t * f1 == a / t && free2 as real / t * f2 == b / t;
    assert a <= b by {
      assert a / t * t == a && b / t * t == b;
    }
    DivMonotone(a, b, t');
    assert free1 as real / t' * f1 == a / t' && free2 as real / t' * f2 == b / t';
  }

  lemma ScaledOrder(c: real, fa: real, fb: real)
    requires c > 0.0
    ensures c * fa >= c * fb <==> fa >= fb
  {
    assert c * fa - c * fb == c * (fa - fb);
    assert fa > fb ==> c * (fa - fb) > 0.0;
    assert fa < fb ==> c * (fb - fa) > 0.0;
    assert c * (fb - fa) == -(c * (fa - fb));
  }

  /** The weight of a node without free space, the same for all such nodes. */
  function FullWeight(nodes: seq<Node>): real {
    if TotalFree(nodes) > 0 || nodes == [] then 0.0 else 1.0 / |nodes| as real
  }

  lemma FullScore(hs: Hashing, fid: string, nodes: seq<Node>, nd: Node)
    requires nodes != [] && nd.weight == 0.0 && nd.freeBytes == 0
    ensures Rank(Weighted, hs, fid, nodes)(nd) == -(FullWeight(nodes) * (0.5 + 0.5 * HrwScore(hs.hash64, fid, nd)))
  {
    assert WeightFactor(nd, TotalFree(nodes), |nodes|) == FullWeight(nodes);
  }

  lemma FullWeightSign(nodes: seq<Node>)
    ensures FullWeight(nodes) >= 0.0
    ensures nodes != [] && TotalFree(nodes) <= 0 ==> FullWeight(nodes) > 0.0
  {
  }

  /** Among nodes without free space the hash decides, unless others have some: then all of them tie. */
  lemma FullNodesByHash(hs: Hashing, fid: string, nodes: seq<Node>, a: Node, b: Node)
    requires nodes != [] && a.weight == 0.0 && b.weight == 0.0 && a.freeBytes == 0 && b.freeBytes == 0
    ensures var rank := Rank(Weighted, hs, fid, nodes);
      && (HrwScore(hs.hash64, fid, a) >= HrwScore(hs.hash64, fid, b) ==> rank(a) <= rank(b))
      && (TotalFree(nodes) <= 0 && rank(a) <= rank(b) ==> HrwScore(hs.hash64, fid, a) >= HrwScore(hs.hash64, fid, b))
  {
    FullScore(hs, fid, nodes, a);
    FullScore(hs, fid, nodes, b);
    FullWeightSign(nodes);
    if FullWeight(nodes) > 0.0 {
      ScaledOrder(FullWeight(nodes), 0.5 + 0.5 * HrwScore(hs.hash64, fid, a), 0.5 + 0.5 * HrwScore(hs.hash64, fid, b));
    }
  }

  lemma JoinKeepsOrder(st: Strategy, hs: Hashing, fid: string, nodes: seq<Node>, x: Node, nodes': seq<Node>,
      a: Node, b: Node)
    requires UniqueIDs(nodes) && UniqueIDs(nodes') && x !in nodes && ToSet(nodes') == ToSet(nodes) + {x}
    requires Rescalable(st, nodes, x) && a in nodes && b in nodes
    requires Rank(st, hs, fid, nodes)(a) <= Rank(st, hs, fid, nodes)(b)
    ensures Rank(st, hs, fid, nodes')(a) <= Rank(st, hs, fid, nodes')(b)
  {
    if st.Weighted? {
      TotalFreeJoin(nodes, x, nodes');
      if TotalFree(nodes) > 0 {
        Rescaled(b.freeBytes, a.freeBytes, TotalFree(nodes), TotalFree(nodes'),
                 0.5 + 0.5 * HrwScore(hs.hash64, fid, b), 0.5 + 0.5 * HrwScore(hs.hash64, fid, a));
      } else {
        TotalFreeCovers(nodes, a);
        TotalFreeCovers(nodes, b);
        assert x in ToSet(nodes');
        FullNodesByHash(hs, fid, nodes, a, b);
        FullNodesByHash(hs, fid, nodes', a, b);
      }
    }
  }

  /** One node joins: the new placement is the old one with that node inserted at some place, cut to length. */
  lemma MinimalDisruption(st: Strategy, hs: Hashing, fid: string, nodes: seq<Node>, x: Node, nodes': seq<Node>,
      n: nat, r: seq<Node>, r': seq<Node>)
    requires UniqueIDs(nodes) && UniqueIDs(nodes') && x !in nodes && ToSet(nodes') == ToSet(nodes) + {x}
    requires Rescalable(st, nodes, x) && Determined(nodes', n, Rank(st, hs, fid, nodes'))
    requires IsTopN(r, nodes, n, Rank(st, hs, fid, nodes)) && IsTopN(r', nodes', n, Rank(st, hs, fid, nodes'))
    ensures exists p :: 0 <= p <= |r| && r' == InsertAt(r, p, x)[..Min(n, |nodes| + 1)]
    ensures forall y :: y in r' && y != x ==> y in r
  {
    var rank, rank' := Rank(st, hs, fid, nodes), Rank(st, hs, fid, nodes');
    forall a, b | a in nodes && b in nodes && rank(a) <= rank(b) ensures rank'(a) <= rank'(b) {
      JoinKeepsOrder(st, hs, fid, nodes, x, nodes', a, b);
    }
    TopNReranked(r, nodes, n, rank, rank');
    TopNJoin(r, nodes, x, r', nodes', n, rank');
  }

  /** Under rendezvous a higher hash of node id and fragment id means a better rank, and nothing else does. */
  lemma HashDecides(hs: Hashing, fid: string, nodes: seq<Node>, a: Node, b: Node)
    ensures Rank(Rendezvous, hs, fid, nodes)(a) < Rank(Rendezvous, hs, fid, nodes)(b) <==>
      hs.hash64(a.id + "|" + fid) > hs.hash64(b.id + "|" + fid)
  {
    HigherHash(hs, fid, nodes, b, a);
  }

  // ---- Dominance ------------------------------------------------------------

  lemma {:induction false} TotalFreeCovers(nodes: seq<Node>, a: Node)
    requires a in nodes && forall nd :: nd in nodes ==> nd.freeBytes >= 0
    ensures TotalFree(nodes) >= a.freeBytes
  {
    var front := nodes[..|nodes| - 1];
    assert nodes == front + [nodes[|nodes| - 1]];
    TotalFreeNonNegative(front);
    if a in front {
      TotalFreeCovers(front, a);
    }
  }

  lemma {:induction false} TotalFreeNonNegative(nodes: seq<Node>)
    requires forall nd :: nd in nodes ==> nd.freeBytes >= 0
    ensures TotalFree(nodes) >= 0
  {
    if nodes != [] {
      TotalFreeNonNegative(nodes[..|nodes| - 1]);
    }
  }

  lemma ScoreGap(wa: real, wb: real, ra: real, rb: real)
    requires wa > 2.0 * wb && wb >= 0.0 && ra >= 0.0 && rb <= 1.0
    ensures wa * (0.5 + 0.5 * ra) > wb * (0.5 + 0.5 * rb)
  {
    assert wa * (0.5 + 0.5 * ra) == 0.5 * wa + 0.5 * (wa * ra);
    assert wb * (0.5 + 0.5 * rb) == wb - 0.5 * (wb * (1.0 - rb));
    assert wa * ra >= 0.0;
    assert wb * (1.0 - rb) >= 0.0;
  }

  /** More than twice the free space outweighs any hash. */
  lemma Outranks(hs: Hashing, fid: string, nodes: seq<Node>, a: Node, b: Node)
    requires NoManualWeights(nodes) && a in nodes && b in nodes
    requires forall nd :: nd in nodes ==> nd.freeBytes >= 0
    requires a.freeBytes > 2 * b.freeBytes
    ensures Rank(Weighted, hs, fid, nodes)(a) < Rank(Weighted, hs, fid, nodes)(b)
  {
    TotalFreeCovers(nodes, a);
    var t := TotalFree(nodes) as real;
    var wa, wb := a.freeBytes as real / t, b.freeBytes as real / t;
    assert b.freeBytes >= 0 && t > 0.0;
    assert wa - 2.0 * wb == (a.freeBytes - 2 * b.freeBytes) as real / t > 0.0;
    assert wb >= 0.0;
    var ra, rb := HrwScore(hs.hash64, fid, a), HrwScore(hs.hash64, fid, b);
    var total := TotalFree(nodes);
    assert WeightedScore(hs.hash64, fid, total, |nodes|, a) == wa * (0.5 + 0.5 * ra);
    assert WeightedScore(hs.hash64, fid, total, |nodes|, b) == wb * (0.5 + 0.5 * rb);
    ScoreGap(wa, wb, ra, rb);
  }

  /** A node that n others each have more than twice the free space of is never chosen. */
  lemma DominatedNeverChosen(hs: Hashing, fid: string, nodes: seq<Node>, n: nat, r: seq<Node>, b: Node,
      dominators: set<Node>)
    requires NoManualWeights(nodes) && b in nodes && forall nd :: nd in nodes ==> nd.freeBytes >= 0
    requires IsTopN(r, nodes, n, Rank(Weighted, hs, fid, nodes))
    requires |dominators| >= n && forall a :: a in dominators ==> a in nodes && a.freeBytes > 2 * b.freeBytes
    ensures b !in r
  {
    if b in r {
      forall a | a in dominators ensures a in ToSet(r) {
        Outranks(hs, fid, nodes, a, b);
      }
      var chosen := dominators + {b};
      assert chosen <= ToSet(r) && b !in dominators;
      NoDupCardinality(r);
      SubsetSize(chosen, ToSet(r));
    }
  }
}
