/** kvctl's requests for one fragment: the upload to the primary and the read that falls through the replicas. */
module Client {
  import opened Collections
  import opened Headers
  import opened Planner

  datatype PutRequest = PutRequest(target: string, replicaHeader: string, quorumHeader: string)

  /** uploadFragment: the primary gets the bytes and the other addresses travel in a header, where they arrive as they
      were exactly when each of them is clean. `status` is the answer, if one came; the upload is good on a 201 only. */
  method UploadFragment(addrs: seq<string>, wQuorum: Int64, status: Option<nat>)
      returns (sent: Option<PutRequest>, ok: bool)
    ensures sent.None? <==> addrs == []
    ensures ok <==> addrs != [] && status == Some(201)
    ensures sent.Some? ==>
      && sent.value.target == addrs[0]
      && (NonEmpty(Split(sent.value.replicaHeader)) == addrs[1..] <==> forall a :: a in addrs[1..] ==> Clean(a))
      && (|addrs| == 1 ==> sent.value.replicaHeader == "")
      && WriteQuorum(sent.value.quorumHeader) == if wQuorum > 0 then wQuorum else 2
  {
    if |addrs| == 0 {
      return None, false;
    }
    var replicaAddrs: seq<string> := [];
    if |addrs| > 1 {
      replicaAddrs := addrs[1..];
    }
    var replicaHeader := "";
    if |replicaAddrs| > 0 {
      replicaHeader := Join(replicaAddrs);
    }
    HeaderRoundTripIff(addrs[1..]);
    QuorumHeaderIff(wQuorum);
    sent := Some(PutRequest(addrs[0], replicaHeader, Shown(wQuorum)));
    ok := status == Some(201);
  }

  /** The first non-empty address that answers 200 with a complete body, if any. */
  predicate FirstAnswer(addrs: seq<string>, replies: map<string, Bytes>, j: nat) {
    && j < |addrs| && addrs[j] != "" && addrs[j] in replies
    && forall i :: 0 <= i < j ==> addrs[i] == "" || addrs[i] !in replies
  }

  /** What a read may return: the body of the first address that answers, or an error when none does. */
  ghost predicate Downloads(addrs: seq<string>, replies: map<string, Bytes>, r: Result<Bytes>) {
    && (r.Ok? ==> exists j: nat :: FirstAnswer(addrs, replies, j) && r.value == replies[addrs[j]])
    && (r.Err? ==> forall i :: 0 <= i < |addrs| ==> addrs[i] == "" || addrs[i] !in replies)
  }

  /** downloadFragment; `replies` holds the bodies of the addresses that would answer 200 with a complete body. */
  method DownloadFragment(addrs: seq<string>, replies: map<string, Bytes>) returns (r: Result<Bytes>)
    ensures Downloads(addrs, replies, r)
  {
    for j := 0 to |addrs|
      invariant forall i :: 0 <= i < j ==> addrs[i] == "" || addrs[i] !in replies
    {
      if addrs[j] == "" {
        continue;
      }
      if addrs[j] !in replies {
        continue;
      }
      assert FirstAnswer(addrs, replies, j);
      return Ok(replies[addrs[j]]);
    }
    r := Err("all replicas failed");
  }
}
