/**
 * Looking up and inserting half-open requests in a listener's SYN table:
 * `inet_csk_search_req` and `inet_csk_reqsk_queue_hash_add`.
 */
module InetCskReqsk {
  import opened Kernel
  import opened RequestSock

  /**
   * The lookup key of a request: remote port, remote address and local
   * address, on an IPv4 request (the kernel is taken to be built with IPv6,
   * so the family test is live).
   */
  predicate Matches(r: Request, rport: nat, raddr: nat, laddr: nat)
  {
    r.rmtPort == rport && r.rmtAddr == raddr && r.locAddr == laddr && r.inetFamily
  }

  /**
   * `inet_csk_search_req`: walk the chain the remote address and port hash
   * to, and stop at the first matching request. `h` is the chain and `pos`
   * the request's place in it (what `*prevp` points at). As every request
   * lives in its own hash chain, a miss means no request in the whole table
   * matches.
   */
  method SearchReq(lopt: ListenSock, rport: nat, raddr: nat, laddr: nat)
    returns (h: nat, pos: Option<nat>)
    requires lopt.Valid()
    ensures h == lopt.BucketOf(raddr, rport) && h < lopt.synTable.Length
    ensures pos.Some? ==>
      && pos.value < |lopt.synTable[h]|
      && Matches(lopt.synTable[h][pos.value], rport, raddr, laddr)
      && forall k :: 0 <= k < pos.value ==> !Matches(lopt.synTable[h][k], rport, raddr, laddr)
    ensures pos.None? ==>
      forall b, r :: 0 <= b < lopt.synTable.Length && r in lopt.synTable[b] ==> !Matches(r, rport, raddr, laddr)
  {
    h := lopt.BucketOf(raddr, rport);
    var chain := lopt.synTable[h];
    var k := 0;
    while k < |chain|
      invariant 0 <= k <= |chain|
      invariant forall j :: 0 <= j < k ==> !Matches(chain[j], rport, raddr, laddr)
    {
      var req := chain[k];
      if req.rmtPort == rport && req.rmtAddr == raddr && req.locAddr == laddr && req.inetFamily {
        return h, Some(k);
      }
      k := k + 1;
    }
    forall b, r | 0 <= b < lopt.synTable.Length && r in lopt.synTable[b]
      ensures !Matches(r, rport, raddr, laddr)
    {
      assert lopt.BucketOf(r.rmtAddr, r.rmtPort) == b;
    }
    pos := None;
  }

  /**
   * `inet_csk_reqsk_queue_hash_add`: stamp the request with a fresh
   * retransmission count and its first deadline (`timeout` ticks from `now`),
   * push it on the front of its hash chain, and count it as one more
   * request and one more young request. The listener's timer must be armed
   * exactly when the table was empty before.
   */
  method HashAdd(lopt: ListenSock, req: Request, now: Jiffies, timeout: Jiffies) returns (armTimer: bool)
    requires lopt.Valid()
    modifies lopt`qlen, lopt`qlenYoung, lopt.synTable
    ensures lopt.Valid()
    ensures lopt.synTable[..] ==
      old(lopt.synTable[..])[lopt.BucketOf(req.rmtAddr, req.rmtPort) :=
        [req.(retrans := 0, expires := JiffiesAdd(now, timeout))] + old(lopt.synTable[lopt.BucketOf(req.rmtAddr, req.rmtPort)])]
    ensures lopt.qlen == old(lopt.qlen) + 1 && lopt.qlenYoung == old(lopt.qlenYoung) + 1
    ensures armTimer <==> old(lopt.qlen) == 0
  {
    var h := lopt.BucketOf(req.rmtAddr, req.rmtPort);
    var r := req.(retrans := 0, expires := JiffiesAdd(now, timeout));
    ghost var before := lopt.synTable[..];
    assert forall b, x: Request :: 0 <= b < |before| && x in before[b] ==> lopt.BucketOf(x.rmtAddr, x.rmtPort) == b;
    lopt.synTable[h] := [r] + lopt.synTable[h];
    assert lopt.synTable[..] == before[h := [r] + before[h]];
    SumLenUpdate(before, h, [r] + before[h]);
    SumYoungUpdate(before, h, [r] + before[h]);
    YoungInAppend([r], before[h]);
    var prevQlen := lopt.qlen;
    lopt.qlenYoung := lopt.qlenYoung + 1;
    lopt.qlen := lopt.qlen + 1;
    armTimer := prevQlen == 0;
  }
}
