/**
 * Turning a socket into a listener and back: `inet_csk_listen_start` and
 * `inet_csk_listen_stop`.
 */
module InetCskListen {
  import opened Kernel
  import opened TcpStates
  import opened RequestSock
  import opened Sock
  import opened InetCskPort
  import opened SynqHash

  /**
   * Whether the bucket of port `port` lets a listening socket `sk` on: no
   * bucket yet (and one can be created), an empty bucket, or owners none of
   * which conflicts. A listener never takes the fast-reuse path.
   */
  ghost predicate ListenAdmits(hinfo: BindHashInfo, sk: Sock, port: nat, createOk: bool)
    reads hinfo, sk
    reads if BindKey(sk.net, port) in hinfo.buckets then hinfo.buckets[BindKey(sk.net, port)].owners else []
  {
    if BindKey(sk.net, port) in hinfo.buckets then
      hinfo.buckets[BindKey(sk.net, port)].owners == [] ||
      !AnyConflict(sk, hinfo.buckets[BindKey(sk.net, port)].owners)
    else createOk
  }

  /**
   * `inet_csk_listen_start`: allocate the SYN table for a backlog of
   * `nrTableEntries`, reset both backlog counters, announce LISTEN and
   * validate (or pick) the local port. On a port clash the socket goes back
   * to CLOSE and the table is released (`__reqsk_queue_destroy`), which
   * leaves `listen_opt` as it was.
   */
  method ListenStart(sk: Sock, hinfo: BindHashInfo, nrTableEntries: nat, maxSynBacklog: nat,
                     allocOk: bool, rnd: nat, jhash: JHash, env: PortEnv)
    returns (rc: int)
    requires env.low <= env.high && sk.BindConsistent()
    modifies sk.queue, sk`state, sk`ackBacklog, sk`maxAckBacklog, sk`inetSport, sk`inetNum, sk`bindHash, hinfo
    ensures rc == 0 || rc == -ENOMEM || rc == -EADDRINUSE
    ensures rc == -ENOMEM <==> !allocOk
    ensures sk.queue.deferAccept == old(sk.queue.deferAccept)
    ensures rc == -ENOMEM ==>
      && unchanged(sk.queue) && unchanged(hinfo)
      && unchanged(sk`state, sk`ackBacklog, sk`maxAckBacklog, sk`inetSport, sk`inetNum, sk`bindHash)
    ensures allocOk ==>
      && sk.ackBacklog == 0 && sk.maxAckBacklog == 0
      && sk.queue.acceptQueue == [] && sk.queue.listenOpt != null && fresh(sk.queue.listenOpt)
      && sk.queue.listenOpt.Valid() && sk.queue.listenOpt.qlen == 0
      && sk.queue.listenOpt.nrTableEntries == SynTableSize(nrTableEntries, maxSynBacklog)
    ensures rc == 0 ==>
      && sk.state == Listen && sk.inetSport == sk.inetNum
      && BindKey(sk.net, sk.inetNum) in hinfo.buckets
      && !hinfo.buckets[BindKey(sk.net, sk.inetNum)].fastreuse
      && hinfo.buckets == old(hinfo.buckets)[BindKey(sk.net, sk.inetNum) := hinfo.buckets[BindKey(sk.net, sk.inetNum)]]
    ensures rc == 0 && old(sk.inetNum) != 0 ==> sk.inetNum == old(sk.inetNum)
    ensures rc == 0 && old(sk.inetNum) == 0 && old(sk.bindHash).None? ==> env.low <= sk.inetNum <= env.high && sk.inetNum !in env.reserved
    ensures rc == 0 ==> sk.bindHash == Some(BindKey(sk.net, sk.inetNum))
    ensures rc == 0 && old(sk.bindHash).None? ==> sk in hinfo.buckets[BindKey(sk.net, sk.inetNum)].owners
    ensures rc == -EADDRINUSE ==>
      && sk.state == Close && sk.inetSport == old(sk.inetSport)
      && hinfo.buckets == old(hinfo.buckets) && hinfo.bsockets == old(hinfo.bsockets)
      && sk.inetNum == old(sk.inetNum) && sk.bindHash == old(sk.bindHash)
    ensures allocOk && old(sk.inetNum) != 0 ==>
      (rc == 0 <==> old(ListenAdmits(hinfo, sk, sk.inetNum, env.createOk)))
  {
    rc := sk.queue.Alloc(nrTableEntries, maxSynBacklog, allocOk, rnd, jhash);
    if rc != 0 {
      return;
    }
    rc := Announce(sk, hinfo, env);
  }

  /**
   * The part of `inet_csk_listen_start` after the table is in place: reset
   * the backlog counters, move to LISTEN and have `get_port` validate (or
   * pick) the port; on success record the source port, on a clash fall
   * back to CLOSE.
   */
  method Announce(sk: Sock, hinfo: BindHashInfo, env: PortEnv) returns (rc: int)
    requires env.low <= env.high && sk.BindConsistent()
    modifies sk`state, sk`ackBacklog, sk`maxAckBacklog, sk`inetSport, sk`inetNum, sk`bindHash, hinfo
    ensures rc == 0 || rc == -EADDRINUSE
    ensures sk.ackBacklog == 0 && sk.maxAckBacklog == 0
    ensures rc == 0 ==>
      && sk.state == Listen && sk.inetSport == sk.inetNum
      && BindKey(sk.net, sk.inetNum) in hinfo.buckets
      && !hinfo.buckets[BindKey(sk.net, sk.inetNum)].fastreuse
      && hinfo.buckets == old(hinfo.buckets)[BindKey(sk.net, sk.inetNum) := hinfo.buckets[BindKey(sk.net, sk.inetNum)]]
    ensures rc == 0 && old(sk.inetNum) != 0 ==> sk.inetNum == old(sk.inetNum)
    ensures rc == 0 && old(sk.inetNum) == 0 && old(sk.bindHash).None? ==> env.low <= sk.inetNum <= env.high && sk.inetNum !in env.reserved
    ensures rc == 0 ==> sk.bindHash == Some(BindKey(sk.net, sk.inetNum))
    ensures rc == 0 && old(sk.bindHash).None? ==> sk in hinfo.buckets[BindKey(sk.net, sk.inetNum)].owners
    ensures rc == -EADDRINUSE ==>
      && sk.state == Close && sk.inetSport == old(sk.inetSport)
      && hinfo.buckets == old(hinfo.buckets) && hinfo.bsockets == old(hinfo.bsockets)
      && sk.inetNum == old(sk.inetNum) && sk.bindHash == old(sk.bindHash)
    ensures old(sk.inetNum) != 0 ==>
      (rc == 0 <==> old(ListenAdmits(hinfo, sk, sk.inetNum, env.createOk)))
  {
    sk.maxAckBacklog := 0;
    sk.ackBacklog := 0;
    sk.state := Listen;
    ghost var key := BindKey(sk.net, sk.inetNum);
    ghost var owners := if key in hinfo.buckets then hinfo.buckets[key].owners else [];
    var ret, port, _ := hinfo.GetPort(sk, sk.inetNum, env);
    forall k | 0 <= k < |owners|
      ensures Conflicts(sk, owners[k]) == old(Conflicts(sk, owners[k]))
    {
    }
    if ret == 0 {
      sk.inetSport := sk.inetNum;
      return 0;
    }
    sk.state := Close;
    rc := -EADDRINUSE;
  }

  /**
   * `inet_csk_listen_stop`: take the whole accept list, tear the SYN table
   * down (`reqsk_queue_destroy`) and release the children one by one,
   * oldest first, each taking one off `sk_ack_backlog`. When the backlog
   * counted the accept list, the counter ends at zero and the closing
   * warning never fires; on a consistent table no half-open request
   * survives either.
   */
  method ListenStop(sk: Sock) returns (children: seq<nat>)
    requires sk.queue.listenOpt != null && sk.queue.listenOpt.Shaped()
    modifies sk.queue`acceptQueue, sk.queue`listenOpt, sk.queue.listenOpt, sk.queue.listenOpt.synTable, sk`ackBacklog
    ensures children == old(sk.queue.acceptQueue)
    ensures sk.queue.deferAccept == old(sk.queue.deferAccept)
    ensures sk.queue.acceptQueue == [] && sk.queue.listenOpt == null
    ensures sk.ackBacklog == old(sk.ackBacklog) - |children|
    ensures old(sk.AcceptCounted()) ==> sk.ackBacklog == 0 && sk.AcceptCounted()
    ensures old(sk.queue.listenOpt.Valid()) ==> old(sk.queue.listenOpt).qlen == 0
  {
    children := sk.queue.YankAcceptq();
    sk.queue.Destroy();
    ReleaseChildren(sk, children);
  }

  /**
   * The release loop of `inet_csk_listen_stop`: one `sk_acceptq_removed`
   * per child taken off the accept list.
   */
  method ReleaseChildren(sk: Sock, children: seq<nat>)
    modifies sk`ackBacklog
    ensures sk.ackBacklog == old(sk.ackBacklog) - |children|
  {
    var rest := children;
    while rest != []
      invariant sk.ackBacklog == old(sk.ackBacklog) - (|children| - |rest|)
      invariant |rest| <= |children|
      decreases |rest|
    {
      rest := rest[1..];
      sk.ackBacklog := sk.ackBacklog - 1;
    }
  }
}
