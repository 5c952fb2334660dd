/**
 * The parts of a TCP socket (`struct sock` with its `inet_sock` and
 * `inet_connection_sock` layers) that the admission code reads and writes.
 */
module Sock {
  import opened Kernel
  import opened TcpStates
  import opened RequestSock

  /** What a bind bucket is looked up by: the network namespace and the port. */
  datatype BindKey = BindKey(net: nat, port: nat)

  class Sock {
    /** `sock_net(sk)`. */
    const net: nat
    /** `icsk_accept_queue`, embedded in the socket. */
    const queue: RequestSockQueue
    var state: TcpState
    /** `sk_reuse` (SO_REUSEADDR). */
    var reuse: bool
    /** `sk_bound_dev_if`; 0 when not bound to a device. */
    var boundDevIf: nat
    /** `sk_rcv_saddr`; 0 is the wildcard address. */
    var rcvSaddr: nat
    /** `inet_v6_ipv6only(sk)`. */
    var ipv6only: bool
    /** `inet_num`, the local port in host order. */
    var inetNum: nat
    /** `inet_sport`, the local port as stored for the wire. */
    var inetSport: nat
    /** `icsk_bind_hash`: the bind bucket the socket is on, if any. */
    var bindHash: Option<BindKey>
    var ackBacklog: int
    var maxAckBacklog: nat
    /** `sk_rcvtimeo`, in jiffies. */
    var rcvTimeo: int

    /** A closed, unbound socket in namespace `net`, as socket creation leaves it. */
    constructor (net: nat, queue: RequestSockQueue)
      ensures this.net == net && this.queue == queue
      ensures state == Close && bindHash == None && inetNum == 0 && inetSport == 0
      ensures !reuse && boundDevIf == 0 && rcvSaddr == 0 && !ipv6only
      ensures ackBacklog == 0 && maxAckBacklog == 0 && rcvTimeo == MAX_SCHEDULE_TIMEOUT
    {
      this.net := net;
      this.queue := queue;
      state := Close;
      reuse := false;
      boundDevIf := 0;
      rcvSaddr := 0;
      ipv6only := false;
      inetNum := 0;
      inetSport := 0;
      bindHash := None;
      ackBacklog := 0;
      maxAckBacklog := 0;
      rcvTimeo := MAX_SCHEDULE_TIMEOUT;
    }

    /**
     * `inet_bind_hash` sets `inet_num` and `icsk_bind_hash` together: a
     * socket on a bind bucket sits on the bucket of its own, non-zero port.
     */
    ghost predicate BindConsistent()
      reads this
    {
      bindHash.Some? ==> bindHash == Some(BindKey(net, inetNum)) && inetNum != 0
    }

    /** `sk_ack_backlog` counts the children waiting on the accept list. */
    ghost predicate AcceptCounted()
      reads this, queue
    {
      ackBacklog == |queue.acceptQueue|
    }
  }
}
