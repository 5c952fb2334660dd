# Passive-open admission in Linux 3.2, modelled in Dafny

This project models the part of the Linux 3.2 IPv4 stack that admits
connections on a listening socket. It covers six pieces:

- **Local port allocator** (`inet_csk_get_port`, `inet_csk_bind_conflict`):
  - the `bhash` buckets, keyed by network namespace and port;
  - the random-start scan of the local port range, with its reuse
    short-cut and its five retries;
  - the owner-by-owner conflict test;
  - the `fastreuse` flag.
- **Listen socket's SYN table** (`struct listen_sock`, allocated by
  `reqsk_queue_alloc`):
  - a power-of-two array of hash chains of half-open requests;
  - the `qlen` and `qlen_young` counters;
  - the random hash seed;
  - the clock hand of the reaper.
- **Half-open request handling**:
  - lookup (`inet_csk_search_req`);
  - insertion (`inet_csk_reqsk_queue_hash_add`);
  - the keep, resend or drop decision (`syn_ack_recalc`).
- **Reaper** (`inet_csk_reqsk_queue_prune`):
  - the SYN-flood threshold that lowers the retry limit while old requests
    crowd the table;
  - the per-run budget of chains;
  - the chain walk, which retransmits, re-arms or drops each request that
    is due;
  - the timer re-arm decision.
- **Listener life cycle**:
  - `inet_csk_listen_start`: allocate the table, go to LISTEN, validate or
    pick the port, and fall back to CLOSE on a clash;
  - `inet_csk_listen_stop`: yank the accept list, destroy the table with
    `reqsk_queue_destroy`, and release every child.
- **Accept path** (decision logic only):
  - `inet_csk_accept`;
  - the wait loop of `inet_csk_wait_for_connect`;
  - the TCP state numbering and flag masks of `tcp_states.h`.

## How the kernel's entities are represented

**Sockets, queues and tables**
- A socket is a class, `Sock.Sock`, holding the fields the core reads and
  writes.
- Its `request_sock_queue` is a class, `RequestSock.RequestSockQueue`. In it:
  - the accept list is a sequence of child identifiers;
  - the SYN table is a `RequestSock.ListenSock`, whose chains are sequences
    of `Request` values stored in an `array`.
- The bind hash is a class, `InetCskPort.BindHashInfo`. It maps
  `(net, port)` to a bucket that holds the owner sockets and the `fastreuse`
  flag.

**Jiffies**
- Jiffies are 64-bit and wrap.
- `time_after_eq` is the signed comparison of the wrapped difference.

**Parameters instead of kernel calls**
- Randomness is a parameter:
  - the port rover's start;
  - the hash seed.
- Allocation success is a boolean parameter:
  - whether the table allocation succeeds;
  - whether a new bind bucket can be created.
- InetCskReqsk.Matches: the request's family test is kept as a flag, and
  the kernel is taken to be built with IPv6, so the test is live. IPv6
  requests never match this IPv4 lookup, and `AF_INET6` lookups are not
  part of this model.
- `jhash_2words` is an uninterpreted function parameter. The model relies
  only on its result being masked to the table size.
- The protocol's `rtx_syn_ack` is a parameter that says, per request,
  whether the SYN-ACK was sent again.

**Waiting and concurrency**
- Other contexts act on the socket while a task sleeps in
  `inet_csk_wait_for_connect`.
- Those contexts are represented by a history of wake-ups. Each wake-up
  records:
  - the ticks spent asleep;
  - the children appended to the accept list;
  - whether the listener was shut down, which runs `inet_csk_listen_stop`
    and so empties the accept list;
  - whether a signal is pending.
- The wait's verdict is a function of that history.
- Only arrivals and shutdowns change the accept list in the history. Another
  task accepting from the same listener is not represented (see "Left out").

**Two points of the code that are easy to misread:**
- The reaper keeps a due request when its SYN-ACK **was** resent. In
  `inet_connection_sock.c:642`, a `rtx_syn_ack` return of zero means
  success, and `!rtx_syn_ack(...)` is what retains the request.
- The fast-reuse test of `get_port` requires that the bucket has owners,
  that `fastreuse > 0`, that `SO_REUSEADDR` is set and that the socket is
  not listening. A listener therefore always runs the full conflict scan.

## Model

| member | source | states |
|---|---|---|
| TcpStates.Number | kernel-network-3.2/include/net/tcp_states.h:16-30 | every state is numbered between 1 and `TCP_MAX_STATES - 1` |
| TcpStates.EnumIsConsecutive | kernel-network-3.2/include/net/tcp_states.h:16-30 | the eleven states are numbered 1, 2, … consecutively in enum order, and `TCP_MAX_STATES` is one past the last |
| TcpStates.FromNumber | kernel-network-3.2/include/net/tcp_states.h:16-30 | a number names a state exactly when it lies in `[1, TCP_MAX_STATES)`, and then names the state with that number |
| TcpStates.FromNumberRoundTrip | kernel-network-3.2/include/net/tcp_states.h:16-30 | decoding the number of a state gives that state back |
| TcpStates.Flag | kernel-network-3.2/include/net/tcp_states.h:38-50 | `TCPF_x` is `1 << TCP_x` |
| TcpStates.FlagsDisjoint | kernel-network-3.2/include/net/tcp_states.h:38-50 | each flag is a single bit, and the flags of distinct states share no bit, so a state set is a bit mask |
| TcpStates.InStatesIff | kernel-network-3.2/include/net/tcp_states.h:38-50 | the mask test of a state against `TCPF_a` combined with `TCPF_b` holds exactly for the states a and b |
| TcpStates.StateMaskUnpacks | kernel-network-3.2/include/net/tcp_states.h:32-34 | every state number fits under `TCP_STATE_MASK`, `TCP_ACTION_FIN` lies outside it, and masking a state tagged with `TCP_ACTION_FIN` recovers the state |
| Kernel.JiffiesArithmeticWraps | kernel-network-3.2/net/ipv4/inet_connection_sock.c:624 | the jiffies sum is addition modulo 2^64, and `time_after_eq` holds exactly when the wrapped difference is below 2^63 |
| Kernel.FutureDeadlineNotDue | kernel-network-3.2/net/ipv4/inet_connection_sock.c:651-652 | a deadline set `0 < d < 2^63` ticks ahead is not yet due, even when the sum wraps |
| Bits.RoundupPowOfTwo | kernel-network-3.2/net/core/request_sock.c:53 | the rounded-up value is at least the input and, for a positive input, below twice it |
| Bits.MaskedSuccessor | kernel-network-3.2/net/ipv4/inet_connection_sock.c:669 | `(i + 1) & (n - 1)` on a power-of-two table is the next slot, wrapping to 0 after the last one |
| SynqHash.InetSynqHash | kernel-network-3.2/net/ipv4/inet_connection_sock.c:476-480 | on a power-of-two table the hash is always a valid slot |
| RequestSock.SynTableSize | kernel-network-3.2/net/core/request_sock.c:50-53 | the table has a power-of-two size of at least 16 that is strictly greater than the backlog clamped to `[8, sysctl_max_syn_backlog]` and less than twice that clamped backlog plus one |
| RequestSock.MaxQlenLog | kernel-network-3.2/net/core/request_sock.c:64-66 | the loop returns the least exponent from 3 up whose power reaches the table size |
| RequestSock.MaxQlenLogExact | kernel-network-3.2/net/core/request_sock.c:64-66 | on a power-of-two table of at least 8 slots, that exponent is exactly its logarithm: `1 << max_qlen_log == nr_table_entries` |
| RequestSock.ListenSock.constructor | kernel-network-3.2/net/core/request_sock.c:56-68 | a new table has `1 << log` empty chains, zero counters, hand 0 and the given hash seed |
| RequestSock.ListenSock.YoungWithinQlen | kernel-network-3.2/net/ipv4/inet_connection_sock.c:646-648 | on a consistent table, `qlen_young` is between 0 and `qlen`: a request stops being young only once, while it is still counted in `qlen` |
| RequestSock.RequestSockQueue.Alloc | kernel-network-3.2/net/core/request_sock.c:40-79 | an allocation failure returns `-ENOMEM` and changes nothing; success installs a fresh, consistent, empty table whose size and exponent agree, and empties the accept list |
| RequestSock.RequestSockQueue.YankListenSk | kernel-network-3.2/net/core/request_sock.c:101-112 | the table is handed back and detached from the queue |
| RequestSock.RequestSockQueue.YankAcceptq | kernel-network-3.2/net/ipv4/inet_connection_sock.c:797 | the whole accept list is handed back, oldest first, and the queue's list becomes empty |
| RequestSock.RequestSockQueue.Destroy | kernel-network-3.2/net/core/request_sock.c:114-140 | the table is detached. When `qlen` was non-zero, every chain is emptied and `qlen` drops by the number of requests freed; otherwise nothing is touched. On a consistent table `qlen` ends at 0, so the final warning cannot fire |
| InetCskPort.BindConflict | kernel-network-3.2/net/ipv4/inet_connection_sock.c:55-85 | reports a conflict exactly when some owner conflicts, and then stops at the first such owner. An owner conflicts (`Conflicts`, lines 69-81) when it is another socket, not IPv6-only, on the same or an unbound device, not both willing to share (or it listens), and bound to the same or a wildcard local address |
| InetCskPort.FastPathNoConflict | kernel-network-3.2/net/ipv4/inet_connection_sock.c:207-210 | when `fastreuse` is kept sound, skipping the scan for a reusing, non-listening socket loses no conflict |
| InetCskPort.RoverAt | kernel-network-3.2/net/ipv4/inet_connection_sock.c:116-117 | every rover position lies in the local port range |
| InetCskPort.RoverCoversRange | kernel-network-3.2/net/ipv4/inet_connection_sock.c:105-187 | one pass of the rover from any start visits every port of the range |
| InetCskPort.BindHashInfo.ScanRange | kernel-network-3.2/net/ipv4/inet_connection_sock.c:105-187 | returns one of three outcomes: (1) the first free, non-reserved port in rover order; (2) the reusable port with the fewest owners so far, unless the scan stopped early because more sockets are bound than the range holds; (3) "exhausted" exactly when no port in the whole range is free or reusable |
| InetCskPort.BindHashInfo.SearchPort | kernel-network-3.2/net/ipv4/inet_connection_sock.c:98-229 | a port it finds is in range and not reserved. If it already has a bucket, that bucket has fast reuse and either no owners or no owner that conflicts. There are between one and six scans. When the first scan from the first random start meets a free port before any shareable one it may take, that port is the answer after one scan. When no port is free or shareable, the search fails after one scan; any other failure comes only after the sixth scan |
| InetCskPort.BindHashInfo.EmptyScan | kernel-network-3.2/net/ipv4/inet_connection_sock.c:105-187 | a scan that found nothing means no port of the range is free or shareable, so no scan from any start stops on a free port |
| InetCskPort.BindHashInfo.SharedScan | kernel-network-3.2/net/ipv4/inet_connection_sock.c:105-187 | a scan that settled on a shareable port shows that some port is shareable and that the scan passed no free port it could have taken |
| InetCskPort.BindHashInfo.GetPort | kernel-network-3.2/net/ipv4/inet_connection_sock.c:91-268 | returns 0 or 1; failure changes nothing; success changes only the chosen bucket, makes a socket not yet bound the newest owner and binds it there and recomputes `fastreuse`. An explicit port succeeds exactly when its bucket is absent (and can be created), empty, fast-reusable for this socket or conflict-free; an automatic port is in range and not reserved; `fastreuse` stays sound. An automatic choice scans between one and six times. If the first scan meets a free port first, that port is bound after one scan, and binding fails only when its bucket cannot be created. If no port is free or shareable, binding fails after one scan. Any other failure comes after the sixth scan or from a failed bucket creation |
| InetCskPort.BindHashInfo.Install | kernel-network-3.2/net/ipv4/inet_connection_sock.c:230-261 | fails exactly when the bucket is missing and cannot be created; otherwise adds the socket to the owners unless already bound, and sets `fastreuse` by the code's rule |
| InetCskReqsk.SearchReq | kernel-network-3.2/net/ipv4/inet_connection_sock.c:488-514 | returns the slot the remote address and port hash to and the first matching request in that chain; a miss means no request anywhere in the table matches |
| InetCskReqsk.HashAdd | kernel-network-3.2/net/ipv4/inet_connection_sock.c:517-528 | the stamped request is pushed to the front of its own chain, `qlen` and `qlen_young` grow by one, the table stays consistent, and the timer is armed exactly when the table was empty |
| InetCskPrune.SynAckRecalc | kernel-network-3.2/net/ipv4/inet_connection_sock.c:536-555 | without deferral, or with no ACK yet: expire at the threshold and always resend. An ACKed deferred request expires only past `max_retries` and is resent only from the last deferral round. Nothing expires below the threshold |
| InetCskPrune.ExpireIsMonotone | kernel-network-3.2/net/ipv4/inet_connection_sock.c:536-555 | once a request is due to expire, more retransmissions keep it so |
| InetCskPrune.SynAckThreshold | kernel-network-3.2/net/ipv4/inet_connection_sock.c:596-605 | with fewer than half the slots used, or a young majority, the threshold is `max_retries`; on a half-full table crowded by old requests it drops below `max_retries`; it never drops below `min(max_retries, 2)` |
| InetCskPrune.NextTimeout | kernel-network-3.2/net/ipv4/inet_connection_sock.c:651-652 | the re-arm interval never exceeds `max_rto` |
| InetCskPrune.PruneEntry | kernel-network-3.2/net/ipv4/inet_connection_sock.c:621-664 | a request not yet due is untouched; a due request is dropped exactly when it expires, or when it needs a resend that fails and it is not ACKed; a kept due request has one more retransmission and a new deadline |
| InetCskPrune.PruneChainAppend | kernel-network-3.2/net/ipv4/inet_connection_sock.c:621-667 | pruning a chain prunes each part independently |
| InetCskPrune.PruneChainShrinks | kernel-network-3.2/net/ipv4/inet_connection_sock.c:661-664 | pruning never lengthens a chain, and every survivor comes from a request of the original chain |
| InetCskPrune.RetainedNotDue | kernel-network-3.2/net/ipv4/inet_connection_sock.c:651-652 | a due request that is kept gets a deadline in the future |
| InetCskPrune.PrunedChainSettled | kernel-network-3.2/net/ipv4/inet_connection_sock.c:621-667 | after one walk, no request of the chain is due |
| InetCskPrune.PruneChainOfSettled | kernel-network-3.2/net/ipv4/inet_connection_sock.c:624 | walking a chain in which nothing is due changes nothing |
| InetCskPrune.RevisitChangesNothing | kernel-network-3.2/net/ipv4/inet_connection_sock.c:619-671 | walking the same chain again within one run is the same as walking it once |
| InetCskPrune.WalkChain | kernel-network-3.2/net/ipv4/inet_connection_sock.c:621-667 | the walk leaves exactly `PruneChain` of the chain, counts the dropped requests and those no longer young, and keeps every survivor in its bucket |
| InetCskPrune.WalkStep | kernel-network-3.2/net/ipv4/inet_connection_sock.c:622-666 | one turn of the walk on the request under the cursor: a kept request is updated in place and the cursor passes it, a dropped one is unlinked, and the walk's state advances by exactly one request of the original chain |
| InetCskPrune.PruneBucket | kernel-network-3.2/net/ipv4/inet_connection_sock.c:619-667 | one chain is replaced by its pruned form, every other chain is untouched, `qlen` drops by the number removed, and the table stays consistent |
| InetCskPrune.VisitChain | kernel-network-3.2/net/ipv4/inet_connection_sock.c:619-671 | one step of the hand prunes the chain under it and moves the masked hand to the next slot |
| InetCskPrune.Sweep | kernel-network-3.2/net/ipv4/inet_connection_sock.c:614-673 | the do-while visits `max(budget, 1)` chains from the clock hand, and the table is the original with each visited chain pruned |
| InetCskPrune.Budget | kernel-network-3.2/net/ipv4/inet_connection_sock.c:614 | the budget is even. The `timeout / interval` runs that fall in one `timeout` visit, between them, at most twice the table size, and less than two runs' worth short of it |
| InetCskPrune.Prune | kernel-network-3.2/net/ipv4/inet_connection_sock.c:557-677 | with no table, or an empty one, nothing changes and the timer is not re-armed. Otherwise: the threshold fits the flood rule, `max(budget, 1)` chains from the hand are pruned, the hand advances by that many slots, the table stays consistent, and the timer is re-armed exactly when requests remain; afterwards `0 <= qlen_young <= qlen` |
| InetCskPrune.MoveHand | kernel-network-3.2/net/ipv4/inet_connection_sock.c:673 | the hand is parked on the slot where the walk stopped, and the table stays consistent |
| InetCskPrune.SweepWindow | kernel-network-3.2/net/ipv4/inet_connection_sock.c:614-673 | when the budget does not exceed the table, each chain in the hand's window is pruned once and every other chain is left as it was |
| InetCskListen.ListenStart | kernel-network-3.2/net/ipv4/inet_connection_sock.c:740-781 | returns 0, `-ENOMEM` (allocation failed, nothing changed) or `-EADDRINUSE` (CLOSE, binding unchanged). Success means LISTEN with a fresh empty table, zero backlogs, the source port set to the bound port and the port's bucket without `fastreuse`. An already-bound port succeeds exactly when its bucket admits a listener. The queue's defer-accept setting is kept in every outcome |
| InetCskListen.Announce | kernel-network-3.2/net/ipv4/inet_connection_sock.c:752-780 | the same outcome for the port step alone: the backlogs are reset, LISTEN is kept on success and CLOSE restored on a clash |
| InetCskListen.ListenStop | kernel-network-3.2/net/ipv4/inet_connection_sock.c:788-835 | every child of the accept list is released oldest first; the accept list and table are gone; `sk_ack_backlog` drops by the number of children and reaches 0 when it counted the list; a consistent table had no half-open request left; the queue's defer-accept setting is kept |
| InetCskListen.ReleaseChildren | kernel-network-3.2/net/ipv4/inet_connection_sock.c:809-833 | each released child takes one off `sk_ack_backlog` |
| InetCskAccept.ScheduleTimeout | kernel-network-3.2/net/ipv4/inet_connection_sock.c:300 | waiting forever never uses the timeout up; otherwise what is left is between 0 and the timeout and shrinks whenever time passes |
| InetCskAccept.AfterWake | kernel-network-3.2/net/ipv4/inet_connection_sock.c:797-831 | one wake-up appends its arrivals to the accept list and keeps the old list as a prefix. A shutdown leaves the list empty, as `inet_csk_listen_stop` releases every child |
| InetCskAccept.QueueWithoutShutdown | kernel-network-3.2/net/ipv4/inet_connection_sock.c:295-316 | without a shutdown, the accept list after a history of wake-ups is the old list followed by every arrival, in order |
| InetCskAccept.WakeVerdict | kernel-network-3.2/net/ipv4/inet_connection_sock.c:302-313 | the checks after a wake-up succeed exactly when a child is queued, and let the task sleep again exactly when nothing is queued, the socket still listens, no signal is pending and time is left |
| InetCskAccept.Wait | kernel-network-3.2/net/ipv4/inet_connection_sock.c:295-316 | a wait consumes at most the wake-ups given, and all of them while it is still asleep. After each wake-up the checks run in the kernel's order: a queued child, then a socket no longer listening, then a signal, then an exhausted timeout |
| InetCskAccept.WaitForConnect | kernel-network-3.2/net/ipv4/inet_connection_sock.c:275-317 | the verdict and wake-ups used are those of `Wait`. Meanwhile the accept list is `QueueAfter` of the wake-ups consumed: arrivals are appended, and a shutdown releases the whole list. The backlog keeps its distance to the list's length, the socket is CLOSE if it was shut down, and success leaves a child queued |
| InetCskAccept.TakeWake | kernel-network-3.2/net/ipv4/inet_connection_sock.c:797-831 | one sleep's outside events: the accept list becomes `AfterWake` of itself, the backlog keeps its distance to the list's length, and a shutdown leaves the socket CLOSE |
| InetCskAccept.WaitVerdicts | kernel-network-3.2/net/ipv4/inet_connection_sock.c:302-313 | a wait ends only with 0, `-EINVAL`, `-ERESTARTSYS`, `-EINTR` or `-EAGAIN` |
| InetCskAccept.WaitSucceedsOnChild | kernel-network-3.2/net/ipv4/inet_connection_sock.c:302-306 | a finished wait succeeds exactly when the accept list is non-empty after the wake-ups it consumed |
| InetCskAccept.ShutdownEndsWait | kernel-network-3.2/net/ipv4/inet_connection_sock.c:305-307 | a shutdown among the wake-ups a wait consumed (which empties the list) ends the wait with `-EINVAL`, whatever arrived before it |
| InetCskAccept.WaitForeverNeverTimesOut | kernel-network-3.2/net/ipv4/inet_connection_sock.c:308-312 | with `MAX_SCHEDULE_TIMEOUT` the wait returns neither `-EAGAIN` nor `-EINTR`: it never times out, and a signal makes it restartable |
| InetCskAccept.TimedWaitEnds | kernel-network-3.2/net/ipv4/inet_connection_sock.c:295-316 | a timed wait whose sleeps take at least one tick ends within `timeo + 1` wake-ups |
| InetCskAccept.Accept | kernel-network-3.2/net/ipv4/inet_connection_sock.c:322-365 | a non-listener gets `-EINVAL` and an empty non-blocking accept gets `-EAGAIN`, with nothing changed; otherwise the verdict of the wait decides; the child handed out is the oldest queued, the rest stay queued in order, and the backlog keeps counting the list. When a listener has a child queued, that child is handed out at once, without waiting, and the accept list becomes the rest of the queue |

## Left out

**Concurrency and memory**
- Locking, and the concurrency it guards: `lock_sock`, `release_sock`,
  `bh_lock_sock`, `write_lock_bh`, the `syn_wait_lock` and RCU. The
  wake-up history stands in for what other contexts do while a task sleeps.
- Memory freeing and reference counts (`reqsk_free`, `sock_put`,
  `sock_hold`, `vfree`/`kfree`).
- `__reqsk_queue_destroy`, the clash path of `listen_start`, frees the table
  but leaves `listen_opt` pointing at it. The model keeps the pointer in
  place; the freeing itself is not modelled.

**Timers and protocol hooks**
- Timers are not modelled. The reaper reports whether to re-arm, and
  `HashAdd` reports whether to arm. The timer subsystem itself is not part
  of this model.
- The reaper does not model:
  - the protocol's `syn_ack_timeout` hook, a statistics-only call in this
    kernel;
  - the `rvp` argument of `rtx_syn_ack`.
- The accept path does not model the `TCP_DEFER_ACCEPT` wake-up.
- `inet_csk_delete_keepalive_timer` is not modelled.

**Child sockets, routing and hashing**
- Child sockets are identifiers:
  - `listen_stop` releases them only by decrementing the backlog;
  - their disconnect, orphaning, `sk_destroy` and `percpu_counter`
    updates are not modelled.
- Not modelled in `listen_start`:
  - `sk->sk_prot->hash(sk)`, which publishes the listener in the listening
    hash;
  - `sk_dst_reset`;
  - `htons`;
  - `inet_csk_delack_init`.
- The `bhash` chain layout and `inet_bind_bucket_create`'s slab are
  abstracted to a map from `(net, port)` to bucket. Per-bucket spinlocks
  and the `bind_conflict` function-pointer dispatch are resolved to the
  IPv4 `inet_csk_bind_conflict`. IPv6 address comparison
  (`ipv6_rcv_saddr_equal`) is not part of this model.
- InetCskReqsk.Matches: the request's family test is kept as a flag, and
  the kernel is taken to be built with IPv6, so the test is live. IPv6
  requests never match this IPv4 lookup, and `AF_INET6` lookups are not
  part of this model.
- `jhash_2words` is an uninterpreted function, and `get_random_bytes` is a
  parameter.
- `sysctl_local_ports` is read once per call. The kernel re-reads it on
  every retry; a concurrent change of the range is not modelled.

**Helpers taken from their 3.2 definitions**
- The header helpers are written from their 3.2 definitions: the
  `request_sock.h`, `inet_connection_sock.h`, `sched.h` and `sock.h`
  inlines, `schedule_timeout` and `sock_intr_errno`. Those headers are not
  part of this model.

**Integer widths**
- `req->retrans` is a `u8`, and `sk_ack_backlog` a `u16`; both are
  unbounded here.
- `timeout << req->retrans` is an unbounded shift clipped by `max_rto`; a
  64-bit overflow of the shift is not modelled.

**Warnings**
- The `WARN_ON` at the end of `reqsk_queue_destroy` and of `listen_stop`
  is not modelled as a statement. `Destroy` and `ListenStop` instead prove
  that its condition is false on a consistent table.

**Weakened or narrowed contracts**
- InetCskPrune.Prune: requires `0 < interval <= timeout`, which is the
  kernel's calling convention; otherwise `timeout / interval` is a division
  by zero.
- InetCskPort.BindHashInfo.SearchPort: pins its answer down only when the
  first scan meets a free port first, and its failures only up to "no
  candidate at all, or six scans". Which shareable bucket a later scan
  settles on depends on the random starts and is not stated.
- InetCskPort.BindHashInfo.GetPort: the automatic choice inherits the same
  limits as `SearchPort`. When the first scan settles on a shared bucket,
  the contract states only that the port is in range, not reserved and
  conflict-free (or fast-reusable), not which one it is.
- InetCskAccept.Wait: the history only appends children or drains them
  all at a shutdown. Another task's `accept` taking a child off the list
  while this one sleeps is not part of it; a woken task always finds every
  child that arrived.
- InetCskAccept.WaitForConnect: the `prepare_to_wait_exclusive` /
  `finish_wait` wait-queue bookkeeping is not modelled.
