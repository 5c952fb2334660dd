/**
 * The periodic sweep of a listener's SYN table (`inet_csk_reqsk_queue_prune`):
 * the retransmission threshold that shrinks when old requests crowd out
 * young ones, the expire/resend decision per request (`syn_ack_recalc`),
 * and the clock-hand walk over a budget of hash chains.
 */
module InetCskPrune {
  import opened Kernel
  import opened Bits
  import opened RequestSock

  /** The two decisions `syn_ack_recalc` takes for a due request. */
  datatype Recalc = Recalc(expire: bool, resend: bool)

  /**
   * `syn_ack_recalc`. Without deferred accept every due request is resent
   * and expires once it has been retransmitted `thresh` times. With
   * deferred accept a request still waiting for its ACK is treated the
   * same way; an ACKed one (waiting for data) expires only once it has also
   * reached `max_retries`, and its SYN-ACK is resent only from the last
   * deferral round on.
   */
  function SynAckRecalc(r: Request, thresh: int, maxRetries: int, deferAccept: nat): (d: Recalc)
    ensures d.expire ==> r.retrans >= thresh
    ensures deferAccept == 0 ==> d == Recalc(r.retrans >= thresh, true)
    ensures !r.acked ==> d == Recalc(r.retrans >= thresh, true)
    ensures r.acked && deferAccept != 0 ==>
      d == Recalc(r.retrans >= thresh && r.retrans >= maxRetries, r.retrans + 1 >= deferAccept)
  {
    if deferAccept == 0 then
      Recalc(r.retrans >= thresh, true)
    else
      Recalc(r.retrans >= thresh && (!r.acked || r.retrans >= maxRetries),
             !r.acked || r.retrans >= deferAccept - 1)
  }

  /** Once a request is due to expire, more retransmissions keep it so. */
  lemma ExpireIsMonotone(r: Request, more: nat, thresh: int, maxRetries: int, deferAccept: nat)
    requires r.retrans <= more
    ensures SynAckRecalc(r, thresh, maxRetries, deferAccept).expire ==>
      SynAckRecalc(r.(retrans := more), thresh, maxRetries, deferAccept).expire
  {
  }

  /**
   * The threshold the sweep uses. While the table is less than half full
   * it is `max_retries`. Otherwise it drops by one for every doubling of
   * twice the young count that the queue length still reaches, but not
   * below 2: `m` steps are taken, the least `m` at which the threshold has
   * come down to 2 or `qlen < (2 * qlen_young) << m`.
   */
  ghost predicate ThresholdFits(maxRetries: int, qlen: nat, young: nat, log: nat, thresh: int)
    requires log >= 1
  {
    if Shr(qlen, log - 1) == 0 then thresh == maxRetries
    else
      && thresh <= maxRetries
      && (forall m: nat :: m < maxRetries - thresh ==> maxRetries - m > 2 && qlen >= Shl(2 * young, m))
      && (thresh <= 2 || qlen < Shl(2 * young, maxRetries - thresh))
  }

  /**
   * The threshold loop of `inet_csk_reqsk_queue_prune`. Beyond its exact
   * characterisation: a table less than half full (`qlen < 2^(max_qlen_log-1)`)
   * keeps `max_retries`; a table at least half full in which young requests
   * are at most half of all requests loses at least one retransmission
   * when `max_retries > 2`; the threshold never falls below
   * `min(max_retries, 2)`.
   */
  method SynAckThreshold(maxRetries: int, qlen: nat, young: nat, log: nat) returns (thresh: int)
    requires log >= 1
    ensures ThresholdFits(maxRetries, qlen, young, log, thresh)
    ensures qlen < Pow2(log - 1) ==> thresh == maxRetries
    ensures qlen >= Pow2(log - 1) && maxRetries > 2 && qlen >= 2 * young ==> thresh < maxRetries
    ensures qlen < 2 * young ==> thresh == maxRetries
    ensures thresh <= maxRetries && thresh >= Min(maxRetries, 2)
  {
    ShrZero(qlen, log - 1);
    thresh := maxRetries;
    if Shr(qlen, log - 1) != 0 {
      var y := Shl(young, 1);
      assert Shl(young, 1) == Shl(2 * young, 0);
      while thresh > 2
        invariant thresh <= maxRetries && thresh >= Min(maxRetries, 2)
        invariant y == Shl(2 * young, maxRetries - thresh)
        invariant forall m: nat :: m < maxRetries - thresh ==> maxRetries - m > 2 && qlen >= Shl(2 * young, m)
        decreases thresh
      {
        if qlen < y {
          break;
        }
        thresh := thresh - 1;
        y := 2 * y;
      }
    }
  }

  /** What one sweep needs to decide about each request. */
  datatype PruneParams = PruneParams(
    thresh: int,
    maxRetries: int,
    deferAccept: nat,
    now: Jiffies,
    timeout: Jiffies,
    maxRto: Jiffies,
    /** Whether `rtx_syn_ack` manages to send the SYN-ACK again for a request. */
    rtxOk: Request -> bool)

  /** The deadline a retained request gets after its `n`-th retransmission. */
  function NextTimeout(p: PruneParams, n: nat): (t: Jiffies)
    ensures t <= p.maxRto
  {
    Min(Shl(p.timeout, n), p.maxRto)
  }

  /**
   * What the sweep makes of one request: `None` when it is dropped. A request
   * whose deadline has not come is untouched. A due request is kept when it
   * is not expiring and either no resend is called for, the SYN-ACK was sent
   * again, or the request was already ACKed; it then counts one more
   * retransmission and gets a deadline `min(timeout << retrans, max_rto)`
   * ticks from now. Any other due request is dropped.
   */
  function PruneEntry(p: PruneParams, r: Request): (o: Option<Request>)
    ensures !TimeAfterEq(p.now, r.expires) ==> o == Some(r)
    ensures o.Some? && TimeAfterEq(p.now, r.expires) ==>
      o.value == r.(retrans := r.retrans + 1, expires := JiffiesAdd(p.now, NextTimeout(p, r.retrans + 1)))
    ensures TimeAfterEq(p.now, r.expires) ==>
      (o.None? <==>
        var d := SynAckRecalc(r, p.thresh, p.maxRetries, p.deferAccept);
        d.expire || (d.resend && !p.rtxOk(r) && !r.acked))
  {
    if !TimeAfterEq(p.now, r.expires) then Some(r)
    else
      var d := SynAckRecalc(r, p.thresh, p.maxRetries, p.deferAccept);
      if !d.expire && (!d.resend || p.rtxOk(r) || r.acked) then
        Some(r.(retrans := r.retrans + 1, expires := JiffiesAdd(p.now, NextTimeout(p, r.retrans + 1))))
      else None
  }

  /** One sweep of a chain: every request pruned in order, dropped ones unlinked. */
  function PruneChain(p: PruneParams, c: seq<Request>): seq<Request>
  {
    if c == [] then []
    else
      (match PruneEntry(p, c[0]) case Some(x) => [x] case None => []) + PruneChain(p, c[1..])
  }

  /** A chain swept `k` times. */
  function PruneN(p: PruneParams, c: seq<Request>, k: nat): seq<Request>
  {
    if k == 0 then c else PruneChain(p, PruneN(p, c, k - 1))
  }

  /** Sweeping a chain piece by piece is sweeping it whole. */
  lemma {:induction false} PruneChainAppend(p: PruneParams, a: seq<Request>, b: seq<Request>)
    ensures PruneChain(p, a + b) == PruneChain(p, a) + PruneChain(p, b)
  {
    if a == [] {
      assert a + b == b;
    } else {
      assert (a + b)[1..] == a[1..] + b;
      PruneChainAppend(p, a[1..], b);
    }
  }

  /**
   * A sweep only drops and updates: it never lengthens a chain, and every
   * request it leaves has the remote address and port (hence the chain) of
   * a request that was there.
   */
  lemma {:induction false} PruneChainShrinks(p: PruneParams, c: seq<Request>)
    ensures |PruneChain(p, c)| <= |c|
    ensures forall x :: x in PruneChain(p, c) ==>
      exists y :: y in c && y.rmtAddr == x.rmtAddr && y.rmtPort == x.rmtPort
  {
    if c != [] {
      PruneChainShrinks(p, c[1..]);
    }
  }

  /**
   * With a positive timeout and a positive `max_rto` below half the jiffies
   * range, a request the sweep keeps after handling it is not due again at
   * the same instant.
   */
  lemma RetainedNotDue(p: PruneParams, r: Request)
    requires 0 < p.timeout && 0 < p.maxRto < JIFFIES_MOD / 2
    requires TimeAfterEq(p.now, r.expires) && PruneEntry(p, r).Some?
    ensures !TimeAfterEq(p.now, PruneEntry(p, r).value.expires)
  {
    assert Shl(p.timeout, r.retrans + 1) >= p.timeout by {
      ShlGrows(p.timeout, r.retrans + 1);
    }
    var t := NextTimeout(p, r.retrans + 1);
    assert 0 < t < JIFFIES_MOD / 2;
    FutureDeadlineNotDue(p.now, t);
  }

  /** Under the same bounds nothing a sweep leaves in a chain is due. */
  lemma {:induction false} PrunedChainSettled(p: PruneParams, c: seq<Request>)
    requires 0 < p.timeout && 0 < p.maxRto < JIFFIES_MOD / 2
    ensures forall x :: x in PruneChain(p, c) ==> !TimeAfterEq(p.now, x.expires)
  {
    if c != [] {
      PrunedChainSettled(p, c[1..]);
      if TimeAfterEq(p.now, c[0].expires) && PruneEntry(p, c[0]).Some? {
        RetainedNotDue(p, c[0]);
      }
    }
  }

  /** A chain with nothing due is left as it is. */
  lemma {:induction false} PruneChainOfSettled(p: PruneParams, c: seq<Request>)
    requires forall x :: x in c ==> !TimeAfterEq(p.now, x.expires)
    ensures PruneChain(p, c) == c
  {
    if c != [] {
      assert c[0] in c;
      PruneChainOfSettled(p, c[1..]);
    }
  }

  /**
   * Under the same bounds a chain the clock hand passes several times in one
   * sweep is pruned once: every visit after the first changes nothing.
   */
  lemma {:induction false} RevisitChangesNothing(p: PruneParams, c: seq<Request>, k: nat)
    requires 0 < p.timeout && 0 < p.maxRto < JIFFIES_MOD / 2
    requires k >= 1
    ensures PruneN(p, c, k) == PruneChain(p, c)
  {
    if k > 1 {
      RevisitChangesNothing(p, c, k - 1);
      PrunedChainSettled(p, c);
      PruneChainOfSettled(p, PruneChain(p, c));
    }
  }

  /** The next chain of an `n`-chain table. */
  function Succ(i: nat, n: nat): nat
  {
    if i + 1 == n then 0 else i + 1
  }

  /** Where the clock hand is after `t` steps from `h`. */
  function HandAt(h: nat, t: nat, n: nat): nat
  {
    if t == 0 then h else Succ(HandAt(h, t - 1, n), n)
  }

  /** How many of the first `t` steps from `h` land on chain `b`. */
  function Visits(h: nat, t: nat, n: nat, b: nat): nat
  {
    if t == 0 then 0 else Visits(h, t - 1, n, b) + (if HandAt(h, t - 1, n) == b then 1 else 0)
  }

  /** The whole table after `t` steps of the hand from `h`, each visit pruning its chain once more. */
  ghost function Swept(p: PruneParams, orig: seq<seq<Request>>, h: nat, t: nat): (s: seq<seq<Request>>)
    ensures |s| == |orig|
  {
    seq(|orig|, b requires 0 <= b < |orig| => PruneN(p, orig[b], Visits(h, t, |orig|, b)))
  }

  /** One more step of the hand prunes the chain under it once more and nothing else. */
  lemma SweptStep(p: PruneParams, orig: seq<seq<Request>>, h: nat, t: nat)
    requires HandAt(h, t, |orig|) < |orig|
    ensures Swept(p, orig, h, t + 1) ==
      Swept(p, orig, h, t)[HandAt(h, t, |orig|) := PruneChain(p, Swept(p, orig, h, t)[HandAt(h, t, |orig|)])]
  {
  }

  /** A table that was swept `t` steps, once the chain under the hand is pruned, is swept `t + 1` steps. */
  lemma SweptAdvance(p: PruneParams, orig: seq<seq<Request>>, h: nat, t: nat,
                     before: seq<seq<Request>>, after: seq<seq<Request>>)
    requires HandAt(h, t, |orig|) < |orig|
    requires before == Swept(p, orig, h, t)
    requires after == before[HandAt(h, t, |orig|) := PruneChain(p, before[HandAt(h, t, |orig|)])]
    ensures after == Swept(p, orig, h, t + 1)
  {
    SweptStep(p, orig, h, t);
  }

  /** The masked increment of the kernel moves the hand one step on. */
  lemma HandAdvance(h: nat, t: nat, n: nat, log: nat)
    requires n == Pow2(log) && HandAt(h, t, n) < n
    ensures BitAnd(HandAt(h, t, n) + 1, n - 1) == HandAt(h, t + 1, n) < n
  {
    MaskedStep(HandAt(h, t, n), log);
  }

  /** Chain `b` lies in the `t` chains starting at `h`, wrapping at `n`. */
  predicate InWindow(h: nat, t: nat, n: nat, b: nat)
  {
    (h <= b < h + t) || b + n < h + t
  }

  /** For at most `n` steps the hand moves on without modulo arithmetic. */
  lemma {:induction false} HandAtWindow(h: nat, t: nat, n: nat)
    requires h < n && t <= n
    ensures HandAt(h, t, n) == if h + t < n then h + t else h + t - n
  {
    if t > 0 {
      HandAtWindow(h, t - 1, n);
    }
  }

  /**
   * A sweep of at most `n` chains visits each chain of its window exactly
   * once and no other chain.
   */
  lemma {:induction false} VisitsWindow(h: nat, t: nat, n: nat, b: nat)
    requires h < n && t <= n && b < n
    ensures Visits(h, t, n, b) == if InWindow(h, t, n, b) then 1 else 0
  {
    if t > 0 {
      VisitsWindow(h, t - 1, n, b);
      HandAtWindow(h, t - 1, n);
    }
  }

  /**
   * `(i + 1) & (nr_table_entries - 1)` on a power-of-two table is the next
   * chain, wrapping to 0.
   */
  lemma MaskedStep(i: nat, log: nat)
    requires i < Pow2(log)
    ensures BitAnd(i + 1, Pow2(log) - 1) == Succ(i, Pow2(log))
  {
    MaskedSuccessor(i, log);
  }

  /**
   * One chain of the sweep, walked with a cursor the way the kernel walks
   * `reqp`: each due request is kept (one more retransmission, new deadline)
   * or unlinked. The walk yields the pruned chain, how many requests were
   * unlinked and how many requests stopped being young; every request left
   * is still one of chain `i`.
   */
  method WalkChain(lopt: ListenSock, i: nat, p: PruneParams, orig: seq<Request>)
    returns (chain: seq<Request>, removed: nat, aged: nat)
    requires lopt.Shaped()
    requires forall x :: x in orig ==> lopt.BucketOf(x.rmtAddr, x.rmtPort) == i
    ensures chain == PruneChain(p, orig)
    ensures removed == |orig| - |chain|
    ensures YoungIn(chain) == YoungIn(orig) - aged
    ensures forall x :: x in chain ==> lopt.BucketOf(x.rmtAddr, x.rmtPort) == i
  {
    chain := orig;
    removed := 0;
    aged := 0;
    ghost var consumed := 0;
    var k: nat := 0;
    assert orig[..0] == [] && orig[0..] == orig;
    while k < |chain|
      invariant Walked(p, orig, consumed, chain, k, removed, aged)
      decreases |chain| - k
    {
      chain, k, removed, aged := WalkStep(p, orig, consumed, chain, k, removed, aged);
      consumed := consumed + 1;
    }
    WalkedAll(p, orig, consumed, chain, k, removed, aged);
    PruneChainShrinks(p, orig);
  }

  /**
   * One turn of the chain walk on the request under the cursor: a kept
   * request is updated in place and the cursor moves past it; a dropped one
   * is unlinked and the cursor stays. A young request that is retransmitted
   * or unlinked counts as aged.
   */
  method WalkStep(p: PruneParams, ghost orig: seq<Request>, ghost consumed: nat,
                  chain: seq<Request>, k: nat, removed: nat, aged: nat)
    returns (chain': seq<Request>, k': nat, removed': nat, aged': nat)
    requires Walked(p, orig, consumed, chain, k, removed, aged) && k < |chain|
    ensures Walked(p, orig, consumed + 1, chain', k', removed', aged')
    ensures |chain'| - k' == |chain| - k - 1
  {
    var req := chain[k];
    CursorAt(p, orig, consumed, chain, k, removed, aged);
    var outcome := PruneEntry(p, req);
    aged' := aged;
    match outcome {
      case Some(kept) =>
        KeepStep(p, orig, consumed, chain, k, removed, aged, kept);
        if kept != req && req.retrans == 0 {
          aged' := aged + 1;
        }
        chain', k', removed' := chain[k := kept], k + 1, removed;
      case None =>
        DropStep(p, orig, consumed, chain, k, removed, aged);
        if req.retrans == 0 {
          aged' := aged + 1;
        }
        chain', k', removed' := chain[..k] + chain[k + 1..], k, removed + 1;
    }
  }

  /**
   * One visit of the hand: chain `i` becomes its pruned form, `qlen` drops
   * by the requests unlinked and `qlen_young` by the young requests that
   * were retransmitted or unlinked, so the table invariant is kept.
   */
  method PruneBucket(lopt: ListenSock, i: nat, p: PruneParams)
    requires lopt.Valid() && i < lopt.nrTableEntries
    modifies lopt`qlen, lopt`qlenYoung, lopt.synTable
    ensures lopt.Valid()
    ensures lopt.synTable[..] == old(lopt.synTable[..])[i := PruneChain(p, old(lopt.synTable[i]))]
    ensures lopt.qlen == old(lopt.qlen) - (|old(lopt.synTable[i])| - |PruneChain(p, old(lopt.synTable[i]))|)
  {
    var chain, removed, aged := WalkChain(lopt, i, p, lopt.synTable[i]);
    WriteBack(lopt, i, chain);
    lopt.qlen := lopt.qlen - removed;
    lopt.qlenYoung := lopt.qlenYoung - aged;
  }

  /**
   * The state of the chain walk after `consumed` requests: the requests
   * behind the cursor `k` are the pruned form of those consumed, the rest
   * are untouched, and the counts of unlinked and aged requests match.
   */
  ghost predicate Walked(p: PruneParams, orig: seq<Request>, consumed: nat, chain: seq<Request>,
                         k: nat, removed: nat, aged: nat)
  {
    && consumed <= |orig|
    && chain == PruneChain(p, orig[..consumed]) + orig[consumed..]
    && k == |PruneChain(p, orig[..consumed])| && removed == consumed - k
    && YoungIn(chain) == YoungIn(orig) - aged
  }

  /** The cursor of the chain walk sits on the next unvisited request. */
  lemma CursorAt(p: PruneParams, orig: seq<Request>, consumed: nat, chain: seq<Request>,
                 k: nat, removed: nat, aged: nat)
    requires Walked(p, orig, consumed, chain, k, removed, aged) && k < |chain|
    ensures consumed < |orig| && chain[k] == orig[consumed]
  {
  }

  /** Keeping the request under the cursor (possibly updated) advances the walk by one. */
  lemma KeepStep(p: PruneParams, orig: seq<Request>, consumed: nat, chain: seq<Request>,
                 k: nat, removed: nat, aged: nat, kept: Request)
    requires Walked(p, orig, consumed, chain, k, removed, aged) && k < |chain|
    requires PruneEntry(p, chain[k]) == Some(kept)
    ensures Walked(p, orig, consumed + 1, chain[k := kept], k + 1, removed,
                   aged + if kept != chain[k] && chain[k].retrans == 0 then 1 else 0)
  {
    assert chain[k] == orig[consumed];
    assert orig[..consumed + 1] == orig[..consumed] + [orig[consumed]];
    PruneChainAppend(p, orig[..consumed], [orig[consumed]]);
    assert PruneChain(p, [orig[consumed]]) == [kept];
    assert orig[consumed..] == [orig[consumed]] + orig[consumed + 1..];
    YoungInReplace(chain, k, kept);
  }

  /** Unlinking the request under the cursor advances the walk without moving the cursor. */
  lemma DropStep(p: PruneParams, orig: seq<Request>, consumed: nat, chain: seq<Request>,
                 k: nat, removed: nat, aged: nat)
    requires Walked(p, orig, consumed, chain, k, removed, aged) && k < |chain|
    requires PruneEntry(p, chain[k]) == None
    ensures Walked(p, orig, consumed + 1, chain[..k] + chain[k + 1..], k, removed + 1,
                   aged + if chain[k].retrans == 0 then 1 else 0)
  {
    assert chain[k] == orig[consumed];
    assert orig[..consumed + 1] == orig[..consumed] + [orig[consumed]];
    PruneChainAppend(p, orig[..consumed], [orig[consumed]]);
    assert PruneChain(p, [orig[consumed]]) == [];
    assert orig[consumed..] == [orig[consumed]] + orig[consumed + 1..];
    YoungInRemove(chain, k);
  }

  /** When the cursor reaches the end, the whole chain has been pruned. */
  lemma WalkedAll(p: PruneParams, orig: seq<Request>, consumed: nat, chain: seq<Request>,
                  k: nat, removed: nat, aged: nat)
    requires Walked(p, orig, consumed, chain, k, removed, aged) && k >= |chain|
    ensures chain == PruneChain(p, orig) && removed == |orig| - |chain|
    ensures YoungIn(chain) == YoungIn(orig) - aged
  {
    assert |orig[consumed..]| == 0;
    assert orig[..consumed] == orig;
  }

  /**
   * Installing a new chain `c` at slot `i` of a consistent table changes the
   * two counters by the change in that chain, and keeps every request
   * placed when the new chain only holds requests of slot `i`.
   */
  method WriteBack(lopt: ListenSock, i: nat, c: seq<Request>)
    requires lopt.Valid() && i < lopt.nrTableEntries
    requires forall x :: x in c ==> lopt.BucketOf(x.rmtAddr, x.rmtPort) == i
    modifies lopt.synTable
    ensures lopt.synTable[..] == old(lopt.synTable[..])[i := c]
    ensures SumLen(lopt.synTable[..]) == lopt.qlen - |old(lopt.synTable[i])| + |c|
    ensures SumYoung(lopt.synTable[..]) == lopt.qlenYoung - YoungIn(old(lopt.synTable[i])) + YoungIn(c)
    ensures lopt.Shaped() && lopt.clockHand < lopt.nrTableEntries && lopt.Placed()
  {
    ghost var before := lopt.synTable[..];
    assert forall b, x: Request :: 0 <= b < |before| && x in before[b] ==> lopt.BucketOf(x.rmtAddr, x.rmtPort) == b;
    lopt.synTable[i] := c;
    assert lopt.synTable[..] == before[i := c];
    SumLenUpdate(before, i, c);
    SumYoungUpdate(before, i, c);
  }

  /**
   * One turn of the clock-hand walk: prune the chain under the hand and step
   * the hand with `(i + 1) & (nr_table_entries - 1)`.
   */
  method VisitChain(lopt: ListenSock, p: PruneParams, i: nat, ghost orig: seq<seq<Request>>, ghost t: nat)
    returns (next: nat)
    requires lopt.Valid() && |orig| == lopt.nrTableEntries
    requires i == HandAt(lopt.clockHand, t, lopt.nrTableEntries) && i < lopt.nrTableEntries
    requires lopt.synTable[..] == Swept(p, orig, lopt.clockHand, t)
    modifies lopt`qlen, lopt`qlenYoung, lopt.synTable
    ensures lopt.Valid()
    ensures next == HandAt(lopt.clockHand, t + 1, lopt.nrTableEntries) && next < lopt.nrTableEntries
    ensures lopt.synTable[..] == Swept(p, orig, lopt.clockHand, t + 1)
  {
    ghost var before := lopt.synTable[..];
    var n := lopt.nrTableEntries;
    HandAdvance(lopt.clockHand, t, n, lopt.maxQlenLog);
    next := BitAnd(i + 1, n - 1);
    ghost var h := lopt.clockHand;
    PruneBucket(lopt, i, p);
    assert lopt.clockHand == h && lopt.nrTableEntries == n;
    SweptAdvance(p, orig, h, t, before, lopt.synTable[..]);
  }

  /**
   * The clock-hand walk: starting at `clock_hand`, visit one chain at a
   * time, `max(budget, 1)` times (the walk is a do-while on `--budget > 0`).
   * Each chain ends pruned once per visit and the hand ends `max(budget, 1)`
   * steps on.
   */
  method Sweep(lopt: ListenSock, p: PruneParams, budget0: int) returns (hand: nat, ghost iters: nat)
    requires lopt.Valid() && budget0 >= 0
    modifies lopt`qlen, lopt`qlenYoung, lopt.synTable
    ensures lopt.Valid()
    ensures iters == (if budget0 <= 1 then 1 else budget0)
    ensures hand < lopt.nrTableEntries && hand == HandAt(lopt.clockHand, iters, lopt.nrTableEntries)
    ensures lopt.synTable[..] == Swept(p, old(lopt.synTable[..]), lopt.clockHand, iters)
  {
    var budget := budget0;
    ghost var orig := lopt.synTable[..];
    assert orig == Swept(p, orig, lopt.clockHand, 0);
    var i := lopt.clockHand;
    iters := 0;
    var more := true;
    while more
      invariant lopt.Valid()
      invariant i < lopt.nrTableEntries && i == HandAt(lopt.clockHand, iters, lopt.nrTableEntries)
      invariant budget == budget0 - iters
      invariant more <==> iters == 0 || budget > 0
      invariant !more ==> iters == (if budget0 <= 1 then 1 else budget0)
      invariant lopt.synTable[..] == Swept(p, orig, lopt.clockHand, iters)
      decreases if more then budget + 1 else 0
    {
      i := VisitChain(lopt, p, i, orig, iters);
      iters := iters + 1;
      budget := budget - 1;
      more := budget > 0;
    }
    hand := i;
  }

  /**
   * The number of chains one run visits: enough that the runs falling in
   * one `timeout` cover the table twice.
   */
  function Budget(nrTableEntries: nat, timeout: Jiffies, interval: Jiffies): (b: nat)
    requires 0 < interval <= timeout
    ensures b % 2 == 0
    ensures b * (timeout / interval) <= 2 * nrTableEntries < (b + 2) * (timeout / interval)
  {
    var runs := timeout / interval;
    var half := nrTableEntries / runs;
    assert half * runs <= nrTableEntries < (half + 1) * runs;
    assert (2 * half) * runs == 2 * (half * runs);
    assert (2 * half + 2) * runs == 2 * ((half + 1) * runs);
    2 * half
  }

  /**
   * `inet_csk_reqsk_queue_prune`. Nothing happens without a SYN table or
   * with an empty one. Otherwise the threshold is fixed once for the sweep,
   * `max_retries` becomes the deferral count when accept is deferred, and
   * the hand walks `max(budget, 1)` chains from `clock_hand`, where
   * `budget = 2 * (nr_table_entries / (timeout / interval))`; each visit
   * prunes the chain once more. The hand is left where the walk stopped,
   * and the timer is re-armed exactly when requests remain.
   */
  method Prune(queue: RequestSockQueue, synRetries: nat, sysctlSynackRetries: int, now: Jiffies,
               interval: Jiffies, timeout: Jiffies, maxRto: Jiffies, rtxOk: Request -> bool)
    returns (rearm: bool, ghost thresh: int, ghost iters: nat)
    requires 0 < interval <= timeout
    requires queue.listenOpt != null ==> queue.listenOpt.Valid()
    modifies if queue.listenOpt != null then {queue.listenOpt, queue.listenOpt.synTable} else {}
    ensures queue.listenOpt == null || old(queue.listenOpt.qlen) == 0 ==>
      !rearm && (queue.listenOpt != null ==> unchanged(queue.listenOpt, queue.listenOpt.synTable))
    ensures queue.listenOpt != null && old(queue.listenOpt.qlen) != 0 ==>
      var lopt := queue.listenOpt;
      var budget := Budget(lopt.nrTableEntries, timeout, interval);
      var maxRetries := if synRetries != 0 then synRetries else sysctlSynackRetries;
      var p := PruneParams(thresh, if queue.deferAccept != 0 then queue.deferAccept else maxRetries,
                           queue.deferAccept, now, timeout, maxRto, rtxOk);
      && ThresholdFits(maxRetries, old(lopt.qlen), old(lopt.qlenYoung), lopt.maxQlenLog, thresh)
      && iters == (if budget <= 1 then 1 else budget)
      && lopt.Valid()
      && lopt.clockHand == HandAt(old(lopt.clockHand), iters, lopt.nrTableEntries)
      && lopt.synTable[..] == Swept(p, old(lopt.synTable[..]), old(lopt.clockHand), iters)
      && (rearm <==> lopt.qlen != 0)
      && 0 <= lopt.qlenYoung <= lopt.qlen
  {
    var lopt := queue.listenOpt;
    var maxRetries: int := if synRetries != 0 then synRetries else sysctlSynackRetries;
    thresh := maxRetries;
    iters := 0;
    if lopt == null || lopt.qlen == 0 {
      return false, thresh, iters;
    }
    var t := SynAckThreshold(maxRetries, lopt.qlen, lopt.qlenYoung, lopt.maxQlenLog);
    thresh := t;
    if queue.deferAccept != 0 {
      maxRetries := queue.deferAccept;
    }
    var budget := Budget(lopt.nrTableEntries, timeout, interval);
    var p := PruneParams(t, maxRetries, queue.deferAccept, now, timeout, maxRto, rtxOk);
    var hand;
    hand, iters := Sweep(lopt, p, budget);
    MoveHand(lopt, hand);
    lopt.YoungWithinQlen();
    rearm := lopt.qlen != 0;
  }

  /** `lopt->clock_hand = i`: park the hand where the walk stopped. */
  method MoveHand(lopt: ListenSock, hand: nat)
    requires lopt.Valid() && hand < lopt.nrTableEntries
    modifies lopt`clockHand
    ensures lopt.Valid() && lopt.clockHand == hand
  {
    lopt.clockHand := hand;
  }

  /**
   * When the budget does not exceed the table, one sweep prunes each chain
   * of the window `[clock_hand, clock_hand + iters)` (wrapping) once and
   * leaves every other chain as it was.
   */
  lemma SweepWindow(p: PruneParams, c: seq<Request>, hand: nat, iters: nat, n: nat, b: nat)
    requires hand < n && iters <= n && b < n
    ensures PruneN(p, c, Visits(hand, iters, n, b)) ==
      if InWindow(hand, iters, n, b) then PruneChain(p, c) else c
  {
    VisitsWindow(hand, iters, n, b);
  }
}
