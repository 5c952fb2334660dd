/**
 * The per-listener request queue: the half-open (SYN) table `listen_sock`
 * with its counters, the queue that owns it together with the accept list,
 * and the operations of request_sock.c that size, install and tear down the
 * table.
 */
module RequestSock {
  import opened Kernel
  import opened Bits
  import opened SynqHash

  /**
   * One half-open request: `struct request_sock` with the fields of its
   * `inet_request_sock` part that admission reads. `inetFamily` stands for
   * `rsk_ops->family == AF_INET`.
   */
  datatype Request = Request(
    rmtAddr: nat,
    rmtPort: nat,
    locAddr: nat,
    inetFamily: bool,
    retrans: nat,
    expires: Jiffies,
    acked: bool)

  /** Number of requests in a list of chains. */
  function SumLen(s: seq<seq<Request>>): nat
  {
    if s == [] then 0 else SumLen(s[..|s| - 1]) + |s[|s| - 1]|
  }

  /** Number of requests of a chain that were never retransmitted. */
  function YoungIn(c: seq<Request>): nat
  {
    if c == [] then 0 else (if c[0].retrans == 0 then 1 else 0) + YoungIn(c[1..])
  }

  /** Number of never-retransmitted requests in a list of chains. */
  function SumYoung(s: seq<seq<Request>>): nat
  {
    if s == [] then 0 else SumYoung(s[..|s| - 1]) + YoungIn(s[|s| - 1])
  }

  lemma {:induction false} YoungInBound(c: seq<Request>)
    ensures YoungIn(c) <= |c|
  {
    if c != [] {
      YoungInBound(c[1..]);
    }
  }

  lemma {:induction false} YoungInAppend(a: seq<Request>, b: seq<Request>)
    ensures YoungIn(a + b) == YoungIn(a) + YoungIn(b)
  {
    if a == [] {
      assert a + b == b;
    } else {
      assert (a + b)[1..] == a[1..] + b;
      YoungInAppend(a[1..], b);
    }
  }

  /** Replacing the request at `k` changes the young count by the two requests' contributions. */
  lemma YoungInReplace(c: seq<Request>, k: nat, x: Request)
    requires k < |c|
    ensures YoungIn(c[k := x]) ==
      YoungIn(c) - (if c[k].retrans == 0 then 1 else 0) + (if x.retrans == 0 then 1 else 0)
  {
    Splice(c, k, x);
    YoungInSplit(c[..k], c[k], c[k + 1..]);
    YoungInSplit(c[..k], x, c[k + 1..]);
  }

  /** Unlinking the request at `k` removes its contribution to the young count. */
  lemma YoungInRemove(c: seq<Request>, k: nat)
    requires k < |c|
    ensures YoungIn(c[..k] + c[k + 1..]) == YoungIn(c) - (if c[k].retrans == 0 then 1 else 0)
  {
    Splice(c, k, c[k]);
    YoungInSplit(c[..k], c[k], c[k + 1..]);
    YoungInAppend(c[..k], c[k + 1..]);
  }

  /** A chain is the part before `k`, the request at `k` and the part after it. */
  lemma Splice(c: seq<Request>, k: nat, x: Request)
    requires k < |c|
    ensures c == c[..k] + [c[k]] + c[k + 1..]
    ensures c[k := x] == c[..k] + [x] + c[k + 1..]
  {
  }

  /** The young count of a chain with one request singled out. */
  lemma YoungInSplit(a: seq<Request>, x: Request, b: seq<Request>)
    ensures YoungIn(a + [x] + b) == YoungIn(a) + (if x.retrans == 0 then 1 else 0) + YoungIn(b)
  {
    YoungInAppend(a + [x], b);
    YoungInAppend(a, [x]);
    YoungInSingle(x);
  }

  /** A single request is young exactly when it was never retransmitted. */
  lemma YoungInSingle(r: Request)
    ensures YoungIn([r]) == if r.retrans == 0 then 1 else 0
  {
    assert [r][1..] == [];
  }

  /** The young count never exceeds the entry count. */
  lemma {:induction false} SumYoungBound(s: seq<seq<Request>>)
    ensures SumYoung(s) <= SumLen(s)
  {
    if s != [] {
      SumYoungBound(s[..|s| - 1]);
      YoungInBound(s[|s| - 1]);
    }
  }

  /** Replacing one chain changes the entry count by the change in that chain's length. */
  lemma {:induction false} SumLenUpdate(s: seq<seq<Request>>, i: nat, c: seq<Request>)
    requires i < |s|
    ensures SumLen(s[i := c]) == SumLen(s) - |s[i]| + |c|
  {
    var t := s[i := c];
    if i < |s| - 1 {
      assert t[..|t| - 1] == s[..|s| - 1][i := c];
      SumLenUpdate(s[..|s| - 1], i, c);
    } else {
      assert t[..|t| - 1] == s[..|s| - 1];
    }
  }

  /** Replacing one chain changes the young count by the change in that chain's young count. */
  lemma {:induction false} SumYoungUpdate(s: seq<seq<Request>>, i: nat, c: seq<Request>)
    requires i < |s|
    ensures SumYoung(s[i := c]) == SumYoung(s) - YoungIn(s[i]) + YoungIn(c)
  {
    var t := s[i := c];
    if i < |s| - 1 {
      assert t[..|t| - 1] == s[..|s| - 1][i := c];
      SumYoungUpdate(s[..|s| - 1], i, c);
    } else {
      assert t[..|t| - 1] == s[..|s| - 1];
    }
  }

  /** A list of empty chains holds no request. */
  lemma {:induction false} SumOfEmptyChains(s: seq<seq<Request>>)
    requires forall i :: 0 <= i < |s| ==> s[i] == []
    ensures SumLen(s) == 0 && SumYoung(s) == 0
  {
    if s != [] {
      SumOfEmptyChains(s[..|s| - 1]);
    }
  }

  /**
   * The number of SYN table slots for a listen backlog: the backlog is
   * clamped to `[8, sysctl_max_syn_backlog]` (the lower bound wins when the
   * sysctl is below 8), one is added and the result is rounded up to a
   * power of two. The table is therefore a power of two, strictly larger
   * than the clamped backlog, at least 16, and less than twice the
   * clamped backlog plus one.
   */
  function SynTableSize(backlog: nat, maxSynBacklog: nat): (n: nat)
    ensures IsPow2(n)
    ensures n > Max(Min(backlog, maxSynBacklog), 8) && n >= 16
    ensures n < 2 * (Max(Min(backlog, maxSynBacklog), 8) + 1)
  {
    var clamped := Max(Min(backlog, maxSynBacklog), 8);
    var k := CeilLog2(clamped + 1);
    CeilLog2OfPow2(k);
    Pow2AboveEight(k);
    RoundupPowOfTwo(clamped + 1)
  }

  /**
   * The `max_qlen_log` loop: starting from 3, the exponent grows until
   * `1 << max_qlen_log` reaches the table size.
   */
  method MaxQlenLog(nrTableEntries: nat) returns (log: nat)
    ensures log >= 3 && nrTableEntries <= Pow2(log)
    ensures log > 3 ==> Pow2(log - 1) < nrTableEntries
  {
    log := 3;
    while Pow2(log) < nrTableEntries
      invariant log >= 3
      invariant log > 3 ==> Pow2(log - 1) < nrTableEntries
      decreases nrTableEntries - Pow2(log)
    {
      log := log + 1;
    }
  }

  /**
   * For a power-of-two table of at least 8 slots the loop stops exactly at
   * its exponent: `1 << max_qlen_log == nr_table_entries`.
   */
  lemma MaxQlenLogExact(n: nat, log: nat)
    requires IsPow2(n) && n >= 8
    requires log >= 3 && n <= Pow2(log)
    requires log > 3 ==> Pow2(log - 1) < n
    ensures Pow2(log) == n
  {
    var k := CeilLog2(n);
    if k < 3 {
      Pow2Increasing(k, 3);
    }
    if log < k {
      Pow2Increasing(log, k);
    } else if log > k {
      if log > 3 {
        Pow2Increasing(k, log - 1);
      }
    }
  }

  /** `struct listen_sock`: the SYN table of one listener and its counters. */
  class ListenSock {
    const maxQlenLog: nat
    var qlen: int
    var qlenYoung: int
    var clockHand: nat
    const hashRnd: nat
    const nrTableEntries: nat
    const synTable: array<seq<Request>>
    /** The `jhash_2words` the table hashes with. */
    const jhash: JHash

    /** The table has `1 << max_qlen_log` slots, at least 8. */
    ghost predicate Shaped()
    {
      synTable.Length == nrTableEntries && nrTableEntries == Pow2(maxQlenLog) && maxQlenLog >= 3
    }

    /** `inet_synq_hash` with this table's seed and size. */
    function BucketOf(raddr: nat, rport: nat): (h: nat)
      requires Shaped()
      ensures h < nrTableEntries
    {
      InetSynqHash(raddr, rport, hashRnd, nrTableEntries, jhash, maxQlenLog)
    }

    /** Every request sits in the chain its remote address and port hash to. */
    ghost predicate Placed()
      reads this, synTable
      requires Shaped()
    {
      forall b, r :: 0 <= b < synTable.Length && r in synTable[b] ==> BucketOf(r.rmtAddr, r.rmtPort) == b
    }

    /**
     * The table invariant: `qlen` counts the requests in the chains,
     * `qlen_young` counts those never retransmitted, the sweep cursor is a
     * slot, and every request is in its own hash chain.
     */
    ghost predicate Valid()
      reads this, synTable
    {
      && Shaped()
      && clockHand < nrTableEntries
      && qlen == SumLen(synTable[..])
      && qlenYoung == SumYoung(synTable[..])
      && Placed()
    }

    /** The zeroed table `kzalloc`/`vzalloc` hands back, with its size fields set. */
    constructor (log: nat, rnd: nat, jhash: JHash)
      requires log >= 3
      ensures Valid() && fresh(synTable)
      ensures maxQlenLog == log && nrTableEntries == Pow2(log)
      ensures hashRnd == rnd && this.jhash == jhash
      ensures qlen == 0 && qlenYoung == 0 && clockHand == 0
      ensures forall b :: 0 <= b < synTable.Length ==> synTable[b] == []
    {
      maxQlenLog := log;
      nrTableEntries := Pow2(log);
      hashRnd := rnd;
      this.jhash := jhash;
      synTable := new seq<Request>[Pow2(log)](_ => []);
      qlen := 0;
      qlenYoung := 0;
      clockHand := 0;
      new;
      SumOfEmptyChains(synTable[..]);
    }

    /** Young requests are among the requests counted: `0 <= qlen_young <= qlen`. */
    lemma YoungWithinQlen()
      requires Valid()
      ensures 0 <= qlenYoung <= qlen
    {
      SumYoungBound(synTable[..]);
    }
  }

  /**
   * `struct request_sock_queue`: the accept list of matured children
   * (oldest first, each named by an opaque handle), the defer-accept
   * setting, and the SYN table (`listen_opt`, null while not listening).
   */
  class RequestSockQueue {
    var acceptQueue: seq<nat>
    var deferAccept: nat
    var listenOpt: ListenSock?

    constructor ()
      ensures acceptQueue == [] && deferAccept == 0 && listenOpt == null
    {
      acceptQueue := [];
      deferAccept := 0;
      listenOpt := null;
    }

    /**
     * `reqsk_queue_alloc`: size a SYN table for the backlog, allocate it
     * zeroed, compute `max_qlen_log`, draw the hash seed, empty the accept
     * list and install the table. `allocOk` and `rnd` stand for the
     * allocator's and `get_random_bytes`' outcomes.
     */
    method Alloc(nrTableEntries: nat, maxSynBacklog: nat, allocOk: bool, rnd: nat, jhash: JHash)
      returns (rc: int)
      modifies this
      ensures !allocOk ==> rc == -ENOMEM && unchanged(this)
      ensures allocOk ==> rc == 0
      ensures allocOk ==> acceptQueue == [] && deferAccept == old(deferAccept)
      ensures allocOk ==> listenOpt != null && fresh(listenOpt) && fresh(listenOpt.synTable)
      ensures allocOk ==> listenOpt.Valid() && listenOpt.qlen == 0 && listenOpt.qlenYoung == 0
      ensures allocOk ==> listenOpt.nrTableEntries == SynTableSize(nrTableEntries, maxSynBacklog)
      ensures allocOk ==> Pow2(listenOpt.maxQlenLog) == listenOpt.nrTableEntries
      ensures allocOk ==> listenOpt.hashRnd == rnd && listenOpt.jhash == jhash && listenOpt.clockHand == 0
      ensures allocOk ==> forall b :: 0 <= b < listenOpt.synTable.Length ==> listenOpt.synTable[b] == []
    {
      var n := Min(nrTableEntries, maxSynBacklog);
      n := Max(n, 8);
      n := RoundupPowOfTwo(n + 1);
      assert n == SynTableSize(nrTableEntries, maxSynBacklog);
      if !allocOk {
        return -ENOMEM;
      }
      var log := MaxQlenLog(n);
      MaxQlenLogExact(n, log);
      var lopt := new ListenSock(log, rnd, jhash);
      acceptQueue := [];
      listenOpt := lopt;
      rc := 0;
    }

    /** `reqsk_queue_yank_listen_sk`: detach the SYN table and hand it back. */
    method YankListenSk() returns (lopt: ListenSock?)
      modifies this`listenOpt
      ensures lopt == old(listenOpt) && listenOpt == null
    {
      lopt := listenOpt;
      listenOpt := null;
    }

    /**
     * `reqsk_queue_yank_acceptq`: detach the whole accept list and hand it
     * back, oldest child first.
     */
    method YankAcceptq() returns (children: seq<nat>)
      modifies this`acceptQueue
      ensures children == old(acceptQueue) && acceptQueue == []
    {
      children := acceptQueue;
      acceptQueue := [];
    }

    /**
     * `reqsk_queue_destroy`: detach the SYN table and, when `qlen` is not
     * zero, unlink every request from every chain, decrementing `qlen` once
     * per request freed. On a table whose counters are consistent `qlen`
     * ends at zero, so the kernel's final warning never fires.
     */
    method Destroy()
      requires listenOpt != null && listenOpt.Shaped()
      modifies this`listenOpt, listenOpt, listenOpt.synTable
      ensures listenOpt == null
      ensures old(listenOpt.qlen) != 0 ==>
        && (forall b :: 0 <= b < old(listenOpt).synTable.Length ==> old(listenOpt).synTable[b] == [])
        && old(listenOpt).qlen == old(listenOpt.qlen) - old(SumLen(listenOpt.synTable[..]))
      ensures old(listenOpt.qlen) == 0 ==>
        old(listenOpt).qlen == 0 && old(listenOpt).synTable[..] == old(listenOpt.synTable[..])
      ensures old(listenOpt.Valid()) ==> old(listenOpt).qlen == 0
    {
      var lopt := YankListenSk();
      ghost var orig := lopt.synTable[..];
      ghost var q0 := lopt.qlen;
      if lopt.qlen != 0 {
        var i := 0;
        while i < lopt.nrTableEntries
          invariant 0 <= i <= lopt.nrTableEntries && listenOpt == null
          invariant forall b :: 0 <= b < i ==> lopt.synTable[b] == []
          invariant forall b :: i <= b < lopt.nrTableEntries ==> lopt.synTable[b] == orig[b]
          invariant lopt.qlen == q0 - SumLen(orig[..i])
        {
          while lopt.synTable[i] != []
            invariant |lopt.synTable[i]| <= |orig[i]| && listenOpt == null
            invariant lopt.qlen == q0 - SumLen(orig[..i]) - (|orig[i]| - |lopt.synTable[i]|)
            invariant forall b :: 0 <= b < i ==> lopt.synTable[b] == []
            invariant forall b :: i < b < lopt.nrTableEntries ==> lopt.synTable[b] == orig[b]
            decreases |lopt.synTable[i]|
          {
            lopt.synTable[i] := lopt.synTable[i][1..];
            lopt.qlen := lopt.qlen - 1;
          }
          assert orig[..i + 1][..i] == orig[..i];
          i := i + 1;
        }
        assert orig[..lopt.nrTableEntries] == orig;
      }
    }
  }
}
