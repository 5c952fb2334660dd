/**
 * Local port ownership: the bind buckets (`inet_bind_bucket`), the check
 * that decides whether a socket may share a bucket with its owners
 * (`inet_csk_bind_conflict`) and port selection (`inet_csk_get_port`),
 * including the randomised search of the ephemeral range.
 */
module InetCskPort {
  import opened Kernel
  import opened TcpStates
  import opened Sock

  /**
   * One bound port: whether new sockets may join it without a conflict scan
   * (`fastreuse`) and the sockets bound to it, most recent first.
   * `num_owners` is the length of `owners`.
   */
  datatype BindBucket = BindBucket(fastreuse: bool, owners: seq<Sock>)

  /** The environment of one port selection. */
  datatype PortEnv = PortEnv(
    /** `sysctl_local_ports.range`. */
    low: nat,
    high: nat,
    /** `sysctl_local_reserved_ports`, as a set of ports. */
    reserved: set<nat>,
    /** The successive values of `net_random()`. */
    rnd: nat -> nat,
    /** Whether `inet_bind_bucket_create` finds memory. */
    createOk: bool)

  /** The outcome of one sweep of the ephemeral range. */
  datatype ScanOutcome =
    | FreePort(port: nat)
    | ReusePort(port: nat)
    | Exhausted

  /**
   * Whether `sk2`, already on the bucket, keeps `sk` off it: a different
   * socket, not IPv6-only, on a compatible device, not both willing to share
   * (or `sk2` listening), and with overlapping local addresses.
   */
  predicate Conflicts(sk: Sock, sk2: Sock)
    reads sk, sk2
  {
    && sk != sk2
    && !sk2.ipv6only
    && (sk.boundDevIf == 0 || sk2.boundDevIf == 0 || sk.boundDevIf == sk2.boundDevIf)
    && (!sk.reuse || !sk2.reuse || sk2.state == Listen)
    && (sk2.rcvSaddr == 0 || sk.rcvSaddr == 0 || sk2.rcvSaddr == sk.rcvSaddr)
  }

  ghost predicate AnyConflict(sk: Sock, owners: seq<Sock>)
    reads sk, owners
  {
    exists k :: 0 <= k < |owners| && Conflicts(sk, owners[k])
  }

  /**
   * `inet_csk_bind_conflict`: walk the owners and stop at the first one that
   * conflicts. The answer is true exactly when some owner conflicts, and
   * `at` is the first such owner.
   */
  method BindConflict(sk: Sock, owners: seq<Sock>) returns (conflict: bool, ghost at: nat)
    ensures conflict <==> AnyConflict(sk, owners)
    ensures conflict ==> at < |owners| && Conflicts(sk, owners[at])
    ensures conflict ==> forall k :: 0 <= k < at ==> !Conflicts(sk, owners[k])
  {
    var i := 0;
    while i < |owners|
      invariant 0 <= i <= |owners|
      invariant forall k :: 0 <= k < i ==> !Conflicts(sk, owners[k])
    {
      if Conflicts(sk, owners[i]) {
        return true, i;
      }
      i := i + 1;
    }
    return false, 0;
  }

  /**
   * A bucket marked `fastreuse` only holds sockets that allow sharing and
   * are not listening.
   */
  ghost predicate FastReuseSound(b: BindBucket)
    reads b.owners
  {
    b.fastreuse ==> forall k :: 0 <= k < |b.owners| ==> b.owners[k].reuse && b.owners[k].state != Listen
  }

  /**
   * The fast path of `inet_csk_get_port` skips the conflict scan: on a sound
   * `fastreuse` bucket a sharing, non-listening socket has no conflict to find.
   */
  lemma FastPathNoConflict(sk: Sock, b: BindBucket)
    requires FastReuseSound(b) && b.fastreuse
    requires sk.reuse && sk.state != Listen
    ensures !AnyConflict(sk, b.owners)
  {
  }

  /**
   * The port the search visits `j` steps after `start`, wrapping from
   * `high` back to `low`.
   */
  function RoverAt(start: nat, low: nat, high: nat, j: nat): (p: nat)
    requires low <= start <= high && j <= high - low + 1
    ensures low <= p <= high
  {
    if start + j <= high then start + j else start + j - (high - low + 1)
  }

  /** The first `high - low + 1` steps of the search visit every port of the range once. */
  lemma RoverCoversRange(start: nat, low: nat, high: nat, p: nat)
    requires low <= start <= high && low <= p <= high
    ensures exists j :: 0 <= j < high - low + 1 && RoverAt(start, low, high, j) == p
  {
    if p >= start {
      assert RoverAt(start, low, high, p - start) == p;
    } else {
      assert RoverAt(start, low, high, p + (high - low + 1) - start) == p;
    }
  }

  /** Where the `n`-th scan starts: `net_random() % remaining + low`. */
  function ScanStart(env: PortEnv, n: nat): (start: nat)
    requires env.low <= env.high
    ensures env.low <= start <= env.high
  {
    env.rnd(n) % (env.high - env.low + 1) + env.low
  }

  class BindHashInfo {
    /** The bind hash: every bucket, by namespace and port. */
    var buckets: map<BindKey, BindBucket>
    /** `bsockets`: how many sockets are bound. */
    var bsockets: nat

    /** Not reserved and no bucket: nobody holds the port. */
    ghost predicate IsFree(net: nat, reserved: set<nat>, p: nat)
      reads this
    {
      p !in reserved && BindKey(net, p) !in buckets
    }

    /** Not reserved, and a `fastreuse` bucket that a sharing socket may join. */
    ghost predicate IsReusable(net: nat, reserved: set<nat>, canReuse: bool, p: nat)
      reads this
    {
      p !in reserved && BindKey(net, p) in buckets && buckets[BindKey(net, p)].fastreuse && canReuse
    }

    ghost function Owners(net: nat, p: nat): nat
      reads this
      requires BindKey(net, p) in buckets
    {
      |buckets[BindKey(net, p)].owners|
    }

    /** No port of the range is free or shareable: every scan comes back empty-handed. */
    ghost predicate NoCandidate(net: nat, low: nat, high: nat, reserved: set<nat>, canReuse: bool)
      reads this
    {
      forall p :: low <= p <= high ==> !IsFree(net, reserved, p) && !IsReusable(net, reserved, canReuse, p)
    }

    /**
     * The `j`-th port in rover order from `start` is free, no port before it
     * is, and, when more sockets are bound than the range has ports (the
     * short-cut that takes the first shareable bucket), none before it is
     * shareable either: a scan from `start` stops on that port.
     */
    ghost predicate FirstFree(net: nat, low: nat, high: nat, reserved: set<nat>, canReuse: bool,
                              start: nat, j: nat)
      reads this
      requires low <= start <= high
    {
      && j < high - low + 1
      && IsFree(net, reserved, RoverAt(start, low, high, j))
      && forall i :: 0 <= i < j ==>
           && !IsFree(net, reserved, RoverAt(start, low, high, i))
           && (bsockets > high - low + 1 ==> !IsReusable(net, reserved, canReuse, RoverAt(start, low, high, i)))
    }

    /**
     * One sweep of the ephemeral range from the random starting point
     * `start`: the first free port is taken at once; otherwise the shared
     * bucket with the fewest owners (the first one seen among equals) is
     * remembered, and when more sockets are bound than the range has ports
     * the first shareable bucket is taken without looking further.
     */
    method ScanRange(net: nat, low: nat, high: nat, reserved: set<nat>, start: nat, canReuse: bool)
      returns (outcome: ScanOutcome, ghost at: nat)
      requires low <= start <= high
      ensures outcome.FreePort? ==>
        && at < high - low + 1 && outcome.port == RoverAt(start, low, high, at)
        && IsFree(net, reserved, outcome.port)
        && (forall j :: 0 <= j < at ==> !IsFree(net, reserved, RoverAt(start, low, high, j)))
        && (bsockets > high - low + 1 ==>
              forall j :: 0 <= j < at ==> !IsReusable(net, reserved, canReuse, RoverAt(start, low, high, j)))
      ensures outcome.ReusePort? ==>
        && at < high - low + 1 && outcome.port == RoverAt(start, low, high, at)
        && IsReusable(net, reserved, canReuse, outcome.port)
        && (forall j :: 0 <= j < at ==> !IsFree(net, reserved, RoverAt(start, low, high, j)))
        && (forall j :: 0 <= j < at && IsReusable(net, reserved, canReuse, RoverAt(start, low, high, j)) ==>
              Owners(net, RoverAt(start, low, high, j)) > Owners(net, outcome.port))
        && (bsockets > high - low + 1 ==>
              forall j :: 0 <= j < at ==> !IsReusable(net, reserved, canReuse, RoverAt(start, low, high, j)))
        && (bsockets <= high - low + 1 ==>
              forall j :: 0 <= j < high - low + 1 ==>
                && !IsFree(net, reserved, RoverAt(start, low, high, j))
                && (IsReusable(net, reserved, canReuse, RoverAt(start, low, high, j)) ==>
                      Owners(net, RoverAt(start, low, high, j)) >= Owners(net, outcome.port)))
      ensures outcome.Exhausted? <==>
        forall j :: 0 <= j < high - low + 1 ==>
          !IsFree(net, reserved, RoverAt(start, low, high, j)) &&
          !IsReusable(net, reserved, canReuse, RoverAt(start, low, high, j))
    {
      var range := high - low + 1;
      var remaining := range;
      var rover := start;
      var smallestSize := -1;
      var smallestRover := start;
      ghost var j: nat := 0;
      ghost var best: nat := 0;
      while remaining > 0
        invariant 0 <= remaining <= range && j == range - remaining
        invariant rover == RoverAt(start, low, high, j)
        invariant forall k :: 0 <= k < j ==> !IsFree(net, reserved, RoverAt(start, low, high, k))
        invariant smallestSize == -1 <==>
          forall k :: 0 <= k < j ==> !IsReusable(net, reserved, canReuse, RoverAt(start, low, high, k))
        invariant bsockets > range ==> smallestSize == -1
        invariant smallestSize != -1 ==>
          && best < j && smallestRover == RoverAt(start, low, high, best)
          && IsReusable(net, reserved, canReuse, smallestRover)
          && smallestSize == Owners(net, smallestRover)
          && (forall k :: 0 <= k < best && IsReusable(net, reserved, canReuse, RoverAt(start, low, high, k)) ==>
                Owners(net, RoverAt(start, low, high, k)) > smallestSize)
          && (forall k :: 0 <= k < j && IsReusable(net, reserved, canReuse, RoverAt(start, low, high, k)) ==>
                Owners(net, RoverAt(start, low, high, k)) >= smallestSize)
      {
        if rover !in reserved {
          var key := BindKey(net, rover);
          if key !in buckets {
            return FreePort(rover), j;
          }
          var tb := buckets[key];
          if tb.fastreuse && canReuse && (|tb.owners| < smallestSize || smallestSize == -1) {
            smallestSize := |tb.owners|;
            smallestRover := rover;
            best := j;
            if bsockets > range {
              return ReusePort(rover), j;
            }
          }
        }
        rover := rover + 1;
        if rover > high {
          rover := low;
        }
        remaining := remaining - 1;
        j := j + 1;
      }
      if smallestSize != -1 {
        return ReusePort(smallestRover), best;
      }
      return Exhausted, 0;
    }

    /** A scan that found nothing means no port of the range is free or shareable, so no scan stops on a free port. */
    lemma EmptyScan(net: nat, low: nat, high: nat, reserved: set<nat>, canReuse: bool, start: nat, first: nat)
      requires low <= start <= high && low <= first <= high
      requires forall j :: 0 <= j < high - low + 1 ==>
        !IsFree(net, reserved, RoverAt(start, low, high, j)) &&
        !IsReusable(net, reserved, canReuse, RoverAt(start, low, high, j))
      ensures NoCandidate(net, low, high, reserved, canReuse)
      ensures forall j :: !FirstFree(net, low, high, reserved, canReuse, first, j)
    {
      forall p | low <= p <= high
        ensures !IsFree(net, reserved, p) && !IsReusable(net, reserved, canReuse, p)
      {
        RoverCoversRange(start, low, high, p);
      }
      forall j: nat
        ensures !FirstFree(net, low, high, reserved, canReuse, first, j)
      {
        if j < high - low + 1 {
          assert low <= RoverAt(first, low, high, j) <= high;
        }
      }
    }

    /**
     * A scan that settled on the shareable port `at` steps along: some port
     * is shareable, and no port is the first free one from the same start.
     */
    lemma SharedScan(net: nat, low: nat, high: nat, reserved: set<nat>, canReuse: bool, start: nat, at: nat)
      requires low <= start <= high && at < high - low + 1
      requires IsReusable(net, reserved, canReuse, RoverAt(start, low, high, at))
      requires forall j :: 0 <= j < at ==> !IsFree(net, reserved, RoverAt(start, low, high, j))
      requires bsockets <= high - low + 1 ==>
        forall j :: 0 <= j < high - low + 1 ==> !IsFree(net, reserved, RoverAt(start, low, high, j))
      ensures !NoCandidate(net, low, high, reserved, canReuse)
      ensures forall j :: !FirstFree(net, low, high, reserved, canReuse, start, j)
    {
      assert low <= RoverAt(start, low, high, at) <= high;
      forall j: nat
        ensures !FirstFree(net, low, high, reserved, canReuse, start, j)
      {
        if j <= at {
          assert !IsFree(net, reserved, RoverAt(start, low, high, j));
        }
      }
    }

    /**
     * The ephemeral-port search of `inet_csk_get_port`: scan the range from
     * a random start; a reusable candidate that turns out to conflict makes
     * the search start over from a new random point, at most five times, so
     * there are at most six scans (`scans` counts them). A port found is in
     * range, not reserved, and either has no bucket or a bucket this socket
     * may join: fast-reuse is on and nobody on it conflicts. When the first
     * scan meets a free port before any short-cut applies, that port is the
     * answer; when no port is free or shareable the search fails at once;
     * otherwise it fails only after the sixth scan.
     */
    method SearchPort(sk: Sock, env: PortEnv) returns (found: bool, port: nat, ghost scans: nat)
      requires env.low <= env.high
      ensures 1 <= scans <= 6
      ensures found ==> env.low <= port <= env.high && port !in env.reserved
      ensures found && BindKey(sk.net, port) in buckets ==>
        buckets[BindKey(sk.net, port)].fastreuse && sk.reuse && sk.state != Listen &&
        (buckets[BindKey(sk.net, port)].owners == [] || !AnyConflict(sk, buckets[BindKey(sk.net, port)].owners))
      ensures forall j :: FirstFree(sk.net, env.low, env.high, env.reserved, sk.reuse && sk.state != Listen, ScanStart(env, 0), j) ==>
        found && scans == 1 && port == RoverAt(ScanStart(env, 0), env.low, env.high, j)
      ensures NoCandidate(sk.net, env.low, env.high, env.reserved, sk.reuse && sk.state != Listen) ==> !found && scans == 1
      ensures !found ==> NoCandidate(sk.net, env.low, env.high, env.reserved, sk.reuse && sk.state != Listen) || scans == 6
    {
      var canReuse := sk.reuse && sk.state != Listen;
      var attempts := 5;
      scans := 0;
      port := 0;
      while true
        invariant 0 <= attempts <= 5 && scans == 5 - attempts
        invariant scans > 0 ==> !NoCandidate(sk.net, env.low, env.high, env.reserved, canReuse)
        invariant scans > 0 ==> forall j :: !FirstFree(sk.net, env.low, env.high, env.reserved, canReuse, ScanStart(env, 0), j)
        decreases attempts
      {
        var start := ScanStart(env, 5 - attempts);
        var outcome, at := ScanRange(sk.net, env.low, env.high, env.reserved, start, canReuse);
        scans := scans + 1;
        match outcome {
          case Exhausted =>
            EmptyScan(sk.net, env.low, env.high, env.reserved, canReuse, start, ScanStart(env, 0));
            return false, port, scans;
          case FreePort(p) =>
            return true, p, scans;
          case ReusePort(p) =>
            SharedScan(sk.net, env.low, env.high, env.reserved, canReuse, start, at);
            var tb := buckets[BindKey(sk.net, p)];
            if tb.owners != [] {
              var conflict, _ := BindConflict(sk, tb.owners);
              if conflict {
                if attempts == 0 {
                  return false, port, scans;
                }
                attempts := attempts - 1;
                continue;
              }
            }
            return true, p, scans;
        }
      }
    }

    /**
     * `inet_csk_get_port`: bind `sk` to `snum`, or to a port of the
     * ephemeral range when `snum` is 0. An explicit port is refused only
     * when its bucket has owners, the fast path does not apply and some
     * owner conflicts. An automatic choice takes a free port, or else
     * the shareable bucket the search settles on; a conflict there starts
     * the search again, at most five times. On success the bucket's
     * `fastreuse` is recomputed and, unless the socket was bound already,
     * the socket joins the bucket's owners and takes the port. On failure
     * nothing changes.
     */
    method GetPort(sk: Sock, snum: nat, env: PortEnv) returns (ret: int, port: nat, ghost scans: nat)
      requires env.low <= env.high
      modifies this, sk`inetNum, sk`bindHash
      ensures ret == 0 || ret == 1
      ensures ret == 1 ==>
        buckets == old(buckets) && bsockets == old(bsockets) &&
        sk.inetNum == old(sk.inetNum) && sk.bindHash == old(sk.bindHash)
      ensures ret == 0 ==> BindKey(sk.net, port) in buckets
      ensures ret == 0 ==> buckets == old(buckets)[BindKey(sk.net, port) := buckets[BindKey(sk.net, port)]]
      ensures ret == 0 ==> (buckets[BindKey(sk.net, port)].fastreuse ==
        if BindKey(sk.net, port) in old(buckets) && old(buckets)[BindKey(sk.net, port)].owners != []
        then old(buckets)[BindKey(sk.net, port)].fastreuse && sk.reuse && sk.state != Listen
        else sk.reuse && sk.state != Listen)
      ensures ret == 0 && old(sk.bindHash).None? ==>
        && sk.bindHash == Some(BindKey(sk.net, port)) && sk.inetNum == port
        && bsockets == old(bsockets) + 1
        && buckets[BindKey(sk.net, port)].owners ==
             [sk] + (if BindKey(sk.net, port) in old(buckets) then old(buckets)[BindKey(sk.net, port)].owners else [])
      ensures ret == 0 && old(sk.bindHash).Some? ==>
        && sk.bindHash == old(sk.bindHash) && sk.inetNum == old(sk.inetNum)
        && bsockets == old(bsockets)
        && buckets[BindKey(sk.net, port)].owners ==
             (if BindKey(sk.net, port) in old(buckets) then old(buckets)[BindKey(sk.net, port)].owners else [])
      ensures ret == 0 ==>
        (BindKey(sk.net, port) in old(buckets) ==> old(FastReuseSound(buckets[BindKey(sk.net, port)]))) ==>
        FastReuseSound(buckets[BindKey(sk.net, port)])
      ensures ret == 0 && snum != 0 ==> port == snum
      ensures ret == 0 && snum == 0 ==> env.low <= port <= env.high && port !in env.reserved
      ensures ret == 0 && BindKey(sk.net, port) in old(buckets) && old(buckets)[BindKey(sk.net, port)].owners != [] ==>
        (old(buckets)[BindKey(sk.net, port)].fastreuse && sk.reuse && sk.state != Listen) ||
        !AnyConflict(sk, old(buckets)[BindKey(sk.net, port)].owners)
      ensures snum != 0 ==>
        (ret == 0 <==>
          if BindKey(sk.net, snum) in old(buckets) then
            var b := old(buckets)[BindKey(sk.net, snum)];
            b.owners == [] || (b.fastreuse && sk.reuse && sk.state != Listen) || !AnyConflict(sk, b.owners)
          else env.createOk)
      ensures snum != 0 ==> scans == 0
      ensures snum == 0 ==> 1 <= scans <= 6
      ensures snum == 0 ==>
        forall j :: old(FirstFree(sk.net, env.low, env.high, env.reserved, sk.reuse && sk.state != Listen, ScanStart(env, 0), j)) ==>
          && port == RoverAt(ScanStart(env, 0), env.low, env.high, j) && scans == 1
          && (ret == 0 <==> env.createOk)
      ensures snum == 0 && old(NoCandidate(sk.net, env.low, env.high, env.reserved, sk.reuse && sk.state != Listen)) ==>
        ret == 1 && scans == 1
      ensures snum == 0 && ret == 1 ==>
        old(NoCandidate(sk.net, env.low, env.high, env.reserved, sk.reuse && sk.state != Listen)) || scans == 6 || !env.createOk
    {
      var canReuse := sk.reuse && sk.state != Listen;
      var fast := false;
      port := snum;
      scans := 0;
      if snum == 0 {
        var found;
        found, port, scans := SearchPort(sk, env);
        forall j | old(FirstFree(sk.net, env.low, env.high, env.reserved, canReuse, ScanStart(env, 0), j))
          ensures found && port == RoverAt(ScanStart(env, 0), env.low, env.high, j) && scans == 1
          ensures BindKey(sk.net, port) !in buckets
        {
          assert FirstFree(sk.net, env.low, env.high, env.reserved, canReuse, ScanStart(env, 0), j);
        }
        assert old(NoCandidate(sk.net, env.low, env.high, env.reserved, canReuse)) ==
          NoCandidate(sk.net, env.low, env.high, env.reserved, canReuse);
        if !found {
          return 1, port, scans;
        }
      } else {
        var key := BindKey(sk.net, snum);
        if key in buckets && buckets[key].owners != [] {
          var tb := buckets[key];
          if tb.fastreuse && canReuse {
            fast := true;
          } else {
            var conflict, _ := BindConflict(sk, tb.owners);
            if conflict {
              return 1, port, scans;
            }
          }
        }
      }
      ret := Install(sk, port, fast, env.createOk);
    }

    /**
     * The tail of `inet_csk_get_port` once a port is chosen: create the
     * bucket when there is none (which can fail), recompute its fast-reuse
     * flag unless the fast path admitted the socket, and put the socket on
     * the bucket unless it is already bound to one.
     */
    method Install(sk: Sock, port: nat, fast: bool, createOk: bool) returns (ret: int)
      requires fast ==>
        BindKey(sk.net, port) in buckets && buckets[BindKey(sk.net, port)].owners != [] &&
        buckets[BindKey(sk.net, port)].fastreuse && sk.reuse && sk.state != Listen
      modifies this, sk`inetNum, sk`bindHash
      ensures ret == 0 || ret == 1
      ensures ret == 1 <==> BindKey(sk.net, port) !in old(buckets) && !createOk
      ensures ret == 1 ==>
        buckets == old(buckets) && bsockets == old(bsockets) &&
        sk.inetNum == old(sk.inetNum) && sk.bindHash == old(sk.bindHash)
      ensures ret == 0 ==> BindKey(sk.net, port) in buckets
      ensures ret == 0 ==> buckets == old(buckets)[BindKey(sk.net, port) := buckets[BindKey(sk.net, port)]]
      ensures ret == 0 ==> (buckets[BindKey(sk.net, port)].fastreuse ==
        if BindKey(sk.net, port) in old(buckets) && old(buckets)[BindKey(sk.net, port)].owners != []
        then old(buckets)[BindKey(sk.net, port)].fastreuse && sk.reuse && sk.state != Listen
        else sk.reuse && sk.state != Listen)
      ensures ret == 0 && old(sk.bindHash).None? ==>
        && sk.bindHash == Some(BindKey(sk.net, port)) && sk.inetNum == port
        && bsockets == old(bsockets) + 1
        && buckets[BindKey(sk.net, port)].owners ==
             [sk] + (if BindKey(sk.net, port) in old(buckets) then old(buckets)[BindKey(sk.net, port)].owners else [])
      ensures ret == 0 && old(sk.bindHash).Some? ==>
        && sk.bindHash == old(sk.bindHash) && sk.inetNum == old(sk.inetNum)
        && bsockets == old(bsockets)
        && buckets[BindKey(sk.net, port)].owners ==
             (if BindKey(sk.net, port) in old(buckets) then old(buckets)[BindKey(sk.net, port)].owners else [])
    {
      var canReuse := sk.reuse && sk.state != Listen;
      var key := BindKey(sk.net, port);
      if key !in buckets {
        if !createOk {
          return 1;
        }
        buckets := buckets[key := BindBucket(false, [])];
      }
      var tb := buckets[key];
      if !fast {
        if tb.owners == [] {
          tb := tb.(fastreuse := canReuse);
        } else if tb.fastreuse && !canReuse {
          tb := tb.(fastreuse := false);
        }
      }
      if sk.bindHash.None? {
        bsockets := bsockets + 1;
        sk.inetNum := port;
        tb := tb.(owners := [sk] + tb.owners);
        sk.bindHash := Some(key);
      }
      buckets := buckets[key := tb];
      ret := 0;
    }
  }
}
