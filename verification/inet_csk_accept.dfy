/**
 * Taking a connection off a listener: `inet_csk_accept` and its sleep,
 * `inet_csk_wait_for_connect`.
 *
 * The model is sequential. What other contexts do while the caller sleeps
 * with the socket lock released is given as a history of wake-ups: how many
 * ticks the sleep took, which children the receive path appended to the
 * accept list meanwhile, whether the listener was shut down (which runs
 * `inet_csk_listen_stop` and so drains the accept list), and whether a
 * signal is pending.
 */
module InetCskAccept {
  import opened Kernel
  import opened TcpStates
  import opened RequestSock
  import opened Sock

  /** One return from `schedule_timeout` in the wait loop. */
  datatype Wake = Wake(elapsed: nat, arrived: seq<nat>, closed: bool, signal: bool)

  /** How a wait ends, and after how many wake-ups; `None` while still asleep. */
  datatype WaitRun = WaitRun(verdict: Option<int>, used: nat)

  /** What `accept` hands back; `Asleep` when the history ends mid-wait. */
  datatype AcceptOutcome = Accepted(child: nat) | Failed(err: int) | Asleep

  /**
   * `sock_intr_errno`: a wait without a deadline is restarted after the
   * signal, a timed one is interrupted.
   */
  function SockIntrErrno(timeo: int): (e: int)
  {
    if timeo == MAX_SCHEDULE_TIMEOUT then -ERESTARTSYS else -EINTR
  }

  /**
   * `schedule_timeout`: sleeping without a deadline never uses it up; a
   * negative timeout does not sleep; otherwise what is left of the timeout
   * after `elapsed` ticks, never below zero.
   */
  function ScheduleTimeout(timeo: int, elapsed: nat): (left: int)
    ensures timeo == MAX_SCHEDULE_TIMEOUT ==> left == MAX_SCHEDULE_TIMEOUT
    ensures timeo != MAX_SCHEDULE_TIMEOUT ==> 0 <= left && left <= if timeo < 0 then 0 else timeo
    ensures timeo != MAX_SCHEDULE_TIMEOUT && 0 < elapsed ==> left < timeo || left == 0
  {
    if timeo == MAX_SCHEDULE_TIMEOUT then timeo
    else if timeo < 0 || elapsed >= timeo then 0
    else timeo - elapsed
  }

  /** `sock_rcvtimeo`: a non-blocking call does not wait at all. */
  function RcvTimeo(rcvTimeo: int, nonblock: bool): int
  {
    if nonblock then 0 else rcvTimeo
  }

  /** The children appended during the given wake-ups, in arrival order. */
  function Arrivals(ws: seq<Wake>): seq<nat>
  {
    if ws == [] then [] else ws[0].arrived + Arrivals(ws[1..])
  }

  /**
   * The accept list after one wake-up: the arrivals are appended, and a
   * shutdown then releases every child on the list (`inet_csk_listen_stop`).
   */
  function AfterWake(q: seq<nat>, w: Wake): (q': seq<nat>)
    ensures w.closed ==> q' == []
    ensures !w.closed ==> |q'| == |q| + |w.arrived| && q'[..|q|] == q
  {
    if w.closed then [] else q + w.arrived
  }

  /** The accept list after the given wake-ups, in order, starting from `q`. */
  function QueueAfter(q: seq<nat>, ws: seq<Wake>): seq<nat>
    decreases |ws|
  {
    if ws == [] then q else QueueAfter(AfterWake(q, ws[0]), ws[1..])
  }

  /** Running the wake-ups piece by piece is running them whole. */
  lemma {:induction false} QueueAfterAppend(q: seq<nat>, a: seq<Wake>, b: seq<Wake>)
    ensures QueueAfter(q, a + b) == QueueAfter(QueueAfter(q, a), b)
    decreases |a|
  {
    if a == [] {
      assert a + b == b;
    } else {
      assert (a + b)[0] == a[0];
      assert (a + b)[1..] == a[1..] + b;
      QueueAfterAppend(AfterWake(q, a[0]), a[1..], b);
    }
  }

  /** A single wake-up is `AfterWake`. */
  lemma QueueAfterOne(q: seq<nat>, w: Wake)
    ensures QueueAfter(q, [w]) == AfterWake(q, w)
  {
    assert [w][1..] == [];
  }

  /** Without a shutdown the accept list only grows, by the arrivals in order. */
  lemma {:induction false} QueueWithoutShutdown(q: seq<nat>, ws: seq<Wake>)
    requires !AnyClosed(ws)
    ensures QueueAfter(q, ws) == q + Arrivals(ws)
    decreases |ws|
  {
    if ws != [] {
      assert !ws[0].closed;
      assert !AnyClosed(ws[1..]) by {
        forall k | 0 <= k < |ws[1..]|
          ensures !ws[1..][k].closed
        {
          assert ws[1..][k] == ws[k + 1];
        }
      }
      QueueWithoutShutdown(q + ws[0].arrived, ws[1..]);
    }
  }

  /** Whether the listener was shut down during the given wake-ups. */
  predicate AnyClosed(ws: seq<Wake>)
  {
    exists k :: 0 <= k < |ws| && ws[k].closed
  }

  /**
   * The checks after one wake-up, in the kernel's order: a child on the
   * accept list wins, then a socket no longer listening, then a pending
   * signal, then an exhausted timeout; `None` means sleep again.
   */
  function WakeVerdict(queued: bool, listening: bool, signal: bool, left: int): (v: Option<int>)
    ensures v == Some(0) <==> queued
    ensures v.None? <==> !queued && listening && !signal && left != 0
  {
    if queued then Some(0)
    else if !listening then Some(-EINVAL)
    else if signal then Some(SockIntrErrno(left))
    else if left == 0 then Some(-EAGAIN)
    else None
  }

  /**
   * The decision of `inet_csk_wait_for_connect` over a history of wake-ups,
   * starting with the accept list non-empty or not (`queued`), the socket
   * listening or not, and `timeo` ticks to wait. After each wake-up come
   * the checks of `WakeVerdict`; when none applies the task sleeps again.
   * A shutdown has emptied the accept list by the time the checks run, so
   * it ends the wait with `-EINVAL` whatever arrived before it.
   */
  function Wait(queued: bool, listening: bool, timeo: int, wakes: seq<Wake>): (r: WaitRun)
    ensures r.used <= |wakes|
    ensures r.verdict.None? ==> r.used == |wakes|
    decreases |wakes|
  {
    if wakes == [] then WaitRun(None, 0)
    else
      var w := wakes[0];
      var left := if queued then timeo else ScheduleTimeout(timeo, w.elapsed);
      var v := WakeVerdict(!w.closed && (queued || w.arrived != []), listening && !w.closed, w.signal, left);
      if v.Some? then WaitRun(v, 1)
      else
        var r := Wait(false, true, left, wakes[1..]);
        WaitRun(r.verdict, r.used + 1)
  }

  /**
   * `inet_csk_wait_for_connect`: sleep (only while the accept list is
   * empty), let the other contexts act, then decide. The outcome and the
   * number of wake-ups consumed are those of `Wait`; meanwhile the accept
   * list follows the wake-ups (`QueueAfter`), `sk_ack_backlog` keeps its
   * distance to the list's length (each arrival counts one, a shutdown
   * releases the whole list), and the socket is CLOSE if it was shut down.
   */
  method WaitForConnect(sk: Sock, timeo0: int, wakes: seq<Wake>) returns (err: Option<int>, ghost used: nat)
    modifies sk.queue`acceptQueue, sk`ackBacklog, sk`state
    ensures WaitRun(err, used) == Wait(old(sk.queue.acceptQueue) != [], old(sk.state) == Listen, timeo0, wakes)
    ensures sk.queue.acceptQueue == QueueAfter(old(sk.queue.acceptQueue), wakes[..used])
    ensures sk.ackBacklog - |sk.queue.acceptQueue| == old(sk.ackBacklog) - |old(sk.queue.acceptQueue)|
    ensures sk.state == if AnyClosed(wakes[..used]) then Close else old(sk.state)
    ensures err == Some(0) ==> sk.queue.acceptQueue != []
  {
    var timeo := timeo0;
    var k := 0;
    while k < |wakes|
      invariant k <= |wakes|
      invariant k > 0 ==> sk.queue.acceptQueue == [] && sk.state == Listen
      invariant sk.queue.acceptQueue == QueueAfter(old(sk.queue.acceptQueue), wakes[..k])
      invariant sk.ackBacklog - |sk.queue.acceptQueue| == old(sk.ackBacklog) - |old(sk.queue.acceptQueue)|
      invariant sk.state == if AnyClosed(wakes[..k]) then Close else old(sk.state)
      invariant Wait(old(sk.queue.acceptQueue) != [], old(sk.state) == Listen, timeo0, wakes) ==
        var r := Wait(sk.queue.acceptQueue != [], sk.state == Listen, timeo, wakes[k..]);
        WaitRun(r.verdict, r.used + k)
    {
      var w := wakes[k];
      QueueStep(old(sk.queue.acceptQueue), wakes, k);
      ClosedStep(wakes, k);
      WaitAt(sk.queue.acceptQueue != [], sk.state == Listen, timeo, wakes, k);
      if sk.queue.acceptQueue == [] {
        timeo := ScheduleTimeout(timeo, w.elapsed);
      }
      TakeWake(sk, w);
      k := k + 1;
      var v := WakeVerdict(sk.queue.acceptQueue != [], sk.state == Listen, w.signal, timeo);
      if v.Some? {
        return v, k;
      }
    }
    assert wakes[..k] == wakes;
    return None, k;
  }

  /**
   * What the other contexts do during one sleep: the receive path appends
   * the children that arrived, each counted in `sk_ack_backlog`; a shutdown
   * closes the socket and runs `inet_csk_listen_stop`, which releases every
   * child on the list and takes each off the backlog.
   */
  method TakeWake(sk: Sock, w: Wake)
    modifies sk.queue`acceptQueue, sk`ackBacklog, sk`state
    ensures sk.queue.acceptQueue == AfterWake(old(sk.queue.acceptQueue), w)
    ensures sk.ackBacklog - |sk.queue.acceptQueue| == old(sk.ackBacklog) - |old(sk.queue.acceptQueue)|
    ensures sk.state == if w.closed then Close else old(sk.state)
  {
    sk.queue.acceptQueue := sk.queue.acceptQueue + w.arrived;
    sk.ackBacklog := sk.ackBacklog + |w.arrived|;
    if w.closed {
      sk.state := Close;
      sk.ackBacklog := sk.ackBacklog - |sk.queue.acceptQueue|;
      sk.queue.acceptQueue := [];
    }
  }

  /** Taking one more wake-up applies it to the accept list. */
  lemma QueueStep(q: seq<nat>, wakes: seq<Wake>, k: nat)
    requires k < |wakes|
    ensures QueueAfter(q, wakes[..k + 1]) == AfterWake(QueueAfter(q, wakes[..k]), wakes[k])
  {
    var pre := wakes[..k];
    assert wakes[..k + 1] == pre + [wakes[k]];
    QueueAfterAppend(q, pre, [wakes[k]]);
    QueueAfterOne(QueueAfter(q, pre), wakes[k]);
  }

  /** Taking one more wake-up extends the shut-down test by that wake-up. */
  lemma ClosedStep(wakes: seq<Wake>, k: nat)
    requires k < |wakes|
    ensures AnyClosed(wakes[..k + 1]) <==> AnyClosed(wakes[..k]) || wakes[k].closed
  {
    if AnyClosed(wakes[..k + 1]) {
      var j :| 0 <= j < k + 1 && wakes[..k + 1][j].closed;
      if j < k {
        assert wakes[..k][j].closed;
      }
    }
    if AnyClosed(wakes[..k]) {
      var j :| 0 <= j < k && wakes[..k][j].closed;
      assert wakes[..k + 1][j].closed;
    }
    if wakes[k].closed {
      assert wakes[..k + 1][k].closed;
    }
  }

  /** `Wait` on the wake-ups from the `k`-th on takes the `k`-th first. */
  lemma WaitAt(queued: bool, listening: bool, timeo: int, wakes: seq<Wake>, k: nat)
    requires k < |wakes|
    ensures var w := wakes[k];
      var left := if queued then timeo else ScheduleTimeout(timeo, w.elapsed);
      var v := WakeVerdict(!w.closed && (queued || w.arrived != []), listening && !w.closed, w.signal, left);
      Wait(queued, listening, timeo, wakes[k..]) ==
        if v.Some? then WaitRun(v, 1)
        else
          var r := Wait(false, true, left, wakes[k + 1..]);
          WaitRun(r.verdict, r.used + 1)
  {
    assert wakes[k..][0] == wakes[k];
    assert wakes[k..][1..] == wakes[k + 1..];
  }

  /** A wait ends only with one of the five codes the kernel can return. */
  lemma {:induction false} WaitVerdicts(queued: bool, listening: bool, timeo: int, wakes: seq<Wake>)
    ensures var v := Wait(queued, listening, timeo, wakes).verdict;
      v.Some? ==> v.value in {0, -EINVAL, -ERESTARTSYS, -EINTR, -EAGAIN}
    decreases |wakes|
  {
    if wakes != [] {
      var left := if queued then timeo else ScheduleTimeout(timeo, wakes[0].elapsed);
      WaitVerdicts(false, true, left, wakes[1..]);
    }
  }

  /**
   * The wait succeeds exactly when the accept list is non-empty after the
   * wake-ups it consumed.
   */
  lemma {:induction false} WaitSucceedsOnChild(q: seq<nat>, listening: bool, timeo: int, wakes: seq<Wake>)
    ensures var r := Wait(q != [], listening, timeo, wakes);
      r.verdict.Some? ==> (r.verdict == Some(0) <==> QueueAfter(q, wakes[..r.used]) != [])
    decreases |wakes|
  {
    var r := Wait(q != [], listening, timeo, wakes);
    if wakes != [] {
      var w := wakes[0];
      assert QueueAfter(q, wakes[..1]) == AfterWake(q, w) by {
        assert wakes[..1] == [w];
        QueueAfterOne(q, w);
      }
      if !w.closed && q == [] && w.arrived == [] && listening && !w.signal {
        var left := ScheduleTimeout(timeo, w.elapsed);
        if left != 0 {
          var r' := Wait(false, true, left, wakes[1..]);
          WaitSucceedsOnChild([], true, left, wakes[1..]);
          assert wakes[..r.used] == [w] + wakes[1..][..r'.used];
          assert wakes[..r.used][0] == w && wakes[..r.used][1..] == wakes[1..][..r'.used];
        }
      }
    }
  }

  /**
   * A shutdown among the wake-ups a wait consumed ends it with `-EINVAL`:
   * the accept list has been drained, and the socket no longer listens.
   */
  lemma {:induction false} ShutdownEndsWait(queued: bool, listening: bool, timeo: int, wakes: seq<Wake>)
    ensures var r := Wait(queued, listening, timeo, wakes);
      AnyClosed(wakes[..r.used]) ==> r.verdict == Some(-EINVAL)
    decreases |wakes|
  {
    var r := Wait(queued, listening, timeo, wakes);
    if wakes != [] && AnyClosed(wakes[..r.used]) && !wakes[0].closed {
      var w := wakes[0];
      var k :| 0 <= k < r.used && wakes[..r.used][k].closed;
      assert k != 0;
      var left := ScheduleTimeout(timeo, w.elapsed);
      var r' := Wait(false, true, left, wakes[1..]);
      ShutdownEndsWait(false, true, left, wakes[1..]);
      assert wakes[1..][..r'.used][k - 1] == wakes[..r.used][k];
    }
  }

  /**
   * Waiting without a deadline (`MAX_SCHEDULE_TIMEOUT`) never times out,
   * and a signal makes the call restartable rather than interrupted.
   */
  lemma {:induction false} WaitForeverNeverTimesOut(queued: bool, listening: bool, wakes: seq<Wake>)
    ensures var v := Wait(queued, listening, MAX_SCHEDULE_TIMEOUT, wakes).verdict;
      v != Some(-EAGAIN) && v != Some(-EINTR)
    decreases |wakes|
  {
    if wakes != [] {
      WaitForeverNeverTimesOut(false, true, wakes[1..]);
    }
  }

  /**
   * A timed wait always ends: when every sleep takes at least one tick, no
   * more than `timeo + 1` wake-ups are needed.
   */
  lemma {:induction false} TimedWaitEnds(queued: bool, listening: bool, timeo: int, wakes: seq<Wake>)
    requires timeo < MAX_SCHEDULE_TIMEOUT && wakes != [] && |wakes| > timeo
    requires forall k :: 0 <= k < |wakes| ==> wakes[k].elapsed > 0
    ensures Wait(queued, listening, timeo, wakes).verdict.Some?
    decreases |wakes|
  {
    var w := wakes[0];
    var left := if queued then timeo else ScheduleTimeout(timeo, w.elapsed);
    if !queued && w.arrived == [] && listening && !w.closed && !w.signal && left != 0 {
      assert forall k :: 0 <= k < |wakes[1..]| ==> wakes[1..][k] == wakes[k + 1];
      TimedWaitEnds(false, true, left, wakes[1..]);
    }
  }

  /**
   * `inet_csk_accept`: only a listener accepts; with nothing queued a
   * non-blocking call (or a zero receive timeout) fails at once, otherwise
   * the caller waits. The child handed out is the oldest one on the accept
   * list, and `sk_ack_backlog` keeps counting the list.
   */
  method Accept(sk: Sock, nonblock: bool, wakes: seq<Wake>) returns (out: AcceptOutcome, ghost used: nat)
    modifies sk.queue`acceptQueue, sk`ackBacklog, sk`state
    ensures old(sk.state) != Listen ==>
      out == Failed(-EINVAL) && used == 0 && unchanged(sk.queue, sk)
    ensures old(sk.state) == Listen && old(sk.queue.acceptQueue) == [] && RcvTimeo(sk.rcvTimeo, nonblock) == 0 ==>
      out == Failed(-EAGAIN) && used == 0 && unchanged(sk.queue, sk)
    ensures old(sk.state) == Listen && old(sk.queue.acceptQueue) != [] ==>
      && used == 0 && out == Accepted(old(sk.queue.acceptQueue)[0])
      && sk.queue.acceptQueue == old(sk.queue.acceptQueue)[1..]
    ensures old(sk.state) == Listen && old(sk.queue.acceptQueue) == [] && RcvTimeo(sk.rcvTimeo, nonblock) != 0 ==>
      var r := Wait(false, true, RcvTimeo(sk.rcvTimeo, nonblock), wakes);
      && used == r.used
      && match r.verdict
         case None => out == Asleep
         case Some(e) => if e == 0 then out.Accepted? else out == Failed(e)
    ensures old(sk.state) == Listen ==>
      var seen := QueueAfter(old(sk.queue.acceptQueue), wakes[..used]);
      && (out.Accepted? ==> seen != [] && out.child == seen[0] && sk.queue.acceptQueue == seen[1..])
      && (!out.Accepted? ==> sk.queue.acceptQueue == seen)
    ensures old(sk.AcceptCounted()) ==> sk.AcceptCounted()
  {
    used := 0;
    if sk.state != Listen {
      return Failed(-EINVAL), 0;
    }
    if sk.queue.acceptQueue == [] {
      var timeo := RcvTimeo(sk.rcvTimeo, nonblock);
      if timeo == 0 {
        return Failed(-EAGAIN), 0;
      }
      var err;
      err, used := WaitForConnect(sk, timeo, wakes);
      match err {
        case None =>
          return Asleep, used;
        case Some(e) =>
          if e != 0 {
            return Failed(e), used;
          }
      }
    }
    var child := sk.queue.acceptQueue[0];
    sk.queue.acceptQueue := sk.queue.acceptQueue[1..];
    sk.ackBacklog := sk.ackBacklog - 1;
    out := Accepted(child);
  }
}
