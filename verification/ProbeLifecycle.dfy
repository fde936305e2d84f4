/**
 The life of one probe over a run: from the ping that opens it to the first
 acknowledgement or timeout that settles it, once and for all.
 */
module ProbeLifecycle {
  import opened Options
  import opened Registers
  import opened SwimSpec
  import opened SwimRuns
  import opened FailureDetection
  import opened ProbeFairness

  /** The event sends ping number `n` to `x`. */
  ghost predicate Sends(s: State, e: Event, x: Id, n: U64) {
    e.TickAt? && SendPing(x, n) in Step(s, e).actions
  }

  /** Event `i` of the run sends ping number `n` to `x`. */
  ghost predicate SentAt(s: State, es: seq<Event>, i: nat, x: Id, n: U64)
    requires i < |es|
  {
    Sends(At(s, es, i), es[i], x, n)
  }

  /** The sending time of event `e`, as recorded with the probe. */
  function SendTime(e: Event): U64 { if e.now < 0 then 0 else e.now }

  ghost predicate SendsAny(s: State, e: Event) { exists x, n :: Sends(s, e, x, n) }

  /** How many pings the first `k` events send. */
  ghost function PingCount(s: State, es: seq<Event>, k: nat): nat
    requires k <= |es|
  {
    if k == 0 then 0
    else PingCount(s, es, k - 1) + if SendsAny(At(s, es, k - 1), es[k - 1]) then 1 else 0
  }

  /** The event acknowledges `n`, or is a tick by which a probe sent at `sentAt` is overdue. */
  predicate Settles(e: Event, n: U64, sentAt: U64, timeout: U64) {
    || (e.Receive? && e.message == Ack(n))
    || (e.TickAt? && Elapsed(e.now, sentAt) >= timeout)
  }

  // ----- one step -----

  /** A tick drops the overdue probes, and adds the one it sends under the next number. */
  lemma TickPending(s: State, now: I64, ch: Choices, n: U64)
    requires ValidChoices(s, now, ch)
    ensures var e := TickAt(now, ch); var t := Step(s, e).s;
      && (SendsAny(s, e) ==> t.sequence == Wrap(s.sequence))
      && (!SendsAny(s, e) ==> t.sequence == s.sequence)
      && (forall x :: Sends(s, e, x, n) ==>
            n == Wrap(s.sequence) && n in t.pending && t.pending[n] == Pending(x, SendTime(TickAt(now, ch))))
      && ((forall x :: !Sends(s, e, x, n)) ==>
            && (n in t.pending <==> n in s.pending && !Overdue(s, now, n))
            && (n in t.pending ==> t.pending[n] == s.pending[n]))
  {
    var c := TickSends(s, now, ch);
    TickFrame(s, now, ch);
    TimedOutIsOverdue(s, now);
    if c.Some? { assert Sends(s, TickAt(now, ch), c.value, Wrap(s.sequence)); }
  }

  /** A tick sends at most one ping, to the candidate of its probe round, under the next number. */
  lemma TickSends(s: State, now: I64, ch: Choices) returns (c: Option<Id>)
    requires ValidChoices(s, now, ch)
    ensures c == BestProbe(Judged(s, now, ch).s, now, ch.active).candidate
    ensures forall x, m :: Sends(s, TickAt(now, ch), x, m) <==> c == Some(x) && m == Wrap(s.sequence)
  {
    c := BestProbe(Judged(s, now, ch).s, now, ch.active).candidate;
    TickFrame(s, now, ch);
    forall x, m ensures Sends(s, TickAt(now, ch), x, m) <==> c == Some(x) && m == Wrap(s.sequence) {
      NoEarlyPing(s, now, ch, SendPing(x, m));
    }
  }

  lemma StepPending(s: State, e: Event, n: U64)
    requires Enabled(s, e)
    ensures var t := Step(s, e).s;
      && (SendsAny(s, e) ==> t.sequence == Wrap(s.sequence))
      && (!SendsAny(s, e) ==> t.sequence == s.sequence)
      && (forall x :: Sends(s, e, x, n) ==>
            n == Wrap(s.sequence) && n in t.pending && t.pending[n] == Pending(x, SendTime(e)))
      && ((forall x :: !Sends(s, e, x, n)) ==>
            && (n in t.pending <==> n in s.pending && !Settles(e, n, s.pending[n].sentAt, s.config.pingTimeout))
            && (n in t.pending ==> t.pending[n] == s.pending[n]))
  {
    match e
    case TickAt(now, ch) => TickPending(s, now, ch, n);
    case Receive(from, message, now) => MessageFrame(s, from, message, now);
    case LeaveLocal(now) =>
    case Annotate(annotations, now) =>
  }

  // ----- numbers are not reused -----

  /** Fewer pings than there are numbers left. */
  ghost predicate NoWrap(s: State, es: seq<Event>) {
    s.sequence + PingCount(s, es, |es|) <= U64_MAX
  }

  lemma {:induction false} CountGrows(s: State, es: seq<Event>, i: nat, k: nat)
    requires i <= k <= |es|
    ensures PingCount(s, es, i) <= PingCount(s, es, k)
    decreases k
  {
    if i < k { CountGrows(s, es, i, k - 1); }
  }

  lemma {:induction false} SequenceCounts(s: State, es: seq<Event>, k: nat)
    requires IsRun(s, es) && NoWrap(s, es) && k <= |es|
    ensures At(s, es, k).sequence == s.sequence + PingCount(s, es, k)
  {
    CountGrows(s, es, k, |es|);
    if k > 0 {
      SequenceCounts(s, es, k - 1);
      CountGrows(s, es, k - 1, k);
      AtNext(s, es, k - 1);
      StepPending(At(s, es, k - 1), es[k - 1], 0);
    }
  }

  /** A number sent at `i` is the count so far plus one, so no other event sends it. */
  lemma NumberSent(s: State, es: seq<Event>, i: nat, x: Id, n: U64)
    requires IsRun(s, es) && NoWrap(s, es) && i < |es| && SentAt(s, es, i, x, n)
    ensures n == s.sequence + PingCount(s, es, i) + 1 == s.sequence + PingCount(s, es, i + 1)
  {
    SequenceCounts(s, es, i);
    CountGrows(s, es, i + 1, |es|);
    assert SendsAny(At(s, es, i), es[i]);
    StepPending(At(s, es, i), es[i], n);
  }

  lemma SentOnce(s: State, es: seq<Event>, i: nat, j: nat, x: Id, y: Id, n: U64)
    requires IsRun(s, es) && NoWrap(s, es) && i < j < |es|
    requires SentAt(s, es, i, x, n)
    ensures !SentAt(s, es, j, y, n)
  {
    NumberSent(s, es, i, x, n);
    CountGrows(s, es, i + 1, j);
    if SentAt(s, es, j, y, n) { NumberSent(s, es, j, y, n); }
  }

  // ----- the life of a probe -----

  /** The probe sent at `i` is settled by none of the events after it and before `k`. */
  ghost predicate Unsettled(s: State, es: seq<Event>, i: nat, k: nat, n: U64)
    requires i < k <= |es|
  {
    forall j :: i < j < k ==> !Settles(es[j], n, SendTime(es[i]), s.config.pingTimeout)
  }

  lemma ProbeOpens(s: State, es: seq<Event>, i: nat, x: Id, n: U64)
    requires IsRun(s, es) && i < |es| && SentAt(s, es, i, x, n)
    ensures n in At(s, es, i + 1).pending && At(s, es, i + 1).pending[n] == Pending(x, SendTime(es[i]))
  {
    AtNext(s, es, i);
    StepPending(At(s, es, i), es[i], n);
  }

  /** Event `k` leaves the probe as it is or settles it. */
  ghost predicate StaysAt(s: State, es: seq<Event>, k: nat, n: U64)
    requires k < |es|
  {
    var p, q := At(s, es, k).pending, At(s, es, k + 1).pending;
    && (n in q <==> n in p && !Settles(es[k], n, p[n].sentAt, s.config.pingTimeout))
    && (n in q ==> q[n] == p[n])
  }

  lemma ProbeStays(s: State, es: seq<Event>, i: nat, k: nat, x: Id, n: U64)
    requires IsRun(s, es) && NoWrap(s, es) && i < k < |es| && SentAt(s, es, i, x, n)
    ensures StaysAt(s, es, k, n)
  {
    AtNext(s, es, k);
    ConfigFixed(s, es, k);
    forall y ensures !Sends(At(s, es, k), es[k], y, n) {
      SentOnce(s, es, i, k, x, y, n);
      assert !SentAt(s, es, k, y, n);
    }
    StepPending(At(s, es, k), es[k], n);
  }

  /** Once opened, the probe stays or is settled at every later event. */
  ghost predicate Opened(s: State, es: seq<Event>, i: nat, p: Pending, n: U64)
    requires i < |es|
  {
    && n in At(s, es, i + 1).pending && At(s, es, i + 1).pending[n] == p
    && forall k :: i < k < |es| ==> StaysAt(s, es, k, n)
  }

  lemma SentIsOpened(s: State, es: seq<Event>, i: nat, x: Id, n: U64)
    requires IsRun(s, es) && NoWrap(s, es) && i < |es| && SentAt(s, es, i, x, n)
    ensures Opened(s, es, i, Pending(x, SendTime(es[i])), n)
  {
    ProbeOpens(s, es, i, x, n);
    forall k | i < k < |es| ensures StaysAt(s, es, k, n) { ProbeStays(s, es, i, k, x, n); }
  }

  lemma {:induction false} OpenedLife(s: State, es: seq<Event>, i: nat, k: nat, p: Pending, n: U64)
    requires i < k <= |es| && Opened(s, es, i, p, n) && p.sentAt == SendTime(es[i])
    ensures n in At(s, es, k).pending <==> Unsettled(s, es, i, k, n)
    ensures n in At(s, es, k).pending ==> At(s, es, k).pending[n] == p
    decreases k
  {
    if i < k - 1 {
      OpenedLife(s, es, i, k - 1, p, n);
      assert StaysAt(s, es, k - 1, n);
    }
  }

  /**
   Over every run with fewer than 2^64 pings: the probe opened by a ping is
   outstanding, for the peer pinged and since the time of the ping, exactly
   until the first event that acknowledges its number or is a tick at least
   `ping_timeout_ms` later, and never again.
   */
  lemma ProbeLife(s: State, es: seq<Event>, i: nat, k: nat, x: Id, n: U64)
    requires IsRun(s, es) && NoWrap(s, es) && i < k <= |es| && SentAt(s, es, i, x, n)
    ensures n in At(s, es, k).pending <==> Unsettled(s, es, i, k, n)
    ensures n in At(s, es, k).pending ==> At(s, es, k).pending[n] == Pending(x, SendTime(es[i]))
  {
    SentIsOpened(s, es, i, x, n);
    OpenedLife(s, es, i, k, Pending(x, SendTime(es[i])), n);
  }

  /** Event `j` takes the probe out of the table. */
  predicate Resolves(s: State, es: seq<Event>, j: nat, n: U64)
    requires j < |es|
  {
    n in At(s, es, j).pending && n !in At(s, es, j + 1).pending
  }

  /** Each probe is resolved at most once: by its first acknowledgement or timeout, whichever comes first. */
  lemma ResolvedExactly(s: State, es: seq<Event>, i: nat, j: nat, x: Id, n: U64)
    requires IsRun(s, es) && NoWrap(s, es) && i < j < |es| && SentAt(s, es, i, x, n)
    ensures Resolves(s, es, j, n) <==>
              Unsettled(s, es, i, j, n) && Settles(es[j], n, SendTime(es[i]), s.config.pingTimeout)
    ensures Resolves(s, es, j, n) ==> forall k :: j < k < |es| ==> !Resolves(s, es, k, n)
  {
    SentIsOpened(s, es, i, x, n);
    ProbeLife(s, es, i, j, x, n);
    assert StaysAt(s, es, j, n);
    if Resolves(s, es, j, n) {
      forall k | j < k < |es| ensures !Resolves(s, es, k, n) {
        StaysGone(s, es, i, j + 1, k, Pending(x, SendTime(es[i])), n);
      }
    }
  }

  lemma {:induction false} StaysGone(s: State, es: seq<Event>, i: nat, j: nat, k: nat, p: Pending, n: U64)
    requires i < j <= k <= |es| && Opened(s, es, i, p, n) && n !in At(s, es, j).pending
    ensures n !in At(s, es, k).pending
    decreases k
  {
    if j < k {
      StaysGone(s, es, i, j, k - 1, p, n);
      assert StaysAt(s, es, k - 1, n);
    }
  }

  /** Whatever is outstanding was sent before. */
  lemma {:induction false} PendingWasSent(s: State, es: seq<Event>, k: nat, n: U64)
    requires s.pending == map[] && IsRun(s, es) && k <= |es| && n in At(s, es, k).pending
    ensures exists i :: 0 <= i < k && SentAt(s, es, i, At(s, es, k).pending[n].target, n)
  {
    if k > 0 {
      var j := k - 1;
      AtNext(s, es, j);
      StepPending(At(s, es, j), es[j], n);
      if x :| SentAt(s, es, j, x, n) {
        assert At(s, es, k).pending[n].target == x;
      } else {
        assert forall x :: Sends(At(s, es, j), es[j], x, n) ==> SentAt(s, es, j, x, n);
        PendingWasSent(s, es, j, n);
      }
    }
  }

  /** Every ping to `x` is acknowledged before the first tick that would find it overdue. */
  ghost predicate AckedInTime(s: State, es: seq<Event>, x: Id) {
    forall i, j, n :: 0 <= i < j < |es| && SentAt(s, es, i, x, n)
      && es[j].TickAt? && Elapsed(es[j].now, SendTime(es[i])) >= s.config.pingTimeout
      ==> Acked(es, i, j, n)
  }

  ghost predicate Acked(es: seq<Event>, i: nat, j: nat, n: U64)
    requires j <= |es|
  {
    exists l :: i < l < j && es[l].Receive? && es[l].message == Ack(n)
  }

  lemma AckSettles(s: State, es: seq<Event>, i: nat, k: nat, n: U64)
    requires i < k <= |es|
    ensures Acked(es, i, k, n) ==> !Unsettled(s, es, i, k, n)
  {
    if l :| i < l < k && es[l].Receive? && es[l].message == Ack(n) {
      assert Settles(es[l], n, SendTime(es[i]), s.config.pingTimeout);
    }
  }

  /** A peer that answers every ping in time is never suspected by probing. */
  lemma AnsweringPeersAreSafe(s: State, es: seq<Event>, x: Id, k: nat)
    requires s.pending == map[] && ProbesOk(s) && IsRun(s, es) && NoWrap(s, es) && AckedInTime(s, es, x) && k < |es|
    ensures !Emits(Step(At(s, es, k), es[k]).actions, x)
    ensures ResolvedBy(At(s, es, k), es[k], x) != [Missed]
  {
    RunProbes(s, es, k);
    StepCount(At(s, es, k), es[k], x);
    if ResolvedBy(At(s, es, k), es[k], x) == [Missed] {
      var n :| Overdue(At(s, es, k), es[k].now, n) && At(s, es, k).pending[n].target == x;
      PendingWasSent(s, es, k, n);
      var i :| 0 <= i < k && SentAt(s, es, i, x, n);
      ProbeLife(s, es, i, k, x, n);
      ConfigFixed(s, es, k);
      AckSettles(s, es, i, k, n);
    }
  }

  // ----- there and back -----

  /**
   End to end: the peer pinged answers with the number it was sent, to the
   sender, at no cost to itself; and when that answer arrives the probe is gone
   and the peer's failures are forgotten.
   */
  lemma PingIsAnswered(s: State, now: I64, ch: Choices, peer: State, n: U64, arrival: I64, later: State, back: I64)
    requires ValidChoices(s, now, ch) && SendPing(peer.local, n) in Tick(s, now, ch).actions
    requires n in later.pending ==> later.pending[n].target == peer.local
    ensures var t := Tick(s, now, ch).s; n in t.pending && t.pending[n].target == peer.local
    ensures var answer := OnMessage(peer, s.local, Ping(n), arrival);
      answer.s == peer && answer.actions == [SendAck(s.local, n)]
    ensures var t := OnMessage(later, peer.local, Ack(n), back).s;
      && n !in t.pending && (forall m :: m != n ==> (m in t.pending <==> m in later.pending))
      && (n in later.pending ==> Count(t, peer.local) == 0)
      && t.view == later.view
  {
    assert Sends(s, TickAt(now, ch), peer.local, n);
    TickPending(s, now, ch, n);
  }
}
