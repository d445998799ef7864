/** The bounded queue between the event writer and a subscriber's socket
    (internal/daemon/dispatch.go).

    offerNewest alternates a non-blocking send with a non-blocking receive of
    the oldest queued event until the send lands; the stream loop receives
    concurrently. Every label is one channel operation. */
module EventQueue {
  import opened Prelude

  type Tid = nat

  /** An offer in progress: what it will send, and whether its next operation
      is the send or the drop. */
  datatype Offer<E> = Offer(event: E, dropping: bool)

  datatype Queue<E> = Queue(
    buf: seq<E>,
    offers: map<Tid, Offer<E>>,
    sent: seq<E>,              // every event whose send landed, in order
    delivered: seq<E>)         // every event the stream loop received, in order

  datatype Label<E> = Begin(t: Tid, event: E) | Send(t: Tid) | Drop(t: Tid) | Receive

  predicate Enabled<E>(q: Queue<E>, l: Label<E>) {
    match l
    case Begin(t, _) => t !in q.offers
    case Send(t) => t in q.offers && !q.offers[t].dropping
    case Drop(t) => t in q.offers && q.offers[t].dropping
    case Receive => q.buf != []
  }

  function Apply<E>(cap: nat, q: Queue<E>, l: Label<E>): Queue<E>
    requires Enabled(q, l)
  {
    match l
    case Begin(t, event) => q.(offers := q.offers[t := Offer(event, false)])
    case Send(t) =>
      var o := q.offers[t];
      if |q.buf| < cap then
        q.(buf := q.buf + [o.event], sent := q.sent + [o.event], offers := q.offers - {t})
      else
        q.(offers := q.offers[t := o.(dropping := true)])
    case Drop(t) =>
      var q' := q.(offers := q.offers[t := q.offers[t].(dropping := false)]);
      if q.buf == [] then q' else q'.(buf := q.buf[1..])
    case Receive => q.(buf := q.buf[1..], delivered := q.delivered + [q.buf[0]])
  }

  /** The queue after the labels of `tr`, if each was enabled in its turn. */
  ghost function Exec<E>(cap: nat, tr: seq<Label<E>>): Option<Queue<E>> {
    if tr == [] then Some(Queue([], map[], [], []))
    else
      var before := Exec(cap, tr[..|tr| - 1]);
      if before.Some? && Enabled(before.value, tr[|tr| - 1])
      then Some(Apply(cap, before.value, tr[|tr| - 1])) else None
  }

  // -------------------------------------------------------------- invariant

  /** `at` places the delivered events, in order, among the sent ones that have
      left the buffer. */
  ghost predicate Placed<E>(q: Queue<E>, at: seq<nat>) {
    && |at| == |q.delivered| && |q.buf| <= |q.sent|
    && (forall i :: 0 <= i < |at| ==> at[i] < |q.sent| - |q.buf| && q.sent[at[i]] == q.delivered[i])
    && (forall i, j :: 0 <= i < j < |at| ==> at[i] < at[j])
    // the newest event sent is queued, or was delivered, or an offer of a newer one is under way
    && (q.sent != [] ==> q.buf != [] || q.offers != map[] || (at != [] && at[|at| - 1] == |q.sent| - 1))
  }

  /** The buffer is within its capacity and holds the newest events sent,
      without a gap; what was delivered is an in-order subsequence of the rest. */
  ghost predicate Sound<E>(cap: nat, q: Queue<E>) {
    && |q.buf| <= cap && |q.buf| <= |q.sent|
    && q.buf == q.sent[|q.sent| - |q.buf|..]
    && exists at :: Placed(q, at)
  }

  lemma LandingIsSound<E>(cap: nat, q: Queue<E>, t: Tid)
    requires Sound(cap, q) && Enabled(q, Send(t)) && |q.buf| < cap
    ensures Sound(cap, Apply(cap, q, Send(t)))
  {
    var q' := Apply(cap, q, Send(t));
    var at: seq<nat> :| Placed(q, at);
    assert q'.sent[|q'.sent| - |q'.buf|..] == q'.buf;
    assert Placed(q', at);
  }

  lemma ReceivingIsSound<E>(cap: nat, q: Queue<E>)
    requires Sound(cap, q) && q.buf != []
    ensures Sound(cap, Apply(cap, q, Receive))
  {
    var q' := Apply(cap, q, Receive);
    var at: seq<nat> :| Placed(q, at);
    var left := |q.sent| - |q.buf|;
    assert q.buf[0] == q.sent[left];
    assert Placed(q', at + [left]);
  }

  /** The other operations move no event but a dropped one, and leave their
      offer under way. */
  lemma WaitingIsSound<E>(cap: nat, q: Queue<E>, q': Queue<E>, t: Tid)
    requires Sound(cap, q) && q'.sent == q.sent && q'.delivered == q.delivered && t in q'.offers
    requires q'.buf == q.buf || (q.buf != [] && q'.buf == q.buf[1..])
    ensures Sound(cap, q')
  {
    var at: seq<nat> :| Placed(q, at);
    assert Placed(q', at);
  }

  lemma SoundStep<E>(cap: nat, q: Queue<E>, l: Label<E>)
    requires Sound(cap, q) && Enabled(q, l)
    ensures Sound(cap, Apply(cap, q, l))
  {
    if l.Send? && |q.buf| < cap {
      LandingIsSound(cap, q, l.t);
    } else if l.Receive? {
      ReceivingIsSound(cap, q);
    } else {
      WaitingIsSound(cap, q, Apply(cap, q, l), l.t);
    }
  }

  /** In every interleaving of offers with the stream loop. */
  lemma {:induction false} QueueIsSound<E>(cap: nat, tr: seq<Label<E>>)
    requires Exec(cap, tr).Some?
    ensures Sound(cap, Exec(cap, tr).value)
  {
    if tr == [] {
      assert Placed(Exec(cap, tr).value, []);
    } else {
      QueueIsSound(cap, tr[..|tr| - 1]);
      SoundStep(cap, Exec(cap, tr[..|tr| - 1]).value, tr[|tr| - 1]);
    }
  }

  /** Once no offer is under way and the buffer has drained, the last event
      delivered is the last event sent: a run's final event always arrives. */
  lemma LatestIsDelivered<E>(cap: nat, tr: seq<Label<E>>)
    requires Exec(cap, tr).Some?
    requires Exec(cap, tr).value.offers == map[] && Exec(cap, tr).value.buf == []
    requires Exec(cap, tr).value.sent != []
    ensures var q := Exec(cap, tr).value;
            q.delivered != [] && q.delivered[|q.delivered| - 1] == q.sent[|q.sent| - 1]
  {
    QueueIsSound(cap, tr);
    var at: seq<nat> :| Placed(Exec(cap, tr).value, at);
  }

  /** Events that left the buffer without being delivered. */
  function Discarded<E>(q: Queue<E>): int {
    |q.sent| - |q.buf| - |q.delivered|
  }

  /** The offer of `event` by `t` is under way, or landed after the first `n`
      events sent. */
  ghost predicate LandsAfter<E>(q: Queue<E>, t: Tid, event: E, n: nat) {
    || (t in q.offers && q.offers[t].event == event && n <= |q.sent|)
    || (exists k :: n <= k < |q.sent| && q.sent[k] == event)
  }

  lemma ExecFront<E>(cap: nat, front: seq<Label<E>>, l: Label<E>)
    requires Exec(cap, front + [l]).Some?
    ensures Exec(cap, front).Some? && Enabled(Exec(cap, front).value, l)
    ensures Exec(cap, front + [l]).value == Apply(cap, Exec(cap, front).value, l)
  {
    assert (front + [l])[..|front|] == front;
  }

  lemma LandsAfterStep<E>(cap: nat, q: Queue<E>, l: Label<E>, t: Tid, event: E, n: nat)
    requires Enabled(q, l) && LandsAfter(q, t, event, n)
    ensures LandsAfter(Apply(cap, q, l), t, event, n)
  {
    var q' := Apply(cap, q, l);
    if k :| n <= k < |q.sent| && q.sent[k] == event {
      assert q'.sent[k] == event;
    } else if t !in q'.offers {
      assert q'.sent[|q.sent|] == event;
    }
  }

  lemma {:induction false} OfferCarriesOn<E>(
    cap: nat, tr: seq<Label<E>>, more: seq<Label<E>>, t: Tid, event: E, n: nat)
    requires Exec(cap, tr + more).Some? && Exec(cap, tr).Some? && LandsAfter(Exec(cap, tr).value, t, event, n)
    ensures LandsAfter(Exec(cap, tr + more).value, t, event, n)
  {
    if more == [] {
      assert tr + more == tr;
    } else {
      var front, l := more[..|more| - 1], more[|more| - 1];
      assert tr + more == (tr + front) + [l];
      ExecFront(cap, tr + front, l);
      OfferCarriesOn(cap, tr, front, t, event, n);
      LandsAfterStep(cap, Exec(cap, tr + front).value, l, t, event, n);
    }
  }

  /** A step that discards an event is the drop of an offer, the event is the
      oldest one in the buffer, and however the run goes on, the offer's own event
      is under way or has landed later than everything sent so far. */
  lemma OnlyOffersDiscard<E>(cap: nat, tr: seq<Label<E>>, l: Label<E>, more: seq<Label<E>>)
    requires Exec(cap, tr + [l] + more).Some? && Exec(cap, tr + [l]).Some? && Exec(cap, tr).Some?
    requires Discarded(Exec(cap, tr + [l]).value) > Discarded(Exec(cap, tr).value)
    ensures var q, q' := Exec(cap, tr).value, Exec(cap, tr + [l]).value;
            && l.Drop? && l.t in q.offers
            && q.buf != [] && |q.buf| <= |q.sent| && q.buf[0] == q.sent[|q.sent| - |q.buf|]
            && q'.buf == q.buf[1..] && q'.sent == q.sent && q'.delivered == q.delivered
            && LandsAfter(Exec(cap, tr + [l] + more).value, l.t, q.offers[l.t].event, |q.sent|)
  {
    QueueIsSound(cap, tr);
    ExecFront(cap, tr, l);
    OfferCarriesOn(cap, tr + [l], more, l.t, Exec(cap, tr).value.offers[l.t].event, |Exec(cap, tr).value.sent|);
  }

  // --------------------------------------------------------- an offer terminates

  /** The queue after the labels of `ls`, from `q` on. */
  ghost function ExecFrom<E>(cap: nat, q: Queue<E>, ls: seq<Label<E>>): Option<Queue<E>> {
    if ls == [] then Some(q)
    else
      var before := ExecFrom(cap, q, ls[..|ls| - 1]);
      if before.Some? && Enabled(before.value, ls[|ls| - 1])
      then Some(Apply(cap, before.value, ls[|ls| - 1])) else None
  }

  /** The offer of `t` and the stream loop run, nobody else. */
  ghost predicate OfferAndLoop<E>(ls: seq<Label<E>>, t: Tid) {
    forall j :: 0 <= j < |ls| ==> ls[j].Receive? || ls[j] == Send(t) || ls[j] == Drop(t)
  }

  /** The operations of the offer itself. */
  ghost function OwnSteps<E>(ls: seq<Label<E>>): nat {
    if ls == [] then 0 else OwnSteps(ls[..|ls| - 1]) + if ls[|ls| - 1].Receive? then 0 else 1
  }

  /** Where the offer stands after `n` operations of its own. */
  ghost predicate OfferStands<E>(cap: nat, q: Queue<E>, t: Tid, q': Queue<E>, n: nat)
    requires t in q.offers
  {
    && |q'.buf| <= cap && Discarded(q') <= Discarded(q) + 1
    && if t in q'.offers then
         && n <= 2 && q'.sent == q.sent && q'.offers[t] == Offer(q.offers[t].event, n == 1)
         && (n == 2 ==> |q'.buf| < cap) && (n <= 1 ==> Discarded(q') == Discarded(q))
       else
         n <= 3 && q'.sent == q.sent + [q.offers[t].event]
  }

  lemma OfferStep<E>(cap: nat, q: Queue<E>, t: Tid, q': Queue<E>, n: nat, l: Label<E>)
    requires 0 < cap && t in q.offers && OfferStands(cap, q, t, q', n) && Enabled(q', l)
    requires l.Receive? || l == Send(t) || l == Drop(t)
    ensures OfferStands(cap, q, t, Apply(cap, q', l), n + if l.Receive? then 0 else 1)
  {
  }

  /** However many receives come in between, an offer lands within three
      operations of its own, and discards at most one event on the way. */
  lemma {:induction false} OfferLands<E>(cap: nat, q: Queue<E>, t: Tid, ls: seq<Label<E>>)
    requires 0 < cap && |q.buf| <= cap && Enabled(q, Send(t))
    requires OfferAndLoop(ls, t) && ExecFrom(cap, q, ls).Some?
    ensures OfferStands(cap, q, t, ExecFrom(cap, q, ls).value, OwnSteps(ls))
    ensures OwnSteps(ls) >= 3 ==> t !in ExecFrom(cap, q, ls).value.offers
  {
    if ls != [] {
      var front, l := ls[..|ls| - 1], ls[|ls| - 1];
      assert OfferAndLoop(front, t) && (l.Receive? || l == Send(t) || l == Drop(t));
      OfferLands(cap, q, t, front);
      OfferStep(cap, q, t, ExecFrom(cap, q, front).value, OwnSteps(front), l);
    }
  }
}
