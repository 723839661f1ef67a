/** Telemetry delivery: producers fill a bounded queue, one worker sends its payloads with retries. */
module Telemetry {
  import opened Text

  const MAX_RETRIES: nat := 3
  const BASE_BACKOFF_MS: nat := 100
  const MAX_BACKOFF_MS: nat := 2_000

  /** The response status, or None for a network error. */
  type Reply = Option<nat>

  predicate IsRetryableStatus(status: nat) {
    status == 408 || status == 429 || 500 <= status < 600
  }

  predicate Accepts(r: Reply) {
    r.Some? && 200 <= r.value < 300
  }

  predicate Transient(r: Reply) {
    r.None? || IsRetryableStatus(r.value)
  }

  /** Success is 2xx; 5xx, request timeout, too many requests and network errors are tried again; the rest ends it. */
  lemma StatusClasses(status: nat)
    ensures Accepts(Some(status)) <==> status / 100 == 2
    ensures Transient(Some(status)) <==> status / 100 == 5 || status == 408 || status == 429
    ensures Transient(None) && !Accepts(None)
  {
  }

  datatype Flight<T> = Flight(payload: T, attempt: nat)

  datatype State<T> = State(
    capacity: nat, open: bool, queue: seq<T>, flight: Option<Flight<T>>,
    sent: nat, failed: nat, dropped: nat, retried: nat)

  /** A producer offers a payload; the worker takes one, hears a reply, or is gone. */
  datatype Event<T> = Offer(payload: T) | Receive | Attempt(reply: Reply) | Stop

  function Step<T>(s: State<T>, e: Event<T>): State<T> {
    match e
    case Offer(p) =>
      if s.open && |s.queue| < s.capacity then s.(queue := s.queue + [p]) else s.(dropped := s.dropped + 1)
    case Receive =>
      if s.flight.None? && s.queue != [] then s.(flight := Some(Flight(s.queue[0], 0)), queue := s.queue[1..]) else s
    case Attempt(reply) =>
      if s.flight.None? then s
      else if Accepts(reply) then s.(sent := s.sent + 1, flight := None)
      else if Transient(reply) && s.flight.value.attempt < MAX_RETRIES then
        s.(retried := s.retried + 1, flight := Some(s.flight.value.(attempt := s.flight.value.attempt + 1)))
      else s.(failed := s.failed + 1, flight := None)
    case Stop => s.(open := false, queue := [], flight := None)
  }

  // What happened, kept beside the state

  datatype Delivery<T> = Delivery(payload: T, replies: seq<Reply>)

  datatype Log<T> = Log(
    offered: seq<T>, accepted: seq<T>, resolved: seq<Delivery<T>>, pending: seq<Reply>, lost: seq<T>)

  function InFlight<T>(s: State<T>): seq<T> {
    if s.flight.Some? then [s.flight.value.payload] else []
  }

  function Logged<T>(l: Log<T>, s: State<T>, e: Event<T>): Log<T> {
    match e
    case Offer(p) =>
      l.(offered := l.offered + [p],
         accepted := if |Step(s, e).queue| == |s.queue| then l.accepted else l.accepted + [p])
    case Receive => l
    case Attempt(reply) =>
      if s.flight.None? then l
      else if Step(s, e).flight.Some? then l.(pending := l.pending + [reply])
      else l.(resolved := l.resolved + [Delivery(s.flight.value.payload, l.pending + [reply])], pending := [])
    case Stop => l.(lost := l.lost + InFlight(s) + s.queue)
  }

  datatype System<T> = System(now: State<T>, log: Log<T>)

  function Initial<T>(capacity: nat): System<T> {
    System(State(capacity, true, [], None, 0, 0, 0, 0), Log([], [], [], [], []))
  }

  function Advance<T>(y: System<T>, e: Event<T>): System<T> {
    System(Step(y.now, e), Logged(y.log, y.now, e))
  }

  function Run<T>(capacity: nat, es: seq<Event<T>>): System<T> {
    if es == [] then Initial(capacity) else Advance(Run(capacity, es[..|es| - 1]), es[|es| - 1])
  }

  // Deliveries

  predicate AllTransient(replies: seq<Reply>) {
    forall i :: 0 <= i < |replies| ==> Transient(replies[i])
  }

  /** Replies that end a delivery: retries as long as they are transient and fewer than four, and no longer. */
  predicate Ends(replies: seq<Reply>) {
    && 1 <= |replies| <= 4
    && AllTransient(replies[..|replies| - 1])
    && (Transient(replies[|replies| - 1]) ==> |replies| == 4)
  }

  predicate WasSent(replies: seq<Reply>) {
    replies != [] && Accepts(replies[|replies| - 1])
  }

  function Payloads<T>(ds: seq<Delivery<T>>): seq<T> {
    if ds == [] then [] else Payloads(ds[..|ds| - 1]) + [ds[|ds| - 1].payload]
  }

  function SentPayloads<T>(ds: seq<Delivery<T>>): seq<T> {
    if ds == [] then []
    else
      var d := ds[|ds| - 1];
      if WasSent(d.replies) then SentPayloads(ds[..|ds| - 1]) + [d.payload] else SentPayloads(ds[..|ds| - 1])
  }

  function Retries<T>(ds: seq<Delivery<T>>): int {
    if ds == [] then 0 else Retries(ds[..|ds| - 1]) + |ds[|ds| - 1].replies| - 1
  }

  predicate AllEnded<T>(ds: seq<Delivery<T>>) {
    forall i :: 0 <= i < |ds| ==> Ends(ds[i].replies)
  }

  lemma OneMoreDelivery<T>(ds: seq<Delivery<T>>, d: Delivery<T>)
    ensures Payloads(ds + [d]) == Payloads(ds) + [d.payload]
    ensures SentPayloads(ds + [d]) == if WasSent(d.replies) then SentPayloads(ds) + [d.payload] else SentPayloads(ds)
    ensures Retries(ds + [d]) == Retries(ds) + |d.replies| - 1
  {
    assert (ds + [d])[..|ds|] == ds;
  }

  // The invariant

  ghost predicate Counted<T>(y: System<T>) {
    && |y.log.offered| == y.now.dropped + |y.log.accepted|
    && y.now.sent == |SentPayloads(y.log.resolved)|
    && y.now.sent + y.now.failed == |y.log.resolved|
    && y.now.retried == Retries(y.log.resolved) + |y.log.pending|
    && |y.now.queue| <= y.now.capacity
  }

  /** Every accepted payload, in the order of acceptance: resolved, in flight, queued. */
  ghost predicate InOrder<T>(y: System<T>) {
    y.log.accepted == Payloads(y.log.resolved) + InFlight(y.now) + y.now.queue + y.log.lost
  }

  ghost predicate Delivering<T>(y: System<T>) {
    && AllEnded(y.log.resolved)
    && AllTransient(y.log.pending)
    && |y.log.pending| <= MAX_RETRIES
    && (y.now.flight.Some? ==> y.now.flight.value.attempt == |y.log.pending|)
    && (y.now.open && y.now.flight.None? ==> y.log.pending == [])
    && (if y.now.open then y.log.lost == [] else y.now.queue == [] && y.now.flight.None?)
  }

  ghost predicate Invariant<T>(y: System<T>) {
    Counted(y) && InOrder(y) && Delivering(y)
  }

  lemma OfferKeeps<T>(y: System<T>, p: T)
    requires Invariant(y)
    ensures Invariant(Advance(y, Offer(p)))
  {
    var z := Advance(y, Offer(p));
    assert y.now.open && |y.now.queue| < y.now.capacity ==> z.now.queue != y.now.queue by {
      assert |y.now.queue + [p]| != |y.now.queue|;
    }
    assert z.now.queue != y.now.queue ==> InOrder(z);
  }

  lemma ReceiveKeeps<T>(y: System<T>)
    requires Invariant(y)
    ensures Invariant(Advance(y, Receive))
  {
    var z := Advance(y, Receive);
    if y.now.flight.None? && y.now.queue != [] {
      assert y.now.queue == InFlight(z.now) + z.now.queue;
    }
  }

  lemma AttemptKeeps<T>(y: System<T>, reply: Reply)
    requires Invariant(y)
    ensures Invariant(Advance(y, Attempt(reply)))
  {
    if y.now.flight.Some? {
      LastReply(y.log.pending, reply);
      if Transient(reply) && y.now.flight.value.attempt < MAX_RETRIES {
        RetryKeeps(y, reply);
      } else {
        ResolveKeeps(y, reply);
      }
    }
  }

  lemma RetryKeeps<T>(y: System<T>, reply: Reply)
    requires Invariant(y) && y.now.flight.Some? && y.now.flight.value.attempt < MAX_RETRIES
    requires Transient(reply) && AllTransient(y.log.pending + [reply])
    ensures Invariant(Advance(y, Attempt(reply)))
  {
    var z := Advance(y, Attempt(reply));
    assert InFlight(z.now) == InFlight(y.now);
  }

  /** The system after the reply that resolves the payload in flight, as an update of its parts. */
  lemma Resolves<T>(y: System<T>, reply: Reply) returns (d: Delivery<T>)
    requires y.now.flight.Some? && !(Transient(reply) && y.now.flight.value.attempt < MAX_RETRIES)
    ensures d == Delivery(y.now.flight.value.payload, y.log.pending + [reply])
    ensures Advance(y, Attempt(reply)) == System(
        y.now.(flight := None, sent := y.now.sent + (if Accepts(reply) then 1 else 0),
               failed := y.now.failed + if Accepts(reply) then 0 else 1),
        y.log.(resolved := y.log.resolved + [d], pending := []))
    ensures Payloads(y.log.resolved + [d]) == Payloads(y.log.resolved) + InFlight(y.now)
  {
    d := Delivery(y.now.flight.value.payload, y.log.pending + [reply]);
    OneMoreDelivery(y.log.resolved, d);
  }

  lemma ResolveKeeps<T>(y: System<T>, reply: Reply)
    requires Invariant(y) && y.now.flight.Some?
    requires !(Transient(reply) && y.now.flight.value.attempt < MAX_RETRIES)
    requires Ends(y.log.pending + [reply]) && (WasSent(y.log.pending + [reply]) <==> Accepts(reply))
    ensures Invariant(Advance(y, Attempt(reply)))
  {
    var d := Resolves(y, reply);
    var z := Advance(y, Attempt(reply));
    assert Counted(z) by {
      OneMoreDelivery(y.log.resolved, d);
    }
    assert InOrder(z);
    assert Delivering(z);
  }

  lemma StopKeeps<T>(y: System<T>)
    requires Invariant(y)
    ensures Invariant(Advance(y, Stop))
  {
    var z := Advance(y, Stop);
    if y.now.open {
      assert z.log.lost == InFlight(y.now) + y.now.queue;
    } else {
      assert z.log.lost == y.log.lost;
    }
  }

  lemma {:induction false} InvariantHolds<T>(capacity: nat, es: seq<Event<T>>)
    ensures Invariant(Run(capacity, es)) && Run(capacity, es).now.capacity == capacity
  {
    if es == [] {
    } else {
      var before := Run(capacity, es[..|es| - 1]);
      InvariantHolds(capacity, es[..|es| - 1]);
      match es[|es| - 1]
      case Offer(p) => OfferKeeps(before, p);
      case Receive => ReceiveKeeps(before);
      case Attempt(reply) => AttemptKeeps(before, reply);
      case Stop => StopKeeps(before);
    }
  }

  // Conservation

  lemma {:induction false} CountsOfDeliveries<T>(ds: seq<Delivery<T>>)
    requires AllEnded(ds)
    ensures |Payloads(ds)| == |ds| && 0 <= Retries(ds) <= MAX_RETRIES * |ds|
  {
    if ds == [] {
    } else {
      assert Ends(ds[|ds| - 1].replies);
      CountsOfDeliveries(ds[..|ds| - 1]);
    }
  }

  function Offers<T>(es: seq<Event<T>>): seq<T> {
    if es == [] then []
    else if es[|es| - 1].Offer? then Offers(es[..|es| - 1]) + [es[|es| - 1].payload]
    else Offers(es[..|es| - 1])
  }

  lemma {:induction false} OfferedAreLogged<T>(capacity: nat, es: seq<Event<T>>)
    ensures Run(capacity, es).log.offered == Offers(es)
  {
    if es == [] {
    } else {
      OfferedAreLogged(capacity, es[..|es| - 1]);
    }
  }

  /** No event is lost track of, and no payload is retried more than three times. */
  lemma Conservation<T>(capacity: nat, es: seq<Event<T>>)
    ensures var y := Run(capacity, es);
      var s, inFlight := y.now, |InFlight(y.now)|;
      && |Offers(es)| == s.dropped + |s.queue| + inFlight + s.sent + s.failed + |y.log.lost|
      && |s.queue| <= capacity
      && (s.open ==> y.log.lost == [] && s.retried <= 3 * (s.sent + s.failed) + 3 * inFlight)
      && s.retried <= 3 * (s.sent + s.failed + 1)
  {
    InvariantHolds(capacity, es);
    OfferedAreLogged(capacity, es);
    CountsOfDeliveries(Run(capacity, es).log.resolved);
  }

  // Order

  predicate Subsequence<T(==)>(a: seq<T>, b: seq<T>) {
    a == [] || (b != [] && (Subsequence(a, b[..|b| - 1])
      || (a[|a| - 1] == b[|b| - 1] && Subsequence(a[..|a| - 1], b[..|b| - 1]))))
  }

  lemma SubsequenceAppend<T>(a: seq<T>, b: seq<T>, x: T)
    requires Subsequence(a, b)
    ensures Subsequence(a, b + [x]) && Subsequence(a + [x], b + [x])
  {
    assert (b + [x])[..|b|] == b && (a + [x])[..|a|] == a;
  }

  lemma {:induction false} SubsequenceConcat<T>(a: seq<T>, b: seq<T>, c: seq<T>)
    requires Subsequence(a, b)
    ensures Subsequence(a, b + c)
  {
    if c == [] {
      assert b + c == b;
    } else {
      SubsequenceConcat(a, b, c[..|c| - 1]);
      SubsequenceAppend(a, b + c[..|c| - 1], c[|c| - 1]);
      assert b + c == b + c[..|c| - 1] + [c[|c| - 1]];
    }
  }

  lemma {:induction false} SentAmongResolved<T>(ds: seq<Delivery<T>>)
    ensures Subsequence(SentPayloads(ds), Payloads(ds))
  {
    if ds == [] {
    } else {
      var before := ds[..|ds| - 1];
      SentAmongResolved(before);
      SubsequenceAppend(SentPayloads(before), Payloads(before), ds[|ds| - 1].payload);
    }
  }

  lemma {:induction false} AcceptedAmongOffered<T>(capacity: nat, es: seq<Event<T>>)
    ensures Subsequence(Run(capacity, es).log.accepted, Offers(es))
  {
    if es == [] {
    } else {
      var before, e := es[..|es| - 1], es[|es| - 1];
      AcceptedAmongOffered(capacity, before);
      if e.Offer? {
        SubsequenceAppend(Run(capacity, before).log.accepted, Offers(before), e.payload);
      }
    }
  }

  lemma SentAmongAccepted<T>(y: System<T>)
    requires InOrder(y)
    ensures Payloads(y.log.resolved) <= y.log.accepted
    ensures Subsequence(SentPayloads(y.log.resolved), y.log.accepted)
  {
    var rest := InFlight(y.now) + y.now.queue + y.log.lost;
    assert y.log.accepted == Payloads(y.log.resolved) + rest;
    SentAmongResolved(y.log.resolved);
    SubsequenceConcat(SentPayloads(y.log.resolved), Payloads(y.log.resolved), rest);
  }

  /** Payloads are resolved in the order they were accepted, each after its own replies ended it. */
  lemma FirstInFirstOut<T>(capacity: nat, es: seq<Event<T>>)
    ensures var y := Run(capacity, es);
      && Payloads(y.log.resolved) <= y.log.accepted
      && Subsequence(SentPayloads(y.log.resolved), y.log.accepted)
      && Subsequence(y.log.accepted, Offers(es))
      && |SentPayloads(y.log.resolved)| == y.now.sent
      && AllEnded(y.log.resolved)
  {
    InvariantHolds(capacity, es);
    AcceptedAmongOffered(capacity, es);
    SentAmongAccepted(Run(capacity, es));
  }

  lemma QueueWithinOffers<T>(capacity: nat, es: seq<Event<T>>)
    ensures |Run(capacity, es).now.queue| <= |Offers(es)| && Run(capacity, es).now.capacity == capacity
  {
    Conservation(capacity, es);
    InvariantHolds(capacity, es);
  }

  lemma OfferWithRoom<T>(y: System<T>, p: T)
    requires y.now.open && |y.now.queue| < y.now.capacity
    ensures var z := Advance(y, Offer(p));
      z.now.open && z.now.dropped == y.now.dropped && z.log.accepted == y.log.accepted + [p]
  {
  }

  lemma NoOffer<T>(y: System<T>, e: Event<T>)
    requires y.now.open && (e.Receive? || e.Attempt?)
    ensures var z := Advance(y, e);
      z.now.open && z.now.dropped == y.now.dropped && z.log.accepted == y.log.accepted
  {
  }

  /** As long as no more payloads were offered than the queue can hold, none is dropped. */
  lemma {:induction false} NoDropsWithinCapacity<T>(capacity: nat, es: seq<Event<T>>)
    requires Stop !in es && |Offers(es)| <= capacity
    ensures Run(capacity, es).now.open && Run(capacity, es).now.dropped == 0
    ensures Run(capacity, es).log.accepted == Offers(es)
  {
    if es == [] {
    } else {
      var before, e := es[..|es| - 1], es[|es| - 1];
      assert e in es && forall x :: x in before ==> x in es;
      NoDropsWithinCapacity(capacity, before);
      QueueWithinOffers(capacity, before);
      if e.Offer? {
        OfferWithRoom(Run(capacity, before), e.payload);
      } else {
        NoOffer(Run(capacity, before), e);
      }
    }
  }

  // Progress

  predicate Idle<T>(s: State<T>) {
    s.queue == [] && s.flight.None?
  }

  /** What the worker does next, given the reply it will hear. */
  function WorkerStep<T>(s: State<T>, reply: Reply): State<T> {
    if s.flight.Some? then Step(s, Attempt(reply)) else Step(s, Receive)
  }

  function WorkerRun<T>(s: State<T>, replies: seq<Reply>): State<T>
    decreases |replies|
  {
    if replies == [] then s else WorkerRun(WorkerStep(s, replies[0]), replies[1..])
  }

  function Work<T>(s: State<T>): int {
    (MAX_RETRIES + 2) * |s.queue| + if s.flight.Some? then MAX_RETRIES + 1 - s.flight.value.attempt else 0
  }

  /** Left alone, the worker empties the queue within five steps a payload, whatever it hears. */
  lemma {:induction false} WorkerDrains<T>(s: State<T>, replies: seq<Reply>)
    requires s.flight.Some? ==> s.flight.value.attempt <= MAX_RETRIES
    requires |replies| >= Work(s)
    ensures Idle(WorkerRun(s, replies))
    ensures WorkerRun(s, replies).sent + WorkerRun(s, replies).failed == s.sent + s.failed + |s.queue| + |InFlight(s)|
    decreases |replies|
  {
    if replies == [] {
    } else {
      WorkerDrains(WorkerStep(s, replies[0]), replies[1..]);
    }
  }

  // The retry loop

  function Power(n: nat): nat {
    if n == 0 then 1 else 2 * Power(n - 1)
  }

  function BackoffMs(attempt: nat): nat
    requires attempt > 0
  {
    var capped := BASE_BACKOFF_MS * Power(attempt - 1);
    (if capped < MAX_BACKOFF_MS then capped else MAX_BACKOFF_MS) + attempt * 37 % 50
  }

  /** The replies up to the one that ends the delivery. */
  ghost predicate Heard(replies: seq<Reply>, all: nat -> Reply) {
    Ends(replies) && forall i :: 0 <= i < |replies| ==> replies[i] == all(i)
  }

  /** A delivery hears one sequence of replies, so its fate is determined. */
  lemma HeardIsUnique(a: seq<Reply>, b: seq<Reply>, all: nat -> Reply)
    requires Heard(a, all) && Heard(b, all)
    ensures a == b
  {
    HeardNoLonger(a, b, all);
    HeardNoLonger(b, a, all);
  }

  lemma HeardNoLonger(a: seq<Reply>, b: seq<Reply>, all: nat -> Reply)
    requires Heard(a, all) && Heard(b, all)
    ensures |b| <= |a|
  {
    if |a| < |b| {
      assert false;
    }
  }

  /** A first reply outside 2xx and the retryable ones ends the delivery; server errors use up all four attempts. */
  lemma RefusalEndsAtOnce(replies: seq<Reply>, all: nat -> Reply, status: nat)
    requires Heard(replies, all)
    ensures all(0) == Some(status) && status / 100 != 5 && status != 408 && status != 429 ==> replies == [Some(status)]
    ensures all(0) == Some(status) && status / 100 == 2 ==> WasSent(replies)
    ensures all(0) == Some(status) && status / 100 == 4 && status != 408 && status != 429 ==> !WasSent(replies)
    ensures (forall i :: all(i).None? || all(i).value / 100 == 5) ==> |replies| == 4 && !WasSent(replies)
  {
    StatusClasses(status);
    if |replies| > 1 {
      assert replies[..|replies| - 1][0] == replies[0];
    }
    var last := replies[|replies| - 1];
    if last.Some? {
      StatusClasses(last.value);
    }
  }

  lemma LastReply(before: seq<Reply>, reply: Reply)
    requires AllTransient(before) && |before| <= MAX_RETRIES
    ensures (Transient(reply) ==> |before| == MAX_RETRIES) ==> Ends(before + [reply])
    ensures Transient(reply) ==> AllTransient(before + [reply])
    ensures WasSent(before + [reply]) <==> Accepts(reply)
  {
    assert (before + [reply])[..|before|] == before;
  }

  /** Sends one payload; `all(i)` is the reply to its attempt number `i`. */
  method DeliverWithRetries(all: nat -> Reply) returns (sent: bool, retried: nat, sleptMs: nat, ghost replies: seq<Reply>)
    ensures Heard(replies, all)
    ensures sent <==> WasSent(replies)
    ensures retried == |replies| - 1
    ensures sleptMs == TotalBackoffMs(retried)
  {
    var attempt := 0;
    replies, retried, sleptMs := [], 0, 0;
    while true
      invariant attempt <= MAX_RETRIES && retried == attempt
      invariant OnlyTransient(replies, all, attempt)
      invariant sleptMs == TotalBackoffMs(attempt)
      decreases MAX_RETRIES - attempt
    {
      var reply := all(attempt);
      HearOneMore(replies, all, attempt);
      replies := replies + [reply];
      if Accepts(reply) {
        return true, retried, sleptMs, replies;
      }
      if !Transient(reply) {
        return false, retried, sleptMs, replies;
      }
      attempt := attempt + 1;
      if attempt > MAX_RETRIES {
        return false, retried, sleptMs, replies;
      }
      retried := retried + 1;
      sleptMs := sleptMs + BackoffMs(attempt);
    }
  }

  ghost predicate OnlyTransient(replies: seq<Reply>, all: nat -> Reply, n: nat) {
    |replies| == n && AllTransient(replies) && forall i :: 0 <= i < n ==> replies[i] == all(i)
  }

  lemma HearOneMore(replies: seq<Reply>, all: nat -> Reply, n: nat)
    requires OnlyTransient(replies, all, n) && n <= MAX_RETRIES
    ensures var more := replies + [all(n)];
      && |more| == n + 1
      && ((Transient(all(n)) ==> n == MAX_RETRIES) ==> Heard(more, all))
      && (Transient(all(n)) ==> OnlyTransient(more, all, n + 1))
      && (WasSent(more) <==> Accepts(all(n)))
  {
    LastReply(replies, all(n));
  }

  function TotalBackoffMs(retries: nat): nat {
    if retries == 0 then 0 else TotalBackoffMs(retries - 1) + BackoffMs(retries)
  }

  /** A delivery sleeps for at most 772 ms in all, and longer for each further retry. */
  lemma TotalBackoffIsBounded(m: nat, n: nat)
    requires m < n <= MAX_RETRIES
    ensures TotalBackoffMs(m) < TotalBackoffMs(n) <= 772
    ensures TotalBackoffMs(1) == 137 && TotalBackoffMs(2) == 361 && TotalBackoffMs(3) == 772
  {
    assert Power(1) == 2 && Power(2) == 4;
    assert BackoffMs(1) == 137 && BackoffMs(2) == 224 && BackoffMs(3) == 411;
    assert TotalBackoffMs(1) == 137;
    assert TotalBackoffMs(2) == 361;
    assert TotalBackoffMs(3) == 772;
  }

  // The shared object

  lemma RunAppend<T>(capacity: nat, es: seq<Event<T>>, e: Event<T>)
    ensures Run(capacity, es + [e]) == Advance(Run(capacity, es), e)
    ensures Offers(es + [e]) == if e.Offer? then Offers(es) + [e.payload] else Offers(es)
  {
    assert (es + [e])[..|es|] == es;
  }

  class TelemetryDelivery<T> {
    const enabled: bool
    const capacity: nat
    var open: bool
    var queue: seq<T>
    var flight: Option<Flight<T>>
    var sentTotal: nat
    var failedTotal: nat
    var droppedTotal: nat
    var retriedTotal: nat
    ghost var events: seq<Event<T>>

    ghost function View(): State<T>
      reads this
    {
      State(capacity, open, queue, flight, sentTotal, failedTotal, droppedTotal, retriedTotal)
    }

    /** The fields are those of the run so far. */
    ghost predicate Valid()
      reads this
    {
      View() == Run(capacity, events).now
    }

    constructor (enabled: bool, queueCapacity: int)
      ensures capacity == if queueCapacity < 1 then 1 else if queueCapacity > 100_000 then 100_000 else queueCapacity
      ensures Valid() && events == [] && this.enabled == enabled
    {
      this.enabled := enabled;
      capacity := if queueCapacity < 1 then 1 else if queueCapacity > 100_000 then 100_000 else queueCapacity;
      open, queue, flight := true, [], None;
      sentTotal, failedTotal, droppedTotal, retriedTotal := 0, 0, 0, 0;
      events := [];
    }

    /** A full or closed queue drops the newest payload; disabled delivery ignores it. */
    method Enqueue(payload: T)
      requires Valid()
      modifies this
      ensures Valid()
      ensures enabled ==> View() == Step(old(View()), Offer(payload)) && events == old(events) + [Offer(payload)]
      ensures !enabled ==> View() == old(View()) && events == old(events)
    {
      if !enabled {
        return;
      }
      RunAppend(capacity, events, Offer(payload));
      events := events + [Offer(payload)];
      if open && |queue| < capacity {
        queue := queue + [payload];
      } else {
        droppedTotal := droppedTotal + 1;
      }
    }

    method Recv() returns (payload: Option<T>)
      requires Valid()
      modifies this
      ensures Valid() && View() == Step(old(View()), Receive) && events == old(events) + [Receive]
      ensures payload == if old(flight.None? && queue != []) then Some(old(queue)[0]) else None
    {
      RunAppend(capacity, events, Receive);
      events := events + [Receive];
      payload := None;
      if flight.None? && queue != [] {
        payload := Some(queue[0]);
        flight, queue := Some(Flight(queue[0], 0)), queue[1..];
      }
    }

    /** One turn of the retry loop; `done` says that the payload is resolved. */
    method HearReply(reply: Reply) returns (done: bool)
      requires Valid() && flight.Some?
      modifies this
      ensures Valid() && View() == Step(old(View()), Attempt(reply)) && events == old(events) + [Attempt(reply)]
      ensures done <==> flight.None?
    {
      RunAppend(capacity, events, Attempt(reply));
      events := events + [Attempt(reply)];
      done := true;
      if Accepts(reply) {
        sentTotal, flight := sentTotal + 1, None;
      } else if !Transient(reply) {
        failedTotal, flight := failedTotal + 1, None;
      } else {
        var attempt := flight.value.attempt + 1;
        if attempt > MAX_RETRIES {
          failedTotal, flight := failedTotal + 1, None;
        } else {
          retriedTotal := retriedTotal + 1;
          flight := Some(flight.value.(attempt := attempt));
          done := false;
        }
      }
    }

    /** The counters, and what every interleaving lets a reader conclude from them. */
    method Snapshot() returns (sent: nat, failed: nat, dropped: nat, retried: nat)
      requires Valid()
      ensures sent == sentTotal && failed == failedTotal && dropped == droppedTotal && retried == retriedTotal
      ensures sent + failed + dropped <= |Offers(events)|
      ensures open ==> |Offers(events)| - (sent + failed + dropped) <= capacity + 1
      ensures retried <= MAX_RETRIES * (sent + failed + 1)
    {
      Conservation(capacity, events);
      sent, failed, dropped, retried := sentTotal, failedTotal, droppedTotal, retriedTotal;
    }
  }
}
