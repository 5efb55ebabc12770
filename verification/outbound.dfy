/**
 * The outbound pipeline before shutdown: publishers fill the bus, the dispatcher moves messages
 * to the queues of the channel workers, and each worker splits and sends with retries. One step
 * is one channel operation or one call of Send.
 */
module Outbound {
  import opened Options
  import opened Powers
  import opened SplitStep

  type Channel = string

  const BUS_SIZE := 64
  const QUEUE_SIZE := 16
  const MAX_RETRIES := 3
  const RATE_LIMIT_DELAY := 1_000
  const BASE_BACKOFF := 500
  const MAX_BACKOFF := 8_000
  const INTERNAL: set<Channel> := {"cli", "system", "subagent"}

  datatype Message = Message(channel: Channel, chat: string, content: string, media: bool)

  /** A message in a worker's queue; `direct` if SendToChannel put it there, past the bus. */
  datatype Item = Item(message: Message, direct: bool)

  /** What one call of Send returned; the last two are retried. */
  datatype Outcome = Sent | Permanent | RateLimited | Temporary

  predicate Retryable(o: Outcome) {
    o.RateLimited? || o.Temporary?
  }

  /** One call of Send. */
  datatype Call = Call(payload: string, outcome: Outcome)

  /** What is left of the outcomes of sending one chunk while it may still be retried. */
  predicate Retrying(outcomes: seq<Outcome>) {
    |outcomes| <= MAX_RETRIES && forall i | 0 <= i < |outcomes| :: Retryable(outcomes[i])
  }

  /** The outcomes of sending one chunk: up to the first that is final, and at most maxRetries + 1. */
  predicate Complete(outcomes: seq<Outcome>) {
    && outcomes != []
    && Retrying(outcomes[..|outcomes| - 1])
    && (!Retryable(outcomes[|outcomes| - 1]) || |outcomes| == MAX_RETRIES + 1)
  }

  /** An attempt either ends the retries of a chunk or leaves them open. */
  lemma RetryOrComplete(outcomes: seq<Outcome>, o: Outcome)
    requires Retrying(outcomes)
    ensures Complete(outcomes + [o]) <==> !Retryable(o) || |outcomes| == MAX_RETRIES
    ensures Complete(outcomes + [o]) || Retrying(outcomes + [o])
  {
    assert (outcomes + [o])[..|outcomes|] == outcomes;
  }

  /** The wait before the next attempt, in milliseconds. */
  function Delay(o: Outcome, attempt: nat): int {
    if o.RateLimited? then RATE_LIMIT_DELAY
    else if BASE_BACKOFF * Power(attempt) < MAX_BACKOFF then BASE_BACKOFF * Power(attempt)
    else MAX_BACKOFF
  }

  /**
   * A rate limit is waited out in a second; other failures wait half a second, and each time twice
   * as long as the time before, up to eight seconds.
   */
  lemma DelaysExactly()
    ensures forall i: nat :: Delay(RateLimited, i) == 1_000
    ensures Delay(Temporary, 0) == 500 && Delay(Temporary, 1) == 1_000 && Delay(Temporary, 2) == 2_000
    ensures forall i: nat ::
      Delay(Temporary, i + 1) == if 2 * Delay(Temporary, i) < 8_000 then 2 * Delay(Temporary, i) else 8_000
  {
    assert Power(0) == 1 && Power(1) == 2 && Power(2) == 4;
  }

  /**
   * sendWithRetry: `send` gives the outcome of each attempt, `admitted` says whether the rate
   * limiter let the message through, and `alive` whether the context outlives each wait.
   */
  method SendWithRetry(send: nat -> Outcome, admitted: bool, alive: nat -> bool)
    returns (outcomes: seq<Outcome>, delays: seq<int>)
    ensures forall i | 0 <= i < |outcomes| :: outcomes[i] == send(i)
    ensures outcomes == [] <==> !admitted
    ensures Complete(outcomes) || (Retrying(outcomes) && (admitted ==> !alive(|outcomes| - 1)))
    ensures forall i | 0 <= i < |outcomes| - 1 :: alive(i)
    ensures |delays| == (if Complete(outcomes) then |outcomes| - 1 else |outcomes|)
    ensures forall i | 0 <= i < |delays| :: delays[i] == Delay(outcomes[i], i)
    ensures |outcomes| <= 4 && |delays| <= 3
    ensures forall i | 0 <= i < |outcomes| - 1 :: outcomes[i].RateLimited? || outcomes[i].Temporary?
    ensures 0 < |outcomes| < 4 ==>
      outcomes[|outcomes| - 1].Sent? || outcomes[|outcomes| - 1].Permanent? || !alive(|outcomes| - 1)
    ensures forall i | 0 <= i < |delays| :: outcomes[i].RateLimited? ==> delays[i] == 1_000
    ensures forall i | 0 <= i < |delays| :: outcomes[i].Temporary? ==> delays[i] == [500, 1_000, 2_000][i]
  {
    DelaysExactly();
    hide Complete;
    outcomes, delays := [], [];
    assert !Complete(outcomes) by {
      EmptyIsOpen();
    }
    if !admitted {
      return;
    }
    var factor := 1;
    for attempt := 0 to MAX_RETRIES + 1
      invariant |outcomes| == |delays| == attempt <= MAX_RETRIES && factor == Power(attempt)
      invariant Retrying(outcomes)
      invariant forall i | 0 <= i < |outcomes| :: outcomes[i] == send(i) && alive(i)
      invariant forall i | 0 <= i < |delays| :: delays[i] == Delay(outcomes[i], i)
    {
      var lastErr := send(attempt);
      RetryOrComplete(outcomes, lastErr);
      outcomes := outcomes + [lastErr];
      if lastErr.Sent? || lastErr.Permanent? || attempt == MAX_RETRIES {
        return;
      }
      if lastErr.RateLimited? {
        delays := delays + [RATE_LIMIT_DELAY];
      } else {
        var backoff := BASE_BACKOFF * factor;
        delays := delays + [if backoff < MAX_BACKOFF then backoff else MAX_BACKOFF];
      }
      if !alive(attempt) {
        return;
      }
      factor := 2 * factor;
    }
  }

  lemma EmptyIsOpen()
    ensures !Complete([])
  {
  }

  /** The worker: idle; lost in a SplitMessage that never returns; or sending the chunks of an item. */
  datatype Work =
    | Idle
    | Hung(item: Item)
    | Sending(item: Item, chunks: seq<string>, finished: seq<seq<Outcome>>, current: seq<Outcome>)

  datatype Handled = Handled(item: Item, chunks: seq<string>, outcomes: seq<seq<Outcome>>)

  /** One channel: its queue, its worker, and what the worker has done. */
  datatype Lane = Lane(maxLen: int, queue: seq<Item>, work: Work, handled: seq<Handled>, calls: seq<Call>)

  datatype System = System(bus: seq<Message>, hand: Option<Message>, lanes: map<Channel, Lane>, published: seq<Message>)

  datatype Action =
    | Publish(message: Message)
    | Take
    | Route
    | Direct(message: Message)
    | PickUp(channel: Channel)
    | Send(channel: Channel, outcome: Outcome)

  /** SplitMessage, if it returns. */
  ghost function Split(content: string, maxLen: int): Option<seq<string>>
    requires maxLen >= 1
  {
    if n :| n >= 0 && Run(content, maxLen, n).Done() then Some(Run(content, maxLen, n).chunks) else None
  }

  /** The chunks runWorker sends for a message; messages with media are not split. */
  ghost function Chunks(m: Message, maxLen: int): Option<seq<string>> {
    if !m.media && maxLen > 0 && |m.content| > maxLen then Split(m.content, maxLen) else Some([m.content])
  }

  ghost function Started(lane: Lane): Lane
    requires lane.work.Idle? && lane.queue != []
  {
    var item, rest := lane.queue[0], lane.queue[1..];
    var chunks := Chunks(item.message, lane.maxLen);
    lane.(queue := rest, work := if chunks.None? then Hung(item) else Next(item, chunks.value, []))
  }

  /** Sending the chunk after those finished. */
  function Next(item: Item, chunks: seq<string>, finished: seq<seq<Outcome>>): Work {
    Sending(item, chunks, finished, [])
  }

  /** One call of Send, or the end of the item when no chunk is left. */
  function Attempted(lane: Lane, outcome: Outcome): Lane
    requires lane.work.Sending? && |lane.work.finished| <= |lane.work.chunks|
  {
    var Sending(item, chunks, finished, current) := lane.work;
    if |finished| == |chunks| then
      lane.(work := Idle, handled := lane.handled + [Handled(item, chunks, finished)])
    else
      var now := current + [outcome];
      lane.(calls := lane.calls + [Call(chunks[|finished|], outcome)],
            work := if Complete(now) then Next(item, chunks, finished + [now]) else lane.work.(current := now))
  }

  /** One step; a step that is not possible, or that would block, changes nothing. */
  ghost function Do(s: System, a: Action): System {
    match a
    case Publish(m) =>
      if |s.bus| >= BUS_SIZE then s else s.(bus := s.bus + [m], published := s.published + [m])
    case Take =>
      if s.hand.Some? || s.bus == [] then s else s.(bus := s.bus[1..], hand := Some(s.bus[0]))
    case Route =>
      if s.hand.None? then s
      else if s.hand.value.channel in INTERNAL || s.hand.value.channel !in s.lanes then s.(hand := None)
      else Enqueue(s, Item(s.hand.value, false)).(hand := if Full(s, s.hand.value.channel) then s.hand else None)
    case Direct(m) =>
      if m.channel !in s.lanes then s else Enqueue(s, Item(m, true))
    case PickUp(c) =>
      if c !in s.lanes || !s.lanes[c].work.Idle? || s.lanes[c].queue == [] then s
      else s.(lanes := s.lanes[c := Started(s.lanes[c])])
    case Send(c, outcome) =>
      if c !in s.lanes || !s.lanes[c].work.Sending? || |s.lanes[c].work.finished| > |s.lanes[c].work.chunks| then s
      else s.(lanes := s.lanes[c := Attempted(s.lanes[c], outcome)])
  }

  predicate Full(s: System, c: Channel)
    requires c in s.lanes
  {
    |s.lanes[c].queue| >= QUEUE_SIZE
  }

  function Enqueue(s: System, item: Item): System
    requires item.message.channel in s.lanes
  {
    var c := item.message.channel;
    if Full(s, c) then s
    else s.(lanes := s.lanes[c := s.lanes[c].(queue := s.lanes[c].queue + [item])])
  }

  /** One worker for each of the given channels, with the given length limits (0 or less for none). */
  function Initial(limits: map<Channel, int>): System {
    System([], None, map c | c in limits :: Lane(limits[c], [], Idle, [], []), [])
  }

  ghost function Reached(limits: map<Channel, int>, schedule: seq<Action>): System {
    if schedule == [] then Initial(limits)
    else Do(Reached(limits, schedule[..|schedule| - 1]), schedule[|schedule| - 1])
  }

  /** The messages for a channel, in order. */
  function For(messages: seq<Message>, c: Channel): seq<Message> {
    if messages == [] then []
    else
      var last := messages[|messages| - 1];
      For(messages[..|messages| - 1], c) + if last.channel == c then [last] else []
  }

  /** The messages that came over the bus, in order. */
  function FromBus(items: seq<Item>): seq<Message> {
    if items == [] then []
    else
      var last := items[|items| - 1];
      FromBus(items[..|items| - 1]) + if last.direct then [] else [last.message]
  }

  function Items(handled: seq<Handled>): seq<Item> {
    seq(|handled|, i requires 0 <= i < |handled| => handled[i].item)
  }

  function InWork(work: Work): seq<Item> {
    if work.Idle? then [] else [work.item]
  }

  /** All that ever entered a worker's queue: handled, in work, and waiting. */
  function Line(lane: Lane): seq<Item> {
    Items(lane.handled) + InWork(lane.work) + lane.queue
  }

  function InHand(hand: Option<Message>): seq<Message> {
    if hand.None? then [] else [hand.value]
  }

  /** What was published for a channel, its lane, and what is still on the way to it. */
  ghost predicate Ordered(published: seq<Message>, lane: Lane, coming: seq<Message>, c: Channel) {
    && For(published, c) == FromBus(Line(lane)) + For(coming, c)
    && |lane.queue| <= QUEUE_SIZE
    && forall i | 0 <= i < |Line(lane)| :: Line(lane)[i].message.channel == c
  }

  function Coming(s: System): seq<Message> {
    InHand(s.hand) + s.bus
  }

  /** The first-in first-out order of one channel, from the bus to the worker. */
  ghost predicate Fifo(s: System, c: Channel) {
    c in s.lanes && c !in INTERNAL ==> Ordered(s.published, s.lanes[c], Coming(s), c)
  }

  lemma {:induction false} ForConcat(a: seq<Message>, b: seq<Message>, c: Channel)
    ensures For(a + b, c) == For(a, c) + For(b, c)
  {
    if b == [] {
      assert a + b == a;
    } else {
      assert (a + b)[..|a + b| - 1] == a + b[..|b| - 1];
      ForConcat(a, b[..|b| - 1], c);
    }
  }

  lemma FromBusGrows(items: seq<Item>, item: Item)
    ensures FromBus(items + [item]) == FromBus(items) + if item.direct then [] else [item.message]
  {
    assert (items + [item])[..|items|] == items;
  }

  /** A worker's own steps keep its line. */
  lemma StartKeepsOrder(published: seq<Message>, lane: Lane, coming: seq<Message>, c: Channel)
    requires Ordered(published, lane, coming, c) && lane.work.Idle? && lane.queue != []
    ensures Ordered(published, Started(lane), coming, c)
  {
    hide FromBus, For;
    StartKeepsLine(lane);
  }

  lemma StartKeepsLine(lane: Lane)
    requires lane.work.Idle? && lane.queue != []
    ensures Line(Started(lane)) == Line(lane) && |Started(lane).queue| <= |lane.queue|
  {
    hide Chunks;
    assert [lane.queue[0]] + lane.queue[1..] == lane.queue;
  }

  lemma AttemptKeepsOrder(published: seq<Message>, lane: Lane, outcome: Outcome, coming: seq<Message>, c: Channel)
    requires Ordered(published, lane, coming, c)
    requires lane.work.Sending? && |lane.work.finished| <= |lane.work.chunks|
    ensures Ordered(published, Attempted(lane, outcome), coming, c)
  {
    hide FromBus, For;
    AttemptKeepsLine(lane, outcome);
  }

  lemma AttemptKeepsLine(lane: Lane, outcome: Outcome)
    requires lane.work.Sending? && |lane.work.finished| <= |lane.work.chunks|
    ensures Line(Attempted(lane, outcome)) == Line(lane) && Attempted(lane, outcome).queue == lane.queue
  {
    if |lane.work.finished| == |lane.work.chunks| {
      var h := Handled(lane.work.item, lane.work.chunks, lane.work.finished);
      assert Items(lane.handled + [h]) == Items(lane.handled) + [h.item];
    }
  }

  lemma PublishKeepsOrder(published: seq<Message>, lane: Lane, coming: seq<Message>, m: Message, c: Channel)
    requires Ordered(published, lane, coming, c)
    ensures Ordered(published + [m], lane, coming + [m], c)
  {
    hide FromBus, Line;
    ForConcat(published, [m], c);
    ForConcat(coming, [m], c);
  }

  lemma ForFirst(m: Message, rest: seq<Message>, c: Channel)
    ensures For([m] + rest, c) == (if m.channel == c then [m] else []) + For(rest, c)
  {
    ForConcat([m], rest, c);
    assert [m][..0] == [];
  }

  /** A message for another channel leaves the dispatcher's hand. */
  lemma OthersKeepOrder(published: seq<Message>, lane: Lane, m: Message, rest: seq<Message>, c: Channel)
    requires Ordered(published, lane, [m] + rest, c) && m.channel != c
    ensures Ordered(published, lane, rest, c)
  {
    ForFirst(m, rest, c);
  }

  /** A message enters the queue, from the dispatcher's hand or past it. */
  lemma EnqueueKeepsOrder(published: seq<Message>, lane: Lane, item: Item, rest: seq<Message>, c: Channel)
    requires Ordered(published, lane, if item.direct then rest else [item.message] + rest, c)
    requires |lane.queue| < QUEUE_SIZE && item.message.channel == c
    ensures Ordered(published, lane.(queue := lane.queue + [item]), rest, c)
  {
    hide FromBus, For;
    var line, after := Line(lane), Line(lane.(queue := lane.queue + [item]));
    assert after == line + [item];
    FromBusGrows(line, item);
    if !item.direct {
      ForFirst(item.message, rest, c);
      Regroup(FromBus(line), item.message, For(rest, c));
    }
  }

  lemma Regroup(a: seq<Message>, m: Message, b: seq<Message>)
    ensures a + ([m] + b) == (a + [m]) + b && a + [] == a
  {
  }

  /** Routing to another channel, or to none. */
  lemma RouteElsewhere(s: System, m: Message, c: Channel)
    requires c in s.lanes && c !in INTERNAL && s.hand == Some(m) && m.channel != c
    ensures var t := Do(s, Route);
      c in t.lanes && t.lanes[c] == s.lanes[c] && t.published == s.published && (t == s || Coming(t) == s.bus)
  {
    assert InHand(None) + s.bus == s.bus;
  }

  /** Routing to the channel: nothing happens while its queue is full. */
  lemma RouteHere(s: System, m: Message, c: Channel)
    requires c in s.lanes && c !in INTERNAL && s.hand == Some(m) && m.channel == c
    ensures var t := Do(s, Route);
      if Full(s, c) then t.lanes == s.lanes && t.published == s.published && Coming(t) == Coming(s)
      else
        && c in t.lanes && t.lanes[c] == s.lanes[c].(queue := s.lanes[c].queue + [Item(m, false)])
        && t.published == s.published && Coming(t) == s.bus
  {
    assert InHand(None) + s.bus == s.bus;
  }

  lemma RouteKeepsFifo(s: System, c: Channel)
    requires Fifo(s, c) && c in s.lanes && c !in INTERNAL && s.hand.Some?
    ensures Fifo(Do(s, Route), c)
  {
    var m := s.hand.value;
    assert Coming(s) == [m] + s.bus;
    if m.channel == c {
      hide Do, Coming, Ordered;
      RouteHere(s, m, c);
      if !Full(s, c) {
        EnqueueKeepsOrder(s.published, s.lanes[c], Item(m, false), s.bus, c);
      }
    } else {
      hide Do, Coming, Ordered;
      RouteElsewhere(s, m, c);
      OthersKeepOrder(s.published, s.lanes[c], m, s.bus, c);
    }
  }

  lemma BusComing(s: System, a: Action)
    requires a.Publish? || a.Take?
    ensures Do(s, a).lanes == s.lanes
    ensures
      || (Do(s, a).published == s.published && Coming(Do(s, a)) == Coming(s))
      || (a.Publish? && Do(s, a).published == s.published + [a.message] && Coming(Do(s, a)) == Coming(s) + [a.message])
  {
    if a.Publish? {
      assert InHand(s.hand) + (s.bus + [a.message]) == Coming(s) + [a.message];
    } else if s.hand.None? && s.bus != [] {
      assert InHand(Some(s.bus[0])) + s.bus[1..] == Coming(s);
    }
  }

  lemma BusKeepsFifo(s: System, a: Action, c: Channel)
    requires Fifo(s, c) && c in s.lanes && c !in INTERNAL && (a.Publish? || a.Take?)
    ensures Fifo(Do(s, a), c)
  {
    hide Do, Coming, Ordered;
    BusComing(s, a);
    if a.Publish? {
      PublishKeepsOrder(s.published, s.lanes[c], Coming(s), a.message, c);
    }
  }

  lemma DirectKeepsFifo(s: System, m: Message, c: Channel)
    requires Fifo(s, c) && c in s.lanes && c !in INTERNAL
    ensures Fifo(Do(s, Direct(m)), c)
  {
    hide Ordered;
    if m.channel == c && !Full(s, c) {
      EnqueueKeepsOrder(s.published, s.lanes[c], Item(m, true), Coming(s), c);
    }
  }

  lemma WorkKeepsFifo(s: System, a: Action, c: Channel)
    requires Fifo(s, c) && c in s.lanes && c !in INTERNAL
    requires (a.PickUp? || a.Send?) && a.channel == c
    ensures Fifo(Do(s, a), c)
  {
    hide Ordered, Started, Attempted;
    var lane := s.lanes[c];
    if a.PickUp? && lane.work.Idle? && lane.queue != [] {
      StartKeepsOrder(s.published, lane, Coming(s), c);
    }
    if a.Send? && lane.work.Sending? && |lane.work.finished| <= |lane.work.chunks| {
      AttemptKeepsOrder(s.published, lane, a.outcome, Coming(s), c);
    }
  }

  lemma DoKeepsFifo(s: System, a: Action, c: Channel)
    requires Fifo(s, c) && c in s.lanes && c !in INTERNAL
    ensures Fifo(Do(s, a), c)
  {
    match a
    case Publish(_) => BusKeepsFifo(s, a, c);
    case Take => BusKeepsFifo(s, a, c);
    case Route =>
      if s.hand.Some? {
        RouteKeepsFifo(s, c);
      }
    case Direct(m) => DirectKeepsFifo(s, m, c);
    case PickUp(d) =>
      if d == c {
        WorkKeepsFifo(s, a, c);
      } else {
        OtherWork(s, a, c);
      }
    case Send(d, _) =>
      if d == c {
        WorkKeepsFifo(s, a, c);
      } else {
        OtherWork(s, a, c);
      }
  }

  lemma OtherWork(s: System, a: Action, c: Channel)
    requires c in s.lanes && (a.PickUp? || a.Send?) && a.channel != c
    ensures c in Do(s, a).lanes && Do(s, a).lanes[c] == s.lanes[c]
    ensures Do(s, a).published == s.published && Coming(Do(s, a)) == Coming(s)
  {
  }

  lemma SameLanes(s: System, a: Action)
    ensures Do(s, a).lanes.Keys == s.lanes.Keys
  {
  }

  /**
   * In every schedule, for every channel with a worker: the messages published for it are, in
   * order, those handled, the one in work, those in its queue, the one in the dispatcher's hand
   * and those on the bus. Neither buffer overflows.
   */
  lemma {:induction false} FifoConservation(limits: map<Channel, int>, schedule: seq<Action>, c: Channel)
    ensures Fifo(Reached(limits, schedule), c)
    ensures |Reached(limits, schedule).bus| <= BUS_SIZE
  {
    if schedule != [] {
      FifoConservation(limits, schedule[..|schedule| - 1], c);
      var s, a := Reached(limits, schedule[..|schedule| - 1]), schedule[|schedule| - 1];
      SameLanes(s, a);
      if c in s.lanes && c !in INTERNAL {
        DoKeepsFifo(s, a, c);
      }
    }
  }
}
