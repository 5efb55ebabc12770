/** That messages do get sent: what the buffers admit, and that whatever was published can be sent from any state. */
module OutboundProgress {
  import opened Options
  import opened Outbound
  import opened OutboundCalls

  /** The bus holds 64 messages and refuses more; a queue holds 16 and lets the dispatcher wait. */
  lemma BuffersExactly(limits: map<Channel, int>, schedule: seq<Action>, m: Message)
    ensures var s, t := Reached(limits, schedule), Do(Reached(limits, schedule), Publish(m));
      && |s.bus| <= 64 && t.lanes == s.lanes && t.hand == s.hand
      && t.bus == (if |s.bus| < 64 then s.bus + [m] else s.bus)
      && t.published == (if |s.bus| < 64 then s.published + [m] else s.published)
    ensures var s, t := Reached(limits, schedule), Do(Reached(limits, schedule), Direct(m));
      && (m.channel !in s.lanes ==> t == s)
      && t.lanes.Keys == s.lanes.Keys
      && (m.channel in s.lanes ==> Queued(s.lanes[m.channel], t.lanes[m.channel], m, true))
  {
    FifoConservation(limits, schedule, "");
  }

  /** The message is put into the queue exactly while that has fewer than 16. */
  predicate Queued(lane: Lane, after: Lane, m: Message, direct: bool) {
    after == lane.(queue := if |lane.queue| < 16 then lane.queue + [Item(m, direct)] else lane.queue)
  }

  /** The dispatcher drops internal messages and those without a worker, and keeps one while the queue is full. */
  lemma RoutesExactly(s: System, m: Message)
    requires s.hand == Some(m)
    ensures m.channel in {"cli", "system", "subagent"} || m.channel !in s.lanes ==> Do(s, Route) == s.(hand := None)
    ensures m.channel !in {"cli", "system", "subagent"} && m.channel in s.lanes ==>
      var t := Do(s, Route);
      && t.lanes.Keys == s.lanes.Keys && Queued(s.lanes[m.channel], t.lanes[m.channel], m, false)
      && t.hand == if |s.lanes[m.channel].queue| < 16 then None else Some(m)
  {
  }

  ghost function RunFrom(s: System, more: seq<Action>): System {
    if more == [] then s else Do(RunFrom(s, more[..|more| - 1]), more[|more| - 1])
  }

  lemma {:induction false} RunFromMore(s: System, a: seq<Action>, b: seq<Action>)
    ensures RunFrom(s, a + b) == RunFrom(RunFrom(s, a), b)
  {
    if b == [] {
      assert a + b == a;
    } else {
      assert (a + b)[..|a + b| - 1] == a + b[..|b| - 1];
      RunFromMore(s, a, b[..|b| - 1]);
    }
  }

  lemma RunFromOne(s: System, a: Action)
    ensures RunFrom(s, [a]) == Do(s, a)
  {
    assert [a][..0] == [];
  }

  lemma {:induction false} ReachedMore(limits: map<Channel, int>, schedule: seq<Action>, more: seq<Action>)
    ensures Reached(limits, schedule + more) == RunFrom(Reached(limits, schedule), more)
  {
    if more == [] {
      assert schedule + more == schedule;
    } else {
      assert (schedule + more)[..|schedule + more| - 1] == schedule + more[..|more| - 1];
      ReachedMore(limits, schedule, more[..|more| - 1]);
    }
  }

  /** The worker is not lost in a message, nor will it be in one of its queue. */
  ghost predicate Sound(lane: Lane) {
    && !lane.work.Hung?
    && (lane.work.Sending? ==> |lane.work.finished| <= |lane.work.chunks| && Retrying(lane.work.current))
    && forall i | 0 <= i < |lane.queue| :: Chunks(lane.queue[i].message, lane.maxLen).Some?
  }

  function LeftToSend(lane: Lane): nat
    requires lane.work.Sending? ==> |lane.work.finished| <= |lane.work.chunks|
  {
    if lane.work.Sending? then 1 + |lane.work.chunks| - |lane.work.finished| else 0
  }

  /** Only the one lane differs. */
  ghost predicate OnlyLane(s: System, t: System, c: Channel) {
    && c in s.lanes && c in t.lanes && t.lanes == s.lanes[c := t.lanes[c]]
    && t.bus == s.bus && t.hand == s.hand && t.published == s.published
    && t.lanes[c].maxLen == s.lanes[c].maxLen
  }

  lemma SendMoves(s: System, c: Channel)
    requires c in s.lanes && Sound(s.lanes[c]) && s.lanes[c].work.Sending?
    ensures var t := Do(s, Send(c, Sent));
      && OnlyLane(s, t, c) && Sound(t.lanes[c]) && t.lanes[c].queue == s.lanes[c].queue
      && LeftToSend(t.lanes[c]) < LeftToSend(s.lanes[c]) && Line(t.lanes[c]) == Line(s.lanes[c])
  {
    var lane := s.lanes[c];
    RetryOrComplete(lane.work.current, Sent);
    AttemptKeepsLine(lane, Sent);
    hide Line, Complete, Chunks;
  }

  lemma PickUpMoves(s: System, c: Channel)
    requires c in s.lanes && Sound(s.lanes[c]) && s.lanes[c].work.Idle? && s.lanes[c].queue != []
    ensures var t := Do(s, PickUp(c));
      && OnlyLane(s, t, c) && Sound(t.lanes[c]) && |t.lanes[c].queue| < |s.lanes[c].queue|
      && Line(t.lanes[c]) == Line(s.lanes[c])
  {
    StartKeepsLine(s.lanes[c]);
    hide Line, Chunks;
  }

  /** A worker's own steps, when its platform accepts everything. */
  predicate Works(a: Action, c: Channel) {
    a == PickUp(c) || a == Send(c, Sent)
  }

  /** A worker can always send all there is in its queue. */
  lemma {:induction false} LaneEmpties(s: System, c: Channel) returns (more: seq<Action>)
    requires c in s.lanes && Sound(s.lanes[c])
    ensures forall i | 0 <= i < |more| :: Works(more[i], c)
    ensures var t := RunFrom(s, more);
      && OnlyLane(s, t, c) && t.lanes[c].work.Idle? && t.lanes[c].queue == [] && Sound(t.lanes[c])
      && Line(t.lanes[c]) == Line(s.lanes[c])
    decreases |s.lanes[c].queue|, LeftToSend(s.lanes[c])
  {
    hide Do, Line;
    var lane := s.lanes[c];
    if lane.work.Idle? && lane.queue == [] {
      more := [];
    } else {
      var a := if lane.work.Idle? then PickUp(c) else Send(c, Sent);
      if lane.work.Idle? {
        PickUpMoves(s, c);
      } else {
        SendMoves(s, c);
      }
      var rest := LaneEmpties(Do(s, a), c);
      RunFromOne(s, a);
      RunFromMore(s, [a], rest);
      more := [a] + rest;
    }
  }

  /** What is still on the way is sound for its lane. */
  ghost predicate ComingSound(coming: seq<Message>, lanes: map<Channel, Lane>) {
    forall i | 0 <= i < |coming| && coming[i].channel in lanes ::
      IsSplittable(coming[i], lanes[coming[i].channel].maxLen)
  }

  ghost predicate IsSplittable(m: Message, maxLen: int) {
    Chunks(m, maxLen).Some?
  }

  ghost predicate LanesSound(lanes: map<Channel, Lane>) {
    forall c | c in lanes :: Sound(lanes[c])
  }

  /** No message in the system is one on which its worker hangs. */
  ghost predicate AllSound(s: System) {
    LanesSound(s.lanes) && ComingSound(Coming(s), s.lanes)
  }

  lemma TakeMoves(s: System)
    requires AllSound(s) && s.hand.None? && s.bus != []
    ensures var t := Do(s, Take);
      AllSound(t) && t.hand.Some? && |t.bus| < |s.bus| && t.lanes == s.lanes && t.published == s.published
  {
    var t := Do(s, Take);
    assert Coming(t) == Coming(s);
  }

  lemma QueuedSound(lane: Lane, after: Lane, m: Message)
    requires Sound(lane) && IsSplittable(m, lane.maxLen) && Queued(lane, after, m, false)
    ensures Sound(after) && after.maxLen == lane.maxLen
  {
    hide Chunks, Retrying;
  }

  lemma RouteKeepsRest(s: System, m: Message)
    requires s.hand == Some(m)
    requires m.channel in s.lanes ==> s.lanes[m.channel].queue == []
    ensures var t := Do(s, Route);
      && t.hand.None? && t.bus == s.bus && t.published == s.published && t.lanes.Keys == s.lanes.Keys
      && forall c | c in s.lanes && c != m.channel :: t.lanes[c] == s.lanes[c]
    ensures var t := Do(s, Route);
      m.channel in s.lanes ==>
        t.lanes[m.channel] == s.lanes[m.channel] || Queued(s.lanes[m.channel], t.lanes[m.channel], m, false)
  {
    RoutesExactly(s, m);
  }

  lemma RouteKeepsLanes(s: System, m: Message)
    requires AllSound(s) && s.hand == Some(m)
    requires m.channel in s.lanes ==> s.lanes[m.channel].queue == []
    ensures var t := Do(s, Route);
      LanesSound(t.lanes) && forall c | c in s.lanes :: c in t.lanes && t.lanes[c].maxLen == s.lanes[c].maxLen
  {
    RouteKeepsRest(s, m);
    assert Coming(s)[0] == m;
    hide Do, IsSplittable, Sound, Queued;
    if m.channel in s.lanes && Do(s, Route).lanes[m.channel] != s.lanes[m.channel] {
      QueuedSound(s.lanes[m.channel], Do(s, Route).lanes[m.channel], m);
    }
  }

  /** What comes behind the first is still on the way. */
  lemma RestSound(m: Message, rest: seq<Message>, lanes: map<Channel, Lane>, after: map<Channel, Lane>)
    requires ComingSound([m] + rest, lanes) && after.Keys == lanes.Keys
    requires forall c | c in lanes :: after[c].maxLen == lanes[c].maxLen
    ensures ComingSound(rest, after)
  {
    hide IsSplittable;
    forall i | 0 <= i < |rest| && rest[i].channel in after
      ensures IsSplittable(rest[i], after[rest[i].channel].maxLen)
    {
      assert ([m] + rest)[i + 1] == rest[i];
    }
  }

  /** The message leaves the dispatcher's hand, for a queue with room or for nowhere. */
  lemma RouteMoves(s: System)
    requires AllSound(s) && s.hand.Some?
    requires s.hand.value.channel in s.lanes ==> s.lanes[s.hand.value.channel].queue == []
    ensures var t := Do(s, Route);
      AllSound(t) && t.hand.None? && t.bus == s.bus && t.lanes.Keys == s.lanes.Keys && t.published == s.published
  {
    var m, t := s.hand.value, Do(s, Route);
    assert Coming(s) == [m] + s.bus;
    hide Do, ComingSound, LanesSound, Queued;
    RouteKeepsRest(s, m);
    RouteKeepsLanes(s, m);
    RestSound(m, s.bus, s.lanes, t.lanes);
    assert Coming(t) == s.bus;
  }

  lemma OtherLanesSound(s: System, t: System, c: Channel)
    requires AllSound(s) && OnlyLane(s, t, c) && Sound(t.lanes[c])
    ensures AllSound(t)
  {
    assert Coming(t) == Coming(s);
  }

  predicate IsPublishing(a: Action) {
    a.Publish? || a.Direct?
  }

  ghost predicate Private(more: seq<Action>) {
    forall i | 0 <= i < |more| :: !IsPublishing(more[i])
  }

  /** The dispatcher can always route all that was published. */
  lemma {:induction false} BusEmpties(s: System) returns (more: seq<Action>)
    requires AllSound(s)
    ensures Private(more)
    ensures var t := RunFrom(s, more);
      AllSound(t) && Coming(t) == [] && t.lanes.Keys == s.lanes.Keys && t.published == s.published
    decreases |s.bus|, s.hand.Some?
  {
    hide Do, AllSound, Sound;
    if s.hand.Some? {
      var first := HandEmpties(s);
      var t := RunFrom(s, first);
      var rest := BusEmpties(t);
      RunFromMore(s, first, rest);
      more := first + rest;
    } else if s.bus != [] {
      TakeMoves(s);
      RunFromOne(s, Take);
      var rest := BusEmpties(Do(s, Take));
      RunFromMore(s, [Take], rest);
      more := [Take] + rest;
    } else {
      more := [];
    }
  }

  lemma HandEmpties(s: System) returns (more: seq<Action>)
    requires AllSound(s) && s.hand.Some?
    ensures Private(more)
    ensures var t := RunFrom(s, more);
      AllSound(t) && t.hand.None? && t.bus == s.bus && t.lanes.Keys == s.lanes.Keys && t.published == s.published
  {
    var c, first := s.hand.value.channel, [];
    if c in s.lanes {
      first := LaneEmpties(s, c);
      OtherLanesSound(s, RunFrom(s, first), c);
    }
    hide Do, AllSound;
    RouteMoves(RunFrom(s, first));
    RunFromOne(RunFrom(s, first), Route);
    RunFromMore(s, first, [Route]);
    more := first + [Route];
  }

  lemma AllLeaves(s: System, c: Channel) returns (more: seq<Action>)
    requires AllSound(s) && c in s.lanes
    ensures Private(more)
    ensures var t := RunFrom(s, more);
      && t.published == s.published && c in t.lanes
      && Coming(t) == [] && t.lanes[c].work.Idle? && t.lanes[c].queue == []
  {
    var first := BusEmpties(s);
    var t := RunFrom(s, first);
    var last := LaneEmpties(t, c);
    more := first + last;
    RunFromMore(s, first, last);
  }

  /**
   * From every reachable state in which no worker hangs and no message is one on which its worker
   * would: if nothing more is published and the platforms accept what they are sent, a run leads to
   * where every message published for a channel has been handled, in order.
   */
  lemma EverythingIsSent(limits: map<Channel, int>, schedule: seq<Action>, c: Channel) returns (more: seq<Action>)
    requires c in limits && c !in INTERNAL && AllSound(Reached(limits, schedule))
    ensures Private(more)
    ensures var s, t := Reached(limits, schedule), Reached(limits, schedule + more);
      && c in t.lanes && t.published == s.published
      && For(s.published, c) == FromBus(Items(t.lanes[c].handled))
  {
    hide Fifo, Faithful, AllSound, For, FromBus;
    CallsAccounted(limits, schedule, c);
    more := AllLeaves(Reached(limits, schedule), c);
    ReachedMore(limits, schedule, more);
    FifoConservation(limits, schedule + more, c);
    AllHandled(Reached(limits, schedule + more), c);
  }

  lemma AllHandled(s: System, c: Channel)
    requires Fifo(s, c) && c in s.lanes && c !in INTERNAL
    requires Coming(s) == [] && s.lanes[c].work.Idle? && s.lanes[c].queue == []
    ensures For(s.published, c) == FromBus(Items(s.lanes[c].handled))
  {
    assert Line(s.lanes[c]) == Items(s.lanes[c].handled);
  }
}
