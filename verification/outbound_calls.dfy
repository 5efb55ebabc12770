/**
 * What the workers send: the calls of Send on a channel are, in order, the attempts at the chunks
 * of the items it handled, chunk by chunk and in split order, and those of the item in work.
 */
module OutboundCalls {
  import opened Options
  import opened SplitStep
  import opened SplitConservation
  import opened SplitTermination
  import SplitExact
  import Text
  import opened Outbound

  function Attempts(payload: string, outcomes: seq<Outcome>): seq<Call> {
    seq(|outcomes|, i requires 0 <= i < |outcomes| => Call(payload, outcomes[i]))
  }

  /** The calls for the first |outcomes| chunks of an item. */
  function ItemCalls(chunks: seq<string>, outcomes: seq<seq<Outcome>>): seq<Call>
    requires |outcomes| <= |chunks|
    decreases |outcomes|
  {
    if outcomes == [] then []
    else
      var k := |outcomes| - 1;
      ItemCalls(chunks, outcomes[..k]) + Attempts(chunks[k], outcomes[k])
  }

  ghost predicate AllComplete(outcomes: seq<seq<Outcome>>) {
    forall i | 0 <= i < |outcomes| :: Complete(outcomes[i])
  }

  /** All chunks of the item were sent, each until its first final outcome or the last retry. */
  ghost predicate SentWhole(h: Handled, maxLen: int) {
    Chunks(h.item.message, maxLen) == Some(h.chunks) && |h.outcomes| == |h.chunks| && AllComplete(h.outcomes)
  }

  ghost predicate AllSent(handled: seq<Handled>, maxLen: int) {
    forall i | 0 <= i < |handled| :: SentWhole(handled[i], maxLen)
  }

  /** A worker hangs only on a message that SplitMessage never finishes; else it is at some chunk. */
  ghost predicate WorkFits(work: Work, maxLen: int) {
    match work
    case Idle => true
    case Hung(item) => Chunks(item.message, maxLen).None?
    case Sending(item, chunks, finished, current) =>
      && Chunks(item.message, maxLen) == Some(chunks)
      && |finished| <= |chunks| && AllComplete(finished)
      && Retrying(current) && (|finished| == |chunks| ==> current == [])
  }

  ghost function Transcript(handled: seq<Handled>, maxLen: int): seq<Call>
    requires AllSent(handled, maxLen)
  {
    if handled == [] then []
    else
      var last := handled[|handled| - 1];
      Transcript(handled[..|handled| - 1], maxLen) + ItemCalls(last.chunks, last.outcomes)
  }

  ghost function WorkCalls(work: Work, maxLen: int): seq<Call>
    requires WorkFits(work, maxLen)
  {
    if !work.Sending? then []
    else
      ItemCalls(work.chunks, work.finished)
      + if work.current == [] then [] else Attempts(work.chunks[|work.finished|], work.current)
  }

  ghost predicate Faithful(lane: Lane, maxLen: int) {
    && lane.maxLen == maxLen
    && AllSent(lane.handled, maxLen) && WorkFits(lane.work, maxLen)
    && lane.calls == Transcript(lane.handled, maxLen) + WorkCalls(lane.work, maxLen)
  }

  lemma StartFaithful(lane: Lane, maxLen: int)
    requires Faithful(lane, maxLen) && lane.work.Idle? && lane.queue != []
    ensures Faithful(Started(lane), maxLen)
  {
    assert WorkCalls(Started(lane).work, maxLen) == [];
  }

  /** An item is finished: its calls move from the work to the transcript. */
  lemma FinishFaithful(lane: Lane, maxLen: int, outcome: Outcome)
    requires Faithful(lane, maxLen) && lane.work.Sending? && |lane.work.finished| == |lane.work.chunks|
    ensures Faithful(Attempted(lane, outcome), maxLen)
  {
    var h := Handled(lane.work.item, lane.work.chunks, lane.work.finished);
    assert AllSent(lane.handled + [h], maxLen);
    TranscriptGrows(lane.handled, h, maxLen);
    hide Transcript, ItemCalls, SentWhole, Chunks, AllComplete;
    assert WorkCalls(lane.work, maxLen) == ItemCalls(h.chunks, h.outcomes);
  }

  lemma TranscriptGrows(handled: seq<Handled>, h: Handled, maxLen: int)
    requires AllSent(handled, maxLen) && AllSent(handled + [h], maxLen) && |h.outcomes| <= |h.chunks|
    ensures Transcript(handled + [h], maxLen) == Transcript(handled, maxLen) + ItemCalls(h.chunks, h.outcomes)
  {
    assert (handled + [h])[..|handled|] == handled;
  }

  lemma AttemptsGrow(payload: string, outcomes: seq<Outcome>, outcome: Outcome)
    ensures Attempts(payload, outcomes + [outcome]) == Attempts(payload, outcomes) + [Call(payload, outcome)]
    ensures Attempts(payload, []) == []
  {
  }

  /** One more call on the current chunk, which may complete it. */
  lemma WorkCallsGrow(work: Work, after: Work, maxLen: int, outcome: Outcome)
    requires WorkFits(work, maxLen) && work.Sending? && |work.finished| < |work.chunks|
    requires var now := work.current + [outcome];
      after == if Complete(now) then Next(work.item, work.chunks, work.finished + [now]) else work.(current := now)
    ensures WorkFits(after, maxLen)
    ensures WorkCalls(after, maxLen) == WorkCalls(work, maxLen) + [Call(work.chunks[|work.finished|], outcome)]
  {
    var now := work.current + [outcome];
    RetryOrComplete(work.current, outcome);
    AttemptsGrow(work.chunks[|work.finished|], work.current, outcome);
    hide Complete, Retrying, Chunks;
    if Complete(now) {
      assert after.finished[..|work.finished|] == work.finished;
    }
  }

  lemma CallFaithful(lane: Lane, maxLen: int, outcome: Outcome)
    requires Faithful(lane, maxLen) && lane.work.Sending? && |lane.work.finished| < |lane.work.chunks|
    ensures Faithful(Attempted(lane, outcome), maxLen)
  {
    hide Complete, Transcript, WorkCalls, WorkFits, AllSent;
    WorkFitsHere(lane, maxLen);
    WorkCallsGrow(lane.work, Attempted(lane, outcome).work, maxLen, outcome);
  }

  lemma WorkFitsHere(lane: Lane, maxLen: int)
    requires Faithful(lane, maxLen)
    ensures WorkFits(lane.work, maxLen) && AllSent(lane.handled, maxLen)
  {
  }

  lemma QueueFaithful(lane: Lane, maxLen: int, queue: seq<Item>)
    requires Faithful(lane, maxLen)
    ensures Faithful(lane.(queue := queue), maxLen)
  {
  }

  lemma DoFaithful(s: System, a: Action, c: Channel, maxLen: int)
    requires c in s.lanes && Faithful(s.lanes[c], maxLen)
    ensures c in Do(s, a).lanes && Faithful(Do(s, a).lanes[c], maxLen)
  {
    var lane := s.lanes[c];
    match a
    case Publish(_) =>
    case Take =>
    case Route =>
      QueueFaithful(lane, maxLen, Do(s, a).lanes[c].queue);
    case Direct(_) =>
      QueueFaithful(lane, maxLen, Do(s, a).lanes[c].queue);
    case PickUp(d) =>
      if d == c && lane.work.Idle? && lane.queue != [] {
        StartFaithful(lane, maxLen);
      }
    case Send(d, outcome) =>
      if d == c && lane.work.Sending? {
        if |lane.work.finished| == |lane.work.chunks| {
          FinishFaithful(lane, maxLen, outcome);
        } else {
          CallFaithful(lane, maxLen, outcome);
        }
      }
  }

  /** In every schedule, the calls of every channel are exactly those its items account for. */
  lemma {:induction false} CallsAccounted(limits: map<Channel, int>, schedule: seq<Action>, c: Channel)
    requires c in limits
    ensures c in Reached(limits, schedule).lanes
    ensures Faithful(Reached(limits, schedule).lanes[c], limits[c])
  {
    if schedule != [] {
      CallsAccounted(limits, schedule[..|schedule| - 1], c);
      DoFaithful(Reached(limits, schedule[..|schedule| - 1]), schedule[|schedule| - 1], c, limits[c]);
    }
  }

  /** What is sent for a message, if the worker gets to send it at all, fits and loses no visible text. */
  lemma ChunksCarry(m: Message, maxLen: int) returns (pieces: seq<Piece>)
    requires Chunks(m, maxLen).Some?
    ensures maxLen > 0 && !m.media ==>
      forall i | 0 <= i < |Chunks(m, maxLen).value| :: |Chunks(m, maxLen).value[i]| <= maxLen
    ensures |pieces| == |Chunks(m, maxLen).value|
    ensures forall i | 0 <= i < |pieces| :: pieces[i].For(m.content, Chunks(m, maxLen).value[i])
    ensures forall i | 0 <= i < |pieces| :: pieces[i].In(m.content)
    ensures SourceInk(m.content, pieces) == Ink(m.content)
  {
    if !m.media && maxLen > 0 && |m.content| > maxLen {
      var n: nat :| Run(m.content, maxLen, n).Done() && Run(m.content, maxLen, n).chunks == Chunks(m, maxLen).value;
      ChunkLengths(m.content, maxLen, n);
      pieces := InkConserved(m.content, maxLen, n);
    } else {
      pieces := [Piece("", 0, |m.content|, "")];
      assert pieces[..0] == [] && m.content[0..|m.content|] == m.content;
    }
  }

  /** A worker hangs on no message whose code block headers fit. */
  lemma NeverHung(m: Message, maxLen: int)
    requires maxLen >= 1 ==> HeadersFit(m.content, maxLen)
    ensures Chunks(m, maxLen).Some?
  {
    if maxLen >= 1 {
      Terminates(m.content, maxLen, |m.content|);
    }
  }

  /**
   * A worker hangs exactly on the messages that have to be split and have a code block that cannot
   * be sent in chunks.
   */
  lemma HangsExactly(m: Message, maxLen: int)
    requires Text.FencesAtLineStart(m.content) && SplitExact.Trimmed(m.content)
    ensures Chunks(m, maxLen).None? <==>
      !m.media && 1 <= maxLen < |m.content| && !SplitExact.Returns(m.content, maxLen)
  {
    hide SplitExact.Returns;
    if !m.media && 1 <= maxLen < |m.content| {
      SplitExact.TerminationExact(m.content, maxLen);
      assert forall n: nat :: SplitExact.EndsBy(m.content, maxLen, n) == Run(m.content, maxLen, n).Done();
    }
  }

  ghost predicate Short(calls: seq<Call>, maxLen: int) {
    forall i | 0 <= i < |calls| :: |calls[i].payload| <= maxLen
  }

  lemma {:induction false} ItemCallsShort(chunks: seq<string>, outcomes: seq<seq<Outcome>>, maxLen: int)
    requires |outcomes| <= |chunks|
    requires forall i | 0 <= i < |chunks| :: |chunks[i]| <= maxLen
    ensures Short(ItemCalls(chunks, outcomes), maxLen)
  {
    if outcomes != [] {
      ItemCallsShort(chunks, outcomes[..|outcomes| - 1], maxLen);
    }
  }

  lemma HandledShort(h: Handled, maxLen: int)
    requires SentWhole(h, maxLen) && maxLen > 0 && !h.item.message.media
    ensures Short(ItemCalls(h.chunks, h.outcomes), maxLen)
  {
    var pieces := ChunksCarry(h.item.message, maxLen);
    ItemCallsShort(h.chunks, h.outcomes, maxLen);
  }

  lemma WorkShort(work: Work, maxLen: int)
    requires WorkFits(work, maxLen) && maxLen > 0 && (work.Sending? ==> !work.item.message.media)
    ensures Short(WorkCalls(work, maxLen), maxLen)
  {
    if work.Sending? {
      var pieces := ChunksCarry(work.item.message, maxLen);
      ItemCallsShort(work.chunks, work.finished, maxLen);
    }
  }

  /** The calls made for the i-th item handled. */
  ghost function CallsOf(lane: Lane, i: nat, maxLen: int): seq<Call>
    requires AllSent(lane.handled, maxLen) && i < |lane.handled|
  {
    ItemCalls(lane.handled[i].chunks, lane.handled[i].outcomes)
  }

  /**
   * In every schedule, on a channel with a length limit, no call for a message without media is
   * longer, whatever else the channel carries.
   */
  lemma NeverTooLong(limits: map<Channel, int>, schedule: seq<Action>, c: Channel)
    requires c in limits && limits[c] > 0
    ensures c in Reached(limits, schedule).lanes && Faithful(Reached(limits, schedule).lanes[c], limits[c])
    ensures var lane := Reached(limits, schedule).lanes[c];
      && (forall i | 0 <= i < |lane.handled| && !lane.handled[i].item.message.media ::
        Short(CallsOf(lane, i, limits[c]), limits[c]))
      && (lane.work.Sending? && !lane.work.item.message.media ==> Short(WorkCalls(lane.work, limits[c]), limits[c]))
  {
    CallsAccounted(limits, schedule, c);
    var lane := Reached(limits, schedule).lanes[c];
    forall i | 0 <= i < |lane.handled| && !lane.handled[i].item.message.media
      ensures Short(CallsOf(lane, i, limits[c]), limits[c])
    {
      HandledShort(lane.handled[i], limits[c]);
    }
    if lane.work.Sending? && !lane.work.item.message.media {
      WorkShort(lane.work, limits[c]);
    }
  }
}
