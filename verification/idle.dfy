/**
 * scanWithIdleTimeout: a scanner goroutine blocked on the subprocess's output, a managing goroutine
 * that races it against a timer, the consumer of the lines and the subprocess itself, interleaved
 * in any way.
 */
module Idle {
  import opened Options

  const LINE_BUFFER := 8
  const MAX_TOKEN := 4 * 1024 * 1024

  datatype Scanner = Scanning | Sending(line: string) | Exited

  datatype Manager = Selecting | Forwarding(line: string) | Draining | Closed

  datatype Timer = Armed(deadline: int) | Fired | Spent

  /**
   * The subprocess has still to write `coming`, and has written `unread`; `ended` says that its
   * output is closed. The last fields are a record of the run: what the manager took from the
   * scanner while selecting and while draining, whether the scanner gave up on its input, the last
   * timer reset, the cancellation, and the closing of the output.
   */
  datatype System = System(
    now: int, timer: Timer, scanner: Scanner, manager: Manager,
    coming: seq<string>, unread: seq<string>, ended: bool, buffer: seq<string>, delivered: seq<string>,
    selected: seq<string>, drained: seq<string>, cut: bool,
    lastReset: int, cancelledAt: Option<int>, closes: nat)

  datatype Action =
    | Advance(time: nat)
    | Fire
    | Write        // the subprocess writes a line
    | Exit         // the subprocess is done, or killed
    | Scan(broken: bool)
    | Receive
    | Timeout
    | Push
    | Finish
    | Consume

  /** What the goroutines and the consumer do, as opposed to time, the timer and the subprocess. */
  predicate IsMove(a: Action) {
    !a.Advance? && !a.Fire? && !a.Write? && !a.Exit?
  }

  function Initial(input: seq<string>, idle: int, now: int): System {
    System(now, Armed(now + idle), Scanning, Selecting, input, [], false, [], [], [], [], false, now, None, 0)
  }

  /**
   * The scanner goroutine: the next line, if there is one; it gives up on a line too long for its
   * buffer, ends with its input, and after a cancellation may find the pipe broken. Else it blocks.
   */
  function Scanned(s: System, broken: bool): System {
    if !s.scanner.Scanning? then s
    else if broken && s.cancelledAt.Some? then s.(scanner := Exited, cut := true)
    else if s.unread != [] then
      if |s.unread[0]| >= MAX_TOKEN then s.(scanner := Exited, cut := true)
      else s.(scanner := Sending(s.unread[0]), unread := s.unread[1..])
    else if s.ended then s.(scanner := Exited)
    else s
  }

  /** The hand-over of a line on the unbuffered channel between the goroutines. */
  function Received(s: System, idle: int): System {
    if !s.scanner.Sending? then s
    else
      var line := s.scanner.line;
      if s.manager.Draining? then s.(scanner := Scanning, drained := s.drained + [line])
      else if !s.manager.Selecting? then s
      else if line == "" then s.(scanner := Scanning, selected := s.selected + [line])
      else s.(scanner := Scanning, selected := s.selected + [line], manager := Forwarding(line),
              timer := Armed(s.now + idle), lastReset := s.now)
  }

  /** One step; a step that would block changes nothing. */
  function Do(s: System, idle: int, a: Action): System {
    match a
    case Advance(time) => s.(now := s.now + time)
    case Fire => if s.timer.Armed? && s.now >= s.timer.deadline then s.(timer := Fired) else s
    case Write =>
      if s.ended || s.coming == [] then s else s.(coming := s.coming[1..], unread := s.unread + [s.coming[0]])
    case Exit => if s.coming == [] || s.cancelledAt.Some? then s.(ended := true) else s
    case Scan(broken) => Scanned(s, broken)
    case Receive => Received(s, idle)
    case Timeout =>
      if s.manager.Selecting? && s.timer.Fired?
      then s.(timer := Spent, manager := Draining, cancelledAt := Some(s.now)) else s
    case Push =>
      if s.manager.Forwarding? && |s.buffer| < LINE_BUFFER
      then s.(manager := Selecting, buffer := s.buffer + [s.manager.line]) else s
    case Finish =>
      if s.scanner.Exited? && (s.manager.Selecting? || s.manager.Draining?)
      then s.(manager := Closed, closes := s.closes + 1) else s
    case Consume =>
      if s.buffer == [] then s else s.(buffer := s.buffer[1..], delivered := s.delivered + [s.buffer[0]])
  }

  function Run(input: seq<string>, idle: int, start: int, schedule: seq<Action>): System {
    if schedule == [] then Initial(input, idle, start)
    else Do(Run(input, idle, start, schedule[..|schedule| - 1]), idle, schedule[|schedule| - 1])
  }

  function NonBlank(lines: seq<string>): seq<string> {
    if lines == [] then []
    else
      var last := lines[|lines| - 1];
      NonBlank(lines[..|lines| - 1]) + if last == "" then [] else [last]
  }

  /** Every line forwarded so far: delivered, buffered, or on its way into the buffer. */
  function Forwarded(s: System): seq<string> {
    s.delivered + s.buffer + if s.manager.Forwarding? then [s.manager.line] else []
  }

  function InScanner(scanner: Scanner): seq<string> {
    if scanner.Sending? then [scanner.line] else []
  }

  function Rest(s: System): seq<string> {
    s.unread + s.coming
  }

  /** The input is what was taken, what is in the scanner, and what is still to be read. */
  predicate Sums(s: System, input: seq<string>) {
    input == s.selected + s.drained + InScanner(s.scanner) + Rest(s)
  }

  /** No line is lost or reordered between the goroutines. */
  predicate Lines(s: System, input: seq<string>) {
    && Sums(s, input)
    && Forwarded(s) == NonBlank(s.selected)
    && (s.drained != [] ==> s.cancelledAt.Some?)
    && (s.scanner.Exited? && !s.cut ==> s.unread == [] && s.ended)
    && (s.ended && s.cancelledAt.None? ==> s.coming == [])
    && (s.manager.Draining? ==> s.cancelledAt.Some?)
    && (s.cancelledAt.Some? ==> s.manager.Draining? || s.manager.Closed?)
    && |s.buffer| <= LINE_BUFFER
  }

  /** The timer runs from the last reset, and the cancellation waited for it. */
  predicate Timing(s: System, idle: int) {
    && s.lastReset <= s.now
    && (s.timer.Armed? ==> s.timer.deadline == s.lastReset + idle)
    && (s.timer.Fired? ==> s.lastReset + idle <= s.now)
    && (s.manager.Selecting? || s.manager.Forwarding? ==> !s.timer.Spent?)
    && (s.cancelledAt.Some? ==> s.lastReset + idle <= s.cancelledAt.value <= s.now && s.timer.Spent?)
  }

  /** The output is closed once, when the scanner goroutine is gone. */
  predicate Closing(s: System) {
    s.closes == (if s.manager.Closed? then 1 else 0) && (s.manager.Closed? ==> s.scanner.Exited?)
  }

  lemma NonBlankMore(lines: seq<string>, line: string)
    ensures NonBlank(lines + [line]) == NonBlank(lines) + if line == "" then [] else [line]
  {
    assert (lines + [line])[..|lines|] == lines;
  }

  lemma ScanKeepsLines(s: System, input: seq<string>, broken: bool)
    requires Lines(s, input)
    ensures Lines(Scanned(s, broken), input)
  {
    if s.scanner.Scanning? && s.unread != [] {
      var before := s.selected + s.drained;
      assert Rest(s) == [s.unread[0]] + (s.unread[1..] + s.coming);
      assert before + [] + Rest(s) == before + [s.unread[0]] + (s.unread[1..] + s.coming);
    }
  }

  lemma WriteKeepsLines(s: System, input: seq<string>, idle: int)
    requires Lines(s, input)
    ensures Lines(Do(s, idle, Write), input)
  {
    assert Rest(Do(s, idle, Write)) == Rest(s);
  }

  lemma HandOver(selected: seq<string>, drained: seq<string>, line: string, rest: seq<string>)
    ensures selected + drained + [line] + rest == selected + (drained + [line]) + [] + rest
    ensures drained == [] ==> selected + drained + [line] + rest == (selected + [line]) + drained + [] + rest
  {
  }

  lemma ReceiveKeepsSums(s: System, input: seq<string>, idle: int)
    requires Sums(s, input) && (s.drained != [] ==> !s.manager.Selecting?)
    ensures Sums(Received(s, idle), input)
  {
    if s.scanner.Sending? {
      HandOver(s.selected, s.drained, s.scanner.line, Rest(s));
      assert Rest(Received(s, idle)) == Rest(s);
    }
  }

  lemma ReceiveForwards(s: System, idle: int)
    requires Forwarded(s) == NonBlank(s.selected)
    ensures Forwarded(Received(s, idle)) == NonBlank(Received(s, idle).selected)
  {
    if s.scanner.Sending? && s.manager.Selecting? {
      SelectForwards(s.delivered + s.buffer, s.selected, s.scanner.line);
    }
  }

  lemma SelectForwards(output: seq<string>, selected: seq<string>, line: string)
    requires output + [] == NonBlank(selected)
    ensures output + (if line == "" then [] else [line]) == NonBlank(selected + [line])
  {
    hide NonBlank;
    NonBlankMore(selected, line);
    assert output + [] == output;
  }

  lemma ReceiveKeepsLines(s: System, input: seq<string>, idle: int)
    requires Lines(s, input)
    ensures Lines(Received(s, idle), input)
  {
    hide Sums, Forwarded, NonBlank;
    ReceiveKeepsSums(s, input, idle);
    ReceiveForwards(s, idle);
  }

  lemma OutputKeepsLines(s: System, input: seq<string>, idle: int, a: Action)
    requires Lines(s, input) && (a.Push? || a.Consume?)
    ensures Lines(Do(s, idle, a), input)
  {
    if a.Consume? && s.buffer != [] {
      assert s.delivered + s.buffer == s.delivered + [s.buffer[0]] + s.buffer[1..];
    }
    if a.Push? && s.manager.Forwarding? {
      assert s.delivered + s.buffer + [s.manager.line] == s.delivered + (s.buffer + [s.manager.line]) + [];
    }
  }

  lemma DoKeepsLines(s: System, input: seq<string>, idle: int, a: Action)
    requires Lines(s, input)
    ensures Lines(Do(s, idle, a), input)
  {
    match a
    case Advance(_) =>
    case Fire =>
    case Write => WriteKeepsLines(s, input, idle);
    case Exit =>
    case Scan(broken) => ScanKeepsLines(s, input, broken);
    case Receive => ReceiveKeepsLines(s, input, idle);
    case Timeout =>
    case Push => OutputKeepsLines(s, input, idle, a);
    case Finish =>
    case Consume => OutputKeepsLines(s, input, idle, a);
  }

  lemma DoKeepsTiming(s: System, idle: int, a: Action)
    requires Timing(s, idle) && (s.cancelledAt.Some? ==> s.manager.Draining? || s.manager.Closed?)
    ensures Timing(Do(s, idle, a), idle)
  {
  }

  lemma DoKeepsClosing(s: System, idle: int, a: Action)
    requires Closing(s)
    ensures Closing(Do(s, idle, a))
  {
  }

  lemma {:induction false} RunKeeps(input: seq<string>, idle: int, start: int, schedule: seq<Action>)
    ensures Lines(Run(input, idle, start, schedule), input)
    ensures Timing(Run(input, idle, start, schedule), idle)
    ensures Closing(Run(input, idle, start, schedule))
  {
    if schedule == [] {
      assert input == [] + [] + [] + [] + input;
    } else {
      var before := schedule[..|schedule| - 1];
      RunKeeps(input, idle, start, before);
      DoKeepsLines(Run(input, idle, start, before), input, idle, schedule[|schedule| - 1]);
      DoKeepsTiming(Run(input, idle, start, before), idle, schedule[|schedule| - 1]);
      DoKeepsClosing(Run(input, idle, start, before), idle, schedule[|schedule| - 1]);
    }
  }

  /**
   * In every schedule: what is forwarded is the non-empty lines of a prefix of the input, in order,
   * and of all of it once the output closed without a timeout or a line too long; a cancellation came
   * no sooner than the idle timeout after the last reset; and the output closes at most once, only
   * after the scanner goroutine, so that goroutine is never left with a line to send.
   */
  lemma LinesDelivered(input: seq<string>, idle: int, start: int, schedule: seq<Action>)
    ensures var s := Run(input, idle, start, schedule);
      && s.selected <= input && Forwarded(s) == NonBlank(s.selected)
      && (s.manager.Closed? && s.cancelledAt.None? && !s.cut ==> s.delivered + s.buffer == NonBlank(input))
      && (s.cancelledAt.Some? ==> s.cancelledAt.value - s.lastReset >= idle)
      && s.closes <= 1 && (s.closes == 1 ==> s.scanner.Exited?)
  {
    RunKeeps(input, idle, start, schedule);
    var s := Run(input, idle, start, schedule);
    if s.manager.Closed? && s.cancelledAt.None? && !s.cut {
      assert input == s.selected;
      assert Forwarded(s) == s.delivered + s.buffer;
    }
  }

  lemma RunAppended(input: seq<string>, idle: int, start: int, schedule: seq<Action>, a: Action)
    ensures Run(input, idle, start, schedule + [a]) == Do(Run(input, idle, start, schedule), idle, a)
  {
    assert (schedule + [a])[..|schedule|] == schedule;
  }

  /** The time when the latest non-empty line was taken while selecting; before any, the start. */
  function LastHeard(input: seq<string>, idle: int, start: int, schedule: seq<Action>): int {
    if schedule == [] then start
    else
      var before := schedule[..|schedule| - 1];
      var s, t := Run(input, idle, start, before), Run(input, idle, start, schedule);
      if NonBlank(t.selected) != NonBlank(s.selected) then s.now else LastHeard(input, idle, start, before)
  }

  lemma ResetStep(s: System, idle: int, a: Action)
    ensures var t := Do(s, idle, a);
      t.lastReset == if NonBlank(t.selected) != NonBlank(s.selected) then s.now else s.lastReset
  {
    if a.Receive? && s.scanner.Sending? {
      NonBlankMore(s.selected, s.scanner.line);
    }
  }

  /** The timer is reset by every non-empty line, and by nothing else. */
  lemma {:induction false} ResetExactly(input: seq<string>, idle: int, start: int, schedule: seq<Action>)
    ensures Run(input, idle, start, schedule).lastReset == LastHeard(input, idle, start, schedule)
  {
    if schedule != [] {
      var before := schedule[..|schedule| - 1];
      ResetExactly(input, idle, start, before);
      hide Do, NonBlank;
      ResetStep(Run(input, idle, start, before), idle, schedule[|schedule| - 1]);
    }
  }

  /** The subprocess is cancelled only when nothing was heard for the idle timeout; the timer waits for that. */
  lemma TimeoutExactly(input: seq<string>, idle: int, start: int, schedule: seq<Action>)
    ensures var s, heard := Run(input, idle, start, schedule), LastHeard(input, idle, start, schedule);
      && (s.cancelledAt.Some? ==> s.cancelledAt.value >= heard + idle)
      && (s.timer.Armed? ==> s.timer.deadline == heard + idle)
  {
    RunKeeps(input, idle, start, schedule);
    ResetExactly(input, idle, start, schedule);
  }

  /** A line of 4 MB or more. */
  predicate TooLong(line: string) {
    |line| >= 4_194_304
  }

  /** The scanner has given up on nothing but a line too long, unless the run was cancelled. */
  predicate GivesUpRightly(s: System) {
    && (s.cut && s.cancelledAt.None? ==> s.scanner.Exited? && s.unread != [] && TooLong(s.unread[0]))
    && (s.scanner.Sending? ==> !TooLong(s.scanner.line))
  }

  lemma DoGivesUpRightly(s: System, idle: int, a: Action)
    requires GivesUpRightly(s) && (s.cancelledAt.Some? ==> s.manager.Draining? || s.manager.Closed?)
    ensures GivesUpRightly(Do(s, idle, a))
  {
  }

  /** The scanner gives up on its own only at a line of 4 MB or more, and there always. */
  lemma {:induction false} GivesUpExactly(input: seq<string>, idle: int, start: int, schedule: seq<Action>)
    ensures var s := Run(input, idle, start, schedule);
      && GivesUpRightly(s)
      && (s.cut && s.cancelledAt.None? ==> exists i :: 0 <= i < |input| && TooLong(input[i]))
      && (s.scanner.Scanning? && s.unread != [] && TooLong(s.unread[0]) ==> Do(s, idle, Scan(false)).cut)
      && (s.scanner.Scanning? && s.cancelledAt.Some? ==> Do(s, idle, Scan(true)).scanner.Exited?)
  {
    RunKeeps(input, idle, start, schedule);
    if schedule != [] {
      var before := schedule[..|schedule| - 1];
      GivesUpExactly(input, idle, start, before);
      RunKeeps(input, idle, start, before);
      DoGivesUpRightly(Run(input, idle, start, before), idle, schedule[|schedule| - 1]);
    }
    var s := Run(input, idle, start, schedule);
    if s.cut && s.cancelledAt.None? {
      var i := |s.selected + s.drained + InScanner(s.scanner)|;
      assert input[i] == s.unread[0];
    }
  }

  /** The buffer holds eight lines, and a line to forward enters it exactly while there is room. */
  lemma BufferExactly(input: seq<string>, idle: int, start: int, schedule: seq<Action>)
    ensures var s, t := Run(input, idle, start, schedule), Do(Run(input, idle, start, schedule), idle, Push);
      && |s.buffer| <= 8
      && (s.manager.Forwarding? ==> t.buffer == if |s.buffer| < 8 then s.buffer + [s.manager.line] else s.buffer)
  {
    RunKeeps(input, idle, start, schedule);
  }

  /** Nothing is forwarded after the cancellation, which is never undone or repeated. */
  lemma {:induction false} NothingAfterCancel(input: seq<string>, idle: int, start: int, schedule: seq<Action>,
      more: seq<Action>)
    requires Run(input, idle, start, schedule).cancelledAt.Some?
    ensures Forwarded(Run(input, idle, start, schedule + more)) == Forwarded(Run(input, idle, start, schedule))
    ensures Run(input, idle, start, schedule + more).cancelledAt == Run(input, idle, start, schedule).cancelledAt
  {
    if more == [] {
      assert schedule + more == schedule;
    } else {
      var init, a := more[..|more| - 1], more[|more| - 1];
      NothingAfterCancel(input, idle, start, schedule, init);
      RunKeeps(input, idle, start, schedule + init);
      assert schedule + more == schedule + init + [a];
      RunAppended(input, idle, start, schedule + init, a);
      DoForwardsNothing(Run(input, idle, start, schedule + init), idle, a);
    }
  }

  lemma DoForwardsNothing(s: System, idle: int, a: Action)
    requires s.cancelledAt.Some? && (s.manager.Draining? || s.manager.Closed?)
    ensures Forwarded(Do(s, idle, a)) == Forwarded(s) && Do(s, idle, a).cancelledAt == s.cancelledAt
  {
    if a.Consume? && s.buffer != [] {
      assert s.delivered + s.buffer == s.delivered + [s.buffer[0]] + s.buffer[1..];
    }
  }

  /** What is still to do, apart from waiting. */
  function Work(s: System): nat {
    7 * |s.coming| + 6 * |s.unread| + |s.buffer|
    + (match s.scanner case Scanning => 1 case Sending(_) => 5 case Exited => 0)
    + (match s.manager case Selecting => 2 case Forwarding(_) => 4 case Draining => 1 case Closed => 0)
    + (if s.timer.Armed? then 1 else 0) + (if s.ended then 0 else 1)
  }

  /** Every step but the passing of time is progress, so no run goes on forever. */
  lemma MoveIsProgress(s: System, idle: int, a: Action)
    requires !a.Advance?
    ensures Do(s, idle, a) == s || Work(Do(s, idle, a)) < Work(s)
  {
  }

  predicate Over(s: System) {
    s.manager.Closed? && s.buffer == []
  }

  /** Nothing is left to read, and the subprocess is silent but alive. */
  predicate Blocked(s: System) {
    s.scanner.Scanning? && s.unread == [] && !s.ended && s.buffer == []
  }

  /**
   * In every reachable state that is not over a goroutine or the consumer can move, or all wait for
   * a silent subprocess: then either the timer is running and will end the wait, or it has ended it
   * and the subprocess is about to be gone. There is no other deadlock.
   */
  lemma NoDeadlock(input: seq<string>, idle: int, start: int, schedule: seq<Action>)
    ensures var s := Run(input, idle, start, schedule);
      || Over(s)
      || (exists a: Action :: IsMove(a) && Do(s, idle, a) != s)
      || (Blocked(s) && s.manager.Selecting? && s.timer == Armed(s.lastReset + idle))
      || (Blocked(s) && s.manager.Draining? && s.cancelledAt.Some?)
  {
    RunKeeps(input, idle, start, schedule);
    NoDeadlockAt(Run(input, idle, start, schedule), input, idle);
  }

  lemma NoDeadlockAt(s: System, input: seq<string>, idle: int)
    requires Lines(s, input) && Timing(s, idle) && Closing(s)
    ensures
      || Over(s)
      || (exists a: Action :: IsMove(a) && Do(s, idle, a) != s)
      || (Blocked(s) && s.manager.Selecting? && s.timer == Armed(s.lastReset + idle))
      || (Blocked(s) && s.manager.Draining? && s.cancelledAt.Some?)
  {
    var next := NextMove(s);
    assert IsMove(next);
    if !Over(s) && !Blocked(s) {
      NextMoves(s, idle);
    } else if Blocked(s) && (s.manager.Forwarding? || (s.manager.Selecting? && s.timer.Fired?)) {
      BlockedMoves(s, idle);
    }
  }

  lemma BlockedMoves(s: System, idle: int)
    requires Blocked(s) && (s.manager.Forwarding? || (s.manager.Selecting? && s.timer.Fired?))
    ensures Do(s, idle, NextMove(s)) != s
  {
    assert Do(s, idle, NextMove(s)).manager != s.manager;
  }

  /** The move to make: empty the buffer, forward, time out, read, hand over, or finish. */
  function NextMove(s: System): Action {
    if s.buffer != [] then Consume
    else if s.manager.Forwarding? then Push
    else if s.manager.Selecting? && s.timer.Fired? then Timeout
    else if s.scanner.Scanning? then Scan(false)
    else if s.scanner.Sending? then Receive
    else Finish
  }

  /** A blocked wait ends: once the timeout has passed the timer fires, and the manager cancels. */
  lemma TimerEndsWait(input: seq<string>, idle: int, start: int, schedule: seq<Action>, time: nat)
    requires var s := Run(input, idle, start, schedule);
      Blocked(s) && s.manager.Selecting? && s.timer.Armed? && s.now + time >= s.lastReset + idle
    ensures var s := Run(input, idle, start, schedule + [Advance(time)] + [Fire] + [Timeout]);
      s.cancelledAt == Some(Run(input, idle, start, schedule).now + time) && s.manager.Draining?
  {
    hide Do, Lines;
    RunKeeps(input, idle, start, schedule);
    RunAppended(input, idle, start, schedule, Advance(time));
    RunAppended(input, idle, start, schedule + [Advance(time)], Fire);
    RunAppended(input, idle, start, schedule + [Advance(time)] + [Fire], Timeout);
    TimeoutSteps(Run(input, idle, start, schedule), idle, time);
  }

  lemma TimeoutSteps(s: System, idle: int, time: nat)
    requires s.manager.Selecting? && s.timer.Armed? && s.now + time >= s.timer.deadline
    ensures var t := Do(Do(Do(s, idle, Advance(time)), idle, Fire), idle, Timeout);
      t.cancelledAt == Some(s.now + time) && t.manager.Draining?
  {
  }

  /** After a cancellation, or at the end of the input, everything closes by itself: some move is left until it has. */
  lemma {:induction false} ClosesByItself(input: seq<string>, idle: int, start: int, schedule: seq<Action>)
    returns (more: seq<Action>)
    requires Run(input, idle, start, schedule).ended
    ensures (forall i | 0 <= i < |more| :: IsMove(more[i])) && Over(Run(input, idle, start, schedule + more))
    decreases Work(Run(input, idle, start, schedule))
  {
    hide Run, Over, IsMove, Work;
    if Over(Run(input, idle, start, schedule)) {
      more := [];
      assert schedule + more == schedule;
    } else {
      var next := NextProgress(input, idle, start, schedule);
      var rest := ClosesByItself(input, idle, start, schedule + [next]);
      more := [next] + rest;
      assert schedule + [next] + rest == schedule + more;
    }
  }

  lemma NextProgress(input: seq<string>, idle: int, start: int, schedule: seq<Action>) returns (next: Action)
    requires Run(input, idle, start, schedule).ended && !Over(Run(input, idle, start, schedule))
    ensures IsMove(next) && Run(input, idle, start, schedule + [next]).ended
    ensures Work(Run(input, idle, start, schedule + [next])) < Work(Run(input, idle, start, schedule))
  {
    hide Run, Over, Work, IsMove, NextMove, Do, Lines, Timing, Closing;
    next := NextMove(Run(input, idle, start, schedule));
    RunKeeps(input, idle, start, schedule);
    RunAppended(input, idle, start, schedule, next);
    NextIsProgress(Run(input, idle, start, schedule), input, idle);
  }

  /** The subprocess writes its lines and exits. */
  lemma {:induction false} WritesAll(input: seq<string>, idle: int, start: int, n: nat) returns (schedule: seq<Action>)
    requires n <= |input|
    ensures Run(input, idle, start, schedule) ==
      Initial(input, idle, start).(coming := input[n..], unread := input[..n])
  {
    if n == 0 {
      schedule := [];
    } else {
      var before := WritesAll(input, idle, start, n - 1);
      RunAppended(input, idle, start, before, Write);
      schedule := before + [Write];
      assert input[..n - 1] + [input[n - 1]] == input[..n] && input[n - 1..][1..] == input[n..];
    }
  }

  lemma MoveIsQuiet(s: System, idle: int, a: Action)
    requires IsMove(a) && s.timer.Armed? && s.cancelledAt.None?
    ensures Do(s, idle, a).timer.Armed? && Do(s, idle, a).cancelledAt.None?
  {
  }

  lemma {:induction false} MovesAreQuiet(input: seq<string>, idle: int, start: int, schedule: seq<Action>,
      more: seq<Action>)
    requires forall i | 0 <= i < |more| :: IsMove(more[i])
    requires var s := Run(input, idle, start, schedule); s.timer.Armed? && s.cancelledAt.None?
    ensures var s := Run(input, idle, start, schedule + more); s.timer.Armed? && s.cancelledAt.None?
  {
    if more == [] {
      assert schedule + more == schedule;
    } else {
      var init, a := more[..|more| - 1], more[|more| - 1];
      MovesAreQuiet(input, idle, start, schedule, init);
      assert schedule + more == schedule + init + [a];
      RunAppended(input, idle, start, schedule + init, a);
      MoveIsQuiet(Run(input, idle, start, schedule + init), idle, a);
    }
  }

  /** Output that comes fast enough, with no line too long, is delivered in full: some run does so. */
  lemma DeliversAll(input: seq<string>, idle: int, start: int) returns (schedule: seq<Action>)
    requires forall i | 0 <= i < |input| :: !TooLong(input[i])
    ensures var s := Run(input, idle, start, schedule);
      Over(s) && s.cancelledAt.None? && s.delivered == NonBlank(input)
  {
    var written := WritesAll(input, idle, start, |input|);
    RunAppended(input, idle, start, written, Exit);
    var more := ClosesByItself(input, idle, start, written + [Exit]);
    MovesAreQuiet(input, idle, start, written + [Exit], more);
    schedule := written + [Exit] + more;
    GivesUpExactly(input, idle, start, schedule);
    LinesDelivered(input, idle, start, schedule);
    assert Run(input, idle, start, schedule).buffer == [];
  }

  lemma NextIsProgress(s: System, input: seq<string>, idle: int)
    requires Lines(s, input) && Closing(s) && s.ended && !Over(s)
    ensures IsMove(NextMove(s)) && Do(s, idle, NextMove(s)).ended
    ensures Work(Do(s, idle, NextMove(s))) < Work(s)
  {
    hide Lines, Work;
    NextMoves(s, idle);
    MoveIsProgress(s, idle, NextMove(s));
  }

  /** The chosen move changes something, unless all wait for a silent subprocess. */
  lemma NextMoves(s: System, idle: int)
    requires Closing(s) && !Over(s) && !Blocked(s)
    ensures Do(s, idle, NextMove(s)) != s
  {
    var t := Do(s, idle, NextMove(s));
    if s.buffer != [] {
      assert |t.buffer| < |s.buffer|;
    } else if s.manager.Forwarding? || (s.manager.Selecting? && s.timer.Fired?) {
      assert t.manager != s.manager;
    } else if s.scanner.Scanning? || s.scanner.Sending? {
      assert !s.manager.Closed?;
      assert t.scanner != s.scanner;
    } else {
      assert t.manager != s.manager;
    }
  }

  /** The fast path without an idle timeout: one goroutine forwards every non-empty line. */
  method ScanDirectly(lines: seq<string>) returns (output: seq<string>)
    ensures output == NonBlank(lines)
  {
    output := [];
    for i := 0 to |lines|
      invariant output == NonBlank(lines[..i])
    {
      NonBlankMore(lines[..i], lines[i]);
      assert lines[..i + 1] == lines[..i] + [lines[i]];
      if lines[i] != "" {
        output := output + [lines[i]];
      }
    }
    assert lines[..|lines|] == lines;
  }
}
