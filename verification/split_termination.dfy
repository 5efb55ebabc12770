/** When the loop of SplitMessage ends, and when it rewrites its buffer forever. */
module SplitTermination {
  import opened Text
  import opened SplitStep
  import opened SplitHeaders

  /** Room for every header of the content in a chunk. For maxLen <= 4 no fence is ever seen. */
  ghost predicate HeadersFit(content: string, maxLen: int) {
    maxLen <= 4 || forall u | Fence(content, u) :: |Header(content, u)| + 7 <= maxLen
  }

  /** A newline found nearer to maxLen than the tentative cut lies at or beyond that cut. */
  lemma BetterIsBeyond(s: string, start: nat, maxLen: int, better: int)
    requires maxLen >= 10 && start + maxLen < |s|
    requires better == FindLast(s, start, start + maxLen - 5, 200, IsNewline)
    ensures better > start ==> better >= Tentative(s, start, maxLen)
  {
    var end := Tentative(s, start, maxLen);
    assert better > start ==> s[better] == '\n';
    assert s[end] == '\n' && end < start + maxLen - 205 ==> better < start || end < better;
  }

  /**
   * A rewrite after enough text of the block drops at least 21 runes more than the header it
   * adds, whatever the header; the last resort takes a full chunk.
   */
  lemma InsideShrinks(s: string, start: nat, maxLen: int, end: nat, open: nat)
    requires maxLen >= 5 && start + maxLen < |s| && start <= open && open + 3 <= end
    requires end == Tentative(s, start, maxLen) && Fence(s, open)
    requires DecideInside(s, start, maxLen, end, open).Inject?
    ensures var d := DecideInside(s, start, maxLen, end, open);
      if end > HeaderEnd(s, open) + 20 then d.at - start > |d.header| + 20 else d.at == start + maxLen - 5
  {
    HeaderEndBeyond(s, open);
    if end > HeaderEnd(s, open) + 20 {
      BetterIsBeyond(s, start, maxLen, FindLast(s, start, start + maxLen - 5, 200, IsNewline));
    }
  }

  lemma InjectShrinks(s: string, start: nat, maxLen: int)
    requires maxLen >= 1 && start < |s| && Decide(s, start, maxLen).Inject?
    ensures var d := Decide(s, start, maxLen);
      d.at - start > |d.header| + 20 || d.at == start + maxLen - 5
  {
    var end := Tentative(s, start, maxLen);
    var open := FindUnclosed(s, start, end, -1);
    InsideShrinks(s, start, maxLen, end, open);
  }

  lemma HeaderEndBeyond(s: string, u: nat)
    requires Fence(s, u)
    ensures HeaderEnd(s, u) >= u + |Header(s, u)| >= u + 3
  {
    if FindNewline(s, u) == -1 {
      BareHeader(s, u);
    } else {
      var n, newline := HeaderIsSpan(s, u);
    }
  }

  /** How much is left to send; the run is over when nothing is. */
  function Left(st: State): nat
    requires st.Valid()
  {
    |st.runes| - st.start
  }

  lemma ReopenedIsShorter(content: string, s: string, start: nat, maxLen: int, at: nat, u: nat)
    requires maxLen >= 5 && start <= at < |s| && Fence(s, u)
    requires HeadersFrom(content, s) && HeadersFit(content, maxLen)
    requires at - start > |Header(s, u)| + 20 || at == start + maxLen - 5
    ensures |Reopened(s, at, Header(s, u))| < |s| - start
  {
    hide Header, Reopened, HeadersFit;
    var h := Header(s, u);
    HeaderShape(s, u);
    ReopenedText(s, at, h);
    CopiedFits(content, h, maxLen);
  }

  /** If the headers fit, every iteration leaves less to send, although it may rewrite the buffer. */
  lemma StepShrinks(content: string, st: State, maxLen: int)
    requires maxLen >= 1 && st.Valid()
    requires HeadersFrom(content, st.runes) && HeadersFit(content, maxLen)
    ensures Left(Step(st, maxLen)) < Left(st) || Left(Step(st, maxLen)) == Left(st) == 0
  {
    if !st.Done() && Decide(st.runes, st.start, maxLen).Inject? {
      var u := InjectedHeader(st.runes, st.start, maxLen);
      InjectShrinks(st.runes, st.start, maxLen);
      ReopenedIsShorter(content, st.runes, st.start, maxLen, Decide(st.runes, st.start, maxLen).at, u);
    }
  }

  lemma CopiedFits(content: string, h: string, maxLen: int)
    requires maxLen >= 5 && Copied(content, h) && HeadersFit(content, maxLen)
    ensures |h| + 7 <= maxLen
  {
    var u :| Fence(content, u) && (h == "```" || h == Header(content, u));
    HeaderShape(content, u);
  }

  ghost predicate Shrinking(content: string, st: State, k: nat) {
    st.Valid() && HeadersFrom(content, st.runes) && Left(st) <= Max(0, |content| - k)
  }

  lemma StepShrinking(content: string, st: State, k: nat, maxLen: int)
    requires maxLen >= 1 && HeadersFit(content, maxLen) && Shrinking(content, st, k)
    ensures Shrinking(content, Step(st, maxLen), k + 1)
  {
    StepHeaders(content, st, maxLen);
    StepShrinks(content, st, maxLen);
  }

  /** If the headers fit, |content| iterations suffice. */
  lemma Terminates(content: string, maxLen: int, n: nat)
    requires maxLen >= 1 && HeadersFit(content, maxLen)
    ensures Left(Run(content, maxLen, n)) <= Max(0, |content| - n)
    ensures n >= |content| ==> Run(content, maxLen, n).Done()
  {
    var inv := (st: State, k: nat) => Shrinking(content, st, k);
    HeadersFromSelf(content);
    assert Shrinking(content, State(content, 0, []), 0);
    forall st: State, k: nat | st.Valid() && inv(st, k) ensures inv(Step(st, maxLen), k + 1) {
      StepShrinking(content, st, k, maxLen);
    }
    Invariant(content, maxLen, n, inv);
    assert Shrinking(content, Run(content, maxLen, n), n);
  }

  /**
   * A buffer that opens with a header line of n >= maxLen - 6 runes whose block does not close
   * within maxLen.
   */
  ghost predicate Stuck(s: string, n: nat, maxLen: int) {
    && 5 <= maxLen <= n + 6 && maxLen < |s|
    && Span(s, 0, n, n)
    && (forall p | 1 <= p && p + 3 <= maxLen :: !Fence(s, p))
    && !IsSpace(s[|s| - 1])
  }

  lemma {:induction false} ScanSkips(s: string, i: nat, j: nat, end: nat, open: int)
    requires i <= j <= end <= |s| && -1 <= open && forall p | i <= p < j && p + 3 <= end :: !Fence(s, p)
    ensures FindUnclosed(s, i, end, open) == FindUnclosed(s, j, end, open)
    decreases j - i
  {
    if i < j {
      ScanSkips(s, i + 1, j, end, open);
    }
  }

  lemma StuckScan(s: string, n: nat, maxLen: int)
    requires Stuck(s, n, maxLen)
    ensures var end := Tentative(s, 0, maxLen);
      end >= 3 && FindUnclosed(s, 0, end, -1) == 0 && (FindClosing(s, end) == -1 || FindClosing(s, end) > maxLen)
  {
    var end := Tentative(s, 0, maxLen);
    assert end >= 3;
    ScanSkips(s, 3, end, end, 0);
  }

  lemma StuckDecision(s: string, n: nat, maxLen: int)
    requires Stuck(s, n, maxLen)
    ensures Decide(s, 0, maxLen) == Inject(maxLen - 5, s[..n])
  {
    StuckScan(s, n, maxLen);
    var end := Tentative(s, 0, maxLen);
    SpanIsHeader(s, 0, n, n);
    assert HeaderEnd(s, 0) == n && Header(s, 0) == s[..n];
    assert DecideInside(s, 0, maxLen, end, 0) == Inject(maxLen - 5, s[..n]);
  }

  lemma StuckStays(s: string, n: nat, maxLen: int)
    requires Stuck(s, n, maxLen)
    ensures Stuck(Reopened(s, maxLen - 5, s[..n]), n, maxLen)
  {
    hide Reopened;
    var h := s[..n];
    StuckHeader(s, n, maxLen);
    ReopenedText(s, maxLen - 5, h);
    StuckShape(s, n, maxLen, Reopened(s, maxLen - 5, h));
  }

  lemma StuckHeader(s: string, n: nat, maxLen: int)
    requires Stuck(s, n, maxLen)
    ensures Fence(s[..n], 0) && !IsSpace(s[..n][n - 1])
  {
    SpanShape(s, 0, n, n, s[0..n]);
    assert s[0..n] == s[..n];
  }

  /** The old block still does not close within maxLen of the start of the new buffer. */
  lemma StuckShape(s: string, n: nat, maxLen: int, buf: string)
    requires Stuck(s, n, maxLen)
    requires |buf| == n + 1 + |s| - (maxLen - 5) && buf[n] == '\n'
    requires forall i | 0 <= i < n :: buf[i] == s[i]
    requires forall i | n < i < |buf| :: buf[i] == s[maxLen - 5 + i - n - 1]
    requires !IsSpace(buf[|buf| - 1])
    ensures Stuck(buf, n, maxLen)
  {
    forall p | 1 <= p && p + 3 <= maxLen ensures !Fence(buf, p) {
      if p + 3 <= n {
        assert Fence(buf, p) == Fence(s, p);
      } else if p > n {
        assert buf[p] == s[maxLen - 6 + p - n] && buf[p + 1] == s[maxLen - 5 + p - n];
        assert buf[p + 2] == s[maxLen - 4 + p - n];
        assert Fence(buf, p) ==> Fence(s, maxLen - 6 + p - n);
      }
    }
  }

  ghost predicate StuckState(st: State, n: nat, maxLen: int) {
    st.start == 0 && Stuck(st.runes, n, maxLen)
  }

  lemma StuckStep(st: State, n: nat, maxLen: int)
    requires StuckState(st, n, maxLen)
    ensures StuckState(Step(st, maxLen), n, maxLen)
  {
    StuckDecision(st.runes, n, maxLen);
    StuckStays(st.runes, n, maxLen);
  }

  /** With a stuck content the loop never ends. */
  lemma StuckForever(content: string, maxLen: int, k: nat, n: nat)
    requires maxLen >= 1 && Stuck(content, n, maxLen)
    ensures !Run(content, maxLen, k).Done()
  {
    var inv := (st: State, k: nat) => StuckState(st, n, maxLen);
    forall st: State, k: nat | st.Valid() && inv(st, k) ensures inv(Step(st, maxLen), k + 1) {
      StuckStep(st, n, maxLen);
    }
    Invariant(content, maxLen, k, inv);
  }
}
