/**
 * Where SplitMessage cuts, said about the buffer alone: the last newline or gap in its window, the
 * end of a code block, or the limit only when there is nothing better.
 */
module SplitCuts {
  import opened Text
  import opened SplitStep

  /** 10% of maxLen is kept free, but at least 50 runes, but at most half. */
  lemma LimitExactly(maxLen: int)
    requires maxLen >= 1
    ensures maxLen < 100 ==> EffectiveLimit(maxLen) == maxLen - maxLen / 2
    ensures 100 <= maxLen < 500 ==> EffectiveLimit(maxLen) == maxLen - 50
    ensures maxLen >= 500 ==> EffectiveLimit(maxLen) == maxLen - maxLen / 10
  {
  }

  predicate NoNewline(s: string, lo: int, hi: nat)
    requires hi <= |s|
  {
    forall i | 0 <= i && lo <= i < hi :: s[i] != '\n'
  }

  predicate NoGap(s: string, lo: int, hi: nat)
    requires hi <= |s|
  {
    forall i | 0 <= i && lo <= i < hi :: s[i] != ' ' && s[i] != '\t'
  }

  /** The last newline before hi, and not before lo. */
  predicate IsNewlineCut(s: string, lo: int, hi: nat, r: int)
    requires hi <= |s|
  {
    0 <= r && lo <= r < hi && s[r] == '\n' && NoNewline(s, r + 1, hi)
  }

  predicate IsGapCut(s: string, lo: int, hi: nat, r: int)
    requires hi <= |s|
  {
    0 <= r && lo <= r < hi && (s[r] == ' ' || s[r] == '\t') && NoGap(s, r + 1, hi)
  }

  /** No newline among the last 200 runes before hi, nor a gap among the last 100, all behind start. */
  predicate Unbroken(s: string, start: nat, hi: nat)
    requires hi <= |s|
  {
    NoNewline(s, Max(hi - 200, start + 1), hi) && NoGap(s, Max(hi - 100, start + 1), hi)
  }

  /** The last newline of those 200 runes; with none there, the last gap of those 100. */
  predicate IsBreak(s: string, start: nat, hi: nat, r: int)
    requires hi <= |s|
  {
    || IsNewlineCut(s, Max(hi - 200, start + 1), hi, r)
    || (NoNewline(s, Max(hi - 200, start + 1), hi) && IsGapCut(s, Max(hi - 100, start + 1), hi, r))
  }

  /** The cut before fences are looked at. */
  predicate IsNatural(s: string, start: nat, limit: nat, r: int)
    requires limit <= |s|
  {
    IsBreak(s, start, limit, r) || (Unbroken(s, start, limit) && r == limit)
  }

  lemma BreakExactly(s: string, start: nat, hi: nat)
    requires start <= hi <= |s|
    ensures var newline := FindLast(s, start, hi, 200, IsNewline);
      var r := if newline <= start then FindLast(s, start, hi, 100, IsGap) else newline;
      if r > start then IsBreak(s, start, hi, r) else Unbroken(s, start, hi)
  {
  }

  lemma NaturalExactly(s: string, start: nat, maxLen: int)
    requires maxLen >= 1 && start + maxLen < |s|
    ensures IsNatural(s, start, start + EffectiveLimit(maxLen), Tentative(s, start, maxLen))
  {
    hide FindLast, IsBreak, Unbroken;
    BreakExactly(s, start, start + EffectiveLimit(maxLen));
  }

  /** The fence at u opens the block that a scan of s[start..end] leaves open. */
  ghost predicate LeftOpen(s: string, start: nat, end: nat, u: int)
    requires end <= |s|
  {
    && start <= u && u + 3 <= end && Fence(s, u) && Balanced(s[start..u])
    && forall p | u + 3 <= p && p + 3 <= end :: !Fence(s, p)
  }

  lemma {:induction false} ScanToOpening(s: string, i: nat, end: nat, open: int)
    requires i <= end <= |s| && -1 <= open
    ensures var r := FindUnclosed(s, i, end, open); r >= i && r != open ==> FindUnclosed(s, i, r, open) == -1
    decreases end - i
  {
    if i < end {
      if Fence(s, i) && i + 3 <= end {
        ScanToOpening(s, i + 3, end, if open == -1 then i else -1);
      } else {
        ScanToOpening(s, i + 1, end, open);
      }
    }
  }

  lemma OpeningExactly(s: string, start: nat, end: nat)
    requires start <= end <= |s|
    ensures var u := FindUnclosed(s, start, end, -1);
      if u < 0 then Balanced(s[start..end]) else !Balanced(s[start..end]) && LeftOpen(s, start, end, u)
  {
    UnclosedIsOdd(s, start, end, -1);
    var u := FindUnclosed(s, start, end, -1);
    if u >= 0 {
      ScanToOpening(s, start, end, -1);
      UnclosedIsOdd(s, start, u, -1);
    }
  }

  /** The header to repeat, and where it ends: with the line, or with the fence if the line does not end. */
  lemma HeaderExactly(s: string, u: nat)
    requires Fence(s, u)
    ensures forall n | u <= n < |s| && s[n] == '\n' && NoNewline(s, u, n) ::
      HeaderEnd(s, u) == n && Header(s, u) == TrimSpace(s[u..n])
    ensures NoNewline(s, u, |s|) ==> HeaderEnd(s, u) == u + 3 && Header(s, u) == "```"
  {
    var n := FindNewline(s, u);
    if n == -1 {
      assert s[u..u + 3] == "```";
      assert TrimStart("```", IsSpace) == "```" && TrimEnd("```", IsSpace) == "```";
    }
  }

  /** The last newline of the 200 runes before hi that is behind the header; hi if there is none. */
  predicate IsBetter(s: string, start: nat, header: int, hi: nat, r: int)
    requires hi <= |s|
  {
    var lo := Max(Max(hi - 200, start), header + 1);
    IsNewlineCut(s, lo, hi, r) || (NoNewline(s, lo, hi) && r == hi)
  }

  lemma BetterExactly(s: string, start: nat, header: int, hi: nat)
    requires start <= hi <= |s| && start <= header
    ensures var better := FindLast(s, start, hi, 200, IsNewline);
      IsBetter(s, start, header, hi, if better > header then better else hi)
  {
  }

  /** The choice for a block opened at u that does not close in time. */
  predicate IsInside(s: string, start: nat, maxLen: int, end: nat, u: nat, d: Decision)
    requires maxLen >= 5 && start + maxLen < |s| && u <= |s| && Fence(s, u)
  {
    var inner := start + maxLen - 5;
    if end > HeaderEnd(s, u) + 20 then
      d.Inject? && d.header == Header(s, u) && IsBetter(s, start, HeaderEnd(s, u), inner, d.at)
    else if d.Cut? && d.at < u then IsBreak(s, start, u, d.at)
    else Unbroken(s, start, u) && d == if u - start > 20 then Cut(u) else Inject(inner, Header(s, u))
  }

  lemma InsideExactly(s: string, start: nat, maxLen: int, end: nat, u: nat)
    requires maxLen >= 5 && start + maxLen < |s| && start <= u && u + 3 <= end <= start + maxLen && Fence(s, u)
    ensures IsInside(s, start, maxLen, end, u, DecideInside(s, start, maxLen, end, u))
  {
    if end > HeaderEnd(s, u) + 20 {
      BehindHeader(s, start, maxLen, end, u);
    } else {
      BeforeBlock(s, start, maxLen, end, u);
    }
  }

  lemma BehindHeader(s: string, start: nat, maxLen: int, end: nat, u: nat)
    requires maxLen >= 5 && start + maxLen < |s| && start <= u && u + 3 <= end <= start + maxLen && Fence(s, u)
    requires end > HeaderEnd(s, u) + 20
    ensures IsInside(s, start, maxLen, end, u, DecideInside(s, start, maxLen, end, u))
  {
    HeaderEndBehind(s, u);
    BetterExactly(s, start, HeaderEnd(s, u), start + maxLen - 5);
    hide FindLast, IsBreak, Unbroken, IsBetter, HeaderEnd, Header;
  }

  lemma BeforeBlock(s: string, start: nat, maxLen: int, end: nat, u: nat)
    requires maxLen >= 5 && start + maxLen < |s| && start <= u && u + 3 <= end <= start + maxLen && Fence(s, u)
    requires end <= HeaderEnd(s, u) + 20
    ensures IsInside(s, start, maxLen, end, u, DecideInside(s, start, maxLen, end, u))
  {
    BreakExactly(s, start, u);
    hide FindLast, IsBreak, Unbroken, IsBetter, HeaderEnd, Header;
    var newline := FindLast(s, start, u, 200, IsNewline);
    var before := if newline <= start then FindLast(s, start, u, 100, IsGap) else newline;
    assert before < u || before <= start;
  }

  lemma HeaderEndBehind(s: string, u: nat)
    requires Fence(s, u)
    ensures HeaderEnd(s, u) >= u
  {
  }

  /** A fence from end on ends by hi. */
  ghost predicate ClosesBetween(s: string, end: nat, hi: nat) {
    exists p :: end <= p && p + 3 <= hi && Fence(s, p)
  }

  /** The chunk ends with the first fence from end on. */
  ghost predicate IsClosing(s: string, end: nat, d: Decision) {
    d.Cut? && end <= d.at - 3 && Fence(s, d.at - 3) && forall p | end <= p < d.at - 3 :: !Fence(s, p)
  }

  /** The decision, given the natural cut. */
  ghost predicate IsDecidedAt(s: string, start: nat, maxLen: int, end: nat, d: Decision)
    requires maxLen >= 1 && start + maxLen < |s| && start <= end <= start + maxLen
  {
    if Balanced(s[start..end]) then d == Cut(end)
    else if ClosesBetween(s, end, start + maxLen) then IsClosing(s, end, d)
    else maxLen >= 5 && exists u :: LeftOpen(s, start, end, u) && IsInside(s, start, maxLen, end, u, d)
  }

  /** What an iteration does with the buffer from start on. */
  ghost predicate IsDecided(s: string, start: nat, maxLen: int, d: Decision)
    requires maxLen >= 1 && start < |s|
  {
    if |s| - start <= maxLen then d.Whole?
    else exists end :: IsNaturalCut(s, start, maxLen, end) && IsDecidedAt(s, start, maxLen, end, d)
  }

  predicate IsNaturalCut(s: string, start: nat, maxLen: int, end: int)
    requires maxLen >= 1 && start + maxLen < |s|
  {
    start <= end <= start + maxLen && IsNatural(s, start, start + EffectiveLimit(maxLen), end)
  }

  lemma DecidedExactly(s: string, start: nat, maxLen: int)
    requires maxLen >= 1 && start < |s|
    ensures IsDecided(s, start, maxLen, Decide(s, start, maxLen))
  {
    if |s| - start > maxLen {
      var end := Tentative(s, start, maxLen);
      NaturalExactly(s, start, maxLen);
      assert IsNaturalCut(s, start, maxLen, end);
      DecidedAt(s, start, maxLen, end);
    }
  }

  lemma DecidedAt(s: string, start: nat, maxLen: int, end: nat)
    requires maxLen >= 1 && start + maxLen < |s| && end == Tentative(s, start, maxLen)
    ensures IsDecidedAt(s, start, maxLen, end, Decide(s, start, maxLen))
  {
    var u, closing := FindUnclosed(s, start, end, -1), FindClosing(s, end);
    OpeningExactly(s, start, end);
    ClosingExactly(s, end, start + maxLen);
    hide FindUnclosed, FindClosing, Tentative, Balanced, LeftOpen, DecideInside, IsInside, IsClosing, ClosesBetween;
    if u >= 0 && !(closing > 0 && closing - start <= maxLen) {
      BlockFits(s, start, maxLen, end, u);
      InsideExactly(s, start, maxLen, end, u);
    }
  }

  lemma ClosingExactly(s: string, end: nat, hi: nat)
    requires end <= hi <= |s|
    ensures var closing := FindClosing(s, end);
      if 0 < closing <= hi then ClosesBetween(s, end, hi) && IsClosing(s, end, Cut(closing))
      else !ClosesBetween(s, end, hi)
  {
    var closing := FindClosing(s, end);
    if closing > 0 {
      assert Fence(s, closing - 3);
    }
  }

  lemma BlockFits(s: string, start: nat, maxLen: int, end: nat, u: nat)
    requires maxLen >= 1 && start + maxLen < |s| && end <= start + EffectiveLimit(maxLen)
    requires end <= |s| && LeftOpen(s, start, end, u)
    ensures maxLen >= 5 && Fence(s, u) && start <= u && u + 3 <= end
  {
  }

  predicate AllBlank(s: string, lo: nat, hi: nat)
    requires hi <= |s|
  {
    forall i | lo <= i < hi :: s[i] == ' ' || s[i] == '\t' || s[i] == '\n' || s[i] == '\r'
  }

  /** body is s[start..at] without the blanks at its end. */
  ghost predicate IsTrimmed(s: string, start: nat, at: nat, body: string)
    requires start <= at <= |s|
  {
    && |body| <= at - start && body == s[start..start + |body|] && AllBlank(s, start + |body|, at)
    && (body != "" ==> body[|body| - 1] !in " \t\n\r")
  }

  /** The chunk that a decision sends, and the buffer and position it leaves. */
  ghost predicate IsSent(st: State, d: Decision, chunk: string, t: State)
    requires st.Valid() && (d.Whole? || st.start <= d.at <= |st.runes|)
  {
    && t.chunks == st.chunks + [chunk]
    && match d
       case Whole => chunk == st.runes[st.start..] && t.Done()
       case Cut(at) =>
         && chunk == st.runes[st.start..at] && t.runes == st.runes && at <= t.start <= |t.runes|
         && AllBlank(t.runes, at, t.start) && (t.start < |t.runes| ==> t.runes[t.start] !in " \t\n\r")
       case Inject(at, header) =>
         && |chunk| >= 4 && chunk[|chunk| - 4..] == "\n```"
         && IsTrimmed(st.runes, st.start, at, chunk[..|chunk| - 4])
         && t.start == 0 && t.runes == TrimSpace(header + "\n" + st.runes[at..])
  }

  lemma TrimExactly(s: string, start: nat, at: nat)
    requires start <= at <= |s|
    ensures IsTrimmed(s, start, at, TrimEnd(s[start..at], IsBlank))
  {
    var part := s[start..at];
    var n := EndOf(part, |part|, IsBlank);
    forall i | start + n <= i < at ensures IsBlank(s[i]) {
      assert s[i] == part[i - start];
    }
  }

  lemma SentExactly(st: State, d: Decision)
    requires st.Valid() && (d.Whole? || st.start <= d.at <= |st.runes|)
    ensures exists chunk :: IsSent(st, d, chunk, Apply(st, d))
  {
    match d
    case Whole =>
      assert IsSent(st, d, st.runes[st.start..], Apply(st, d));
    case Cut(at) =>
      assert IsSent(st, d, st.runes[st.start..at], Apply(st, d));
    case Inject(at, header) =>
      TrimExactly(st.runes, st.start, at);
      assert Closed(st.runes, st.start, at)[..|Closed(st.runes, st.start, at)| - 4] ==
        TrimEnd(st.runes[st.start..at], IsBlank);
      hide TrimEnd, TrimSpace, IsTrimmed;
      assert IsSent(st, d, Closed(st.runes, st.start, at), Apply(st, d));
  }

  /** In every run, each iteration sends one chunk, cut where the buffer says. */
  lemma RunCutsExactly(content: string, maxLen: int, n: nat) returns (d: Decision, chunk: string)
    requires maxLen >= 1 && !Run(content, maxLen, n).Done()
    ensures var st := Run(content, maxLen, n);
      && IsDecided(st.runes, st.start, maxLen, d) && (d.Whole? || st.start <= d.at <= |st.runes|)
      && IsSent(st, d, chunk, Run(content, maxLen, n + 1))
  {
    var st := Run(content, maxLen, n);
    d := Decide(st.runes, st.start, maxLen);
    DecidedExactly(st.runes, st.start, maxLen);
    SentExactly(st, d);
    chunk :| IsSent(st, d, chunk, Apply(st, d));
  }

  /** The cut is at white space, or at the end or the beginning of a code block. */
  ghost predicate AtBreak(s: string, at: nat)
    requires at < |s|
  {
    s[at] in "\n \t" || Fence(s, at - 3) || Fence(s, at)
  }

  lemma InsideAtBreak(s: string, start: nat, maxLen: int, end: nat, u: nat, d: Decision)
    requires maxLen >= 5 && start + maxLen < |s| && start <= u && Fence(s, u)
    requires IsInside(s, start, maxLen, end, u, d) && d.Cut? && 0 <= d.at < |s|
    ensures AtBreak(s, d.at)
  {
    hide HeaderEnd, Header, Unbroken, IsBetter;
  }

  /** A cut other than the natural one is at a break. */
  lemma DecidedAtBreak(s: string, start: nat, maxLen: int, end: nat, d: Decision)
    requires maxLen >= 1 && start + maxLen < |s| && start <= end <= start + maxLen
    requires IsDecidedAt(s, start, maxLen, end, d) && d.Cut? && 0 <= d.at < |s|
    ensures d.at == end || AtBreak(s, d.at)
  {
    hide IsInside, ClosesBetween, Balanced;
    if !Balanced(s[start..end]) && !ClosesBetween(s, end, start + maxLen) {
      var u :| LeftOpen(s, start, end, u) && IsInside(s, start, maxLen, end, u, d);
      InsideAtBreak(s, start, maxLen, end, u, d);
    }
  }

  lemma NaturalAtBreak(s: string, start: nat, limit: nat, r: int)
    requires limit < |s| && IsNatural(s, start, limit, r) && 0 <= r < |s| && !AtBreak(s, r)
    ensures r == limit && Unbroken(s, start, r)
  {
    hide Unbroken;
  }

  lemma CutAtBreak(s: string, start: nat, maxLen: int, d: Decision)
    requires maxLen >= 1 && start < |s| && IsDecided(s, start, maxLen, d)
    requires d.Cut? && start <= d.at < |s| && !AtBreak(s, d.at)
    ensures d.at == start + EffectiveLimit(maxLen) && Unbroken(s, start, d.at)
  {
    var end :| IsNaturalCut(s, start, maxLen, end) && IsDecidedAt(s, start, maxLen, end, d);
    hide AtBreak, Unbroken, IsDecidedAt, IsNatural;
    DecidedAtBreak(s, start, maxLen, end, d);
    NaturalAtBreak(s, start, start + EffectiveLimit(maxLen), end);
  }

  /**
   * In every run, a chunk that ends anywhere else, so inside a word, is a full one: it ends at the
   * limit, and there is no newline among the last 200 runes before it and no space or tab among the
   * last 100.
   */
  lemma WordsKept(content: string, maxLen: int, n: nat) returns (d: Decision, chunk: string)
    requires maxLen >= 1 && !Run(content, maxLen, n).Done()
    ensures var st := Run(content, maxLen, n);
      && (d.Whole? || st.start <= d.at <= |st.runes|) && IsSent(st, d, chunk, Run(content, maxLen, n + 1))
      && (d.Cut? && d.at < |st.runes| && !AtBreak(st.runes, d.at) ==>
            d.at == st.start + EffectiveLimit(maxLen) && Unbroken(st.runes, st.start, d.at))
  {
    d, chunk := RunCutsExactly(content, maxLen, n);
    var st := Run(content, maxLen, n);
    if d.Cut? && d.at < |st.runes| && !AtBreak(st.runes, d.at) {
      CutAtBreak(st.runes, st.start, maxLen, d);
    }
  }

  ghost predicate IsCut(st: State, maxLen: int, d: Decision, chunk: string, t: State)
    requires maxLen >= 1 && st.Valid() && !st.Done()
  {
    && IsDecided(st.runes, st.start, maxLen, d) && (d.Whole? || st.start <= d.at <= |st.runes|)
    && IsSent(st, d, chunk, t)
  }

  /** The chunk is what iteration k sends, cut where the buffer says. */
  ghost predicate CutRight(content: string, maxLen: int, k: nat, chunk: string)
    requires maxLen >= 1
  {
    var st, t := Run(content, maxLen, k), Run(content, maxLen, k + 1);
    !st.Done() && exists d :: IsCut(st, maxLen, d, chunk, t)
  }

  ghost predicate AllCutRight(content: string, maxLen: int, chunks: seq<string>)
    requires maxLen >= 1
  {
    forall k | 0 <= k < |chunks| :: CutRight(content, maxLen, k, chunks[k])
  }

  lemma IterationCutsRight(content: string, maxLen: int, k: nat) returns (chunk: string)
    requires maxLen >= 1 && !Run(content, maxLen, k).Done()
    ensures CutRight(content, maxLen, k, chunk)
    ensures Run(content, maxLen, k + 1).chunks == Run(content, maxLen, k).chunks + [chunk]
  {
    var d;
    d, chunk := RunCutsExactly(content, maxLen, k);
    var st, t := Run(content, maxLen, k), Run(content, maxLen, k + 1);
    hide Run, IsDecided;
    ChunkAdded(st, d, chunk, t);
    hide IsSent;
    assert IsCut(st, maxLen, d, chunk, t);
  }

  lemma ChunkAdded(st: State, d: Decision, chunk: string, t: State)
    requires st.Valid() && (d.Whole? || st.start <= d.at <= |st.runes|) && IsSent(st, d, chunk, t)
    ensures t.chunks == st.chunks + [chunk]
  {
  }

  lemma DoneStays(content: string, maxLen: int, n: nat)
    requires maxLen >= 1 && Run(content, maxLen, n).Done()
    ensures Run(content, maxLen, n + 1) == Run(content, maxLen, n)
  {
  }

  lemma OneMore(content: string, maxLen: int, chunks: seq<string>, chunk: string)
    requires maxLen >= 1 && AllCutRight(content, maxLen, chunks) && CutRight(content, maxLen, |chunks|, chunk)
    ensures AllCutRight(content, maxLen, chunks + [chunk])
  {
    hide CutRight;
  }

  ghost predicate SentRight(content: string, maxLen: int, n: nat)
    requires maxLen >= 1
  {
    && AllCutRight(content, maxLen, Run(content, maxLen, n).chunks)
    && (!Run(content, maxLen, n).Done() ==> |Run(content, maxLen, n).chunks| == n)
  }

  lemma SentNext(content: string, maxLen: int, n: nat)
    requires maxLen >= 1 && SentRight(content, maxLen, n)
    ensures SentRight(content, maxLen, n + 1)
  {
    hide Run, AllCutRight, CutRight;
    if Run(content, maxLen, n).Done() {
      DoneStays(content, maxLen, n);
    } else {
      var chunk := IterationCutsRight(content, maxLen, n);
      OneMore(content, maxLen, Run(content, maxLen, n).chunks, chunk);
    }
  }

  lemma SentFirst(content: string, maxLen: int)
    requires maxLen >= 1
    ensures SentRight(content, maxLen, 0)
  {
    assert Run(content, maxLen, 0) == State(content, 0, []);
    hide CutRight, Run;
  }

  lemma {:induction false} SentAlways(content: string, maxLen: int, n: nat)
    requires maxLen >= 1
    ensures SentRight(content, maxLen, n)
  {
    hide SentRight, Run;
    if n == 0 {
      SentFirst(content, maxLen);
    } else {
      SentAlways(content, maxLen, n - 1);
      SentNext(content, maxLen, n - 1);
    }
  }

  /** So the k-th chunk of every run is that of iteration k. */
  lemma ChunksCutRight(content: string, maxLen: int, n: nat)
    requires maxLen >= 1
    ensures AllCutRight(content, maxLen, Run(content, maxLen, n).chunks)
  {
    hide AllCutRight, Run;
    SentAlways(content, maxLen, n);
  }
}
