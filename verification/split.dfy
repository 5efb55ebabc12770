/**
 * SplitMessage and its helpers as loops over the rune buffer, proved equal to the functions
 * of SplitStep; and what this says of the chunks that a call returns.
 */
module Split {
  import opened Text
  import opened SplitStep
  import opened SplitConservation
  import opened SplitTermination
  import opened SplitExact
  import opened SplitIntegrity
  import opened SplitCuts

  lemma ScanStep(s: string, i: nat, end: nat, open: int)
    requires i < end <= |s| && -1 <= open
    ensures FindUnclosed(s, i, end, open) ==
      if Fence(s, i) && i + 3 <= end then FindUnclosed(s, i + 3, end, if open == -1 then i else -1)
      else FindUnclosed(s, i + 1, end, open)
    ensures FindUnclosed(s, end, end, open) == open
  {
  }

  method FindLastUnclosedCodeBlockInRange(runes: string, start: nat, end: nat) returns (r: int)
    requires start <= end <= |runes|
    ensures r == FindUnclosed(runes, start, end, -1)
  {
    var inCodeBlock := false;
    var lastOpenIdx := -1;
    var i := start;
    ghost var found := FindUnclosed(runes, start, end, -1);
    while i < end
      invariant start <= i <= end && -1 <= lastOpenIdx && (inCodeBlock ==> lastOpenIdx >= 0)
      invariant found == FindUnclosed(runes, i, end, if inCodeBlock then lastOpenIdx else -1)
    {
      hide FindUnclosed;
      ScanStep(runes, i, end, if inCodeBlock then lastOpenIdx else -1);
      if i + 2 < end && runes[i] == '`' && runes[i + 1] == '`' && runes[i + 2] == '`' {
        if !inCodeBlock {
          lastOpenIdx := i;
        }
        inCodeBlock := !inCodeBlock;
        i := i + 2;
      }
      i := i + 1;
    }
    return if inCodeBlock then lastOpenIdx else -1;
  }

  method FindNextClosingCodeBlockInRange(runes: string, startIdx: nat, end: nat) returns (r: int)
    requires startIdx <= end == |runes|
    ensures r == FindClosing(runes, startIdx)
  {
    for i := startIdx to end
      invariant FindClosing(runes, startIdx) == FindClosing(runes, i)
    {
      if i + 2 < end && runes[i] == '`' && runes[i + 1] == '`' && runes[i + 2] == '`' {
        return i + 3;
      }
    }
    return -1;
  }

  method FindNewlineFrom(runes: string, from: nat) returns (r: int)
    requires from <= |runes|
    ensures r == FindNewline(runes, from)
  {
    for i := from to |runes|
      invariant FindNewline(runes, from) == FindNewline(runes, i)
    {
      if runes[i] == '\n' {
        return i;
      }
    }
    return -1;
  }

  method FindLastNewlineInRange(runes: string, start: nat, end: nat, searchWindow: nat) returns (r: int)
    requires start <= end <= |runes|
    ensures r == FindLast(runes, start, end, searchWindow, IsNewline)
  {
    var searchStart := Max(end - searchWindow, start);
    var i := end - 1;
    while i >= searchStart
      invariant searchStart - 1 <= i < end || (i == end - 1 && end == start)
      invariant LastIn(runes, searchStart, end, IsNewline) == LastIn(runes, searchStart, i + 1, IsNewline)
    {
      if runes[i] == '\n' {
        return i;
      }
      i := i - 1;
    }
    return start - 1;
  }

  method FindLastSpaceInRange(runes: string, start: nat, end: nat, searchWindow: nat) returns (r: int)
    requires start <= end <= |runes|
    ensures r == FindLast(runes, start, end, searchWindow, IsGap)
  {
    var searchStart := Max(end - searchWindow, start);
    var i := end - 1;
    while i >= searchStart
      invariant searchStart - 1 <= i < end || (i == end - 1 && end == start)
      invariant LastIn(runes, searchStart, end, IsGap) == LastIn(runes, searchStart, i + 1, IsGap)
    {
      if runes[i] == ' ' || runes[i] == '\t' {
        return i;
      }
      i := i - 1;
    }
    return start - 1;
  }

  /** The header of the block to reopen, and where its line ends. */
  method OpenHeader(runes: string, unclosedIdx: nat) returns (header: string, headerEndIdx: int)
    requires Fence(runes, unclosedIdx)
    ensures header == Header(runes, unclosedIdx) && headerEndIdx == HeaderEnd(runes, unclosedIdx)
  {
    var headerEnd := FindNewlineFrom(runes, unclosedIdx);
    if headerEnd == -1 {
      header := TrimSpace(runes[unclosedIdx..unclosedIdx + 3]);
    } else {
      header := TrimSpace(runes[unclosedIdx..headerEnd]);
    }
    headerEndIdx := unclosedIdx + |header|;
    if headerEnd != -1 {
      headerEndIdx := headerEnd;
    }
  }

  /** The cut inside an unclosed block of SplitMessage. */
  method CutInside(runes: string, start: nat, maxLen: int, end: nat, unclosedIdx: nat) returns (d: Decision)
    requires maxLen >= 5 && start + maxLen < |runes| && start <= unclosedIdx
    requires unclosedIdx + 3 <= end <= start + maxLen && Fence(runes, unclosedIdx)
    ensures d == DecideInside(runes, start, maxLen, end, unclosedIdx)
  {
    var totalLen := |runes|;
    var header, headerEndIdx := OpenHeader(runes, unclosedIdx);
    if end > headerEndIdx + 20 {
      var innerLimit := Min(start + maxLen - 5, totalLen);
      var betterEnd := FindLastNewlineInRange(runes, start, innerLimit, 200);
      return Inject(if betterEnd > headerEndIdx then betterEnd else innerLimit, header);
    }
    var newEnd := FindLastNewlineInRange(runes, start, unclosedIdx, 200);
    if newEnd <= start {
      newEnd := FindLastSpaceInRange(runes, start, unclosedIdx, 100);
    }
    if newEnd > start {
      return Cut(newEnd);
    }
    if unclosedIdx - start > 20 {
      return Cut(unclosedIdx);
    }
    return Inject(Min(start + maxLen - 5, totalLen), header);
  }

  /**
   * What a call promises: chunks of 1 to maxLen runes, each cut where the buffer says; if it ended,
   * all the visible text in order; that it ends, if the headers fit; and if fences start their lines,
   * balanced chunks exactly of balanced content, and for trimmed content an end exactly if every code
   * block can be sent.
   */
  ghost predicate Promised(content: string, maxLen: int, fuel: nat, messages: seq<string>, finished: bool)
    requires maxLen >= 1
  {
    && Sized(messages, maxLen) && AllCutRight(content, maxLen, messages)
    && (finished ==> Carried(content, messages))
    && (HeadersFit(content, maxLen) && fuel >= |content| ==> finished)
    && (FencesAtLineStart(content) && LargeEnough(content, maxLen) && finished ==> Mirrors(content, messages))
    && (FencesAtLineStart(content) && Trimmed(content) && fuel >= |content| ==>
          (finished <==> Returns(content, maxLen)))
  }

  /**
   * SplitMessage. The source's loop has no bound; here it makes at most `fuel` iterations and
   * `finished` says whether it ended by itself.
   */
  method SplitMessage(content: string, maxLen: int, fuel: nat) returns (messages: seq<string>, finished: bool)
    ensures maxLen <= 0 ==> finished && messages == if content == "" then [] else [content]
    ensures maxLen >= 1 ==>
      messages == Run(content, maxLen, fuel).chunks && finished == Run(content, maxLen, fuel).Done()
    ensures maxLen >= 1 ==> Promised(content, maxLen, fuel, messages, finished)
  {
    if maxLen <= 0 {
      if content == "" {
        return [], true;
      }
      return [content], true;
    }
    var runes := content;
    messages := [];
    var start: nat := 0;
    var i := 0;
    while start < |runes| && i < fuel
      invariant i <= fuel && start <= |runes|
      invariant State(runes, start, messages) == Run(content, maxLen, i)
      decreases fuel - i
    {
      runes, start, messages := Iterate(runes, start, messages, maxLen);
      i := i + 1;
    }
    finished := start >= |runes|;
    EndStays(content, maxLen, i, fuel);
    Promises(content, maxLen, fuel);
  }

  /** Iterations after the end change nothing. */
  lemma {:induction false} EndStays(content: string, maxLen: int, k: nat, n: nat)
    requires maxLen >= 1 && k <= n
    ensures k == n || Run(content, maxLen, k).Done() ==> Run(content, maxLen, n) == Run(content, maxLen, k)
  {
    if k < n {
      EndStays(content, maxLen, k, n - 1);
    }
  }

  lemma Promises(content: string, maxLen: int, n: nat)
    requires maxLen >= 1
    ensures Promised(content, maxLen, n, Run(content, maxLen, n).chunks, Run(content, maxLen, n).Done())
  {
    ChunkLengths(content, maxLen, n);
    ChunksCutRight(content, maxLen, n);
    if Run(content, maxLen, n).Done() {
      var pieces := InkConserved(content, maxLen, n);
      assert CarriedBy(content, Run(content, maxLen, n).chunks, pieces);
    }
    if HeadersFit(content, maxLen) {
      Terminates(content, maxLen, n);
    }
    if FencesAtLineStart(content) && LargeEnough(content, maxLen) && Run(content, maxLen, n).Done() {
      FinishedIntegrity(content, maxLen, n);
    }
    if FencesAtLineStart(content) && Trimmed(content) && n >= |content| {
      TerminationExact(content, maxLen);
      assert EndsBy(content, maxLen, n) <==> Run(content, maxLen, n).Done();
      EndStays(content, maxLen, |content|, n);
    }
  }

  /** The size of a chunk that leaves room for a closing fence of SplitMessage. */
  method ComputeLimit(maxLen: int) returns (effectiveLimit: int)
    requires maxLen >= 1
    ensures effectiveLimit == EffectiveLimit(maxLen)
  {
    var codeBlockBuffer := Max(maxLen / 10, 50);
    if codeBlockBuffer > maxLen / 2 {
      codeBlockBuffer := maxLen / 2;
    }
    return Max(maxLen - codeBlockBuffer, maxLen / 2);
  }

  /** The natural cut before fences are considered of SplitMessage. */
  method NaturalEnd(runes: string, start: nat, maxLen: int, effectiveLimit: int) returns (msgEnd: int)
    requires maxLen >= 1 && start + maxLen < |runes| && effectiveLimit == EffectiveLimit(maxLen)
    ensures msgEnd == Tentative(runes, start, maxLen)
  {
    hide FindLast;
    var end := start + effectiveLimit;
    msgEnd := FindLastNewlineInRange(runes, start, end, 200);
    if msgEnd <= start {
      msgEnd := FindLastSpaceInRange(runes, start, end, 100);
    }
    if msgEnd <= start {
      msgEnd := end;
    }
  }

  /** The decision of one iteration of SplitMessage. */
  method FindCut(runes: string, start: nat, maxLen: int) returns (d: Decision)
    requires maxLen >= 1 && start + maxLen < |runes|
    ensures d == Decide(runes, start, maxLen)
  {
    var effectiveLimit := ComputeLimit(maxLen);
    var msgEnd := NaturalEnd(runes, start, maxLen, effectiveLimit);
    var unclosedIdx := FindLastUnclosedCodeBlockInRange(runes, start, msgEnd);
    if unclosedIdx >= 0 && |runes| > msgEnd {
      var closingIdx := FindNextClosingCodeBlockInRange(runes, msgEnd, |runes|);
      if closingIdx > 0 && closingIdx - start <= maxLen {
        msgEnd := closingIdx;
      } else {
        var inside := CutInside(runes, start, maxLen, msgEnd, unclosedIdx);
        if inside.Inject? {
          return inside;
        }
        msgEnd := inside.at;
      }
    }
    if msgEnd <= start {
      msgEnd := start + effectiveLimit;
    }
    return Cut(msgEnd);
  }

  /** The body of the loop; nothing happens once start has reached the end of the buffer. */
  method Iterate(runes: string, start: nat, messages: seq<string>, maxLen: int)
    returns (runes': string, start': nat, messages': seq<string>)
    requires maxLen >= 1 && start <= |runes|
    ensures State(runes', start', messages') == Step(State(runes, start, messages), maxLen)
  {
    hide TrimEnd, TrimSpace, SkipBlank, DecideInside, Tentative, FindUnclosed, FindClosing;
    runes', start', messages' := runes, start, messages;
    var totalLen := |runes|;
    if start >= totalLen {
      return;
    }
    if totalLen - start <= maxLen {
      assert runes[start..totalLen] == runes[start..];
      return runes, totalLen, messages + [runes[start..totalLen]];
    }
    var cut := FindCut(runes, start, maxLen);
    if cut.Inject? {
      var chunk := TrimEnd(runes[start..cut.at], IsBlank) + "\n```";
      assert runes[cut.at..totalLen] == runes[cut.at..];
      var remaining := TrimSpace(cut.header + "\n" + runes[cut.at..totalLen]);
      return remaining, 0, messages + [chunk];
    }
    messages' := messages + [runes[start..cut.at]];
    start' := SkipWhitespace(runes, cut.at);
  }

  /** Advances past the blanks at the start of the next chunk of SplitMessage. */
  method SkipWhitespace(runes: string, msgEnd: nat) returns (start: nat)
    requires msgEnd <= |runes|
    ensures start == SkipBlank(runes, msgEnd)
  {
    start := msgEnd;
    while start < |runes|
      && (runes[start] == ' ' || runes[start] == '\t' || runes[start] == '\n' || runes[start] == '\r')
      invariant msgEnd <= start <= |runes| && SkipBlank(runes, msgEnd) == SkipBlank(runes, start)
    {
      start := start + 1;
    }
  }
}
