/**
 * Code-block integrity of finished runs with limits too small for the general argument: there a
 * rewrite may cut through the fence itself, but then the run never ends or the content was open.
 */
module SplitIntegrity {
  import opened Text
  import opened SplitStep
  import opened SplitHeaders
  import opened SplitTermination
  import opened SplitFences
  import opened SplitExact

  /** The chunks are all balanced exactly if the content is. */
  ghost predicate Mirrors(content: string, chunks: seq<string>) {
    (forall i | 0 <= i < |chunks| :: Balanced(chunks[i])) <==> Balanced(content)
  }

  /** A chunk came out unbalanced; unless the content is too, the run will never end. */
  ghost predicate Lost(content: string, maxLen: int, st: State) {
    && st.Valid()
    && (exists i :: 0 <= i < |st.chunks| && !Balanced(st.chunks[i]))
    && (Balanced(content) ==> Regular(st) && !AllSendable(st.runes, st.start, maxLen))
  }

  ghost predicate Sees(maxLen: int, st: State) {
    st.Valid() && (!st.Done() ==> SeesLines(st.runes, st.start, maxLen))
  }

  ghost predicate Small(content: string, maxLen: int, st: State) {
    Lost(content, maxLen, st) || (Intact(content, st) && Sees(maxLen, st))
  }

  lemma LostStays(content: string, maxLen: int, st: State)
    requires maxLen >= 5 && Lost(content, maxLen, st)
    ensures Lost(content, maxLen, Step(st, maxLen))
  {
    var i :| 0 <= i < |st.chunks| && !Balanced(st.chunks[i]);
    assert i < |Step(st, maxLen).chunks| && Step(st, maxLen).chunks[i] == st.chunks[i];
    if Balanced(content) {
      DoneSendable(st, maxLen);
      StepExact(st, maxLen);
    }
  }

  /** The chunk of a rewrite that cuts through the fence, or before it, holds only the closing. */
  lemma BrokenChunk(s: string, start: nat, at: nat)
    requires start <= at <= |s| && forall p | start <= p && p + 3 <= at :: !Fence(s, p)
    ensures !Balanced(Closed(s, start, at))
  {
    NoFencesIn(s, start, at);
    ClosingCounts(s[start..at]);
  }

  /** Behind an open block of a text with an even number of fences there is another fence. */
  lemma AnotherFence(s: string, start: nat, open: nat) returns (q: nat)
    requires FencesAtLineStart(s) && start <= open && Fence(s, open)
    requires Balanced(s[start..open]) && Balanced(s[start..])
    ensures q >= open + 3 && Fence(s, q)
  {
    assert s[start..|s|] == s[start..];
    if forall p | open + 3 <= p && p + 3 <= |s| :: !Fence(s, p) {
      OneFence(s, start, open, |s|);
    }
    q :| q >= open + 3 && Fence(s, q);
  }

  /** What is not white space is not trimmed. */
  lemma ReopenedLength(s: string, at: nat, h: string, k: nat)
    requires Fence(h, 0) && !IsSpace(h[|h| - 1]) && at <= k < |s| && !IsSpace(s[k])
    ensures |Reopened(s, at, h)| > |h| + 1 + k - at
  {
    var whole := h + "\n" + s[at..];
    assert whole[0] == h[0] && StartOf(whole, 0, IsSpace) == 0 && whole[0..] == whole;
    assert whole[|h| + 1 + k - at] == s[k];
  }

  /** How an injecting iteration with a small limit stands. */
  ghost predicate SmallInject(s: string, start: nat, maxLen: int, open: nat, at: int) {
    && 5 <= maxLen <= 8 && start + maxLen < |s| && FencesAtLineStart(s) && Fence(s, open)
    && at == start + maxLen - 5 && start <= open
    && (open == start || (open == start + 1 && maxLen >= 7))
    && !ClosesBy(s, open, start + maxLen) && Balanced(s[start..open])
  }

  lemma SmallInjectStands(s: string, start: nat, maxLen: int) returns (open: nat)
    requires 5 <= maxLen <= 8 && start < |s| && FencesAtLineStart(s) && SeesLines(s, start, maxLen)
    requires Decide(s, start, maxLen).Inject?
    ensures var d := Decide(s, start, maxLen);
      SmallInject(s, start, maxLen, open, d.at) && d.header == Header(s, open)
  {
    var end := Tentative(s, start, maxLen);
    open := FindUnclosed(s, start, end, -1);
    TentativeIsClean(s, start, maxLen);
    NothingInReach(s, start, maxLen, end, open);
    OddAfterOpen(s, start, end, open, end);
    HeaderEndBeyond(s, open);
    SmallOpen(s, start, maxLen, end, open);
  }

  lemma SmallOpen(s: string, start: nat, maxLen: int, end: nat, open: nat)
    requires 5 <= maxLen <= 8 && start + maxLen < |s| && FencesAtLineStart(s) && SeesLines(s, start, maxLen)
    requires start <= open && open + 3 <= end && end == Tentative(s, start, maxLen) && Fence(s, open)
    requires HeaderEnd(s, open) >= open && DecideInside(s, start, maxLen, end, open).Inject?
    ensures DecideInside(s, start, maxLen, end, open).at == start + maxLen - 5
    ensures open == start || (open == start + 1 && maxLen >= 7)
  {
    assert end <= start + 4;
    assert open > start ==> s[open - 1] == '\n';
  }

  /** What a header is like, for content with fences at line starts. */
  ghost predicate HeaderLine(h: string) {
    Fence(h, 0) && '\n' !in h && !IsSpace(h[|h| - 1]) && forall p | p != 0 :: !Fence(h, p)
  }

  lemma HeaderIsLine(s: string, u: nat)
    requires FencesAtLineStart(s) && Fence(s, u)
    ensures HeaderLine(Header(s, u))
  {
    HeaderShape(s, u);
    HeaderHasOneFence(s, u);
  }

  /** The buffer after a small rewrite: the header's line, and then text as it was. */
  ghost predicate SmallBuffer(s: string, at: int, h: string, buf: string) {
    && 0 <= at <= |s| && BeginsWith(buf, h) && HeaderLine(h)
    && |buf| <= |h| + 1 + |s| - at && (forall i | |h| < i < |buf| :: buf[i] == s[at + i - |h| - 1])
  }

  /** The fences of the rewritten buffer in reach of its start were in reach of the open block. */
  lemma SmallReach(s: string, start: nat, maxLen: int, open: nat, at: nat, h: string, buf: string, q: nat)
    requires SmallInject(s, start, maxLen, open, at) && SmallBuffer(s, at, h, buf)
    requires 3 <= q && q + 3 <= maxLen
    ensures !Fence(buf, q)
  {
    if q <= |h| {
      assert q + 3 <= |h| ==> (Fence(buf, q) <==> Fence(h, q));
      assert |h| < q + 3 <= |buf| ==> buf[q] != '`' || buf[q + 1] != '`' || buf[q + 2] != '`';
    } else {
      var p := at + q - |h| - 1;
      assert q + 3 <= |buf| ==> buf[q] == s[p] && buf[q + 1] == s[p + 1] && buf[q + 2] == s[p + 2];
      NoneInReach(s, open, start + maxLen, p);
    }
  }

  lemma SmallRewrite(s: string, at: nat, h: string, q: nat, n: int)
    requires HeaderLine(h) && at <= q && Fence(s, q) && q + 3 > at + n
    ensures var buf := Reopened(s, at, h);
      SmallBuffer(s, at, h, buf) && |buf| > |h| + 1 + n && !IsSpace(buf[|buf| - 1])
  {
    ReopenedText(s, at, h);
    ReopenedLength(s, at, h, q + 2);
  }

  lemma SmallCloses(s: string, start: nat, maxLen: int, open: nat, at: nat, h: string, buf: string)
    requires SmallInject(s, start, maxLen, open, at) && SmallBuffer(s, at, h, buf)
    ensures !ClosesBy(buf, 0, 0 + maxLen)
  {
    forall p | 0 + 3 <= p && p + 3 <= 0 + maxLen ensures !Fence(buf, p) {
      SmallReach(s, start, maxLen, open, at, h, buf, p);
    }
  }

  lemma SmallUnsendable(s: string, start: nat, maxLen: int, open: nat, at: nat, h: string, buf: string)
    requires SmallInject(s, start, maxLen, open, at) && SmallBuffer(s, at, h, buf) && |buf| > maxLen
    ensures Fence(buf, 0) && !AllSendable(buf, 0, maxLen)
  {
    SmallCloses(s, start, maxLen, open, at, h, buf);
    FrontHeader(h, buf);
    NotSendable(buf, 0, maxLen);
  }

  /** The rewritten buffer is too long to be sent whole, if the block closes at all. */
  ghost predicate LongBuffer(s: string, at: int, h: string, buf: string, maxLen: int) {
    SmallBuffer(s, at, h, buf) && |buf| > maxLen && !IsSpace(buf[|buf| - 1])
  }

  lemma SmallIsLong(s: string, start: nat, maxLen: int, open: nat, at: nat, h: string)
    requires SmallInject(s, start, maxLen, open, at) && Balanced(s[start..]) && HeaderLine(h)
    ensures LongBuffer(s, at, h, Reopened(s, at, h), maxLen)
  {
    var q := AnotherFence(s, start, open);
    assert q + 3 > at + 5 && q >= at;
    SmallRewrite(s, at, h, q, 5);
  }

  /** The rewrite that cuts behind the fence at the start of its chunk keeps everything intact. */
  lemma CleanInject(s: string, start: nat, maxLen: int, at: nat)
    requires SmallInject(s, start, maxLen, start, at) && maxLen == 8
    ensures Even(s, start, Inject(at, Header(s, start)))
  {
    FenceIsClean(s, start);
    assert at == start + 3 && !Balanced(s[start..at]);
  }

  lemma NoFenceBefore(s: string, start: nat, maxLen: int, open: nat, at: nat)
    requires SmallInject(s, start, maxLen, open, at) && (maxLen < 8 || open != start)
    ensures forall p | start <= p && p + 3 <= at :: !Fence(s, p)
  {
    assert at < open + 3;
  }

  lemma BrokenLast(s: string, start: nat, maxLen: int, open: nat, at: nat)
    requires SmallInject(s, start, maxLen, open, at) && (maxLen < 8 || open != start)
    ensures !Balanced(Closed(s, start, at))
  {
    NoFenceBefore(s, start, maxLen, open, at);
    BrokenChunk(s, start, at);
  }

  lemma RestBalanced(content: string, st: State)
    requires Intact(content, st) && !st.Done()
    ensures Balanced(st.runes[st.start..]) == Balanced(content)
  {
    assert st.runes[0..] == st.runes;
  }

  lemma LongIsStuck(s: string, start: nat, maxLen: int, open: nat, at: nat, h: string, next: State)
    requires SmallInject(s, start, maxLen, open, at) && LongBuffer(s, at, h, next.runes, maxLen)
    requires next.start == 0 && FencesAtLineStart(next.runes)
    ensures Regular(next) && !AllSendable(next.runes, 0, maxLen)
  {
    hide AllSendable, Regular, SmallInject;
    SmallUnsendable(s, start, maxLen, open, at, h, next.runes);
    FrontHeader(h, next.runes);
    IsRegular(next.runes, next.chunks);
  }

  lemma LastIsLost(content: string, maxLen: int, next: State)
    requires next.Valid() && next.chunks != [] && !Balanced(Last(next))
    requires Balanced(content) ==> Regular(next) && !AllSendable(next.runes, next.start, maxLen)
    ensures Lost(content, maxLen, next)
  {
    assert !Balanced(next.chunks[|next.chunks| - 1]);
  }

  /** Any other small rewrite loses the block. */
  lemma BrokenInject(content: string, maxLen: int, s: string, start: nat, open: nat, at: nat, h: string, next: State)
    requires SmallInject(s, start, maxLen, open, at) && (maxLen < 8 || open != start)
    requires next.start == 0 && FencesAtLineStart(next.runes) && next.chunks != [] && Last(next) == Closed(s, start, at)
    requires Balanced(content) ==> LongBuffer(s, at, h, next.runes, maxLen)
    ensures Lost(content, maxLen, next)
  {
    BrokenLast(s, start, maxLen, open, at);
    if Balanced(content) {
      LongIsStuck(s, start, maxLen, open, at, h, next);
    }
    LastIsLost(content, maxLen, next);
  }

  lemma SmallInjectStep(content: string, maxLen: int, st: State)
    requires 5 <= maxLen <= 8 && Intact(content, st) && Sees(maxLen, st) && !st.Done()
    requires Decide(st.runes, st.start, maxLen).Inject?
    ensures Small(content, maxLen, Step(st, maxLen))
  {
    hide Header, Reopened, Closed, Lost, Sees, LongBuffer, Even, Balanced;
    var d := Decide(st.runes, st.start, maxLen);
    var open := SmallInjectStands(st.runes, st.start, maxLen);
    if maxLen == 8 && open == st.start {
      CleanInject(st.runes, st.start, maxLen, d.at);
      ApplyIntact(content, st, d, open);
      ReopenedSees(st.runes, d.at, open, maxLen, Step(st, maxLen));
    } else {
      HeaderIsLine(st.runes, open);
      ReopenedAtLineStart(st.runes, open, d.at);
      RestBalanced(content, st);
      if Balanced(content) {
        SmallIsLong(st.runes, st.start, maxLen, open, d.at, d.header);
      }
      BrokenInject(content, maxLen, st.runes, st.start, open, d.at, d.header, Step(st, maxLen));
    }
  }

  lemma ReopenedSees(s: string, at: nat, u: nat, maxLen: int, next: State)
    requires Fence(s, u) && at <= |s| && next.start == 0 && next.runes == Reopened(s, at, Header(s, u))
    ensures Sees(maxLen, next)
  {
    hide Header, Reopened;
    HeaderShape(s, u);
    ReopenedText(s, at, Header(s, u));
  }

  lemma SmallStep(content: string, maxLen: int, st: State)
    requires 5 <= maxLen <= 8 && Small(content, maxLen, st)
    ensures Small(content, maxLen, Step(st, maxLen))
  {
    if Lost(content, maxLen, st) {
      LostStays(content, maxLen, st);
    } else if !st.Done() {
      var d := Decide(st.runes, st.start, maxLen);
      if d.Inject? {
        SmallInjectStep(content, maxLen, st);
      } else {
        DecideIsEven(st.runes, st.start, maxLen);
        ApplyIntact(content, st, d, 0);
      }
    }
  }

  /** Large enough to see the line breaks before fences from every start of a chunk. */
  predicate LargeEnough(content: string, maxLen: int) {
    maxLen >= 7 || (maxLen >= 5 && Trimmed(content))
  }

  lemma RunSmall(content: string, maxLen: int, n: nat)
    requires FencesAtLineStart(content) && LargeEnough(content, maxLen) && maxLen <= 8
    ensures Small(content, maxLen, Run(content, maxLen, n))
  {
    var inv := (st: State, k: nat) => Small(content, maxLen, st);
    assert Small(content, maxLen, State(content, 0, []));
    forall st: State, k: nat | st.Valid() && inv(st, k) ensures inv(Step(st, maxLen), k + 1) {
      SmallStep(content, maxLen, st);
    }
    Invariant(content, maxLen, n, inv);
    assert inv(Run(content, maxLen, n), n);
  }

  /**
   * If fences start their lines, the chunks of every finished run are balanced exactly if the
   * content is, for limits from 7 on, and from 5 on for trimmed content.
   */
  lemma FinishedIntegrity(content: string, maxLen: int, n: nat)
    requires FencesAtLineStart(content) && LargeEnough(content, maxLen) && Run(content, maxLen, n).Done()
    ensures Mirrors(content, Run(content, maxLen, n).chunks)
  {
    if maxLen >= 9 {
      FenceIntegrity(content, maxLen, n);
    } else {
      RunSmall(content, maxLen, n);
      DoneSendable(Run(content, maxLen, n), maxLen);
      SmallMirrors(content, maxLen, Run(content, maxLen, n));
    }
  }

  lemma SmallMirrors(content: string, maxLen: int, st: State)
    requires Small(content, maxLen, st) && st.Done() && AllSendable(st.runes, st.start, maxLen)
    ensures Mirrors(content, st.chunks)
  {
    if !Lost(content, maxLen, st) {
      assert st.chunks == [] ==> content == "" && Balanced("");
      assert st.chunks != [] ==> st.chunks[|st.chunks| - 1] == Last(st);
    }
  }
}
