/**
 * Exactly when SplitMessage returns, for content whose fences start their lines: when every code
 * block has room for its header in a chunk, or closes within one, or is near enough to the end.
 */
module SplitExact {
  import opened Text
  import opened SplitStep
  import opened SplitHeaders
  import opened SplitTermination
  import opened SplitFences

  /** No white space at either end. */
  predicate Trimmed(s: string) {
    s != "" ==> !IsSpace(s[0]) && !IsSpace(s[|s| - 1])
  }

  predicate Fits(s: string, u: nat, maxLen: int)
    requires Fence(s, u)
  {
    |Header(s, u)| + 7 <= maxLen
  }

  /** A fence after the one at u ends by n. */
  ghost predicate ClosesBy(s: string, u: nat, n: int) {
    exists q :: u + 3 <= q && q + 3 <= n && Fence(s, q)
  }

  /** The code block opened at u can be sent in chunks of maxLen runes. */
  ghost predicate Sendable(s: string, u: nat, maxLen: int)
    requires Fence(s, u)
  {
    Fits(s, u, maxLen) || ClosesBy(s, u, u + maxLen) || |s| - u <= maxLen
  }

  /** The fence at u opens a code block, for a scan that begins at start. */
  predicate Opens(s: string, start: nat, u: int) {
    start <= u && Fence(s, u) && Balanced(s[start..u])
  }

  ghost predicate AllSendable(s: string, start: nat, maxLen: int) {
    forall u | Opens(s, start, u) :: Sendable(s, u, maxLen)
  }

  /** The states that trimmed content with fences at line starts leads to. */
  ghost predicate Regular(st: State) {
    && st.Valid() && FencesAtLineStart(st.runes)
    && (!st.Done() ==> !IsBlank(st.runes[st.start]) && !IsSpace(st.runes[|st.runes| - 1]))
  }

  lemma IsRegular(s: string, chunks: seq<string>)
    requires FencesAtLineStart(s) && Fence(s, 0) && !IsSpace(s[|s| - 1])
    ensures Regular(State(s, 0, chunks))
  {
  }

  /** What is left to send behind a cut where the scan is outside a block. */
  lemma ParityAfter(s: string, start: nat, at: nat, u: nat)
    requires start <= at <= u <= |s| && CleanCut(s, at)
    ensures Fences(s[start..u]) == Fences(s[start..at]) + Fences(s[at..u])
  {
    SliceFences(s, start, at, u);
  }

  /** A block that opens before a cut with an even number of fences before it closes before the cut. */
  lemma ClosedBefore(s: string, start: nat, at: nat, u: nat)
    requires FencesAtLineStart(s) && start <= at <= |s| && CleanCut(s, at) && Balanced(s[start..at])
    requires Opens(s, start, u) && u < at
    ensures ClosesBy(s, u, at)
  {
    assert u + 3 <= at;
    if forall q | u + 3 <= q && q + 3 <= at :: !Fence(s, q) {
      OneFence(s, start, u, at);
      assert false;
    }
  }

  lemma BlanksAreClean(s: string, at: nat)
    requires at <= |s| && CleanCut(s, at)
    ensures CleanCut(s, SkipBlank(s, at)) && Fences(s[at..SkipBlank(s, at)]) == 0
  {
    var next := SkipBlank(s, at);
    assert next == at || IsBlank(s[next - 1]);
    NoFencesIn(s, at, next);
  }

  /** Behind a cut outside a block the same fences open blocks as before. */
  lemma OpensAfterCut(s: string, start: nat, at: nat, u: nat)
    requires start <= at <= |s| && CleanCut(s, at) && Balanced(s[start..at])
    requires SkipBlank(s, at) <= u <= |s|
    ensures Opens(s, start, u) <==> Opens(s, SkipBlank(s, at), u)
  {
    hide Fences, SkipBlank, CleanCut;
    var next := SkipBlank(s, at);
    BlanksAreClean(s, at);
    ParityAfter(s, start, at, u);
    ParityAfter(s, at, next, u);
  }

  lemma CutSendable(s: string, start: nat, at: nat, maxLen: int)
    requires FencesAtLineStart(s) && start <= at <= start + maxLen && Even(s, start, Cut(at))
    ensures AllSendable(s, start, maxLen) <==> AllSendable(s, SkipBlank(s, at), maxLen)
  {
    var next := SkipBlank(s, at);
    forall u | Opens(s, start, u) && u < next ensures Sendable(s, u, maxLen) {
      assert u < at;
      ClosedBefore(s, start, at, u);
    }
    forall u | next <= u <= |s| ensures Opens(s, start, u) <==> Opens(s, next, u) {
      OpensAfterCut(s, start, at, u);
    }
  }

  /** How an injecting iteration stands: the block left open, and no end of it in reach. */
  ghost predicate Injects(s: string, start: nat, maxLen: int, open: nat, at: int) {
    && maxLen >= 5 && start + maxLen < |s| && FencesAtLineStart(s) && s[start] != '\n'
    && start <= open && Fence(s, open) && open + 3 <= start + maxLen
    && !ClosesBy(s, open, start + maxLen)
    && Balanced(s[start..open]) && start <= at <= start + maxLen - 5
    && (maxLen >= 9 ==> Even(s, start, Inject(at, Header(s, open))))
    && (at - start > |Header(s, open)| + 20 || (open == start && at == start + maxLen - 5))
    && (open != start ==> Fits(s, open, maxLen))
    && (at - start > |Header(s, open)| + 20 ==> Fits(s, open, maxLen))
  }

  lemma InjectsWhere(s: string, start: nat, maxLen: int, end: nat, open: nat)
    requires maxLen >= 5 && start + maxLen < |s| && FencesAtLineStart(s) && s[start] != '\n'
    requires end == Tentative(s, start, maxLen) && start <= open && open + 3 <= end && Fence(s, open)
    requires DecideInside(s, start, maxLen, end, open).Inject?
    ensures var at := DecideInside(s, start, maxLen, end, open).at;
      && (at - start > |Header(s, open)| + 20 || (open == start && at == start + maxLen - 5))
      && (open != start ==> Fits(s, open, maxLen))
      && (at - start > |Header(s, open)| + 20 ==> Fits(s, open, maxLen))
  {
    HeaderEndBeyond(s, open);
    InsideShrinks(s, start, maxLen, end, open);
    HeaderShape(s, open);
    if end <= HeaderEnd(s, open) + 20 && open > start {
      CutsBefore(s, start, maxLen, end, open);
    }
  }

  /** The newline before a fence is where the last resort cuts, if it lies behind the start. */
  lemma CutsBefore(s: string, start: nat, maxLen: int, end: nat, open: nat)
    requires maxLen >= 5 && start + maxLen < |s| && FencesAtLineStart(s) && s[start] != '\n'
    requires start < open && open + 3 <= end <= start + maxLen && Fence(s, open) && end <= HeaderEnd(s, open) + 20
    ensures DecideInside(s, start, maxLen, end, open).Cut?
  {
    assert s[open - 1] == '\n';
    assert FindLast(s, start, open, 200, IsNewline) == open - 1;
  }

  lemma NothingInReach(s: string, start: nat, maxLen: int, end: nat, open: nat)
    requires start <= end <= start + maxLen < |s| && CleanCut(s, end) && open == FindUnclosed(s, start, end, -1)
    requires FindClosing(s, end) == -1 || FindClosing(s, end) > start + maxLen
    ensures !ClosesBy(s, open, start + maxLen)
  {
    forall q | open + 3 <= q && q + 3 <= start + maxLen ensures !Fence(s, q) {
      assert q + 3 <= end || end - 3 < q < end || end <= q;
    }
  }

  lemma InjectStands(s: string, start: nat, maxLen: int) returns (open: nat)
    requires maxLen >= 5 && start < |s| && FencesAtLineStart(s) && s[start] != '\n'
    requires Decide(s, start, maxLen).Inject?
    ensures var d := Decide(s, start, maxLen); Injects(s, start, maxLen, open, d.at) && d.header == Header(s, open)
  {
    var end := Tentative(s, start, maxLen);
    open := FindUnclosed(s, start, end, -1);
    TentativeIsClean(s, start, maxLen);
    DecideIsEven(s, start, maxLen);
    NothingInReach(s, start, maxLen, end, open);
    InjectsWhere(s, start, maxLen, end, open);
    OddAfterOpen(s, start, end, open, end);
  }

  /** The buffer begins with the line h, which could be a header. */
  ghost predicate BeginsWith(buf: string, h: string) {
    && Fence(h, 0) && '\n' !in h && !IsSpace(h[|h| - 1])
    && |h| < |buf| && buf[|h|] == '\n'
    && (forall i | 0 <= i < |h| :: buf[i] == h[i])
  }

  /** The rewritten buffer in full: nothing is trimmed from it. */
  ghost predicate Rewrites(s: string, at: nat, h: string, buf: string) {
    && at < |s| && |buf| == |h| + 1 + |s| - at && BeginsWith(buf, h)
    && (forall i | |h| < i < |buf| :: buf[i] == s[at + i - |h| - 1])
  }

  lemma ReopenedRewrites(s: string, at: nat, u: nat)
    requires Fence(s, u) && at < |s| && !IsSpace(s[|s| - 1])
    ensures Rewrites(s, at, Header(s, u), Reopened(s, at, Header(s, u)))
    ensures !IsSpace(Reopened(s, at, Header(s, u))[|Reopened(s, at, Header(s, u))| - 1])
  {
    hide Header, Reopened;
    HeaderShape(s, u);
    ReopenedText(s, at, Header(s, u));
  }

  /** The block reopened at the start of the buffer has the header copied there. */
  lemma FrontHeader(h: string, buf: string)
    requires BeginsWith(buf, h)
    ensures Fence(buf, 0) && Header(buf, 0) == h
  {
    SpanIsHeader(buf, 0, |h|, |h|);
    assert buf[0..|h|] == h;
  }

  /** A fence of the buffer is in the copied header or behind it, in the old text. */
  lemma FenceBehind(s: string, at: nat, h: string, buf: string, p: nat)
    requires Rewrites(s, at, h, buf) && forall q | q != 0 :: !Fence(h, q)
    requires p > 0
    ensures Fence(buf, p) <==> p > |h| && Fence(s, at + p - |h| - 1)
  {
    if p <= |h| {
      assert p + 3 <= |h| ==> (Fence(buf, p) <==> Fence(h, p));
      assert |h| < p + 3 <= |buf| ==> buf[p] != '`' || buf[p + 1] != '`' || buf[p + 2] != '`';
    }
    if p > |h| && p + 3 <= |buf| {
      var q := at + p - |h| - 1;
      assert buf[p] == s[q] && buf[p + 1] == s[q + 1] && buf[p + 2] == s[q + 2];
    }
  }

  /** In reach of the reopened fence there is no fence that was not in reach of the old one. */
  lemma UnfitReach(s: string, start: nat, maxLen: int, h: string, buf: string, q: nat)
    requires maxLen >= 5 && start + maxLen < |s| && FencesAtLineStart(s) && Fence(s, start)
    requires Rewrites(s, start + maxLen - 5, h, buf) && forall p | p != 0 :: !Fence(h, p)
    requires |h| + 7 > maxLen && !ClosesBy(s, start, start + maxLen)
    requires 3 <= q && q + 3 <= maxLen
    ensures !Fence(buf, q)
  {
    FenceBehind(s, start + maxLen - 5, h, buf, q);
    var p := start + maxLen - 5 + q - |h| - 1;
    assert q > |h| ==> start < p && p + 3 <= start + maxLen;
    assert start < p < start + 3 && Fence(s, p) ==> s[p - 1] == '\n';
  }

  lemma UnfitCloses(s: string, start: nat, maxLen: int, h: string, buf: string)
    requires maxLen >= 5 && start + maxLen < |s| && FencesAtLineStart(s) && Fence(s, start)
    requires Rewrites(s, start + maxLen - 5, h, buf) && forall p | p != 0 :: !Fence(h, p)
    requires |h| + 7 > maxLen && !ClosesBy(s, start, start + maxLen)
    ensures !ClosesBy(buf, 0, 0 + maxLen)
  {
    forall q | 0 + 3 <= q && q + 3 <= 0 + maxLen ensures !Fence(buf, q) {
      UnfitReach(s, start, maxLen, h, buf, q);
    }
  }

  lemma NotSendable(s: string, u: nat, maxLen: int)
    requires Fence(s, u) && !Fits(s, u, maxLen) && |s| - u > maxLen && !ClosesBy(s, u, u + maxLen)
    ensures !AllSendable(s, u, maxLen)
  {
    assert s[u..u] == "";
    assert Opens(s, u, u);
  }

  /** A last resort whose header does not fit leaves a block that is not sendable, as before. */
  lemma UnfitStays(s: string, start: nat, maxLen: int, h: string, buf: string)
    requires maxLen >= 5 && start + maxLen < |s| && FencesAtLineStart(s) && Fence(s, start)
    requires Rewrites(s, start + maxLen - 5, h, buf) && forall q | q != 0 :: !Fence(h, q)
    requires h == Header(s, start) && !Fits(s, start, maxLen) && !ClosesBy(s, start, start + maxLen)
    ensures !AllSendable(s, start, maxLen) && !AllSendable(buf, 0, maxLen)
  {
    NotSendable(s, start, maxLen);
    FrontHeader(h, buf);
    UnfitCloses(s, start, maxLen, h, buf);
    NotSendable(buf, 0, maxLen);
  }

  /** The header of a fence in the tail is what it was. */
  lemma TailHeader(s: string, at: nat, h: string, buf: string, p: nat)
    requires Rewrites(s, at, h, buf) && p > |h| && Fence(buf, p) && Fence(s, at + p - |h| - 1)
    ensures Header(buf, p) == Header(s, at + p - |h| - 1)
  {
    hide Header, FindNewline;
    var u := at + p - |h| - 1;
    if FindNewline(buf, p) != -1 {
      HeaderInTail(s, at, |h| + 1, p, buf);
    } else {
      assert FindNewline(s, u) == -1 by {
        forall i | u <= i < |s| ensures s[i] != '\n' {
          assert s[i] == buf[i - at + |h| + 1];
        }
      }
      BareHeader(buf, p);
      BareHeader(s, u);
    }
  }

  lemma TailCloses(s: string, at: nat, h: string, buf: string, p: nat, n: int)
    requires Rewrites(s, at, h, buf) && (forall q | q != 0 :: !Fence(h, q)) && p > |h|
    ensures ClosesBy(buf, p, p + n) <==> ClosesBy(s, at + p - |h| - 1, at + p - |h| - 1 + n)
  {
    var d := at - |h| - 1;
    if q :| p + 3 <= q && q + 3 <= p + n && Fence(buf, q) {
      FenceBehind(s, at, h, buf, q);
      assert Fence(s, d + q);
    }
    if q :| p + d + 3 <= q && q + 3 <= p + d + n && Fence(s, q) {
      FenceBehind(s, at, h, buf, q - d);
      assert Fence(buf, q - d);
    }
  }

  lemma TailSendable(s: string, at: nat, h: string, buf: string, p: nat, maxLen: int)
    requires Rewrites(s, at, h, buf) && (forall q | q != 0 :: !Fence(h, q)) && p > |h|
    requires Fence(buf, p) && Fence(s, at + p - |h| - 1)
    ensures Sendable(buf, p, maxLen) <==> Sendable(s, at + p - |h| - 1, maxLen)
  {
    TailHeader(s, at, h, buf, p);
    TailCloses(s, at, h, buf, p, maxLen);
  }

  /** Behind an odd number of fences the tail's fences open blocks as they do behind the header's one. */
  lemma TailOpens(s: string, start: nat, at: nat, h: string, buf: string, p: nat)
    requires Rewrites(s, at, h, buf) && (forall q | q != 0 :: !Fence(h, q)) && |h| < p <= |buf|
    requires Even(s, start, Inject(at, h))
    ensures Opens(buf, 0, p) <==> Opens(s, start, at + p - |h| - 1)
  {
    var u := at + p - |h| - 1;
    FenceBehind(s, at, h, buf, p);
    if Fence(buf, p) {
      ParityAfter(s, start, at, u);
      TailParity(s, at, h, buf, p);
      OddRest(Fences(s[start..u]), Fences(s[start..at]), Fences(s[at..u]));
    }
  }

  lemma TailParity(s: string, at: nat, h: string, buf: string, p: nat)
    requires Rewrites(s, at, h, buf) && (forall q | q != 0 :: !Fence(h, q)) && |h| < p <= |buf|
    ensures Fences(buf[0..p]) == 1 + Fences(s[at..at + p - |h| - 1])
  {
    var tail := s[at..at + p - |h| - 1];
    assert buf[0..p] == h + "\n" + tail;
    JoinFences(h, tail);
    FenceFirst(h);
  }

  lemma FencesApart(s: string, p: nat, q: nat)
    requires FencesAtLineStart(s) && Fence(s, p) && Fence(s, q) && p < q
    ensures p + 3 <= q
  {
    assert s[q - 1] == '\n';
  }

  lemma NoneInReach(s: string, open: nat, n: int, p: nat)
    requires FencesAtLineStart(s) && Fence(s, open) && open < p && p + 3 <= n && !ClosesBy(s, open, n)
    ensures !Fence(s, p)
  {
    if Fence(s, p) {
      FencesApart(s, open, p);
    }
  }

  lemma FrontCloses(s: string, start: nat, open: nat, u: nat, n: int)
    requires FencesAtLineStart(s) && start <= open && Fence(s, open) && Balanced(s[start..open])
    requires Opens(s, start, u) && u < open <= n
    ensures ClosesBy(s, u, n)
  {
    FenceIsClean(s, open);
    ClosedBefore(s, start, open, u);
    ClosesLater(s, u, open, n);
  }

  /** Before a rewrite every block but the one left open closes. */
  lemma FrontCase(s: string, start: nat, open: nat, at: nat, n: int, u: nat)
    requires FencesAtLineStart(s) && start <= open && Fence(s, open) && Balanced(s[start..open])
    requires Opens(s, start, u) && u + 3 <= at <= n && open <= n && !ClosesBy(s, open, n)
    ensures u == open || ClosesBy(s, u, n)
  {
    if u < open {
      FrontCloses(s, start, open, u, n);
    } else if u > open {
      NoneInReach(s, open, n, u);
    }
  }

  lemma FrontSendable(s: string, start: nat, maxLen: int, open: nat, u: nat)
    requires Fence(s, open) && Fits(s, open, maxLen) && start <= u && Fence(s, u)
    requires u == open || ClosesBy(s, u, start + maxLen)
    ensures Sendable(s, u, maxLen)
  {
    if u != open {
      ClosesLater(s, u, start + maxLen, u + maxLen);
    }
  }

  lemma ClosesLater(s: string, u: nat, n: int, m: int)
    requires ClosesBy(s, u, n) && n <= m
    ensures ClosesBy(s, u, m)
  {
    var q :| u + 3 <= q && q + 3 <= n && Fence(s, q);
  }

  /** A block opened in the tail is as sendable as it was. */
  lemma TailAt(s: string, start: nat, at: nat, h: string, buf: string, p: nat, maxLen: int)
    requires Rewrites(s, at, h, buf) && (forall q | q != 0 :: !Fence(h, q)) && |h| < p && Fence(buf, p)
    requires Even(s, start, Inject(at, h))
    ensures var u := at + p - |h| - 1;
      && Fence(s, u) && (Opens(buf, 0, p) <==> Opens(s, start, u))
      && (Sendable(buf, p, maxLen) <==> Sendable(s, u, maxLen))
  {
    FenceBehind(s, at, h, buf, p);
    TailOpens(s, start, at, h, buf, p);
    TailSendable(s, at, h, buf, p, maxLen);
  }

  lemma SendableKept(s: string, start: nat, maxLen: int, open: nat, at: nat, buf: string, p: nat)
    requires Injects(s, start, maxLen, open, at) && Fits(s, open, maxLen) && AllSendable(s, start, maxLen)
    requires Even(s, start, Inject(at, Header(s, open))) && Rewrites(s, at, Header(s, open), buf)
    requires Opens(buf, 0, p)
    ensures Sendable(buf, p, maxLen)
  {
    var h := Header(s, open);
    HeaderHasOneFence(s, open);
    if p == 0 {
      FrontHeader(h, buf);
    } else {
      FenceBehind(s, at, h, buf, p);
      TailAt(s, start, at, h, buf, p, maxLen);
    }
  }

  lemma SendableBefore(s: string, start: nat, maxLen: int, open: nat, at: nat, buf: string, u: nat)
    requires Injects(s, start, maxLen, open, at) && Fits(s, open, maxLen) && AllSendable(buf, 0, maxLen)
    requires Even(s, start, Inject(at, Header(s, open))) && Rewrites(s, at, Header(s, open), buf)
    requires Opens(s, start, u)
    ensures Sendable(s, u, maxLen)
  {
    if u < at {
      FrontCase(s, start, open, at, start + maxLen, u);
      FrontSendable(s, start, maxLen, open, u);
    } else {
      HeaderHasOneFence(s, open);
      TailBefore(s, start, at, Header(s, open), buf, u, maxLen);
    }
  }

  lemma TailBefore(s: string, start: nat, at: nat, h: string, buf: string, u: nat, maxLen: int)
    requires Rewrites(s, at, h, buf) && (forall q | q != 0 :: !Fence(h, q)) && at <= u
    requires Even(s, start, Inject(at, h)) && AllSendable(buf, 0, maxLen) && Opens(s, start, u)
    ensures Sendable(s, u, maxLen)
  {
    var p := u - at + |h| + 1;
    FenceBehind(s, at, h, buf, p);
    TailAt(s, start, at, h, buf, p, maxLen);
  }

  lemma FitSendable(s: string, start: nat, maxLen: int, open: nat, at: nat, buf: string)
    requires Injects(s, start, maxLen, open, at) && Fits(s, open, maxLen)
    requires Even(s, start, Inject(at, Header(s, open))) && Rewrites(s, at, Header(s, open), buf)
    ensures AllSendable(s, start, maxLen) <==> AllSendable(buf, 0, maxLen)
  {
    forall p | Opens(buf, 0, p) && AllSendable(s, start, maxLen) ensures Sendable(buf, p, maxLen) {
      SendableKept(s, start, maxLen, open, at, buf, p);
    }
    forall u | Opens(s, start, u) && AllSendable(buf, 0, maxLen) ensures Sendable(s, u, maxLen) {
      SendableBefore(s, start, maxLen, open, at, buf, u);
    }
  }

  /** An iteration leaves the blocks all sendable exactly if they were, and then with less to send. */
  ghost predicate Exact(st: State, next: State, maxLen: int)
    requires st.Valid()
  {
    && Regular(next)
    && (AllSendable(st.runes, st.start, maxLen) <==> AllSendable(next.runes, next.start, maxLen))
    && (AllSendable(st.runes, st.start, maxLen) ==> Left(next) < Left(st))
  }

  lemma RewriteSendable(s: string, start: nat, maxLen: int, open: nat, at: nat, buf: string)
    requires Injects(s, start, maxLen, open, at) && Rewrites(s, at, Header(s, open), buf)
    ensures AllSendable(s, start, maxLen) <==> AllSendable(buf, 0, maxLen)
    ensures AllSendable(s, start, maxLen) ==> Fits(s, open, maxLen)
  {
    if Fits(s, open, maxLen) {
      FitSendable(s, start, maxLen, open, at, buf);
    } else {
      HeaderHasOneFence(s, open);
      UnfitStays(s, start, maxLen, Header(s, open), buf);
    }
  }

  lemma RewriteRegular(s: string, u: nat, at: nat, chunks: seq<string>)
    requires FencesAtLineStart(s) && Fence(s, u) && at < |s| && !IsSpace(s[|s| - 1])
    ensures Regular(State(Reopened(s, at, Header(s, u)), 0, chunks))
  {
    ReopenedRewrites(s, at, u);
    ReopenedAtLineStart(s, u, at);
    FrontHeader(Header(s, u), Reopened(s, at, Header(s, u)));
    IsRegular(Reopened(s, at, Header(s, u)), chunks);
  }

  lemma InjectExact(st: State, maxLen: int, open: nat, at: nat, next: State)
    requires Regular(st) && !st.Done() && Injects(st.runes, st.start, maxLen, open, at)
    requires next.start == 0 && next.runes == Reopened(st.runes, at, Header(st.runes, open))
    ensures Exact(st, next, maxLen)
  {
    hide Header, Reopened, AllSendable;
    ReopenedRewrites(st.runes, at, open);
    RewriteRegular(st.runes, open, at, next.chunks);
    RewriteSendable(st.runes, st.start, maxLen, open, at, next.runes);
  }

  lemma CutExact(st: State, maxLen: int, at: nat, next: State)
    requires Regular(st) && !st.Done() && Even(st.runes, st.start, Cut(at)) && st.start < at <= st.start + maxLen
    requires next.start == SkipBlank(st.runes, at) && next.runes == st.runes
    ensures Exact(st, next, maxLen)
  {
    CutRegular(st, at, next);
    CutSendable(st.runes, st.start, at, maxLen);
    assert Left(next) < Left(st);
  }

  lemma CutRegular(st: State, at: nat, next: State)
    requires Regular(st) && !st.Done() && at <= |st.runes|
    requires next.start == SkipBlank(st.runes, at) && next.runes == st.runes
    ensures Regular(next)
  {
  }

  lemma StepExact(st: State, maxLen: int)
    requires maxLen >= 5 && Regular(st) && !st.Done()
    ensures Exact(st, Step(st, maxLen), maxLen)
  {
    var d := Decide(st.runes, st.start, maxLen);
    match d
    case Whole =>
    case Cut(at) =>
      DecideIsEven(st.runes, st.start, maxLen);
      CutExact(st, maxLen, at, Step(st, maxLen));
    case Inject(at, header) =>
      var open := InjectStands(st.runes, st.start, maxLen);
      InjectExact(st, maxLen, open, at, Step(st, maxLen));
  }

  /** What relates every state of a run to the content. */
  ghost predicate Tracks(content: string, maxLen: int, st: State, k: nat) {
    && Regular(st)
    && (AllSendable(st.runes, st.start, maxLen) <==> AllSendable(content, 0, maxLen))
    && (AllSendable(content, 0, maxLen) ==> Left(st) <= Max(0, |content| - k))
  }

  lemma StepTracks(content: string, maxLen: int, st: State, k: nat)
    requires maxLen >= 5 && Tracks(content, maxLen, st, k)
    ensures Tracks(content, maxLen, Step(st, maxLen), k + 1)
  {
    if !st.Done() {
      StepExact(st, maxLen);
    }
  }

  lemma RunTracks(content: string, maxLen: int, n: nat)
    requires maxLen >= 5 && FencesAtLineStart(content) && Trimmed(content)
    ensures Tracks(content, maxLen, Run(content, maxLen, n), n)
  {
    var inv := (st: State, k: nat) => Tracks(content, maxLen, st, k);
    assert Tracks(content, maxLen, State(content, 0, []), 0);
    forall st: State, k: nat | st.Valid() && inv(st, k) ensures inv(Step(st, maxLen), k + 1) {
      StepTracks(content, maxLen, st, k);
    }
    Invariant(content, maxLen, n, inv);
    assert inv(Run(content, maxLen, n), n);
  }

  predicate EndsBy(content: string, maxLen: int, n: nat)
    requires maxLen >= 1
  {
    Run(content, maxLen, n).Done()
  }

  /** SplitMessage is sure to return: the limit is too small to see a fence, or every code block can be sent. */
  ghost predicate Returns(content: string, maxLen: int) {
    maxLen <= 4 || AllSendable(content, 0, maxLen)
  }

  /**
   * For trimmed content with fences at line starts, whatever the limit, the loop ends if and only
   * if every code block can be sent; and then within as many iterations as the content has runes.
   */
  lemma TerminationExact(content: string, maxLen: int)
    requires maxLen >= 1 && FencesAtLineStart(content) && Trimmed(content)
    ensures (exists n: nat :: EndsBy(content, maxLen, n)) <==> Returns(content, maxLen)
    ensures Returns(content, maxLen) ==> EndsBy(content, maxLen, |content|)
  {
    if maxLen <= 4 {
      Terminates(content, maxLen, |content|);
      assert EndsBy(content, maxLen, |content|);
    } else if AllSendable(content, 0, maxLen) {
      RunTracks(content, maxLen, |content|);
      assert EndsBy(content, maxLen, |content|);
    } else {
      forall n: nat ensures !EndsBy(content, maxLen, n) {
        RunTracks(content, maxLen, n);
        DoneSendable(Run(content, maxLen, n), maxLen);
      }
    }
  }

  lemma DoneSendable(st: State, maxLen: int)
    requires st.Valid()
    ensures st.Done() ==> AllSendable(st.runes, st.start, maxLen)
  {
  }
}
