/** Inputs just outside the conditions under which SplitMessage keeps code blocks intact. */
module SplitExamples {
  import opened Text
  import opened SplitStep
  import opened SplitTermination
  import opened SplitFences
  import opened SplitIntegrity

  /**
   * Why fences must start their lines: here a cut falls inside an earlier, closed block, and
   * the first chunk of a balanced content is an unclosed fence.
   */
  lemma CutInsideClosedBlock(s: string)
    requires s == "``` ``````\nbbbbbbbbbbbb\n```"
    ensures Balanced(s) && Run(s, 22, 1).chunks == [s[0..3]] && !Balanced(s[0..3])
  {
    assert Example(s);
    FirstChunk(s);
  }

  lemma FirstChunk(s: string)
    requires Example(s)
    ensures Balanced(s) && Run(s, 22, 1).chunks == [s[0..3]] && !Balanced(s[0..3])
  {
    BalancedExample(s);
    CutOfExample(s);
    var st := Run(s, 22, 0);
    assert Apply(st, Cut(3)).chunks == [s[0..3]];
    BareFence(s[0..3]);
  }

  lemma BareFence(c: string)
    requires |c| == 3 && Fence(c, 0)
    ensures !Balanced(c)
  {
    assert c[3..] == "" && Fences("") == 0;
    assert Fences(c) == 1 + Fences(c[3..]);
  }

  /** The text of the example, as far as the scans look at it. */
  ghost predicate Example(s: string) {
    && |s| == 27 && Fence(s, 0) && s[3] == ' ' && Fence(s, 4) && Fence(s, 7) && s[10] == '\n'
    && (forall i | 11 <= i < 23 :: s[i] == 'b') && s[23] == '\n' && Fence(s, 24)
  }

  lemma BalancedExample(s: string)
    requires Example(s)
    ensures Balanced(s)
  {
    UnclosedIsOdd(s, 0, 27, -1);
    assert s[0..27] == s;
    assert FindUnclosed(s, 0, 27, -1) == FindUnclosed(s, 3, 27, 0) == FindUnclosed(s, 4, 27, 0);
    assert FindUnclosed(s, 4, 27, 0) == FindUnclosed(s, 7, 27, -1) == FindUnclosed(s, 10, 27, 7);
    ScanSkips(s, 10, 24, 27, 7);
    assert FindUnclosed(s, 24, 27, 7) == FindUnclosed(s, 27, 27, -1) == -1;
  }

  lemma CutOfExample(s: string)
    requires Example(s)
    ensures Decide(s, 0, 22) == Cut(3)
  {
    assert Tentative(s, 0, 22) == 10;
    assert FindUnclosed(s, 7, 10, -1) == 7;
    assert FindUnclosed(s, 3, 10, 0) == FindUnclosed(s, 4, 10, 0) == 7;
    var closing := FindClosing(s, 10);
    assert closing == -1 || closing > 22;
    CutInsideExample(s);
  }

  lemma CutInsideExample(s: string)
    requires Example(s)
    ensures DecideInside(s, 0, 22, 10, 7) == Cut(3)
  {
    assert HeaderEnd(s, 7) == 10;
    assert FindLast(s, 0, 7, 200, IsNewline) == -1;
    assert FindLast(s, 0, 7, 100, IsGap) == 3;
  }

  /** A content that is cut once, before a character that is not blank. */
  lemma CutOnce(s: string, maxLen: int, at: nat)
    requires maxLen >= 1 && s != "" && Decide(s, 0, maxLen) == Cut(at) && at < |s| <= at + maxLen && !IsBlank(s[at])
    ensures Run(s, maxLen, 2).Done() && Run(s, maxLen, 2).chunks == [s[0..at], s[at..]]
  {
    assert s[0..|s|] == s;
    assert Run(s, maxLen, 1) == Step(Run(s, maxLen, 0), maxLen) == State(s, at, [s[0..at]]);
    assert Run(s, maxLen, 2) == Step(Run(s, maxLen, 1), maxLen);
  }

  lemma SingleFence(s: string, u: nat)
    requires FencesAtLineStart(s) && Fence(s, u) && forall p | p != u :: !Fence(s, p)
    ensures Fences(s) == 1
  {
    OneFence(s, 0, u, |s|);
    NoFencesIn(s, 0, u);
    assert s[0..|s|] == s;
  }

  lemma FenceHalves(s: string, u: nat, at: nat)
    requires FencesAtLineStart(s) && Fence(s, u) && u < at < u + 3 && forall p | p != u :: !Fence(s, p)
    ensures Fences(s) == 1 && Fences(s[0..at]) == 0 && Fences(s[at..]) == 0
  {
    hide Fences, FencesAtLineStart;
    SingleFence(s, u);
    NoFencesIn(s, 0, at);
    NoFencesIn(s, at, |s|);
    assert s[at..|s|] == s[at..];
  }

  /** Two chunks without a fence from a content with one. */
  lemma FenceLost(s: string, maxLen: int, u: nat, at: nat)
    requires FencesAtLineStart(s) && Fence(s, u) && u < at < u + 3 && forall p | p != u :: !Fence(s, p)
    requires maxLen >= 1 && Decide(s, 0, maxLen) == Cut(at) && |s| <= at + maxLen
    ensures Run(s, maxLen, 2).Done() && !Mirrors(s, Run(s, maxLen, 2).chunks)
  {
    hide Fences, FencesAtLineStart, Run, Decide, Mirrors;
    CutOnce(s, maxLen, at);
    FenceHalves(s, u, at);
    NotMirrored(s, Run(s, maxLen, 2).chunks, s[0..at], s[at..]);
  }

  lemma NotMirrored(s: string, chunks: seq<string>, a: string, b: string)
    requires chunks == [a, b] && Fences(a) == 0 && Fences(b) == 0 && Fences(s) == 1
    ensures !Mirrors(s, chunks)
  {
    assert forall i | 0 <= i < |chunks| :: Balanced(chunks[i]);
  }

  /** With 6 runes a leading line break hides the fence from the natural cut. */
  lemma SixIsTooSmall(s: string)
    requires s == "\n```ab\n"
    ensures FencesAtLineStart(s) && Run(s, 6, 2).Done() && !Mirrors(s, Run(s, 6, 2).chunks)
  {
    assert Tentative(s, 0, 6) == 3;
    assert FindUnclosed(s, 0, 3, -1) == FindUnclosed(s, 1, 3, -1) == FindUnclosed(s, 2, 3, -1) ==
      FindUnclosed(s, 3, 3, -1);
    FenceLost(s, 6, 1, 3);
  }

  /** With 4 runes the natural cut sees no fence at all. */
  lemma FourIsTooSmall(s: string)
    requires s == "``` b"
    ensures FencesAtLineStart(s) && SplitExact.Trimmed(s) && Run(s, 4, 2).Done() && !Mirrors(s, Run(s, 4, 2).chunks)
  {
    assert Tentative(s, 0, 4) == 2;
    assert FindUnclosed(s, 0, 2, -1) == FindUnclosed(s, 1, 2, -1) == FindUnclosed(s, 2, 2, -1);
    FenceLost(s, 4, 0, 2);
  }

  lemma RewrittenOnce(s: string, maxLen: int, at: nat, u: nat)
    requires maxLen >= 1 && s != "" && at < |s| && Fence(s, u) && Decide(s, 0, maxLen) == Inject(at, Header(s, u))
    requires forall p | 0 <= p && p + 3 <= at :: !Fence(s, p)
    ensures !Run(s, maxLen, 1).Done() && |Run(s, maxLen, 1).chunks| == 1 && !Balanced(Run(s, maxLen, 1).chunks[0])
  {
    hide Decide, Header, Reopened, Closed, Balanced;
    BrokenChunk(s, 0, at);
    ReopenedNonempty(s, at, u);
    assert Run(s, maxLen, 1) == Step(Run(s, maxLen, 0), maxLen);
  }

  /** With 8 runes a rewrite may cut through the fence: the run sends an unbalanced chunk and goes on. */
  lemma EightIsTooSmall(s: string)
    requires s == "\n```  b a"
    ensures FencesAtLineStart(s) && !Run(s, 8, 1).Done() && |Run(s, 8, 1).chunks| == 1
    ensures !Balanced(Run(s, 8, 1).chunks[0])
  {
    EightDecides(s);
    hide Run, Decide, Header, Balanced;
    RewrittenOnce(s, 8, 3, 1);
  }

  lemma EightDecides(s: string)
    requires s == "\n```  b a"
    ensures Fence(s, 1) && Decide(s, 0, 8) == Inject(3, Header(s, 1))
  {
    assert Tentative(s, 0, 8) == 4;
    assert FindUnclosed(s, 0, 4, -1) == FindUnclosed(s, 1, 4, -1) == FindUnclosed(s, 4, 4, 1) == 1;
    assert FindClosing(s, 4) == -1;
    assert FindLast(s, 0, 1, 200, IsNewline) == 0;
  }
}
