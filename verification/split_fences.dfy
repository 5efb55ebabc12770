/** Code-block integrity of SplitMessage: which chunks the scanner itself sees as balanced. */
module SplitFences {
  import opened Text
  import opened SplitStep
  import opened SplitHeaders

  /** Room enough for a natural cut to see the newline before a fence, wherever the chunk starts. */
  predicate SeesLines(s: string, start: nat, maxLen: int)
    requires start < |s|
  {
    maxLen >= 7 || s[start] != '\n'
  }

  /** A tentative cut never falls inside a fence: the line before the fence would have been chosen. */
  lemma TentativeIsClean(s: string, start: nat, maxLen: int)
    requires FencesAtLineStart(s) && maxLen >= 5 && start + maxLen < |s| && SeesLines(s, start, maxLen)
    ensures CleanCut(s, Tentative(s, start, maxLen))
  {
  }

  /** Two slices that meet at a clean cut. */
  lemma SliceFences(s: string, a: nat, b: nat, c: nat)
    requires a <= b <= c <= |s| && CleanCut(s, b)
    ensures Fences(s[a..c]) == Fences(s[a..b]) + Fences(s[b..c])
  {
    var x, y := s[a..b], s[b..c];
    assert x + y == s[a..c];
    forall p | |x| - 3 < p < |x| ensures !Fence(x + y, p) {
      assert Fence(x + y, p) ==> Fence(s, a + p);
    }
    FencesConcat(x, y);
  }

  lemma NoFencesIn(s: string, a: nat, b: nat)
    requires a <= b <= |s| && forall p | a <= p && p + 3 <= b :: !Fence(s, p)
    ensures Fences(s[a..b]) == 0
  {
    var t := s[a..b];
    forall p ensures !Fence(t, p) {
      assert Fence(t, p) ==> Fence(s, a + p);
    }
    NoFences(t);
  }

  lemma FenceIsClean(s: string, p: nat)
    requires FencesAtLineStart(s) && Fence(s, p)
    ensures CleanCut(s, p) && CleanCut(s, p + 3)
    ensures Fences(s[p..p + 3]) == 1
  {
    assert Fence(s[p..p + 3], 0) && s[p..p + 3][3..] == "";
  }

  /** From the fence at p on, up to the next one. */
  lemma OneFence(s: string, start: nat, p: nat, at: nat)
    requires FencesAtLineStart(s) && Fence(s, p) && start <= p && p + 3 <= at <= |s|
    requires forall q | p + 3 <= q && q + 3 <= at :: !Fence(s, q)
    ensures Fences(s[start..at]) == Fences(s[start..p]) + 1
  {
    FenceIsClean(s, p);
    SliceFences(s, start, p, at);
    SliceFences(s, p, p + 3, at);
    NoFencesIn(s, p + 3, at);
  }

  /** Up to the block left open the fences are even in number; past its fence they are odd until the next one. */
  lemma OddAfterOpen(s: string, start: nat, end: nat, open: nat, at: nat)
    requires FencesAtLineStart(s) && start <= end <= |s|
    requires open == FindUnclosed(s, start, end, -1)
    requires open + 3 <= at <= |s| && forall p | open + 3 <= p && p + 3 <= at :: !Fence(s, p)
    ensures start <= open && Balanced(s[start..open]) && !Balanced(s[start..at])
  {
    UnclosedIsOdd(s, start, end, -1);
    OneFence(s, start, open, end);
    OneFence(s, start, open, at);
  }

  /** What an iteration sends, in terms of fences. */
  ghost predicate Even(s: string, start: nat, d: Decision) {
    match d
    case Whole => true
    case Cut(at) => start <= at <= |s| && CleanCut(s, at) && Balanced(s[start..at])
    case Inject(at, header) => start <= at <= |s| && CleanCut(s, at) && !Balanced(s[start..at])
  }

  lemma DecideIsEven(s: string, start: nat, maxLen: int)
    requires FencesAtLineStart(s) && maxLen >= 5 && start < |s| && SeesLines(s, start, maxLen)
    ensures maxLen >= 9 || !Decide(s, start, maxLen).Inject? ==> Even(s, start, Decide(s, start, maxLen))
  {
    if |s| - start > maxLen {
      var end := Tentative(s, start, maxLen);
      TentativeIsClean(s, start, maxLen);
      var open := FindUnclosed(s, start, end, -1);
      UnclosedIsOdd(s, start, end, -1);
      var closing := FindClosing(s, end);
      if open >= 0 {
        if closing > 0 && closing - start <= maxLen {
          ClosingIsEven(s, start, end, closing);
        } else {
          InsideIsEven(s, start, maxLen, end, open);
        }
      }
    }
  }

  lemma ClosingIsEven(s: string, start: nat, end: nat, closing: nat)
    requires FencesAtLineStart(s) && start <= end <= |s| && CleanCut(s, end) && !Balanced(s[start..end])
    requires closing == FindClosing(s, end) && closing > 0
    ensures CleanCut(s, closing) && Balanced(s[start..closing])
  {
    var p := closing - 3;
    FenceIsClean(s, p);
    NoFencesIn(s, end, p);
    SliceFences(s, end, p, closing);
    SliceFences(s, start, end, closing);
  }

  lemma InsideIsEven(s: string, start: nat, maxLen: int, end: nat, open: nat)
    requires FencesAtLineStart(s) && maxLen >= 5 && start + maxLen < |s|
    requires end == Tentative(s, start, maxLen) && CleanCut(s, end)
    requires open == FindUnclosed(s, start, end, -1) && Fence(s, open) && start <= open && open + 3 <= end
    requires FindClosing(s, end) == -1 || FindClosing(s, end) > start + maxLen
    ensures var d := DecideInside(s, start, maxLen, end, open);
      maxLen >= 9 || !d.Inject? ==> Even(s, start, d)
  {
    hide Header, FencesAtLineStart, CleanCut;
    var d := DecideInside(s, start, maxLen, end, open);
    if d.Inject? {
      if maxLen >= 9 {
        hide DecideInside;
        InjectIsClean(s, start, maxLen, end, open);
        OddAfterOpen(s, start, end, open, d.at);
      }
    } else {
      CutIsBeforeOpen(s, start, maxLen, end, open);
      BeforeOpenIsEven(s, start, end, open);
    }
  }

  /** A cut inside is a cut at the newline before the block. */
  lemma CutIsBeforeOpen(s: string, start: nat, maxLen: int, end: nat, open: nat)
    requires FencesAtLineStart(s) && maxLen >= 5 && start + maxLen < |s| && Fence(s, open)
    requires start <= open && open + 3 <= end <= start + maxLen && DecideInside(s, start, maxLen, end, open).Cut?
    ensures start < open && s[open - 1] == '\n' && DecideInside(s, start, maxLen, end, open) == Cut(open - 1)
  {
    hide Header;
    assert open > start ==> s[open - 1] == '\n' && FindLast(s, start, open, 200, IsNewline) == open - 1;
  }

  lemma BeforeOpenIsEven(s: string, start: nat, end: nat, open: nat)
    requires FencesAtLineStart(s) && start <= end <= |s| && CleanCut(s, end)
    requires open == FindUnclosed(s, start, end, -1) && start < open && s[open - 1] == '\n'
    ensures CleanCut(s, open - 1) && Balanced(s[start..open - 1])
  {
    OddAfterOpen(s, start, end, open, end);
    SliceFences(s, start, open - 1, open);
    NoFencesIn(s, open - 1, open);
  }

  /** Where an injecting cut falls: at a newline, or as far out as it can. */
  lemma InjectWhere(s: string, start: nat, maxLen: int, end: nat, open: nat)
    requires FencesAtLineStart(s) && maxLen >= 9 && start + maxLen < |s| && Fence(s, open) && start <= open
    requires open + 3 <= end <= start + maxLen && DecideInside(s, start, maxLen, end, open).Inject?
    ensures var at := DecideInside(s, start, maxLen, end, open).at;
      open + 3 <= at <= start + maxLen - 5 && (at == start + maxLen - 5 || s[at] == '\n')
  {
    hide Header;
    assert HeaderEnd(s, open) >= open + 3 by {
      HeaderEndsBehind(s, open);
    }
    assert open > start + 1 ==> FindLast(s, start, open, 200, IsNewline) == open - 1;
  }

  lemma HeaderEndsBehind(s: string, u: nat)
    requires Fence(s, u)
    ensures HeaderEnd(s, u) >= u + 3
  {
    HeaderShape(s, u);
  }

  /** Up to the end of a chunk there is no fence behind the block left open. */
  lemma NoneBehind(s: string, start: nat, maxLen: int, end: nat, open: nat)
    requires start <= end <= start + maxLen < |s| && CleanCut(s, end)
    requires open == FindUnclosed(s, start, end, -1)
    requires FindClosing(s, end) == -1 || FindClosing(s, end) > start + maxLen
    ensures forall p | open + 3 <= p && p + 3 <= start + maxLen :: !Fence(s, p)
  {
    forall p | open + 3 <= p && p + 3 <= start + maxLen ensures !Fence(s, p) {
      assert p + 3 <= end || end - 3 < p < end || end <= p;
    }
  }

  lemma InjectIsClean(s: string, start: nat, maxLen: int, end: nat, open: nat)
    requires FencesAtLineStart(s) && maxLen >= 9 && start + maxLen < |s|
    requires end == Tentative(s, start, maxLen) && CleanCut(s, end)
    requires open == FindUnclosed(s, start, end, -1) && Fence(s, open) && start <= open && open + 3 <= end
    requires FindClosing(s, end) == -1 || FindClosing(s, end) > start + maxLen
    requires DecideInside(s, start, maxLen, end, open).Inject?
    ensures var at := DecideInside(s, start, maxLen, end, open).at;
      && open + 3 <= at <= |s| && CleanCut(s, at)
      && forall p | open + 3 <= p && p + 3 <= at :: !Fence(s, p)
  {
    hide DecideInside, Header;
    InjectWhere(s, start, maxLen, end, open);
    NoneBehind(s, start, maxLen, end, open);
    CleanThere(s, open, DecideInside(s, start, maxLen, end, open).at, start + maxLen);
  }

  /** A newline, or a place well before the next fence, is a clean cut. */
  lemma CleanThere(s: string, open: nat, at: nat, n: int)
    requires FencesAtLineStart(s) && Fence(s, open) && open + 3 <= at <= n - 5 && n < |s|
    requires at == n - 5 || s[at] == '\n'
    requires forall p | open + 3 <= p && p + 3 <= n :: !Fence(s, p)
    ensures CleanCut(s, at)
  {
    forall p | at - 3 < p < at ensures !Fence(s, p) {
      assert open < p < open + 3 ==> s[p - 1] == '`';
    }
  }

  /** A header holds one fence, so a rewritten buffer has one fence more than its tail. */
  lemma HeaderHasOneFence(s: string, u: nat)
    requires FencesAtLineStart(s) && Fence(s, u)
    ensures forall p | p != 0 :: !Fence(Header(s, u), p)
    ensures Fences(Header(s, u)) == 1
  {
    var h := Header(s, u);
    HeaderShape(s, u);
    assert forall i | 0 <= i < |h| :: h[i] == s[u + i];
    forall p | p != 0 ensures !Fence(h, p) {
      assert Fence(h, p) ==> Fence(s, u + p);
      assert 0 < p <= |h| ==> s[u + p - 1] == h[p - 1] != '\n';
    }
    FenceFirst(h);
  }

  lemma FenceFirst(h: string)
    requires Fence(h, 0) && forall p | p != 0 :: !Fence(h, p)
    ensures Fences(h) == 1
  {
    forall p ensures !Fence(h[3..], p) {
      assert Fence(h[3..], p) ==> Fence(h, p + 3);
    }
    NoFences(h[3..]);
  }

  lemma ReopenedFences(s: string, at: nat, h: string)
    requires at <= |s| && Fence(h, 0) && Fences(h) == 1
    ensures Fences(Reopened(s, at, h)) == 1 + Fences(s[at..])
  {
    var tail := s[at..];
    var whole := h + "\n" + tail;
    assert whole[0] == h[0] && StartOf(whole, 0, IsSpace) == 0 && whole[0..] == whole;
    TrimEndKeepsFences(whole, IsSpace);
    JoinFences(h, tail);
  }

  /** A newline between two texts keeps their fences apart. */
  lemma JoinFences(a: string, b: string)
    ensures Fences(a + "\n" + b) == Fences(a) + Fences(b)
  {
    var s := a + "\n" + b;
    assert s[|a|] == '\n' && a + ("\n" + b) == s;
    FencesConcat(a, "\n" + b);
    assert ("\n" + b)[1..] == b;
  }

  lemma ReopenedAtLineStart(s: string, u: nat, at: nat)
    requires FencesAtLineStart(s) && Fence(s, u) && at <= |s|
    ensures FencesAtLineStart(Reopened(s, at, Header(s, u)))
  {
    var h := Header(s, u);
    HeaderShape(s, u);
    HeaderHasOneFence(s, u);
    ReopenedText(s, at, h);
    LineStarts(s, at, h, Reopened(s, at, h));
  }

  lemma LineStarts(s: string, at: nat, h: string, buf: string)
    requires FencesAtLineStart(s) && at <= |s| && forall p | p != 0 :: !Fence(h, p)
    requires |h| <= |buf| <= |h| + 1 + |s| - at
    requires forall i | 0 <= i < |h| :: buf[i] == h[i]
    requires |h| < |buf| ==> buf[|h|] == '\n'
    requires forall i | |h| < i < |buf| :: buf[i] == s[at + i - |h| - 1]
    ensures FencesAtLineStart(buf)
  {
    forall p | Fence(buf, p) ensures p == 0 || buf[p - 1] == '\n' {
      if p <= |h| {
        assert p + 3 <= |h| ==> Fence(h, p);
      } else {
        var q := at + p - |h| - 1;
        assert buf[p] == s[q] && buf[p + 1] == s[q + 1] && buf[p + 2] == s[q + 2];
        assert Fence(s, q);
        assert p > |h| + 1 ==> buf[p - 1] == s[q - 1];
      }
    }
  }

  /** All chunks but the last are balanced, and the parity of the content is never lost. */
  ghost predicate Intact(content: string, st: State) {
    && st.Valid()
    && FencesAtLineStart(st.runes)
    && (forall i | 0 <= i < |st.chunks| - 1 :: Balanced(st.chunks[i]))
    && (st.chunks == [] ==> st.start == 0 && st.runes == content)
    && (st.chunks != [] && !st.Done() ==> Balanced(Last(st)) && Balanced(st.runes[st.start..]) == Balanced(content))
    && (st.chunks != [] && st.Done() ==> Balanced(Last(st)) == Balanced(content))
  }

  function Last(st: State): string
    requires st.chunks != []
  {
    st.chunks[|st.chunks| - 1]
  }

  lemma SkippingKeepsFences(s: string, at: nat)
    requires at <= |s|
    ensures Fences(s[at..]) == Fences(s[SkipBlank(s, at)..])
  {
    var next := SkipBlank(s, at);
    assert forall p | next - 3 < p < next :: p + 3 <= at || !Fence(s, p) || next == at;
    var x, y := s[at..next], s[next..];
    assert x + y == s[at..];
    forall p | |x| - 3 < p < |x| ensures !Fence(x + y, p) {
      assert p >= 0 ==> IsBlank((x + y)[p]);
    }
    FencesConcat(x, y);
    NoFencesIn(s, at, next);
  }

  lemma ClosedIsBalanced(s: string, start: nat, at: nat)
    requires start <= at <= |s| && !Balanced(s[start..at])
    ensures Balanced(Closed(s, start, at))
  {
    ClosingCounts(s[start..at]);
  }

  /** The chunk of a rewrite has one fence more than the text it sends. */
  lemma ClosingCounts(text: string)
    ensures Fences(TrimEnd(text, IsBlank) + CLOSING) == Fences(text) + 1
  {
    var kept := TrimEnd(text, IsBlank);
    TrimEndKeepsFences(text, IsBlank);
    assert Fences("```") == 1 by {
      assert "```"[3..] == "";
    }
    hide Fences, TrimEnd;
    JoinFences(kept, "```");
    assert kept + "\n" + "```" == kept + CLOSING;
  }

  /** What remains after a clean cut. */
  lemma RestFences(s: string, start: nat, at: nat)
    requires start <= at <= |s| && CleanCut(s, at)
    ensures Fences(s[start..]) == Fences(s[start..at]) + Fences(s[at..])
  {
    SliceFences(s, start, at, |s|);
    assert s[at..|s|] == s[at..] && s[start..|s|] == s[start..];
  }

  lemma CutParity(s: string, start: nat, at: nat)
    requires Even(s, start, Cut(at))
    ensures Balanced(s[SkipBlank(s, at)..]) == Balanced(s[start..])
  {
    RestFences(s, start, at);
    SkippingKeepsFences(s, at);
    OddRest(Fences(s[start..]), Fences(s[start..at]), Fences(s[at..]));
  }

  lemma CutIntact(content: string, st: State, at: nat)
    requires Intact(content, st) && !st.Done() && Balanced(st.runes[st.start..]) == Balanced(content)
    requires st.start < at && Even(st.runes, st.start, Cut(at))
    ensures Intact(content, Apply(st, Cut(at)))
  {
    CutParity(st.runes, st.start, at);
    assert Balanced("");
    assert SkipBlank(st.runes, at) == |st.runes| ==> st.runes[SkipBlank(st.runes, at)..] == "";
  }

  /** The rewritten buffer has a fence for the block reopened, and the tail an odd number less. */
  lemma ReopenedParity(s: string, start: nat, at: nat, u: nat)
    requires FencesAtLineStart(s) && Fence(s, u) && Even(s, start, Inject(at, Header(s, u)))
    ensures Balanced(Reopened(s, at, Header(s, u))) == Balanced(s[start..])
  {
    hide Header, Reopened, FencesAtLineStart, Fences;
    RestFences(s, start, at);
    ReopenedCount(s, at, u);
    OddRest(Fences(s[start..]), Fences(s[start..at]), Fences(s[at..]));
  }

  lemma ReopenedCount(s: string, at: nat, u: nat)
    requires FencesAtLineStart(s) && Fence(s, u) && at <= |s|
    ensures Fences(Reopened(s, at, Header(s, u))) == 1 + Fences(s[at..])
  {
    hide Header, Reopened, Fences;
    HeaderShape(s, u);
    HeaderHasOneFence(s, u);
    ReopenedFences(s, at, Header(s, u));
  }

  lemma OddRest(total: nat, sent: nat, rest: nat)
    requires total == sent + rest
    ensures sent % 2 != 0 ==> (1 + rest) % 2 == total % 2
    ensures sent % 2 == 0 ==> rest % 2 == total % 2
  {
  }

  lemma InjectIntact(content: string, st: State, at: nat, u: nat)
    requires Intact(content, st) && !st.Done() && Balanced(st.runes[st.start..]) == Balanced(content)
    requires Fence(st.runes, u) && Even(st.runes, st.start, Inject(at, Header(st.runes, u)))
    ensures Intact(content, Apply(st, Inject(at, Header(st.runes, u))))
  {
    ClosedIsBalanced(st.runes, st.start, at);
    ReopenedParity(st.runes, st.start, at, u);
    ReopenedAtLineStart(st.runes, u, at);
    var buf := Reopened(st.runes, at, Header(st.runes, u));
    ReopenedNonempty(st.runes, at, u);
    Rewritten(content, st, Closed(st.runes, st.start, at), buf);
  }

  lemma ReopenedNonempty(s: string, at: nat, u: nat)
    requires Fence(s, u) && at <= |s|
    ensures Reopened(s, at, Header(s, u)) != ""
  {
    HeaderShape(s, u);
    ReopenedText(s, at, Header(s, u));
  }

  lemma Rewritten(content: string, st: State, chunk: string, buf: string)
    requires Intact(content, st) && !st.Done() && buf != ""
    requires Balanced(chunk) && FencesAtLineStart(buf) && Balanced(buf) == Balanced(content)
    ensures Intact(content, State(buf, 0, st.chunks + [chunk]))
  {
    assert buf[0..] == buf;
  }

  lemma ApplyIntact(content: string, st: State, d: Decision, u: nat)
    requires Intact(content, st) && !st.Done() && Even(st.runes, st.start, d)
    requires d.Cut? ==> st.start < d.at
    requires d.Inject? ==> Fence(st.runes, u) && d.header == Header(st.runes, u)
    ensures Intact(content, Apply(st, d))
  {
    assert st.runes[0..] == st.runes;
    match d
    case Whole =>
    case Cut(at) =>
      CutIntact(content, st, at);
    case Inject(at, header) =>
      InjectIntact(content, st, at, u);
  }

  lemma StepIntact(content: string, st: State, maxLen: int)
    requires maxLen >= 9 && Intact(content, st)
    ensures Intact(content, Step(st, maxLen))
  {
    if !st.Done() {
      DecideIsEven(st.runes, st.start, maxLen);
      var d := Decide(st.runes, st.start, maxLen);
      var u := 0;
      if d.Inject? {
        u := InjectedHeader(st.runes, st.start, maxLen);
      }
      ApplyIntact(content, st, d, u);
    }
  }

  /**
   * If every fence of the content starts a line and maxLen >= 9, then in every run each chunk
   * but the last is balanced, and once the run is over all chunks are exactly when the content is.
   */
  lemma FenceIntegrity(content: string, maxLen: int, n: nat)
    requires maxLen >= 9 && FencesAtLineStart(content)
    ensures var st := Run(content, maxLen, n);
      && (forall i | 0 <= i < |st.chunks| - 1 :: Balanced(st.chunks[i]))
      && (!st.Done() || Balanced(content) ==> forall i | 0 <= i < |st.chunks| :: Balanced(st.chunks[i]))
      && (st.Done() ==> ((forall i | 0 <= i < |st.chunks| :: Balanced(st.chunks[i])) <==> Balanced(content)))
  {
    var inv := (st: State, k: nat) => Intact(content, st);
    forall st: State, k: nat | st.Valid() && inv(st, k) ensures inv(Step(st, maxLen), k + 1) {
      StepIntact(content, st, maxLen);
    }
    Invariant(content, maxLen, n, inv);
    var st := Run(content, maxLen, n);
    assert Intact(content, st);
  }
}
