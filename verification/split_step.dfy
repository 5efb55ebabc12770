/**
 * One iteration of SplitMessage as a function: the searches of its helper functions, the
 * decision where to cut, and the buffer that the next iteration sees.
 */
module SplitStep {
  import opened Text

  function Max(a: int, b: int): int {
    if a < b then b else a
  }

  function Min(a: int, b: int): int {
    if a < b then a else b
  }

  /** The last index in s[lo..hi] that satisfies p, or -1. */
  function LastIn(s: string, lo: nat, hi: nat, p: char -> bool): (r: int)
    requires hi <= |s|
    ensures r == -1 || (lo <= r < hi && p(s[r]))
    ensures forall i | Max(r + 1, lo) <= i < hi :: !p(s[i])
  {
    if hi <= lo then -1
    else if p(s[hi - 1]) then hi - 1
    else LastIn(s, lo, hi - 1, p)
  }

  /** The last match in the final `window` runes of s[start..end], or start - 1. */
  function FindLast(s: string, start: nat, end: nat, window: nat, p: char -> bool): (r: int)
    requires start <= end <= |s|
    ensures r == start - 1 || (Max(end - window, start) <= r < end && p(s[r]))
    ensures forall i | Max(r + 1, Max(end - window, start)) <= i < end :: !p(s[i])
  {
    var r := LastIn(s, Max(end - window, start), end, p);
    if r == -1 then start - 1 else r
  }

  function FindNewline(s: string, from: nat): (r: int)
    requires from <= |s|
    ensures r == -1 || (from <= r < |s| && s[r] == '\n')
    ensures forall i | from <= i < (if r == -1 then |s| else r) :: s[i] != '\n'
    decreases |s| - from
  {
    if from == |s| then -1
    else if s[from] == '\n' then from
    else FindNewline(s, from + 1)
  }

  /** The index just after the first fence at or after `from`, or -1. */
  function FindClosing(s: string, from: nat): (r: int)
    requires from <= |s|
    ensures r == -1 || (from <= r - 3 && Fence(s, r - 3))
    ensures forall p | from <= p && (r == -1 || p < r - 3) :: !Fence(s, p)
    decreases |s| - from
  {
    if from == |s| then -1
    else if Fence(s, from) then from + 3
    else FindClosing(s, from + 1)
  }

  /**
   * The greedy scan of s[i..end]. `open` is the fence that opened the current code block,
   * or -1 outside a block; the result is the fence left open at the end, or -1.
   */
  function FindUnclosed(s: string, i: nat, end: nat, open: int): (r: int)
    requires i <= end <= |s| && -1 <= open
    ensures r == -1 || r == open || (i <= r && r + 3 <= end && Fence(s, r))
    ensures r != -1 ==> forall p | Max(r + 3, i) <= p && p + 3 <= end :: !Fence(s, p)
    decreases end - i
  {
    if i == end then open
    else if Fence(s, i) && i + 3 <= end then FindUnclosed(s, i + 3, end, if open == -1 then i else -1)
    else FindUnclosed(s, i + 1, end, open)
  }

  /** The scan leaves a block open exactly when it sees an odd number of fences. */
  lemma {:induction false} UnclosedIsOdd(s: string, i: nat, end: nat, open: int)
    requires i <= end <= |s| && -1 <= open
    ensures (FindUnclosed(s, i, end, open) != -1) == ((Fences(s[i..end]) % 2 == 0) == (open != -1))
    decreases end - i
  {
    if i < end {
      var t := s[i..end];
      var fence := Fence(s, i) && i + 3 <= end;
      assert Fence(t, 0) == fence;
      var n := if fence then 3 else 1;
      assert t[n..] == s[i + n..end];
      UnclosedIsOdd(s, i + n, end, if !fence then open else if open == -1 then i else -1);
    }
  }

  /** The tentative size of a chunk: maxLen less the room kept for closing a code block. */
  function EffectiveLimit(maxLen: int): (r: int)
    requires maxLen >= 1
    ensures 1 <= r <= maxLen
    ensures maxLen <= 4 ==> r <= 2
    ensures maxLen >= 5 ==> r >= 3
    ensures maxLen >= 10 ==> maxLen / 2 <= r <= maxLen - 5
  {
    var wanted := Max(maxLen / 10, 50);
    var buffer := if wanted > maxLen / 2 then maxLen / 2 else wanted;
    Max(maxLen - buffer, maxLen / 2)
  }

  /** The natural cut within the effective limit: a newline, else a gap, else the limit. */
  function Tentative(s: string, start: nat, maxLen: int): (r: int)
    requires maxLen >= 1 && start + maxLen < |s|
    ensures start < r <= start + EffectiveLimit(maxLen)
    ensures r < start + EffectiveLimit(maxLen) ==> s[r] in "\n \t"
    ensures r == start + EffectiveLimit(maxLen) || s[r] in " \t" ==>
      forall i | Max(start + EffectiveLimit(maxLen) - 200, start + 1) <= i < start + EffectiveLimit(maxLen) ::
        s[i] != '\n'
  {
    var end := start + EffectiveLimit(maxLen);
    var newline := FindLast(s, start, end, 200, IsNewline);
    if newline > start then newline
    else
      var gap := FindLast(s, start, end, 100, IsGap);
      if gap > start then gap else end
  }

  /** The line that opens the code block at u, trimmed; only its fence when no newline follows. */
  function Header(s: string, u: nat): string
    requires Fence(s, u)
  {
    if FindNewline(s, u) == -1 then TrimSpace(s[u..u + 3]) else TrimSpace(s[u..FindNewline(s, u)])
  }

  function HeaderEnd(s: string, u: nat): int
    requires Fence(s, u)
  {
    var newline := FindNewline(s, u);
    if newline == -1 then u + |Header(s, u)| else newline
  }

  /**
   * What an iteration does with the buffer from `start` on: send all of it; cut before `at`;
   * or cut inside a code block, closing it here and reopening it with `header` in the next chunk.
   */
  datatype Decision = Whole | Cut(at: int) | Inject(at: int, header: string)

  function Decide(s: string, start: nat, maxLen: int): (d: Decision)
    requires maxLen >= 1 && start < |s|
    ensures d.Whole? ==> |s| - start <= maxLen
    ensures d.Cut? ==> start < d.at <= start + maxLen && d.at <= |s|
    ensures d.Inject? ==> maxLen >= 5 && start <= d.at <= start + maxLen - 5 && d.at < |s|
  {
    if |s| - start <= maxLen then Whole
    else
      var end := Tentative(s, start, maxLen);
      var open := FindUnclosed(s, start, end, -1);
      if open < 0 then Cut(end)
      else
        var closing := FindClosing(s, end);
        if closing > 0 && closing - start <= maxLen then Cut(closing)
        else DecideInside(s, start, maxLen, end, open)
  }

  /** The cut when the block opened at `open` does not close within maxLen. */
  function DecideInside(s: string, start: nat, maxLen: int, end: nat, open: nat): (d: Decision)
    requires maxLen >= 5 && start + maxLen < |s| && start <= open && open + 3 <= end <= start + maxLen
    requires Fence(s, open)
    ensures d.Cut? ==> start < d.at <= open
    ensures d.Inject? ==> start <= d.at <= start + maxLen - 5 && d.header == Header(s, open)
    ensures !d.Whole?
  {
    if end > HeaderEnd(s, open) + 20 then
      var inner := Min(start + maxLen - 5, |s|);
      var better := FindLast(s, start, inner, 200, IsNewline);
      Inject(if better > HeaderEnd(s, open) then better else inner, Header(s, open))
    else
      var newline := FindLast(s, start, open, 200, IsNewline);
      var before := if newline <= start then FindLast(s, start, open, 100, IsGap) else newline;
      if before > start then Cut(before)
      else if open - start > 20 then Cut(open)
      else Inject(Min(start + maxLen - 5, |s|), Header(s, open))
  }

  /** The first index at or after i that is not blank. */
  function SkipBlank(s: string, i: nat): (r: nat)
    requires i <= |s|
    ensures i <= r <= |s|
    ensures forall k | i <= k < r :: IsBlank(s[k])
    ensures r < |s| ==> !IsBlank(s[r])
    decreases |s| - i
  {
    if i < |s| && IsBlank(s[i]) then SkipBlank(s, i + 1) else i
  }

  const CLOSING := "\n```"

  /** The chunk sent by an injecting cut. */
  function Closed(s: string, start: nat, at: int): string
    requires start <= at <= |s|
  {
    TrimEnd(s[start..at], IsBlank) + CLOSING
  }

  /** The buffer an injecting cut leaves behind. */
  function Reopened(s: string, at: int, header: string): string
    requires 0 <= at <= |s|
  {
    TrimSpace(header + "\n" + s[at..])
  }

  /** The variables of the loop: the buffer, the position in it, and the chunks sent so far. */
  datatype State = State(runes: string, start: nat, chunks: seq<string>) {
    predicate Valid() { start <= |runes| }
    predicate Done() { start >= |runes| }
  }

  /** What an iteration makes of the loop's variables, once it has decided. */
  function Apply(st: State, d: Decision): (r: State)
    requires st.Valid()
    requires d.Whole? || st.start <= d.at <= |st.runes|
    ensures r.Valid()
  {
    match d
    case Whole =>
      st.(start := |st.runes|, chunks := st.chunks + [st.runes[st.start..]])
    case Cut(at) =>
      st.(start := SkipBlank(st.runes, at), chunks := st.chunks + [st.runes[st.start..at]])
    case Inject(at, header) =>
      State(Reopened(st.runes, at, header), 0, st.chunks + [Closed(st.runes, st.start, at)])
  }

  function Step(st: State, maxLen: int): (r: State)
    requires maxLen >= 1 && st.Valid()
    ensures r.Valid()
  {
    if st.Done() then st else Apply(st, Decide(st.runes, st.start, maxLen))
  }

  /** The state after n iterations. */
  function Run(content: string, maxLen: int, n: nat): (r: State)
    requires maxLen >= 1
    ensures r.Valid()
  {
    if n == 0 then State(content, 0, []) else Step(Run(content, maxLen, n - 1), maxLen)
  }

  /** What holds at the start and is kept by every iteration holds throughout every run. */
  lemma {:induction false} Invariant(content: string, maxLen: int, n: nat, inv: (State, nat) -> bool)
    requires maxLen >= 1 && inv(State(content, 0, []), 0)
    requires forall st: State, k: nat | st.Valid() && inv(st, k) :: inv(Step(st, maxLen), k + 1)
    ensures inv(Run(content, maxLen, n), n)
  {
    if n > 0 {
      Invariant(content, maxLen, n - 1, inv);
    }
  }
}
