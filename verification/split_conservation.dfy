/**
 * Safety of SplitMessage over every run, terminating or not: chunk lengths, and the
 * conservation of the content. No precondition on the content or on a positive maxLen.
 */
module SplitConservation {
  import opened Text
  import opened SplitStep
  import opened SplitHeaders

  ghost predicate Sized(chunks: seq<string>, maxLen: int) {
    forall i | 0 <= i < |chunks| :: 1 <= |chunks[i]| <= maxLen
  }

  lemma StepLengths(st: State, maxLen: int)
    requires maxLen >= 1 && st.Valid() && Sized(st.chunks, maxLen)
    ensures Sized(Step(st, maxLen).chunks, maxLen)
  {
    if !st.Done() {
      ApplyLengths(st, maxLen, Decide(st.runes, st.start, maxLen));
    }
  }

  lemma ApplyLengths(st: State, maxLen: int, d: Decision)
    requires maxLen >= 1 && st.Valid() && !st.Done() && Sized(st.chunks, maxLen)
    requires d.Whole? ==> |st.runes| - st.start <= maxLen
    requires d.Cut? ==> st.start < d.at <= st.start + maxLen && d.at <= |st.runes|
    requires d.Inject? ==> maxLen >= 5 && st.start <= d.at <= st.start + maxLen - 5 && d.at < |st.runes|
    ensures Sized(Apply(st, d).chunks, maxLen)
  {
    hide Reopened, SkipBlank;
  }

  /** Every chunk sent so far, closing fence included, has between 1 and maxLen runes. */
  lemma {:induction false} ChunkLengths(content: string, maxLen: int, n: nat)
    requires maxLen >= 1
    ensures Sized(Run(content, maxLen, n).chunks, maxLen)
  {
    if n > 0 {
      hide Sized, Step;
      ChunkLengths(content, maxLen, n - 1);
      StepLengths(Run(content, maxLen, n - 1), maxLen);
    }
  }

  /** A chunk seen as injected header text, a slice content[lo..hi], and an injected closing. */
  datatype Piece = Piece(pre: string, lo: nat, hi: nat, post: string) {
    ghost predicate For(content: string, chunk: string) {
      In(content) && post in {"", CLOSING} && HeaderText(content, pre) && chunk == Text(content)
    }

    predicate In(content: string) { lo <= hi <= |content| }

    function Text(content: string): string
      requires In(content)
    {
      pre + Source(content) + post
    }

    function Source(content: string): string
      requires In(content)
    {
      content[lo..hi]
    }
  }

  /** The slices lie in content[..end] in order, and everything between them is white space. */
  ghost predicate Covers(content: string, pieces: seq<Piece>, end: nat)
    requires end <= |content|
  {
    if pieces == [] then AllSpace(content[..end])
    else
      var last := pieces[|pieces| - 1];
      && last.lo <= last.hi <= end
      && AllSpace(content[last.hi..end])
      && Covers(content, pieces[..|pieces| - 1], last.lo)
  }

  /** The buffer is injected text followed by content[from..to]; only white space is beyond. */
  datatype Layout = Layout(injected: string, from: nat, to: nat) {
    ghost predicate Of(content: string, runes: string) {
      && from <= to <= |content|
      && runes == injected + content[from..to]
      && AllSpace(content[to..])
    }

    /** The index in the content of the first source rune at or after buffer index i. */
    function Source(i: nat): nat {
      if i <= |injected| then from else from + (i - |injected|)
    }

    function Slice(a: nat, b: nat, post: string): Piece
      requires a <= b
    {
      Piece(injected[Min(a, |injected|)..Min(b, |injected|)], Source(a), Source(b), post)
    }
  }

  ghost predicate Conserved(content: string, st: State, pieces: seq<Piece>, lay: Layout) {
    && st.Valid()
    && lay.Of(content, st.runes)
    && |pieces| == |st.chunks|
    && (forall i | 0 <= i < |pieces| :: pieces[i].For(content, st.chunks[i]))
    && HeadersFrom(content, st.runes)
    && HeaderText(content, lay.injected)
    && lay.Source(st.start) <= |content|
    && Covers(content, pieces, lay.Source(st.start))
  }

  lemma SliceText(content: string, runes: string, lay: Layout, a: nat, b: nat)
    requires lay.Of(content, runes) && a <= b <= |runes|
    ensures lay.Source(a) <= lay.Source(b) <= lay.to
    ensures lay.Slice(a, b, "").Text(content) == runes[a..b]
  {
    var inj := lay.injected;
    var pre, src := inj[Min(a, |inj|)..Min(b, |inj|)], content[lay.Source(a)..lay.Source(b)];
    assert |pre| + |src| == b - a;
    forall i | 0 <= i < b - a ensures runes[a..b][i] == (pre + src)[i] {
      assert runes[a..b][i] == runes[a + i];
    }
    assert runes[a..b] == pre + src;
  }

  lemma SliceSpace(content: string, runes: string, lay: Layout, a: nat, b: nat)
    requires lay.Of(content, runes) && a <= b <= |runes| && AllSpace(runes[a..b])
    ensures lay.Source(a) <= lay.Source(b) <= lay.to && AllSpace(content[lay.Source(a)..lay.Source(b)])
  {
    forall i | lay.Source(a) <= i < lay.Source(b) ensures IsSpace(content[i]) {
      var j := i - lay.from + |lay.injected|;
      assert content[i] == runes[j] == runes[a..b][j - a];
    }
  }

  /** A trimmed slice is a shorter slice, and what was trimmed is white space. */
  lemma TrimmedSlice(s: string, start: nat, at: nat) returns (t: nat)
    requires start <= at <= |s|
    ensures start <= t <= at && TrimEnd(s[start..at], IsBlank) == s[start..t] && AllSpace(s[t..at])
  {
    var kept := TrimEnd(s[start..at], IsBlank);
    t := start + |kept|;
    assert kept == s[start..at][..|kept|] == s[start..t];
    assert forall i | t <= i < at :: s[i] == s[start..at][i - start];
  }

  /** Sending s[start..t], dropping the blanks s[t..at], extends the cover to `at`. */
  lemma Extend(content: string, st: State, pieces: seq<Piece>, lay: Layout, t: nat, at: nat, post: string)
    returns (piece: Piece)
    requires Conserved(content, st, pieces, lay)
    requires st.start <= t <= at <= |st.runes| && AllSpace(st.runes[t..at]) && post in {"", CLOSING}
    ensures piece.For(content, st.runes[st.start..t] + post)
    ensures piece == lay.Slice(st.start, t, post)
    ensures lay.Source(at) <= lay.to && Covers(content, pieces + [piece], lay.Source(at))
  {
    SliceText(content, st.runes, lay, st.start, t);
    SliceSpace(content, st.runes, lay, t, at);
    piece := lay.Slice(st.start, t, post);
    HeaderTextSlice(content, lay.injected, Min(st.start, |lay.injected|), Min(t, |lay.injected|));
    assert (pieces + [piece])[..|pieces|] == pieces;
  }

  /** The buffer after an injecting cut again is header text and then a slice of the content. */
  lemma ReopenedLayout(content: string, runes: string, lay: Layout, at: nat, header: string) returns (next: Layout)
    requires lay.Of(content, runes) && at <= |runes|
    requires Fence(header, 0) && Copied(content, header) && HeaderText(content, lay.injected)
    ensures next.Of(content, Reopened(runes, at, header)) && next.from == lay.Source(at)
    ensures HeaderText(content, next.injected)
  {
    SliceText(content, runes, lay, at, |runes|);
    var rest := lay.Slice(at, |runes|, "").pre;
    HeaderTextSlice(content, lay.injected, Min(at, |lay.injected|), |lay.injected|);
    assert rest == lay.injected[Min(at, |lay.injected|)..|lay.injected|];
    var inj := header + "\n" + rest;
    HeaderTextReopen(content, header, rest);
    var k := lay.Source(at);
    var whole := inj + content[k..lay.to];
    assert header + "\n" + runes[at..] == whole;
    assert whole[0] == header[0];
    assert StartOf(whole, 0, IsSpace) == 0 && whole[0..] == whole;
    next := TrimmedLayout(content, inj, k, lay.to);
    HeaderTextSlice(content, inj, 0, |next.injected|);
  }

  /** Trimming the end of a laid-out buffer. */
  lemma TrimmedLayout(content: string, inj: string, k: nat, to: nat) returns (next: Layout)
    requires k <= to <= |content| && AllSpace(content[to..])
    ensures next.Of(content, TrimEnd(inj + content[k..to], IsSpace)) && next.from == k
    ensures |next.injected| <= |inj| && next.injected == inj[0..|next.injected|]
  {
    var whole := inj + content[k..to];
    var n := |TrimEnd(whole, IsSpace)|;
    next := if n <= |inj| then Layout(inj[0..n], k, k) else Layout(inj, k, k + n - |inj|);
    forall i | next.to <= i < |content| ensures IsSpace(content[i]) {
      assert i < to ==> content[i] == whole[i - k + |inj|];
      assert i >= to ==> content[i] == content[to..][i - to];
    }
    assert whole[..n] == next.injected + content[k..next.to];
  }

  lemma CutConserves(content: string, st: State, pieces: seq<Piece>, lay: Layout, at: nat, next: nat)
    returns (pieces': seq<Piece>)
    requires Conserved(content, st, pieces, lay)
    requires st.start <= at <= next <= |st.runes| && AllSpace(st.runes[at..next])
    ensures Conserved(content, st.(start := next, chunks := st.chunks + [st.runes[st.start..at]]), pieces', lay)
  {
    var piece := Extend(content, st, pieces, lay, at, at, "");
    pieces' := pieces + [piece];
    SliceSpace(content, st.runes, lay, at, next);
    WidenCover(content, pieces', lay.Source(at), lay.Source(next));
  }

  lemma InjectConserves(content: string, st: State, pieces: seq<Piece>, lay: Layout, at: nat, u: nat)
    returns (pieces': seq<Piece>, lay': Layout)
    requires Conserved(content, st, pieces, lay)
    requires st.start <= at <= |st.runes| && Fence(st.runes, u)
    ensures Conserved(content, State(Reopened(st.runes, at, Header(st.runes, u)), 0,
                                     st.chunks + [Closed(st.runes, st.start, at)]), pieces', lay')
  {
    var header := Header(st.runes, u);
    HeaderShape(st.runes, u);
    ReopenedHeaders(content, st.runes, u, at);
    lay' := ReopenedLayout(content, st.runes, lay, at, header);
    var t := TrimmedSlice(st.runes, st.start, at);
    var piece := Extend(content, st, pieces, lay, t, at, CLOSING);
    var chunk, buf := Closed(st.runes, st.start, at), Reopened(st.runes, at, header);
    pieces' := Append(content, st, pieces, lay, piece, chunk, buf, lay');
  }

  /** The bookkeeping of an injecting cut: one more piece, and the new buffer laid out. */
  lemma Append(content: string, st: State, pieces: seq<Piece>, lay: Layout,
               piece: Piece, chunk: string, runes: string, lay': Layout) returns (pieces': seq<Piece>)
    requires Conserved(content, st, pieces, lay)
    requires piece.For(content, chunk)
    requires lay'.Of(content, runes) && Covers(content, pieces + [piece], lay'.from)
    requires HeadersFrom(content, runes) && HeaderText(content, lay'.injected)
    ensures Conserved(content, State(runes, 0, st.chunks + [chunk]), pieces', lay')
  {
    pieces' := pieces + [piece];
  }

  lemma ApplyConserves(content: string, st: State, d: Decision, u: nat, pieces: seq<Piece>, lay: Layout)
    returns (pieces': seq<Piece>, lay': Layout)
    requires Conserved(content, st, pieces, lay)
    requires d.Whole? || st.start <= d.at <= |st.runes|
    requires d.Inject? ==> Fence(st.runes, u) && d.header == Header(st.runes, u)
    ensures Conserved(content, Apply(st, d), pieces', lay')
  {
    lay' := lay;
    match d
    case Whole =>
      assert st.runes[st.start..] == st.runes[st.start..|st.runes|];
      pieces' := CutConserves(content, st, pieces, lay, |st.runes|, |st.runes|);
    case Cut(at) =>
      pieces' := CutConserves(content, st, pieces, lay, at, SkipBlank(st.runes, at));
    case Inject(at, header) =>
      pieces', lay' := InjectConserves(content, st, pieces, lay, at, u);
  }

  /** One iteration keeps the content conserved. */
  lemma StepConserves(content: string, st: State, maxLen: int, pieces: seq<Piece>, lay: Layout)
    returns (pieces': seq<Piece>, lay': Layout)
    requires maxLen >= 1 && Conserved(content, st, pieces, lay)
    ensures Conserved(content, Step(st, maxLen), pieces', lay')
  {
    pieces', lay' := pieces, lay;
    if !st.Done() {
      var d := Decide(st.runes, st.start, maxLen);
      var u := 0;
      if d.Inject? {
        u := InjectedHeader(st.runes, st.start, maxLen);
      }
      pieces', lay' := ApplyConserves(content, st, d, u, pieces, lay);
    }
  }

  /**
   * At any moment of any run the chunks sent, each stripped of what was injected around it,
   * are slices of the content in order with only white space between them, and what is left
   * to send is the rest of the content.
   */
  lemma {:induction false} ContentConserved(content: string, maxLen: int, n: nat)
    returns (pieces: seq<Piece>, lay: Layout)
    requires maxLen >= 1
    ensures Conserved(content, Run(content, maxLen, n), pieces, lay)
  {
    if n == 0 {
      pieces, lay := InitialConserved(content);
    } else {
      pieces, lay := ContentConserved(content, maxLen, n - 1);
      var st := Run(content, maxLen, n - 1);
      pieces, lay := StepConserves(content, st, maxLen, pieces, lay);
    }
  }

  lemma InitialConserved(content: string) returns (pieces: seq<Piece>, lay: Layout)
    ensures Conserved(content, State(content, 0, []), pieces, lay)
  {
    HeadersFromSelf(content);
    pieces, lay := [], Layout("", 0, |content|);
    assert content[0..|content|] == content;
  }

  lemma DoneCovers(content: string, st: State, pieces: seq<Piece>, lay: Layout)
    requires Conserved(content, st, pieces, lay) && st.Done()
    ensures Covers(content, pieces, |content|)
  {
    WidenCover(content, pieces, lay.to, |content|);
  }

  lemma WidenCover(content: string, pieces: seq<Piece>, mid: nat, end: nat)
    requires mid <= end <= |content| && Covers(content, pieces, mid) && AllSpace(content[mid..end])
    ensures Covers(content, pieces, end)
  {
    var lo := if pieces == [] then 0 else pieces[|pieces| - 1].hi;
    forall i | lo <= i < end ensures IsSpace(content[i]) {
      assert content[i] == if i < mid then content[lo..mid][i - lo] else content[mid..end][i - mid];
    }
  }

  /** The characters of s that are not white space. */
  function Ink(s: string): string {
    if s == [] then [] else (if IsSpace(s[0]) then [] else [s[0]]) + Ink(s[1..])
  }

  /** The source text of the pieces, without what was injected. */
  function SourceInk(content: string, pieces: seq<Piece>): string
    requires forall i | 0 <= i < |pieces| :: pieces[i].In(content)
  {
    if pieces == [] then []
    else
      var last := pieces[|pieces| - 1];
      SourceInk(content, pieces[..|pieces| - 1]) + Ink(last.Source(content))
  }

  lemma {:induction false} InkConcat(a: string, b: string)
    ensures Ink(a + b) == Ink(a) + Ink(b)
  {
    if a == [] {
      assert a + b == b;
    } else {
      assert (a + b)[1..] == a[1..] + b;
      InkConcat(a[1..], b);
    }
  }

  lemma {:induction false} InkOfSpace(s: string)
    requires AllSpace(s)
    ensures Ink(s) == []
  {
    if s != [] {
      InkOfSpace(s[1..]);
    }
  }

  /** A cover loses, repeats and reorders no character that is not white space. */
  lemma {:induction false} CoverKeepsInk(content: string, pieces: seq<Piece>, end: nat)
    requires end <= |content| && Covers(content, pieces, end)
    requires forall i | 0 <= i < |pieces| :: pieces[i].In(content)
    ensures SourceInk(content, pieces) == Ink(content[..end])
  {
    if pieces == [] {
      InkOfSpace(content[..end]);
    } else {
      var last := pieces[|pieces| - 1];
      CoverKeepsInk(content, pieces[..|pieces| - 1], last.lo);
      assert content[..end] == content[..last.lo] + content[last.lo..last.hi] + content[last.hi..end];
      InkConcat(content[..last.lo] + content[last.lo..last.hi], content[last.hi..end]);
      InkConcat(content[..last.lo], content[last.lo..last.hi]);
      InkOfSpace(content[last.hi..end]);
    }
  }

  /**
   * The visible text of a finished run is exactly the visible text of the content, in order;
   * all that was added is text of copied header lines and closing fences.
   */
  lemma InkConserved(content: string, maxLen: int, n: nat) returns (pieces: seq<Piece>)
    requires maxLen >= 1 && Run(content, maxLen, n).Done()
    ensures |pieces| == |Run(content, maxLen, n).chunks|
    ensures forall i | 0 <= i < |pieces| :: pieces[i].For(content, Run(content, maxLen, n).chunks[i])
    ensures Covers(content, pieces, |content|)
    ensures forall i | 0 <= i < |pieces| :: pieces[i].In(content)
    ensures SourceInk(content, pieces) == Ink(content)
  {
    var lay;
    pieces, lay := ContentConserved(content, maxLen, n);
    DoneCovers(content, Run(content, maxLen, n), pieces, lay);
    CoverKeepsInk(content, pieces, |content|);
    assert content[..|content|] == content;
  }

  /** The chunks are these pieces, and the source text of the pieces is all the visible text of the content. */
  ghost predicate CarriedBy(content: string, chunks: seq<string>, pieces: seq<Piece>) {
    && |pieces| == |chunks|
    && (forall i | 0 <= i < |pieces| :: pieces[i].In(content))
    && (forall i | 0 <= i < |pieces| :: pieces[i].For(content, chunks[i]))
    && SourceInk(content, pieces) == Ink(content)
  }

  ghost predicate Carried(content: string, chunks: seq<string>) {
    exists pieces :: CarriedBy(content, chunks, pieces)
  }

  /** Slices of the content in order, separated by blanks only, that reach `end`. */
  ghost predicate Sliced(content: string, cuts: seq<(nat, nat)>, end: nat)
    requires end <= |content|
  {
    if cuts == [] then end == 0
    else
      var (lo, hi) := cuts[|cuts| - 1];
      && lo <= hi <= end && (forall i | hi <= i < end :: IsBlank(content[i]))
      && Sliced(content, cuts[..|cuts| - 1], lo)
  }

  ghost predicate Plain(content: string, st: State, cuts: seq<(nat, nat)>) {
    && st.runes == content && st.Valid() && |cuts| == |st.chunks|
    && (forall i | 0 <= i < |cuts| ::
          cuts[i].0 <= cuts[i].1 <= |content| && st.chunks[i] == content[cuts[i].0..cuts[i].1])
    && Sliced(content, cuts, st.start)
  }

  lemma StepPlain(content: string, st: State, maxLen: int, cuts: seq<(nat, nat)>) returns (cuts': seq<(nat, nat)>)
    requires maxLen >= 1 && Plain(content, st, cuts) && forall p :: !Fence(content, p)
    ensures Plain(content, Step(st, maxLen), cuts')
  {
    cuts' := cuts;
    if !st.Done() {
      var d := Decide(content, st.start, maxLen);
      assert !d.Inject?;
      var hi := if d.Whole? then |content| else d.at;
      cuts' := cuts + [(st.start, hi)];
      assert cuts'[..|cuts|] == cuts;
      assert content[st.start..] == content[st.start..|content|];
    }
  }

  /**
   * Content without a fence is cut, never rewritten: the chunks are slices of it in order, and
   * put back together with the blanks skipped between them they are the content, rune for rune.
   */
  lemma {:induction false} PlainContent(content: string, maxLen: int, n: nat) returns (cuts: seq<(nat, nat)>)
    requires maxLen >= 1 && forall p :: !Fence(content, p)
    ensures Plain(content, Run(content, maxLen, n), cuts)
  {
    if n == 0 {
      cuts := [];
    } else {
      cuts := PlainContent(content, maxLen, n - 1);
      cuts := StepPlain(content, Run(content, maxLen, n - 1), maxLen, cuts);
    }
  }
}
