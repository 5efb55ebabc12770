/** Where the headers that SplitMessage copies come from. */
module SplitHeaders {
  import opened Text
  import opened SplitStep

  /** h is the header of a fence of the content, or a bare fence. */
  ghost predicate Copied(content: string, h: string) {
    exists u :: Fence(content, u) && (h == "```" || h == Header(content, u))
  }

  /** Every header the buffer can yield is a header of the content, or a bare fence. */
  ghost predicate HeadersFrom(content: string, runes: string) {
    forall p | Fence(runes, p) :: Copied(content, Header(runes, p))
  }

  /** s[u..u + n] is the header at u: a fence, then the rest of its line up to the white space before the newline. */
  ghost predicate Span(s: string, u: nat, n: nat, newline: nat) {
    && Fence(s, u) && 3 <= n && u + n <= newline < |s| && s[newline] == '\n'
    && (forall i | u <= i < newline :: s[i] != '\n')
    && !IsSpace(s[u + n - 1])
    && (forall i | u + n <= i < newline :: IsSpace(s[i]))
  }

  lemma SpanHasFence(s: string, u: nat, n: nat, newline: nat)
    requires Span(s, u, n, newline)
    ensures Fence(s, u) && n >= 3 && u + n <= |s|
  {
  }

  lemma SpanUnique(s: string, u: nat, n: nat, newline: nat, k: nat, m: nat)
    requires Span(s, u, n, newline) && Span(s, u, k, m)
    ensures n == k && newline == m
  {
  }

  /** Trimming a line that starts with a fence. */
  lemma TrimmedLine(line: string) returns (n: nat)
    requires Fence(line, 0)
    ensures 3 <= n <= |line| && TrimSpace(line) == line[..n] && !IsSpace(line[n - 1])
    ensures forall i | n <= i < |line| :: IsSpace(line[i])
  {
    assert StartOf(line, 0, IsSpace) == 0;
    assert line[0..] == line;
    n := EndOf(line, |line|, IsSpace);
    assert !IsSpace(line[2]);
  }

  lemma HeaderIsSpan(s: string, u: nat) returns (n: nat, newline: nat)
    requires Fence(s, u) && FindNewline(s, u) != -1
    ensures Span(s, u, n, newline) && newline == FindNewline(s, u) && Header(s, u) == s[u..u + n]
  {
    newline := FindNewline(s, u);
    var line := s[u..newline];
    n := TrimmedLine(line);
    LineOf(s, u, line, n);
  }

  lemma LineOf(s: string, u: nat, line: string, n: nat)
    requires u + |line| < |s| && line == s[u..u + |line|] && s[u + |line|] == '\n'
    requires forall i | u <= i < u + |line| :: s[i] != '\n'
    requires Fence(line, 0) && 3 <= n <= |line| && !IsSpace(line[n - 1])
    requires forall i | n <= i < |line| :: IsSpace(line[i])
    ensures Span(s, u, n, u + |line|) && line[..n] == s[u..u + n]
  {
    assert forall i | u <= i < u + |line| :: s[i] == line[i - u];
  }

  lemma SpanIsHeader(s: string, u: nat, n: nat, newline: nat)
    requires Span(s, u, n, newline)
    ensures FindNewline(s, u) == newline && Header(s, u) == s[u..u + n]
  {
    assert FindNewline(s, u) == newline;
    var k, m := HeaderIsSpan(s, u);
    SpanUnique(s, u, n, newline, k, m);
  }

  lemma BareHeader(s: string, u: nat)
    requires Fence(s, u) && FindNewline(s, u) == -1
    ensures Header(s, u) == "```"
  {
    var line := s[u..u + 3];
    assert line == "```";
    assert StartOf(line, 0, IsSpace) == 0;
    assert line[..3] == line;
  }

  lemma SpanShape(s: string, u: nat, n: nat, newline: nat, h: string)
    requires Span(s, u, n, newline) && h == s[u..u + n]
    ensures Fence(h, 0) && '\n' !in h && !IsSpace(h[|h| - 1])
  {
    assert forall i | 0 <= i < n :: h[i] == s[u + i];
  }

  lemma BareSlice(s: string, u: nat)
    requires Fence(s, u)
    ensures s[u..u + 3] == "```" && !IsSpace('`')
  {
  }

  /** A header starts with its fence, lies on one line and does not end in white space. */
  lemma HeaderShape(s: string, u: nat)
    requires Fence(s, u)
    ensures var h := Header(s, u);
      && u + |h| <= |s| && s[u..u + |h|] == h
      && Fence(h, 0) && '\n' !in h && !IsSpace(h[|h| - 1])
  {
    hide Header, Span, FindNewline;
    if FindNewline(s, u) == -1 {
      BareHeader(s, u);
      BareSlice(s, u);
    } else {
      var n, newline := HeaderIsSpan(s, u);
      SpanHasFence(s, u, n, newline);
      SpanShape(s, u, n, newline, s[u..u + n]);
    }
  }

  lemma SameSpan(s: string, u: nat, t: string, v: nat, n: nat, newline: nat, k: nat)
    requires Span(s, u, n, newline) && Span(t, v, n, k)
    requires s[u..u + n] == t[v..v + n]
    ensures Header(s, u) == Header(t, v)
  {
    SpanIsHeader(s, u, n, newline);
    SpanIsHeader(t, v, n, k);
  }

  /** A fence inside a copied header has the header it had in the old buffer. */
  lemma SpanInHeader(s: string, u: nat, n: nat, newline: nat, p: nat, buf: string)
    requires Span(s, u, n, newline) && n < |buf| && buf[n] == '\n'
    requires forall i | 0 <= i < n :: buf[i] == s[u + i]
    requires p < n && Fence(buf, p)
    ensures Span(buf, p, n - p, n) && Span(s, u + p, n - p, newline)
    ensures buf[p..n] == s[u + p..u + n]
  {
    assert p + 3 <= n;
    forall i | u + p <= i < u + n ensures s[i] == buf[i - u] {
    }
    var x, y := buf[p..n], s[u + p..u + n];
    assert forall k | 0 <= k < n - p :: x[k] == buf[p + k] == y[k];
  }

  /** A header in the tail is a header of the old buffer. */
  lemma SpanInTail(s: string, at: nat, d: nat, p: nat, buf: string, n: nat, newline: nat)
    requires at <= |s| && d <= p && |buf| - d <= |s| - at
    requires forall i | d <= i < |buf| :: buf[i] == s[at + i - d]
    requires Span(buf, p, n, newline)
    ensures Span(s, at + p - d, n, at + newline - d)
    ensures buf[p..p + n] == s[at + p - d..at + p - d + n]
  {
    var q := at + p - d;
    forall i | q <= i <= newline - p + q ensures s[i] == buf[i - q + p] {
    }
    var x, y := buf[p..p + n], s[q..q + n];
    assert forall k | 0 <= k < n :: x[k] == buf[p + k] == y[k];
  }

  /** How the rewritten buffer is made up. */
  lemma ReopenedText(s: string, at: nat, h: string)
    requires at <= |s| && Fence(h, 0) && !IsSpace(h[|h| - 1])
    ensures var buf := Reopened(s, at, h);
      && |h| <= |buf| <= |h| + 1 + |s| - at
      && (forall i | 0 <= i < |h| :: buf[i] == h[i])
      && (|h| < |buf| ==> buf[|h|] == '\n')
      && (forall i | |h| < i < |buf| :: buf[i] == s[at + i - |h| - 1])
      && (at < |s| && !IsSpace(s[|s| - 1]) ==> |buf| == |h| + 1 + |s| - at)
      && !IsSpace(buf[|buf| - 1])
  {
    var whole := h + "\n" + s[at..];
    assert whole[0] == h[0] && whole[|h| - 1] == h[|h| - 1];
    assert StartOf(whole, 0, IsSpace) == 0;
    assert whole[0..] == whole;
    assert at < |s| ==> whole[|whole| - 1] == s[|s| - 1];
    assert EndOf(whole, |whole|, IsSpace) >= |h|;
  }

  /** The rewritten buffer yields no header that the old buffer did not. */
  lemma ReopenedHeaders(content: string, s: string, u: nat, at: nat)
    requires HeadersFrom(content, s) && Fence(s, u) && at <= |s|
    ensures HeadersFrom(content, Reopened(s, at, Header(s, u)))
  {
    var h := Header(s, u);
    HeaderShape(s, u);
    ReopenedText(s, at, h);
    var buf := Reopened(s, at, h);
    assert Copied(content, h);
    forall p | Fence(buf, p) ensures Copied(content, Header(buf, p)) {
      HeaderInReopened(s, u, at, h, buf, p);
    }
  }

  lemma HeaderInReopened(s: string, u: nat, at: nat, h: string, buf: string, p: nat)
    requires Fence(s, u) && at <= |s| && Fence(buf, p) && h == Header(s, u) && Fence(h, 0) && '\n' !in h
    requires |h| <= |buf| <= |h| + 1 + |s| - at
    requires forall i | 0 <= i < |h| :: buf[i] == h[i]
    requires |h| < |buf| ==> buf[|h|] == '\n'
    requires forall i | |h| < i < |buf| :: buf[i] == s[at + i - |h| - 1]
    ensures Header(buf, p) == "```" || exists q :: Fence(s, q) && Header(buf, p) == Header(s, q)
  {
    assert forall i | 0 <= i < |h| :: buf[i] != '\n';
    if FindNewline(buf, p) == -1 {
      BareHeader(buf, p);
    } else if p >= |h| {
      HeaderInTail(s, at, |h| + 1, p, buf);
    } else {
      HeaderInFront(s, u, h, buf, p);
    }
  }

  lemma HeaderInFront(s: string, u: nat, h: string, buf: string, p: nat)
    requires Fence(s, u) && h == Header(s, u) && Fence(h, 0)
    requires |h| < |buf| && buf[|h|] == '\n' && forall i | 0 <= i < |h| :: buf[i] == h[i]
    requires p < |h| && Fence(buf, p)
    ensures Header(buf, p) == "```" || exists q :: Fence(s, q) && Header(buf, p) == Header(s, q)
  {
    if FindNewline(s, u) == -1 {
      BareHeader(s, u);
      assert buf[..3] == "```";
      BareReopened(buf, p);
    } else {
      var n, newline := HeaderIsSpan(s, u);
      assert forall i | 0 <= i < n :: buf[i] == h[i] == s[u + i];
      HeaderInHeader(s, u, n, newline, p, buf);
    }
  }

  lemma BareReopened(buf: string, p: nat)
    requires p < 3 < |buf| && buf[..3] == "```" && buf[3] == '\n' && Fence(buf, p)
    ensures Header(buf, p) == "```"
  {
    assert p == 0;
    SpanIsHeader(buf, 0, 3, 3);
    assert buf[0..3] == buf[..3];
  }

  lemma HeaderInTail(s: string, at: nat, d: nat, p: nat, buf: string)
    requires at <= |s| && d <= p && Fence(buf, p) && |buf| - d <= |s| - at
    requires forall i | d <= i < |buf| :: buf[i] == s[at + i - d]
    requires FindNewline(buf, p) != -1
    ensures Fence(s, at + p - d) && Header(buf, p) == Header(s, at + p - d)
  {
    var n, newline := HeaderIsSpan(buf, p);
    SpanInTail(s, at, d, p, buf, n, newline);
    SameSpan(buf, p, s, at + p - d, n, newline, at + newline - d);
  }

  lemma HeaderInHeader(s: string, u: nat, n: nat, newline: nat, p: nat, buf: string)
    requires Span(s, u, n, newline) && n < |buf| && buf[n] == '\n'
    requires forall i | 0 <= i < n :: buf[i] == s[u + i]
    requires p < n && Fence(buf, p)
    ensures Fence(s, u + p) && Header(buf, p) == Header(s, u + p)
  {
    hide Header, Span;
    SpanInHeader(s, u, n, newline, p, buf);
    SpanHasFence(s, u + p, n - p, newline);
    SpanHasFence(buf, p, n - p, n);
    SameSpan(buf, p, s, u + p, n - p, n, newline);
  }

  lemma HeadersFromSelf(content: string)
    ensures HeadersFrom(content, content)
  {
    forall p | Fence(content, p) ensures Copied(content, Header(content, p)) {
      assert Fence(content, p) && Header(content, p) == Header(content, p);
    }
  }

  /** The header of an injecting cut is the header of a fence of the buffer. */
  lemma InjectedHeader(s: string, start: nat, maxLen: int) returns (u: nat)
    requires maxLen >= 1 && start < |s| && Decide(s, start, maxLen).Inject?
    ensures Fence(s, u) && start <= u && Decide(s, start, maxLen).header == Header(s, u)
  {
    u := FindUnclosed(s, start, Tentative(s, start, maxLen), -1);
  }

  lemma StepHeaders(content: string, st: State, maxLen: int)
    requires maxLen >= 1 && st.Valid() && HeadersFrom(content, st.runes)
    ensures HeadersFrom(content, Step(st, maxLen).runes)
  {
    if !st.Done() && Decide(st.runes, st.start, maxLen).Inject? {
      var u := InjectedHeader(st.runes, st.start, maxLen);
      ReopenedHeaders(content, st.runes, u, Decide(st.runes, st.start, maxLen).at);
    }
  }

  /** In every run each header that can be copied is a header of the content. */
  lemma {:induction false} RunHeaders(content: string, maxLen: int, n: nat)
    requires maxLen >= 1
    ensures HeadersFrom(content, Run(content, maxLen, n).runes)
  {
    hide HeadersFrom, Step;
    if n == 0 {
      HeadersFromSelf(content);
    } else {
      RunHeaders(content, maxLen, n - 1);
      StepHeaders(content, Run(content, maxLen, n - 1), maxLen);
    }
  }

  /** Text that, if it lies on one line, is part of a copied header. */
  ghost predicate HeaderPart(content: string, part: string) {
    part == "" || '\n' in part || exists h, i, j :: Copied(content, h) && 0 <= i <= j <= |h| && h[i..j] == part
  }

  ghost predicate HeaderPartAt(content: string, t: string, a: int, b: int)
    requires 0 <= a <= b <= |t|
  {
    HeaderPart(content, t[a..b])
  }

  /** Text made of headers: every part of it that lies on one line is part of a copied header. */
  ghost predicate HeaderText(content: string, t: string) {
    forall a, b | 0 <= a <= b <= |t| :: HeaderPartAt(content, t, a, b)
  }

  lemma HeaderTextSlice(content: string, t: string, lo: nat, hi: nat)
    requires HeaderText(content, t) && lo <= hi <= |t|
    ensures HeaderText(content, t[lo..hi])
  {
    forall a, b | 0 <= a <= b <= hi - lo ensures HeaderPartAt(content, t[lo..hi], a, b) {
      assert HeaderPartAt(content, t, lo + a, lo + b);
      SliceOfSlice(t, lo, hi, a, b);
    }
  }

  lemma PartOfHeader(content: string, h: string, a: nat, b: nat)
    requires Copied(content, h) && a <= b <= |h|
    ensures HeaderPartAt(content, h, a, b)
  {
    assert h[a..b] == h[a..b];
  }

  lemma ReopenedSlice(h: string, t: string, a: nat, b: nat)
    requires a <= b <= |h| + 1 + |t|
    ensures var s := h + "\n" + t;
      && (b <= |h| ==> s[a..b] == h[a..b])
      && (a <= |h| < b ==> '\n' in s[a..b])
      && (a > |h| ==> s[a..b] == t[a - |h| - 1..b - |h| - 1])
  {
    var s := h + "\n" + t;
    if a <= |h| < b {
      assert s[a..b][|h| - a] == s[|h|];
    } else if a > |h| {
      var k := |h| + 1;
      forall i | a <= i < b ensures s[i] == t[i - k] {
      }
    }
  }

  lemma HeaderTextReopen(content: string, h: string, t: string)
    requires Copied(content, h) && HeaderText(content, t)
    ensures HeaderText(content, h + "\n" + t)
  {
    var s := h + "\n" + t;
    forall a, b | 0 <= a <= b <= |s| ensures HeaderPartAt(content, s, a, b) {
      ReopenedSlice(h, t, a, b);
      if b <= |h| {
        PartOfHeader(content, h, a, b);
      } else if a > |h| {
        assert HeaderPartAt(content, t, a - |h| - 1, b - |h| - 1);
      }
    }
  }
}
