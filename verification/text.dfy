/** Runes, white space and triple-backtick fences: the vocabulary of the message splitter. */
module Text {

  /** The characters Go's unicode.IsSpace accepts, which strings.TrimSpace removes. */
  predicate IsSpace(c: char) {
    || c == ' ' || '\t' <= c <= '\r' || c == '\U{0085}' || c == '\U{00A0}' || c == '\U{1680}'
    || '\U{2000}' <= c <= '\U{200A}' || c == '\U{2028}' || c == '\U{2029}' || c == '\U{202F}'
    || c == '\U{205F}' || c == '\U{3000}'
  }

  /** The cut set " \t\n\r" of the splitter. */
  predicate IsBlank(c: char) {
    c == ' ' || c == '\t' || c == '\n' || c == '\r'
  }

  predicate IsNewline(c: char) {
    c == '\n'
  }

  predicate IsGap(c: char) {
    c == ' ' || c == '\t'
  }

  ghost predicate AllSpace(s: string) {
    forall i | 0 <= i < |s| :: IsSpace(s[i])
  }

  /** The length of the longest prefix of s[..n] that does not end in a p. */
  function EndOf(s: string, n: nat, p: char -> bool): (r: nat)
    requires n <= |s|
    ensures r <= n && (r > 0 ==> !p(s[r - 1]))
    ensures forall i | r <= i < n :: p(s[i])
  {
    if n > 0 && p(s[n - 1]) then EndOf(s, n - 1, p) else n
  }

  function StartOf(s: string, i: nat, p: char -> bool): (r: nat)
    requires i <= |s|
    ensures i <= r <= |s| && (r < |s| ==> !p(s[r]))
    ensures forall k | i <= k < r :: p(s[k])
    decreases |s| - i
  {
    if i < |s| && p(s[i]) then StartOf(s, i + 1, p) else i
  }

  /** Drops the longest suffix whose characters all satisfy p. */
  function TrimEnd(s: string, p: char -> bool): string {
    s[..EndOf(s, |s|, p)]
  }

  function TrimStart(s: string, p: char -> bool): string {
    s[StartOf(s, 0, p)..]
  }

  function TrimSpace(s: string): string {
    TrimEnd(TrimStart(s, IsSpace), IsSpace)
  }

  /** A fence: three backticks in a row. */
  predicate Fence(s: string, p: int) {
    0 <= p && p + 3 <= |s| && s[p] == '`' && s[p + 1] == '`' && s[p + 2] == '`'
  }

  /** The number of fences the greedy scan sees in s. */
  function Fences(s: string): nat {
    if s == [] then 0
    else if Fence(s, 0) then 1 + Fences(s[3..])
    else Fences(s[1..])
  }

  /** The greedy scan ends outside a code block. */
  predicate Balanced(s: string) {
    Fences(s) % 2 == 0
  }

  /** Every fence starts a line; in particular no four backticks stand in a row. */
  ghost predicate FencesAtLineStart(s: string) {
    forall p | Fence(s, p) :: p == 0 || s[p - 1] == '\n'
  }

  /** No fence lies across the cut between s[..n] and s[n..]. */
  ghost predicate CleanCut(s: string, n: int) {
    forall p | n - 3 < p < n :: !Fence(s, p)
  }

  lemma {:induction false} FencesConcat(a: string, b: string)
    requires CleanCut(a + b, |a|)
    ensures Fences(a + b) == Fences(a) + Fences(b)
    decreases |a|
  {
    var s := a + b;
    if a == [] {
      assert s == b;
    } else {
      assert Fence(s, 0) ==> |a| >= 3 && Fence(a, 0);
      var n := if Fence(s, 0) then 3 else 1;
      assert s[n..] == a[n..] + b;
      forall p | |a[n..]| - 3 < p < |a[n..]|
        ensures !Fence(a[n..] + b, p)
      {
        assert Fence(a[n..] + b, p) ==> Fence(s, p + n);
      }
      FencesConcat(a[n..], b);
    }
  }

  lemma {:induction false} NoFences(s: string)
    requires forall p :: !Fence(s, p)
    ensures Fences(s) == 0
    decreases |s|
  {
    if s != [] {
      forall p ensures !Fence(s[1..], p) {
        assert Fence(s[1..], p) ==> Fence(s, p + 1);
      }
      NoFences(s[1..]);
    }
  }

  /** Trimming characters that are not backticks keeps the fences. */
  lemma TrimEndKeepsFences(s: string, p: char -> bool)
    requires !p('`')
    ensures Fences(TrimEnd(s, p)) == Fences(s)
  {
    var r := TrimEnd(s, p);
    var rest := s[|r|..];
    assert s == r + rest;
    assert forall q | q + 3 > |r| :: !Fence(s, q);
    forall q ensures !Fence(rest, q) {
      assert Fence(rest, q) ==> Fence(s, q + |r|);
    }
    NoFences(rest);
    FencesConcat(r, rest);
  }

  lemma SliceOfSlice(t: string, lo: nat, hi: nat, a: nat, b: nat)
    requires lo <= hi <= |t| && a <= b <= hi - lo
    ensures t[lo..hi][a..b] == t[lo + a..lo + b]
  {
    var x, y := t[lo..hi][a..b], t[lo + a..lo + b];
    forall k | 0 <= k < b - a ensures x[k] == y[k] {
    }
  }
}
