// The address redaction of comms/natsd/redact_ip.go: a leftmost-first scan for
// \d{1,3}\.\d{1,3}\.\d{1,3}\.\d{1,3} whose callback overwrites the bytes of each match in place.
module RedactIp {
  import opened Wrappers

  newtype Byte = x: int | 0 <= x < 256
  type Bytes = seq<Byte>

  const DOT: Byte := 46
  const LETTER_X: Byte := 120

  predicate IsDigit(b: Byte) { 48 <= b <= 57 }

  predicate Digits(s: Bytes, i: nat, j: nat) {
    i <= j <= |s| && forall k | i <= k < j :: IsDigit(s[k])
  }

  // ---------- The language of the expression ----------

  /** s[i..j] is n groups of one to three digits, separated by dots. */
  ghost predicate Octets(s: Bytes, i: nat, j: nat, n: nat)
    decreases j - i, 1
  {
    && n > 0
    && (OctetThenRest(s, i, 1, j, n) || OctetThenRest(s, i, 2, j, n) || OctetThenRest(s, i, 3, j, n))
  }

  /** The first of the n groups takes exactly d digits. */
  ghost predicate OctetThenRest(s: Bytes, i: nat, d: nat, j: nat, n: nat)
    requires n > 0
    decreases j - i, 0
  {
    Digits(s, i, i + d) &&
    if n == 1 then j == i + d
    else i + d < j <= |s| && s[i + d] == DOT && Octets(s, i + d + 1, j, n - 1)
  }

  lemma FirstGroup(s: Bytes, i: nat, j: nat, n: nat) returns (d: nat)
    requires Octets(s, i, j, n)
    ensures 1 <= d <= 3 && OctetThenRest(s, i, d, j, n)
  {
    d := if OctetThenRest(s, i, 1, j, n) then 1 else if OctetThenRest(s, i, 2, j, n) then 2 else 3;
  }

  /** s[i..j] is in the language of the regular expression. */
  ghost predicate IsMatch(s: Bytes, i: nat, j: nat) {
    Octets(s, i, j, 4)
  }

  lemma {:induction false} OctetsShape(s: Bytes, i: nat, j: nat, n: nat)
    requires Octets(s, i, j, n)
    ensures i < j <= |s|
    ensures IsDigit(s[i]) && IsDigit(s[j - 1])
    ensures forall k | i <= k < j :: IsDigit(s[k]) || s[k] == DOT
    ensures CountDots(s, i, j) == n - 1
    decreases n
  {
    var d := FirstGroup(s, i, j, n);
    CountDotsInDigits(s, i, i + d);
    if n > 1 {
      OctetsShape(s, i + d + 1, j, n - 1);
      CountDotsSplit(s, i, i + d, j);
    }
  }

  /** Four runs of one to three digits, up to a, b, c and j, with single dots between them. */
  ghost predicate Quad(s: Bytes, i: nat, a: nat, b: nat, c: nat, j: nat) {
    && i < a <= i + 3 && a + 1 < b <= a + 4 && b + 1 < c <= b + 4 && c + 1 < j <= c + 4 && j <= |s|
    && Digits(s, i, a) && Digits(s, a + 1, b) && Digits(s, b + 1, c) && Digits(s, c + 1, j)
    && s[a] == DOT && s[b] == DOT && s[c] == DOT
  }

  /** Every match is a dotted quad, */
  lemma MatchIsQuad(s: Bytes, i: nat, j: nat) returns (a: nat, b: nat, c: nat)
    requires IsMatch(s, i, j)
    ensures Quad(s, i, a, b, c, j)
  {
    var d := FirstGroup(s, i, j, 4);
    a := i + d;
    d := FirstGroup(s, a + 1, j, 3);
    b := a + 1 + d;
    d := FirstGroup(s, b + 1, j, 2);
    c := b + 1 + d;
    d := FirstGroup(s, c + 1, j, 1);
  }

  /** and every dotted quad is a match. */
  lemma QuadIsMatch(s: Bytes, i: nat, a: nat, b: nat, c: nat, j: nat)
    requires Quad(s, i, a, b, c, j)
    ensures IsMatch(s, i, j)
  {
    LastGroupMatches(s, c + 1, j);
    GroupMatches(s, b + 1, c, j, 2);
    GroupMatches(s, a + 1, b, j, 3);
    GroupMatches(s, i, a, j, 4);
  }

  lemma LastGroupMatches(s: Bytes, i: nat, j: nat)
    requires i < j <= i + 3 && Digits(s, i, j)
    ensures Octets(s, i, j, 1)
  {
    assert OctetThenRest(s, i, j - i, j, 1);
  }

  lemma GroupMatches(s: Bytes, i: nat, a: nat, j: nat, n: nat)
    requires n > 1 && i < a <= i + 3 && a < j <= |s| && Digits(s, i, a) && s[a] == DOT && Octets(s, a + 1, j, n - 1)
    ensures Octets(s, i, j, n)
  {
    assert OctetThenRest(s, i, a - i, j, n);
  }

  lemma DigitsExactly(s: Bytes, i: nat, j: nat)
    ensures Digits(s, i, j) <==>
              i <= j <= |s| && forall k | i <= k < j :: s[k] in {48, 49, 50, 51, 52, 53, 54, 55, 56, 57}
  {
    assert forall b: Byte :: IsDigit(b) <==> b in {48, 49, 50, 51, 52, 53, 54, 55, 56, 57};
  }

  /** The three dots of a text that matches tell its groups apart, and each group is one to three digits. */
  lemma MatchExactly(s: Bytes, i: nat, a: nat, b: nat, c: nat, j: nat)
    requires i < a < b < c < j <= |s| && s[a] == DOT && s[b] == DOT && s[c] == DOT
    ensures IsMatch(s, i, j) <==>
              && Digits(s, i, a) && 1 <= a - i <= 3
              && Digits(s, a + 1, b) && 1 <= b - (a + 1) <= 3
              && Digits(s, b + 1, c) && 1 <= c - (b + 1) <= 3
              && Digits(s, c + 1, j) && 1 <= j - (c + 1) <= 3
  {
    if IsMatch(s, i, j) {
      var p, q, r := MatchIsQuad(s, i, j);
      QuadIsUnique(s, i, p, q, r, j, a, b, c);
    }
    if Quad(s, i, a, b, c, j) {
      QuadIsMatch(s, i, a, b, c, j);
    }
  }

  lemma QuadIsUnique(s: Bytes, i: nat, p: nat, q: nat, r: nat, j: nat, a: nat, b: nat, c: nat)
    requires Quad(s, i, p, q, r, j)
    requires i < a < b < c < j && s[a] == DOT && s[b] == DOT && s[c] == DOT
    ensures a == p && b == q && c == r
  {
    assert forall k | i <= k < j && s[k] == DOT :: k == p || k == q || k == r;
  }

  // ---------- The engine: backtracking, preferring more digits ----------

  function MatchOctets(s: Bytes, i: nat, n: nat): (r: Option<nat>)
    requires n > 0
    ensures r.Some? ==> i < r.value <= |s|
    decreases |s| - i, 1
  {
    var three := TryOctet(s, i, 3, n);
    if three.Some? then three
    else
      var two := TryOctet(s, i, 2, n);
      if two.Some? then two else TryOctet(s, i, 1, n)
  }

  function TryOctet(s: Bytes, i: nat, d: nat, n: nat): (r: Option<nat>)
    requires n > 0 && d > 0
    ensures r.Some? ==> i < r.value <= |s|
    decreases |s| - i, 0
  {
    if !Digits(s, i, i + d) then None
    else if n == 1 then Some(i + d)
    else if i + d < |s| && s[i + d] == DOT then MatchOctets(s, i + d + 1, n - 1)
    else None
  }

  /** What the engine finds is a match of the language. */
  lemma {:induction false} EngineFindsMatch(s: Bytes, i: nat, n: nat)
    requires n > 0 && MatchOctets(s, i, n).Some?
    ensures Octets(s, i, MatchOctets(s, i, n).value, n)
    decreases n
  {
    var d: nat := if TryOctet(s, i, 3, n).Some? then 3 else if TryOctet(s, i, 2, n).Some? then 2 else 1;
    if n > 1 {
      EngineFindsMatch(s, i + d + 1, n - 1);
    }
    assert OctetThenRest(s, i, d, MatchOctets(s, i, n).value, n);
  }

  /** Wherever the language has a match, the engine finds one, and none is longer. */
  lemma {:induction false} EngineFindsLongest(s: Bytes, i: nat, j: nat, n: nat)
    requires Octets(s, i, j, n)
    ensures MatchOctets(s, i, n).Some? && j <= MatchOctets(s, i, n).value
    decreases n
  {
    var d := FirstGroup(s, i, j, n);
    if n > 1 {
      EngineFindsLongest(s, i + d + 1, j, n - 1);
      // A group followed by a dot has only one possible length.
      forall e: nat | 1 <= e <= 3 && e != d ensures TryOctet(s, i, e, n).None? {
        assert e < d ==> IsDigit(s[i + e]);
        assert d < e && Digits(s, i, i + e) ==> IsDigit(s[i + d]);
      }
    }
    assert TryOctet(s, i, d, n).Some?;
  }

  /** The engine looks only at the bytes from i on. */
  lemma {:induction false} EngineReadsSuffix(s: Bytes, t: Bytes, i: nat, n: nat)
    requires n > 0 && |s| == |t|
    requires forall k | i <= k < |s| :: s[k] == t[k]
    ensures MatchOctets(s, i, n) == MatchOctets(t, i, n)
    decreases n
  {
    forall d: nat | 1 <= d <= 3 ensures TryOctet(s, i, d, n) == TryOctet(t, i, d, n) {
      if n > 1 && i + d < |s| {
        EngineReadsSuffix(s, t, i + d + 1, n - 1);
      }
      assert Digits(s, i, i + d) == Digits(t, i, i + d);
    }
  }

  // ---------- The scan for non-overlapping matches ----------

  datatype Span = Span(start: nat, end: nat)

  function FirstMatch(s: Bytes, pos: nat): (r: Option<Span>)
    ensures r.Some? ==> pos <= r.value.start < r.value.end <= |s|
    decreases |s| - pos
  {
    if pos >= |s| then None
    else
      match MatchOctets(s, pos, 4)
      case Some(end) => Some(Span(pos, end))
      case None => FirstMatch(s, pos + 1)
  }

  /** FirstMatch is the leftmost match at or after pos, taken as long as possible. */
  lemma {:induction false} FirstMatchIsLeftmostLongest(s: Bytes, pos: nat)
    ensures FirstMatch(s, pos).None? ==> forall i: nat, j: nat | pos <= i :: !IsMatch(s, i, j)
    ensures FirstMatch(s, pos).Some? ==>
              var m := FirstMatch(s, pos).value;
              && IsMatch(s, m.start, m.end)
              && (forall j: nat | IsMatch(s, m.start, j) :: j <= m.end)
              && (forall i: nat, j: nat | pos <= i < m.start :: !IsMatch(s, i, j))
    decreases |s| - pos
  {
    forall i: nat, j: nat | pos <= i && IsMatch(s, i, j) ensures i < |s| {
      OctetsShape(s, i, j, 4);
    }
    if pos < |s| {
      forall j: nat | IsMatch(s, pos, j)
        ensures MatchOctets(s, pos, 4).Some? && j <= MatchOctets(s, pos, 4).value
      {
        EngineFindsLongest(s, pos, j, 4);
      }
      if MatchOctets(s, pos, 4).None? {
        FirstMatchIsLeftmostLongest(s, pos + 1);
      } else {
        EngineFindsMatch(s, pos, 4);
      }
    }
  }

  lemma {:induction false} FirstMatchReadsSuffix(s: Bytes, t: Bytes, pos: nat)
    requires |s| == |t| && forall k | pos <= k < |s| :: s[k] == t[k]
    ensures FirstMatch(s, pos) == FirstMatch(t, pos)
    decreases |s| - pos
  {
    if pos < |s| {
      EngineReadsSuffix(s, t, pos, 4);
      if MatchOctets(s, pos, 4).None? {
        FirstMatchReadsSuffix(s, t, pos + 1);
      }
    }
  }

  /** Every match the replacement visits, resuming after the end of the previous one. */
  function Spans(s: Bytes, pos: nat): seq<Span>
    decreases |s| - pos
  {
    match FirstMatch(s, pos)
    case None => []
    case Some(m) => [m] + Spans(s, m.end)
  }

  // ---------- What the callback does to one match ----------

  function CountDots(s: Bytes, i: nat, j: nat): nat
    requires i <= j <= |s|
    decreases j - i
  {
    if i == j then 0 else (if s[i] == DOT then 1 else 0) + CountDots(s, i + 1, j)
  }

  lemma {:induction false} CountDotsSplit(s: Bytes, i: nat, m: nat, j: nat)
    requires i <= m <= j <= |s|
    ensures CountDots(s, i, j) == CountDots(s, i, m) + CountDots(s, m, j)
    decreases m - i
  {
    if i < m {
      CountDotsSplit(s, i + 1, m, j);
    }
  }

  lemma {:induction false} CountDotsInDigits(s: Bytes, i: nat, j: nat)
    requires Digits(s, i, j)
    ensures CountDots(s, i, j) == 0
    decreases j - i
  {
    if i < j {
      CountDotsInDigits(s, i + 1, j);
    }
  }

  /** Byte k of a match that starts at p is overwritten: two dots lie between, and it is not a dot itself. */
  predicate Overwritten(s: Bytes, p: nat, k: nat)
    requires p <= k < |s|
  {
    s[k] != DOT && CountDots(s, p, k) >= 2
  }

  ghost predicate Redacts(s: Bytes, spans: seq<Span>, k: nat)
    requires k < |s|
  {
    exists m :: m in spans && m.start <= k < m.end && Overwritten(s, m.start, k)
  }

  ghost function RedactSpans(s: Bytes, spans: seq<Span>): (r: Bytes)
    ensures |r| == |s|
  {
    seq(|s|, k requires 0 <= k < |s| => if Redacts(s, spans, k) then LETTER_X else s[k])
  }

  /** The text after redaction. */
  ghost function Redacted(s: Bytes): (r: Bytes)
    ensures |r| == |s|
  {
    RedactSpans(s, Spans(s, 0))
  }

  // ---------- The code ----------

  /** The callback: overwrites the bytes of the match src[p..q]. */
  method RedactMatch(src: array<Byte>, p: nat, q: nat)
    requires p <= q <= src.Length
    modifies src
    ensures forall k | 0 <= k < src.Length ::
              src[k] == if p <= k < q && Overwritten(old(src[..]), p, k) then LETTER_X else old(src[k])
  {
    ghost var s := src[..];
    var dots := 1;
    for idx := p to q
      invariant dots == 1 + CountDots(s, p, idx)
      invariant forall k | 0 <= k < src.Length ::
                  src[k] == if p <= k < idx && Overwritten(s, p, k) then LETTER_X else s[k]
    {
      CountDotsSplit(s, p, idx, idx + 1);
      assert CountDots(s, idx, idx + 1) == if s[idx] == DOT then 1 else 0;
      if src[idx] == DOT {
        dots := dots + 1;
      } else if dots > 2 {
        src[idx] := LETTER_X;
      }
    }
  }

  /**
   * redactIp. The matches handed to the callback are slices of src, so src itself is redacted too,
   * and the buffer returned is a copy with the same bytes.
   */
  method Redact(src: array<Byte>) returns (buf: Bytes)
    modifies src
    ensures buf == src[..] == Redacted(old(src[..]))
  {
    ghost var s := src[..];
    ghost var seen: seq<Span> := [];
    var lastMatchEnd := 0;
    buf := [];
    assert src[..] == RedactSpans(s, []);
    var next := FirstMatch(src[..], 0);
    while next.Some?
      invariant lastMatchEnd <= src.Length == |s|
      invariant next == FirstMatch(s, lastMatchEnd)
      invariant Visited(s, seen, lastMatchEnd)
      invariant src[..] == RedactSpans(s, seen)
      invariant buf == src[..lastMatchEnd]
      decreases src.Length - lastMatchEnd
    {
      var m := next.value;
      ghost var t := src[..];
      buf := buf + src[lastMatchEnd..m.start];
      RedactMatch(src, m.start, m.end);
      RedactOneMore(s, seen, m, t, src[..]);
      BufferGrows(t, src[..], lastMatchEnd, m.start, m.end);
      buf := buf + src[m.start..m.end];
      VisitNext(s, seen, lastMatchEnd);
      FirstMatchReadsSuffix(s, src[..], m.end);
      seen := seen + [m];
      lastMatchEnd := m.end;
      next := FirstMatch(src[..], lastMatchEnd);
    }
    buf := buf + src[lastMatchEnd..];
    assert seen == Spans(s, 0);
  }

  /** The text up to a match, taken before it is overwritten, and the match, taken after. */
  lemma BufferGrows(t: Bytes, u: Bytes, last: nat, start: nat, end: nat)
    requires last <= start <= end <= |t| == |u| && forall k | 0 <= k < start :: u[k] == t[k]
    ensures t[..last] + t[last..start] + u[start..end] == u[..end]
  {
  }

  /** seen is the part of the spans that ends by pos. */
  ghost predicate Visited(s: Bytes, seen: seq<Span>, pos: nat) {
    Spans(s, 0) == seen + Spans(s, pos) && forall m | m in seen :: m.end <= pos
  }

  lemma VisitNext(s: Bytes, seen: seq<Span>, pos: nat)
    requires Visited(s, seen, pos) && FirstMatch(s, pos).Some?
    ensures Visited(s, seen + [FirstMatch(s, pos).value], FirstMatch(s, pos).value.end)
  {
  }

  /** Overwriting match m in a text already redacted up to m gives the text redacted through m. */
  lemma RedactOneMore(s: Bytes, seen: seq<Span>, m: Span, t: Bytes, u: Bytes)
    requires m.start < m.end <= |s| == |u| && t == RedactSpans(s, seen)
    requires forall n | n in seen :: n.end <= m.start
    requires forall k | 0 <= k < |s| ::
               u[k] == if m.start <= k < m.end && Overwritten(t, m.start, k) then LETTER_X else t[k]
    ensures u == RedactSpans(s, seen + [m])
    ensures forall k | m.end <= k < |s| :: u[k] == s[k]
    ensures forall k | 0 <= k < m.start :: u[k] == t[k]
  {
    assert forall k | m.start <= k < |s| :: t[k] == s[k];
    OverwrittenReadsSuffix(s, t, m);
    assert m in seen + [m];
    forall k | 0 <= k < |s|
      ensures Redacts(s, seen + [m], k) <==>
              Redacts(s, seen, k) || (m.start <= k < m.end && Overwritten(s, m.start, k))
    {
      assert forall n :: n in seen + [m] <==> n in seen || n == m;
    }
  }

  lemma OverwrittenReadsSuffix(s: Bytes, t: Bytes, m: Span)
    requires |s| == |t| && m.start <= m.end <= |s| && forall k | m.start <= k < |s| :: s[k] == t[k]
    ensures forall k | m.start <= k < m.end :: Overwritten(s, m.start, k) == Overwritten(t, m.start, k)
  {
    forall k | m.start <= k < m.end ensures CountDots(s, m.start, k) == CountDots(t, m.start, k) {
      CountDotsReadsRange(s, t, m.start, k);
    }
  }

  lemma {:induction false} CountDotsReadsRange(s: Bytes, t: Bytes, i: nat, j: nat)
    requires i <= j <= |s| == |t| && forall k | i <= k < j :: s[k] == t[k]
    ensures CountDots(s, i, j) == CountDots(t, i, j)
    decreases j - i
  {
    if i < j {
      CountDotsReadsRange(s, t, i + 1, j);
    }
  }

  // ---------- What redaction guarantees ----------

  /** The spans are matches of s, in order and disjoint, and no match starts in a gap between them. */
  lemma {:induction false} SpansAreTheMatches(s: Bytes, pos: nat)
    ensures forall m | m in Spans(s, pos) :: pos <= m.start && IsMatch(s, m.start, m.end)
    ensures forall i: nat, j: nat | pos <= i && IsMatch(s, i, j) ::
              exists m :: m in Spans(s, pos) && m.start <= i < m.end
    decreases |s| - pos
  {
    FirstMatchIsLeftmostLongest(s, pos);
    match FirstMatch(s, pos)
    case None =>
    case Some(m) =>
      SpansAreTheMatches(s, m.end);
      forall i: nat, j: nat | pos <= i && IsMatch(s, i, j)
        ensures exists n :: n in Spans(s, pos) && n.start <= i < n.end
      {
        if i < m.end {
          assert m in Spans(s, pos) && m.start <= i < m.end;
        } else {
          var n :| n in Spans(s, m.end) && n.start <= i < n.end;
          assert n in Spans(s, pos);
        }
      }
  }

  /** A stretch of the output that has only digits and dots is unchanged from the input. */
  lemma {:induction false} MatchSurvivesFromInput(s: Bytes, i: nat, j: nat, n: nat)
    requires Octets(Redacted(s), i, j, n)
    ensures Octets(s, i, j, n)
    decreases n
  {
    var r := Redacted(s);
    var d := FirstGroup(r, i, j, n);
    forall k | i <= k < i + d ensures IsDigit(s[k]) {
      assert IsDigit(r[k]);
    }
    if n > 1 {
      MatchSurvivesFromInput(s, i + d + 1, j, n - 1);
    }
    assert OctetThenRest(s, i, d, j, n);
  }

  /** No dotted quad is left anywhere in the output, not even one spliced from two neighbouring matches. */
  lemma NoMatchLeft(s: Bytes, i: nat, j: nat)
    ensures !IsMatch(Redacted(s), i, j)
  {
    if IsMatch(Redacted(s), i, j) {
      MatchSurvivesFromInput(s, i, j, 4);
      var m := CoveringSpan(s, i, j);
      var last := OverlapIsOverwritten(s, m, i, j);
      assert Redacted(s)[last] == LETTER_X;
      OctetsShape(Redacted(s), i, j, 4);
    }
  }

  /** The output holds no four runs of one to three digits with single dots between them. */
  lemma NoQuadLeft(s: Bytes, i: nat, a: nat, b: nat, c: nat, j: nat)
    requires i < a < b < c < j <= |s|
    ensures var r := Redacted(s);
            r[a] == DOT && r[b] == DOT && r[c] == DOT ==>
              !(&& Digits(r, i, a) && 1 <= a - i <= 3
                && Digits(r, a + 1, b) && 1 <= b - (a + 1) <= 3
                && Digits(r, b + 1, c) && 1 <= c - (b + 1) <= 3
                && Digits(r, c + 1, j) && 1 <= j - (c + 1) <= 3)
  {
    NoMatchLeft(s, i, j);
    if Quad(Redacted(s), i, a, b, c, j) {
      QuadIsMatch(Redacted(s), i, a, b, c, j);
    }
  }

  lemma CoveringSpan(s: Bytes, i: nat, j: nat) returns (m: Span)
    requires IsMatch(s, i, j)
    ensures m in Spans(s, 0) && m.start <= i < m.end && IsMatch(s, m.start, m.end)
  {
    SpansAreTheMatches(s, 0);
    m :| m in Spans(s, 0) && m.start <= i < m.end;
  }

  /** A match that starts inside m loses the last byte of whichever of the two ends first. */
  lemma OverlapIsOverwritten(s: Bytes, m: Span, i: nat, j: nat) returns (last: nat)
    requires m.start <= i < m.end && IsMatch(s, m.start, m.end) && IsMatch(s, i, j)
    ensures i <= last < j <= |s| && last < m.end <= |s| && Overwritten(s, m.start, last)
  {
    OctetsShape(s, i, j, 4);
    OctetsShape(s, m.start, m.end, 4);
    if j <= m.end {
      last := j - 1;
      CountDotsSplit(s, m.start, i, last);
      CountDotsBeforeLast(s, i, j);
    } else {
      last := m.end - 1;
      CountDotsBeforeLast(s, m.start, m.end);
    }
  }

  lemma CountDotsBeforeLast(s: Bytes, i: nat, j: nat)
    requires i < j <= |s| && IsDigit(s[j - 1])
    ensures CountDots(s, i, j - 1) == CountDots(s, i, j)
  {
    CountDotsSplit(s, i, j - 1, j);
  }

  /** Redaction changes nothing the second time. */
  lemma RedactionIsIdempotent(s: Bytes)
    ensures Redacted(Redacted(s)) == Redacted(s)
  {
    var r := Redacted(s);
    forall i: nat, j: nat ensures !IsMatch(r, i, j) {
      NoMatchLeft(s, i, j);
    }
    FirstMatchIsLeftmostLongest(r, 0);
    assert Spans(r, 0) == [];
  }

  /**
   * Every match has four groups; of these, the first two and all three dots stay, and every digit of the
   * last two becomes an x.
   */
  lemma OnlyLastTwoGroupsChange(s: Bytes, m: Span) returns (a: nat, b: nat, c: nat)
    requires m in Spans(s, 0)
    ensures Quad(s, m.start, a, b, c, m.end)
    ensures Redacted(s)[m.start..b + 1] == s[m.start..b + 1]
    ensures forall k | b < k < c || c < k < m.end :: Redacted(s)[k] == LETTER_X
    ensures Redacted(s)[c] == DOT
  {
    SpansAreTheMatches(s, 0);
    a, b, c := MatchIsQuad(s, m.start, m.end);
    GroupsOfMatch(s, m, a, b, c);
  }

  lemma GroupsOfMatch(s: Bytes, m: Span, a: nat, b: nat, c: nat)
    requires m in Spans(s, 0) && Quad(s, m.start, a, b, c, m.end)
    ensures Redacted(s)[m.start..b + 1] == s[m.start..b + 1]
    ensures forall k | b < k < c || c < k < m.end :: Redacted(s)[k] == LETTER_X
    ensures Redacted(s)[c] == DOT
  {
    forall k | m.start <= k < m.end
      ensures Redacted(s)[k] == if s[k] != DOT && k > b then LETTER_X else s[k]
    {
      OnlyItsOwnMatchRedacts(s, m, k);
      DotsBefore(s, m, a, b, c, k);
    }
  }

  lemma OnlyItsOwnMatchRedacts(s: Bytes, m: Span, k: nat)
    requires m in Spans(s, 0) && m.start <= k < m.end && k < |s|
    ensures Redacts(s, Spans(s, 0), k) <==> Overwritten(s, m.start, k)
  {
    SpansAreDisjoint(s, 0);
    assert forall n | n in Spans(s, 0) && n.start <= k < n.end :: n == m;
  }

  lemma DotsBefore(s: Bytes, m: Span, a: nat, b: nat, c: nat, k: nat)
    requires Quad(s, m.start, a, b, c, m.end) && m.start <= k < m.end
    ensures CountDots(s, m.start, k) >= 2 <==> k > b
  {
    CountDotsInDigits(s, m.start, a);
    CountDotsInDigits(s, a + 1, b);
    CountDotsSplit(s, m.start, a, b);
    CountDotsSplit(s, a, a + 1, b);
    if k <= b {
      CountDotsSplit(s, m.start, k, b);
    } else {
      CountDotsSplit(s, m.start, b + 1, k);
      CountDotsSplit(s, m.start, b, b + 1);
    }
  }

  lemma {:induction false} SpansAreDisjoint(s: Bytes, pos: nat)
    ensures forall m | m in Spans(s, pos) :: pos <= m.start < m.end <= |s|
    ensures forall m, n | m in Spans(s, pos) && n in Spans(s, pos) && m != n ::
              m.end <= n.start || n.end <= m.start
    decreases |s| - pos
  {
    if FirstMatch(s, pos).Some? {
      SpansAreDisjoint(s, FirstMatch(s, pos).value.end);
    }
  }

  // ---------- An address in ASCII ----------

  function Ascii(t: string): (s: Bytes)
    requires forall c | c in t :: c as int < 128
    ensures |s| == |t| && forall k | 0 <= k < |t| :: s[k] as int == t[k] as int
  {
    seq(|t|, k requires 0 <= k < |t| => assert t[k] in t; t[k] as int as Byte)
  }

  predicate Decimals(t: string) { 1 <= |t| <= 3 && forall c | c in t :: '0' <= c <= '9' }

  function Xs(n: nat): string { seq(n, _ => 'x') }

  /** An address on its own keeps its first two groups and loses the other two. */
  lemma AddressIsRedacted(g: string, h: string, k: string, l: string)
    requires Decimals(g) && Decimals(h) && Decimals(k) && Decimals(l)
    ensures Redacted(Ascii(g + "." + h + "." + k + "." + l)) ==
            Ascii(g + "." + h + "." + Xs(|k|) + "." + Xs(|l|))
  {
    var t := g + "." + h + "." + k + "." + l;
    var s := Ascii(t);
    var a := |g|;
    var b := a + 1 + |h|;
    var c := b + 1 + |k|;
    AddressIsQuad(g, h, k, l);
    QuadIsMatch(s, 0, a, b, c, |s|);
    WholeIsTheSpan(s);
    GroupsOfMatch(s, Span(0, |s|), a, b, c);
    RedactedText(Redacted(s), g, h, k, l);
  }

  lemma AddressIsQuad(g: string, h: string, k: string, l: string)
    requires Decimals(g) && Decimals(h) && Decimals(k) && Decimals(l)
    ensures var t, a := g + "." + h + "." + k + "." + l, |g|;
            var b := a + 1 + |h|;
            var c := b + 1 + |k|;
            Quad(Ascii(t), 0, a, b, c, |t|)
  {
    var t, a := g + "." + h + "." + k + "." + l, |g|;
    var b := a + 1 + |h|;
    var c := b + 1 + |k|;
    assert t[a] == '.' && t[b] == '.' && t[c] == '.';
    GroupIsDigits(t, 0, g);
    GroupIsDigits(t, a + 1, h);
    GroupIsDigits(t, b + 1, k);
    GroupIsDigits(t, c + 1, l);
  }

  lemma GroupIsDigits(t: string, i: nat, g: string)
    requires (forall c | c in t :: c as int < 128) && Decimals(g)
    requires i + |g| <= |t| && forall n | 0 <= n < |g| :: t[i + n] == g[n]
    ensures Digits(Ascii(t), i, i + |g|)
  {
    forall n | i <= n < i + |g| ensures IsDigit(Ascii(t)[n]) {
      assert t[i + (n - i)] == g[n - i] && g[n - i] in g;
    }
  }

  lemma WholeIsTheSpan(s: Bytes)
    requires IsMatch(s, 0, |s|)
    ensures Span(0, |s|) in Spans(s, 0)
  {
    EngineFindsLongest(s, 0, |s|, 4);
    FoundAtOnce(s, |s|);
  }

  lemma FoundAtOnce(s: Bytes, end: nat)
    requires MatchOctets(s, 0, 4) == Some(end)
    ensures Span(0, end) in Spans(s, 0)
  {
    assert FirstMatch(s, 0) == Some(Span(0, end));
  }

  lemma RedactedText(r: Bytes, g: string, h: string, k: string, l: string)
    requires Decimals(g) && Decimals(h) && Decimals(k) && Decimals(l)
    requires var t, a := g + "." + h + "." + k + "." + l, |g|;
             var b := a + 1 + |h|;
             var c := b + 1 + |k|;
             && |r| == |t| && r[..b + 1] == Ascii(t)[..b + 1] && r[c] == DOT
             && forall n | b < n < c || c < n < |t| :: r[n] == LETTER_X
    ensures r == Ascii(g + "." + h + "." + Xs(|k|) + "." + Xs(|l|))
  {
    var t, u := g + "." + h + "." + k + "." + l, g + "." + h + "." + Xs(|k|) + "." + Xs(|l|);
    var b := |g| + 1 + |h|;
    forall n | 0 <= n < |u| ensures r[n] as int == u[n] as int {
      if n <= b {
        assert r[n] == r[..b + 1][n] && Ascii(t)[..b + 1][n] == Ascii(t)[n] && t[n] == u[n];
      }
    }
  }

  lemma OutsideMatchesUnchanged(s: Bytes, k: nat)
    requires k < |s| && forall m | m in Spans(s, 0) :: !(m.start <= k < m.end)
    ensures Redacted(s)[k] == s[k]
  {
  }
}
