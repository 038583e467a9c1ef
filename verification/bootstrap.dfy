/** The extraction stage of `scrapSingle`: `FindStringSubmatch` of the regular
    expression `window\.REFURB_GRID_BOOTSTRAP = (\n|.+);` over the page body.

    The expression is modelled by what it can match (`MatchesAt`) and by the
    match RE2 reports among those: the leftmost one, and at that position the
    one a backtracking matcher would try first (`\n` before `.+`, and `.+`
    greedy). `FindSubmatch` computes that match by scanning. */
module Bootstrap {
  import opened Wrappers

  newtype byte = b: int | 0 <= b < 256

  /** The literal text before the capture group. */
  const Marker: string := "window.REFURB_GRID_BOOTSTRAP = "

  /** `string(body)`, one character per byte. Every literal of the expression is
      ASCII, so positions and captured bytes agree with matching over UTF-8. */
  function BodyText(body: seq<byte>): (t: string)
    ensures |t| == |body|
    ensures IsByteText(t)
  {
    seq(|body|, i requires 0 <= i < |body| => body[i] as char)
  }

  /** Every character of `t` stands for one byte. */
  predicate IsByteText(t: string) {
    forall i :: 0 <= i < |t| ==> t[i] as int < 256
  }

  /** `[]byte(t)` for text made of byte-valued characters. */
  function TextBytes(t: string): (body: seq<byte>)
    requires IsByteText(t)
    ensures |body| == |t|
  {
    seq(|t|, i requires 0 <= i < |t| => t[i] as int as byte)
  }

  /** Reading the body as text loses nothing: converting back gives the same bytes,
      and converting byte-valued text to bytes and back gives the same text. */
  lemma BodyTextRoundTrip(body: seq<byte>, t: string)
    ensures TextBytes(BodyText(body)) == body
    ensures IsByteText(t) ==> BodyText(TextBytes(t)) == t
  {
    var b := TextBytes(BodyText(body));
    assert forall i :: 0 <= i < |body| ==> b[i] == body[i];
    if IsByteText(t) {
      var t' := BodyText(TextBytes(t));
      assert forall i :: 0 <= i < |t| ==> t'[i] == t[i];
    }
  }

  /** A successful `FindStringSubmatch`: where the whole match starts, and group 1. */
  datatype Match = Match(start: nat, capture: string)

  predicate MarkerAt(t: string, p: nat) {
    p + |Marker| <= |t| && t[p..p + |Marker|] == Marker
  }

  /** `(\n|.+);` can match at `q` with group text `c`: `.` is any character but
      a newline, so the group is either one newline or a non-empty run without one. */
  predicate TailMatches(t: string, q: nat, c: string) {
    && q + |c| < |t|
    && t[q..q + |c|] == c
    && t[q + |c|] == ';'
    && (c == "\n" || (|c| > 0 && '\n' !in c))
  }

  /** The whole expression can match starting at `p` with group text `c`. */
  predicate MatchesAt(t: string, p: nat, c: string) {
    MarkerAt(t, p) && TailMatches(t, p + |Marker|, c)
  }

  /** Among group texts that match at one position, `a` is tried no later than
      `b`: the `\n` alternative comes first, then `.+` longest first. */
  predicate PreferredOver(a: string, b: string) {
    a == "\n" || (b != "\n" && |b| <= |a|)
  }

  /** `m` is the match RE2's leftmost-first semantics reports. */
  ghost predicate IsLeftmostFirst(t: string, m: Match) {
    && MatchesAt(t, m.start, m.capture)
    && (forall p: nat, c: string :: p < m.start ==> !MatchesAt(t, p, c))
    && (forall c: string :: MatchesAt(t, m.start, c) ==> PreferredOver(m.capture, c))
  }

  /** The expression matches nowhere in `t`. */
  ghost predicate NoMatch(t: string) {
    forall p: nat, c: string :: !MatchesAt(t, p, c)
  }

  /** The end of the line that `q` is on: the first newline at or after `q`, or the end of `t`. */
  function LineEnd(t: string, q: nat): (e: nat)
    requires q <= |t|
    ensures q <= e <= |t|
    ensures forall i :: q <= i < e ==> t[i] != '\n'
    ensures e < |t| ==> t[e] == '\n'
    decreases |t| - q
  {
    if q == |t| || t[q] == '\n' then q else LineEnd(t, q + 1)
  }

  /** The last `;` in `t[lo..hi]`, if any. */
  function LastSemicolon(t: string, lo: nat, hi: nat): (r: Option<nat>)
    requires lo <= hi <= |t|
    ensures r.Some? ==> lo <= r.value < hi && t[r.value] == ';'
    ensures r.Some? ==> forall k :: r.value < k < hi ==> t[k] != ';'
    ensures r.None? ==> forall k :: lo <= k < hi ==> t[k] != ';'
    decreases hi - lo
  {
    if lo == hi then None
    else if t[hi - 1] == ';' then Some(hi - 1)
    else LastSemicolon(t, lo, hi - 1)
  }

  /** The group text `(\n|.+);` yields at `q` under backtracking order, if it matches there. */
  function TailCapture(t: string, q: nat): (r: Option<string>)
    ensures r.Some? ==> TailMatches(t, q, r.value)
    ensures r.Some? ==> forall c :: TailMatches(t, q, c) ==> PreferredOver(r.value, c)
    ensures r.None? ==> forall c :: !TailMatches(t, q, c)
  {
    if q >= |t| then None
    else if t[q] == '\n' then
      if q + 1 < |t| && t[q + 1] == ';' then
        assert t[q..q + 1] == "\n";
        Some("\n")
      else
        None
    else
      var e := LineEnd(t, q);
      match LastSemicolon(t, q + 1, e)
      case Some(j) =>
        RunTailLongest(t, q, j);
        Some(t[q..j])
      case None =>
        RunTailNone(t, q);
        None
  }

  /** A `.+` match ends at a `;` before the end of its line. */
  lemma RunTailInLine(t: string, q: nat, c: string)
    requires q < |t| && t[q] != '\n'
    requires TailMatches(t, q, c)
    ensures c != "\n"
    ensures q + 1 <= q + |c| < LineEnd(t, q)
  {
  }

  lemma RunTailLongest(t: string, q: nat, j: nat)
    requires q < |t| && t[q] != '\n'
    requires LastSemicolon(t, q + 1, LineEnd(t, q)) == Some(j)
    ensures TailMatches(t, q, t[q..j])
    ensures forall c :: TailMatches(t, q, c) ==> PreferredOver(t[q..j], c)
  {
    var e := LineEnd(t, q);
    var c := t[q..j];
    assert forall i :: 0 <= i < |c| ==> c[i] == t[q + i];
    forall c' | TailMatches(t, q, c')
      ensures PreferredOver(c, c')
    {
      RunTailInLine(t, q, c');
    }
  }

  lemma RunTailNone(t: string, q: nat)
    requires q < |t| && t[q] != '\n'
    requires LastSemicolon(t, q + 1, LineEnd(t, q)) == None
    ensures forall c :: !TailMatches(t, q, c)
  {
    forall c | TailMatches(t, q, c)
      ensures false
    {
      RunTailInLine(t, q, c);
    }
  }

  /** The leftmost match starting at or after `p`. */
  function FindFrom(t: string, p: nat): (r: Option<Match>)
    ensures r.Some? ==> p <= r.value.start && MatchesAt(t, r.value.start, r.value.capture)
    ensures r.Some? ==> forall p': nat, c :: p <= p' < r.value.start ==> !MatchesAt(t, p', c)
    ensures r.Some? ==> forall c :: MatchesAt(t, r.value.start, c) ==> PreferredOver(r.value.capture, c)
    ensures r.None? ==> forall p': nat, c :: p <= p' ==> !MatchesAt(t, p', c)
    decreases |t| - p
  {
    if p + |Marker| > |t| then None
    else if MarkerAt(t, p) && TailCapture(t, p + |Marker|).Some? then
      Some(Match(p, TailCapture(t, p + |Marker|).value))
    else
      FindFrom(t, p + 1)
  }

  /** `regexp.FindStringSubmatch`: the leftmost-first match, or none. */
  function FindSubmatch(t: string): (r: Option<Match>)
    ensures r.Some? ==> IsLeftmostFirst(t, r.value)
    ensures r.None? ==> NoMatch(t)
  {
    FindFrom(t, 0)
  }

  /** The reported match is the only one leftmost-first semantics allows. */
  lemma LeftmostFirstUnique(t: string, m: Match, m': Match)
    requires IsLeftmostFirst(t, m) && IsLeftmostFirst(t, m')
    ensures m == m'
  {

  }

  /** The shape of a reported capture: either exactly one newline followed by
      `;`, or a non-empty newline-free run that ends at the last `;` of the
      marker's line. */
  lemma CaptureShape(t: string)
    requires FindSubmatch(t).Some?
    ensures var m := FindSubmatch(t).value;
            var q := m.start + |Marker|;
            && MarkerAt(t, m.start)
            && q + |m.capture| < |t| && t[q + |m.capture|] == ';'
            && (|| (m.capture == "\n" && t[q] == '\n')
                || (&& |m.capture| > 0 && '\n' !in m.capture
                    && t[q..q + |m.capture|] == m.capture
                    && forall k :: q + |m.capture| < k < LineEnd(t, q) ==> t[k] != ';'))
  {
    var m := FindSubmatch(t).value;
    var q := m.start + |Marker|;
    if m.capture == "\n" {
      assert t[q..q + 1] == m.capture;
    } else {
      assert m.capture[0] == t[q];
      forall k | q + |m.capture| < k < LineEnd(t, q)
        ensures t[k] != ';'
      {
        RunUpTo(t, m.start, k);
      }
    }
  }

  /** A `;` later on the marker's line ends a longer `.+` match. */
  lemma RunUpTo(t: string, p: nat, k: nat)
    requires MarkerAt(t, p)
    requires p + |Marker| < k < LineEnd(t, p + |Marker|)
    ensures t[k] == ';' ==> MatchesAt(t, p, t[p + |Marker|..k])
  {
    var q := p + |Marker|;
    var c := t[q..k];
    assert forall i :: 0 <= i < |c| ==> c[i] == t[q + i];
  }

  /** The extraction stage: group 1 of the match in the page body, if there is one. */
  function ExtractBootstrap(body: seq<byte>): (r: Option<string>)
    ensures r.Some? <==> !NoMatch(BodyText(body))
    ensures r.Some? ==> exists m :: IsLeftmostFirst(BodyText(body), m) && m.capture == r.value
  {
    match FindSubmatch(BodyText(body))
    case Some(m) => Some(m.capture)
    case None => None
  }
}
