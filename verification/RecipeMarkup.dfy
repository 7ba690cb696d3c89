/**
 * The "markdown-lite" renderer of the recipe dialog: the recipe text is cut
 * into lines at '\n'; a line starting with '#' is a heading; each line is
 * split by the regular expression `/(\*\*.*?\*\*)/g` with the separators
 * kept; a piece that starts and ends with `**` is shown bold without its
 * delimiters, and any other piece loses a leading `#+\s`.
 */
module RecipeMarkup {
  import opened Wrappers
  import opened JsText

  datatype Part = Bold(text: string) | Plain(text: string)

  datatype Line = Line(heading: bool, parts: seq<Part>)

  /** `**` starts at position k of s. */
  predicate StarPairAt(s: string, k: int) {
    0 <= k && k + 2 <= |s| && s[k] == '*' && s[k + 1] == '*'
  }

  /**
   * A piece the regular expression matches: `**`, then a body with no line
   * terminator, then the first `**` after the opening one.
   */
  predicate IsBoldSpan(x: string) {
    && |x| >= 4 && StarPairAt(x, 0) && StarPairAt(x, |x| - 2)
    && (forall k :: 2 <= k < |x| - 2 ==> !IsLineTerminator(x[k]))
    && (forall k :: 2 <= k < |x| - 2 ==> !StarPairAt(x, k))
  }

  /**
   * The lazy `.*?\*\*` tried from position j: the position just past the
   * first `**` at or after j, provided no line terminator comes before it.
   */
  function CloseFrom(s: string, j: nat): (e: Option<nat>)
    requires j <= |s|
    decreases |s| - j
    ensures e.Some? ==> j + 2 <= e.value <= |s| && StarPairAt(s, e.value - 2)
    ensures e.Some? ==> forall k :: j <= k < e.value - 2 ==> !IsLineTerminator(s[k]) && !StarPairAt(s, k)
    ensures e.None? ==> forall m :: j <= m && StarPairAt(s, m) ==> exists k :: j <= k < m && IsLineTerminator(s[k])
  {
    if j + 2 > |s| then None
    else if StarPairAt(s, j) then Some(j + 2)
    else if IsLineTerminator(s[j]) then None
    else CloseFrom(s, j + 1)
  }

  /** From j on, the lazy body reaches the `**` at e - 2 without a line terminator or an earlier `**`. */
  lemma {:induction false} CloseFromFinds(s: string, j: nat, e: nat)
    requires j + 2 <= e <= |s| && StarPairAt(s, e - 2)
    requires forall k :: j <= k < e - 2 ==> !IsLineTerminator(s[k]) && !StarPairAt(s, k)
    ensures CloseFrom(s, j) == Some(e)
    decreases e - j
  {
    if j + 2 < e {
      CloseFromFinds(s, j + 1, e);
    }
  }

  /**
   * The end of the match of `\*\*.*?\*\*` that starts exactly at q, if there
   * is one: a match is a bold span, and a bold span starting at q is the match.
   */
  function MatchAt(s: string, q: nat): (e: Option<nat>)
    requires q <= |s|
    ensures e.Some? ==> q < e.value <= |s| && IsBoldSpan(s[q..e.value])
    ensures forall e' :: q < e' <= |s| && IsBoldSpan(s[q..e']) ==> e == Some(e')
  {
    assert forall e' :: q < e' <= |s| && IsBoldSpan(s[q..e']) ==> CloseFrom(s, q + 2) == Some(e') by {
      forall e' | q < e' <= |s| && IsBoldSpan(s[q..e'])
        ensures CloseFrom(s, q + 2) == Some(e')
      {
        var x := s[q..e'];
        assert forall k :: 2 <= k < |x| - 2 ==> x[k] == s[q + k] && (StarPairAt(x, k) <==> StarPairAt(s, q + k));
        assert StarPairAt(x, |x| - 2);
        CloseFromFinds(s, q + 2, e');
      }
    }
    if StarPairAt(s, q) then
      var e := CloseFrom(s, q + 2);
      if e.Some? then
        var x := s[q..e.value];
        assert forall k :: 2 <= k < |x| - 2 ==> x[k] == s[q + k] && (StarPairAt(x, k) <==> StarPairAt(s, q + k));
        e
      else e
    else
      assert forall e' :: q < e' <= |s| ==> !IsBoldSpan(s[q..e']) by {
        forall e' | q < e' <= |s| && |s[q..e']| >= 4
          ensures !StarPairAt(s[q..e'], 0)
        {
          assert s[q..e'][0] == s[q] && s[q..e'][1] == s[q + 1];
        }
      }
      None
  }

  /** All the pieces glued back together. */
  function Concat(parts: seq<string>): string {
    if parts == [] then [] else parts[0] + Concat(parts[1..])
  }

  /**
   * The split loop from a piece starting at p, looking for a match at q:
   * the piece before each match, then the match itself, and the rest.
   */
  function SplitFrom(s: string, p: nat, q: nat): (parts: seq<string>)
    requires p <= q <= |s|
    decreases |s| - q
    ensures |parts| % 2 == 1
    ensures Concat(parts) == s[p..]
    ensures forall i :: 0 <= i < |parts| && i % 2 == 1 ==> IsBoldSpan(parts[i])
  {
    if q == |s| then [s[p..]]
    else
      match MatchAt(s, q)
      case Some(e) =>
        var rest := SplitFrom(s, e, e);
        var parts := [s[p..q], s[q..e]] + rest;
        assert parts[1..] == [s[q..e]] + rest && ([s[q..e]] + rest)[1..] == rest;
        assert s[p..] == s[p..q] + s[q..e] + s[e..];
        parts
      case None => SplitFrom(s, p, q + 1)
  }

  /** The position in the line where piece i of a split starts: the length of the pieces before it. */
  function Start(parts: seq<string>, i: nat): nat
    requires i <= |parts|
  {
    if i == 0 then 0 else |parts[0]| + Start(parts[1..], i - 1)
  }

  /** No match of the regular expression starts anywhere in s[lo..hi]. */
  predicate NoMatchIn(s: string, lo: nat, hi: nat)
    decreases hi
  {
    lo <= hi <= |s| && (lo == hi || (NoMatchIn(s, lo, hi - 1) && MatchAt(s, hi - 1).None?))
  }

  /** NoMatchIn, position by position. */
  lemma {:induction false} NoMatchInMeans(s: string, lo: nat, hi: nat)
    ensures NoMatchIn(s, lo, hi) <==> lo <= hi <= |s| && forall k :: lo <= k < hi ==> MatchAt(s, k).None?
    decreases hi
  {
    if lo < hi <= |s| {
      NoMatchInMeans(s, lo, hi - 1);
    }
  }

  /** `piece` sits at position `at` of s. */
  predicate Placed(s: string, at: nat, piece: string) {
    at + |piece| <= |s| && s[at..at + |piece|] == piece
  }

  /** A plain piece at `at`: no match of the regular expression starts inside it. */
  predicate PlainAt(s: string, at: nat, piece: string) {
    Placed(s, at, piece) && NoMatchIn(s, at, at + |piece|)
  }

  /** A separator at `at`: exactly the match that starts there. */
  predicate SeparatorAt(s: string, at: nat, piece: string) {
    Placed(s, at, piece) && MatchAt(s, at) == Some(at + |piece|)
  }

  /**
   * Pieces laid end to end from position p of s, alternating plain and
   * placed, the first one plain when `plainFirst` holds.
   */
  predicate Cuts(s: string, p: nat, parts: seq<string>, plainFirst: bool)
    decreases |parts|
  {
    |parts| == 0 ||
    (&& (if plainFirst then PlainAt(s, p, parts[0]) else Placed(s, p, parts[0]))
     && Cuts(s, p + |parts[0]|, parts[1..], !plainFirst))
  }

  /** Piece i of a cut list is the piece at p + Start(parts, i), plain when its parity says so. */
  lemma {:induction false} CutAt(s: string, p: nat, parts: seq<string>, plainFirst: bool, i: nat, at: nat, piece: string)
    requires Cuts(s, p, parts, plainFirst) && i < |parts|
    requires at == p + Start(parts, i) && piece == parts[i]
    ensures (i % 2 == 0) == plainFirst ==> PlainAt(s, at, piece)
    ensures Placed(s, at, piece)
    decreases i
  {
    if i > 0 {
      var tail := parts[1..];
      assert Start(parts, i) == |parts[0]| + Start(tail, i - 1);
      assert tail[i - 1] == parts[i];
      CutAt(s, p + |parts[0]|, tail, !plainFirst, i - 1, at, piece);
    }
  }

  /** A plain piece with no match start, then the piece up to e, then pieces cut from e on. */
  lemma CutsCons(s: string, p: nat, q: nat, e: nat, rest: seq<string>)
    requires p <= q <= e <= |s| && NoMatchIn(s, p, q) && Cuts(s, e, rest, true)
    ensures Cuts(s, p, [s[p..q], s[q..e]] + rest, true)
  {
    var parts := [s[p..q], s[q..e]] + rest;
    assert parts[1..] == [s[q..e]] + rest && parts[1..][1..] == rest;
    assert Placed(s, q, s[q..e]) && q + |s[q..e]| == e;
    assert Cuts(s, q, parts[1..], false);
    assert PlainAt(s, p, s[p..q]) && p + |s[p..q]| == q;
  }

  /** Every piece of the split loop sits where the loop cut it, and no match starts inside a plain piece. */
  lemma {:induction false} SplitFromCuts(s: string, p: nat, q: nat)
    requires p <= q <= |s| && NoMatchIn(s, p, q)
    ensures Cuts(s, p, SplitFrom(s, p, q), true)
    decreases |s| - q
  {
    if q == |s| {
      assert SplitFrom(s, p, q)[1..] == [];
    } else {
      match MatchAt(s, q)
      case Some(e) =>
        SplitFromCuts(s, e, e);
        assert SplitFrom(s, p, q) == [s[p..q], s[q..e]] + SplitFrom(s, e, e);
        CutsCons(s, p, q, e, SplitFrom(s, e, e));
      case None =>
        assert NoMatchIn(s, p, q + 1);
        SplitFromCuts(s, p, q + 1);
    }
  }

  /** A bold span sitting at `at` is the match that starts there. */
  lemma BoldSpanIsSeparator(s: string, at: nat, piece: string)
    requires Placed(s, at, piece) && IsBoldSpan(piece)
    ensures SeparatorAt(s, at, piece)
  {
    assert IsBoldSpan(s[at..at + |piece|]);
  }

  /** Where the split loop run over a whole line cuts it. */
  lemma SplitCuts(line: string, parts: seq<string>)
    requires parts == SplitFrom(line, 0, 0)
    ensures forall i :: 0 <= i < |parts| && i % 2 == 0 ==> PlainAt(line, Start(parts, i), parts[i])
    ensures forall i :: 0 <= i < |parts| && i % 2 == 1 ==> SeparatorAt(line, Start(parts, i), parts[i])
  {
    SplitFromCuts(line, 0, 0);
    forall i | 0 <= i < |parts|
      ensures i % 2 == 0 ==> PlainAt(line, Start(parts, i), parts[i])
      ensures i % 2 == 1 ==> SeparatorAt(line, Start(parts, i), parts[i])
    {
      SplitPiece(line, parts, i);
    }
  }

  /** Piece i of the split of a whole line, on its own. */
  lemma SplitPiece(line: string, parts: seq<string>, i: nat)
    requires parts == SplitFrom(line, 0, 0) && Cuts(line, 0, parts, true) && i < |parts|
    ensures i % 2 == 0 ==> PlainAt(line, Start(parts, i), parts[i])
    ensures i % 2 == 1 ==> SeparatorAt(line, Start(parts, i), parts[i])
  {
    var at := Start(parts, i);
    CutAt(line, 0, parts, true, i, at, parts[i]);
    if i % 2 == 1 {
      assert IsBoldSpan(parts[i]);
      BoldSpanIsSeparator(line, at, parts[i]);
    }
  }

  /**
   * `line.split(/(\*\*.*?\*\*)/g)`: plain pieces alternate with the
   * separators, every leftmost match is cut out, and no match starts inside a
   * plain piece.
   */
  function SplitBold(line: string): (parts: seq<string>)
    ensures |parts| % 2 == 1 && Concat(parts) == line
    ensures forall i :: 0 <= i < |parts| && i % 2 == 1 ==> IsBoldSpan(parts[i])
    ensures forall i :: 0 <= i < |parts| && i % 2 == 0 ==> PlainAt(line, Start(parts, i), parts[i])
    ensures forall i :: 0 <= i < |parts| && i % 2 == 1 ==> SeparatorAt(line, Start(parts, i), parts[i])
  {
    var parts := SplitFrom(line, 0, 0);
    SplitCuts(line, parts);
    parts
  }

  /** A line with no `**` anywhere is one single piece. */
  lemma NoMarkerNoSplit(line: string)
    requires forall k :: !StarPairAt(line, k)
    ensures SplitBold(line) == [line]
  {
    NoMarkerFrom(line, 0);
  }

  lemma {:induction false} NoMarkerFrom(s: string, q: nat)
    requires q <= |s| && forall k :: !StarPairAt(s, k)
    ensures SplitFrom(s, 0, q) == [s]
    decreases |s| - q
  {
    if q < |s| {
      NoMarkerFrom(s, q + 1);
    }
  }

  /** `part.slice(2, -2)` on a piece that starts and ends with `**`. */
  function BoldText(part: string): (r: string)
    requires StartsWith(part, "**") && EndsWith(part, "**")
    ensures |part| >= 4 ==> part == "**" + r + "**"
    ensures |part| < 4 ==> r == []
  {
    if |part| >= 4 then part[2..|part| - 2] else []
  }

  /** The regular expression `^#+\s` matches the first n + 1 characters of s. */
  predicate MarkerOf(s: string, n: int) {
    1 <= n < |s| && (forall i :: 0 <= i < n ==> s[i] == '#') && IsWhitespace(s[n])
  }

  /** The number of '#' that s starts with. */
  function HashRun(s: string): (n: nat)
    ensures n <= |s| && (forall i :: 0 <= i < n ==> s[i] == '#')
    ensures n < |s| ==> s[n] != '#'
  {
    if s != [] && s[0] == '#' then 1 + HashRun(s[1..]) else 0
  }

  /** `part.replace(/^#+\s/, '')`. */
  function StripHeadingMarker(s: string): (r: string)
    ensures forall n :: MarkerOf(s, n) ==> r == s[n + 1..]
    ensures (forall n :: !MarkerOf(s, n)) ==> r == s
  {
    var n := HashRun(s);
    if 1 <= n < |s| && IsWhitespace(s[n]) then
      assert MarkerOf(s, n);
      s[n + 1..]
    else
      s
  }

  /** How one piece of a line is shown. */
  function RenderPart(part: string): (r: Part)
    ensures StartsWith(part, "**") && EndsWith(part, "**") ==> r.Bold? && (|part| >= 4 ==> part == "**" + r.text + "**") && (|part| < 4 ==> r.text == [])
    ensures !(StartsWith(part, "**") && EndsWith(part, "**")) ==> r == Plain(StripHeadingMarker(part))
  {
    if StartsWith(part, "**") && EndsWith(part, "**") then Bold(BoldText(part))
    else Plain(StripHeadingMarker(part))
  }

  function RenderLine(line: string): (l: Line)
    ensures l.heading <==> |line| > 0 && line[0] == '#'
    ensures |l.parts| == |SplitBold(line)|
    ensures forall i :: 0 <= i < |l.parts| ==> l.parts[i] == RenderPart(SplitBold(line)[i])
  {
    var parts := SplitBold(line);
    Line(StartsWith(line, "#"), seq(|parts|, i requires 0 <= i < |parts| => RenderPart(parts[i])))
  }

  /** The whole recipe: one rendered line per '\n'-separated line of the text. */
  function Render(text: string): (r: seq<Line>)
    ensures |r| == Occurrences(text, '\n') + 1
    ensures forall i :: 0 <= i < |r| ==> r[i] == RenderLine(Split(text, '\n')[i])
  {
    var lines := Split(text, '\n');
    seq(|lines|, i requires 0 <= i < |lines| => RenderLine(lines[i]))
  }

  /** Every match of the split is shown bold, as exactly its text between the delimiters. */
  lemma BoldSpansRenderBold(line: string, i: nat)
    requires i < |SplitBold(line)| && i % 2 == 1
    ensures var part := SplitBold(line)[i];
            var shown := RenderLine(line).parts[i];
            && shown.Bold? && part == "**" + shown.text + "**"
            && (forall k :: 0 <= k < |shown.text| ==> !IsLineTerminator(shown.text[k]))
  {
    var part := SplitBold(line)[i];
    BoldSpanShown(part);
    assert RenderLine(line).parts[i] == RenderPart(part);
  }

  /** A bold span is shown bold, as its body. */
  lemma BoldSpanShown(part: string)
    requires IsBoldSpan(part)
    ensures var shown := RenderPart(part);
            && shown.Bold? && part == "**" + shown.text + "**"
            && (forall k :: 0 <= k < |shown.text| ==> !IsLineTerminator(shown.text[k]))
  {
    assert part[..2] == "**" && part[|part| - 2..] == "**";
    var shown := RenderPart(part);
    forall k | 0 <= k < |shown.text|
      ensures !IsLineTerminator(shown.text[k])
    {
      assert shown.text[k] == part[k + 2];
    }
  }

  /** Four asterisks split into an empty piece, an empty bold span and an empty piece. */
  lemma FourStars()
    ensures SplitBold("****") == ["", "****", ""]
  {
    var s := "****";
    assert StarPairAt(s, 0) && StarPairAt(s, 2);
    assert CloseFrom(s, 2) == Some(4);
    assert MatchAt(s, 0) == Some(4);
    assert SplitFrom(s, 4, 4) == [""];
    assert s[0..0] == "" && s[0..4] == s;
    assert SplitFrom(s, 0, 0) == ["", "****"] + SplitFrom(s, 4, 4);
  }

  /** ... and those pieces show as Plain(""), Bold(""), Plain(""), on a line that is no heading. */
  lemma FourStarsShown()
    ensures RenderPart("") == Plain("") && RenderPart("****") == Bold("")
    ensures !RenderLine("****").heading
  {
    var s := "****";
    assert StripHeadingMarker("") == "";
    assert s[..2] == "**" && s[2..] == "**";
    assert StartsWith(s, "**") && EndsWith(s, "**");
    assert BoldText(s) == "";
  }
}
