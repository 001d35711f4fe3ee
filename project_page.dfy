/** pages/ProjectPage.tsx: `renderRichText`, which splits a paragraph on a
    case-insensitive regular expression `(keyword|…)|(\*\*(.*?)\*\*)`, drops
    the empty pieces and renders each piece as a coloured keyword, a bold run
    or plain text; and the choice of page layout by project id.

    The scanner is stated for any keyword list `kws` of the shape the page's
    own list has (`KeywordList`); `Keywords` is that list. */
module ProjectPage {
  import opened Text
  import VideoModal

  /** `keywordsToHighlight`, in the order the alternation tries them. */
  const Keywords: seq<string> := ["AI mentor", "personalized quests", "gamified challenges", "AI copilot",
    "privacy-first", "The Holodeck", "Hero's Journey", "serverless", "responseSchema", "Vibe Coding",
    "few-shot prompting", "multimodal", "multimodal AI", "multimodal model", "Base64 string",
    "gemini-2.5-flash", "imagen-4.0-generate-001", "gemini-2.5-flash-native-audio-preview-09-2025",
    "S.M.A.R.T. Classroom", "gemini-2.5-pro", "thinkingConfig", "Veo", "gemini-2.5-flash-image"]

  const BoldMark := "**"

  /** Every keyword is non-empty and does not start with `*`, so a keyword
      match always makes progress and never competes with a bold run. */
  predicate KeywordList(kws: seq<string>) {
    forall i :: 0 <= i < |kws| ==> kws[i] != [] && kws[i][0] != '*'
  }

  // ---------------------------------------------------------------------------
  // The regular expression, matched at one position

  /** Keyword `kw` matches at `q`, ignoring ASCII case (the `i` flag). */
  predicate FoldMatchesAt(s: string, q: nat, kw: string) {
    q + |kw| <= |s| && Lower(s[q..q + |kw|]) == Lower(kw)
  }

  /** The first keyword, from index `k` on, that matches at `q`: the escaped
      keywords are tried left to right, so the earliest listed one wins. */
  function KeywordAtFrom(kws: seq<string>, s: string, q: nat, k: nat): (r: Option<nat>)
    ensures r.Some? ==> k <= r.value < |kws| && FoldMatchesAt(s, q, kws[r.value])
    ensures r.Some? ==> forall j :: k <= j < r.value ==> !FoldMatchesAt(s, q, kws[j])
    ensures r.None? ==> forall j :: k <= j < |kws| ==> !FoldMatchesAt(s, q, kws[j])
    decreases |kws| - k
  {
    if k >= |kws| then None
    else if FoldMatchesAt(s, q, kws[k]) then Some(k)
    else KeywordAtFrom(kws, s, q, k + 1)
  }

  /** What the expression matched: a keyword (group 1) or a bold run, whose
      whole text is group 2 and whose inside is group 3. */
  datatype Hit = KeywordHit(text: string) | BoldHit(inner: string)

  function HitText(h: Hit): string {
    match h
    case KeywordHit(t) => t
    case BoldHit(x) => BoldMark + x + BoldMark
  }

  /** The match of the expression starting exactly at `q`, with its end. */
  function HitAt(kws: seq<string>, s: string, q: nat): (r: Option<(Hit, nat)>)
    requires KeywordList(kws) && q < |s|
    ensures r.Some? ==> q < r.value.1 <= |s| && s[q..r.value.1] == HitText(r.value.0)
  {
    match KeywordAtFrom(kws, s, q, 0)
    case Some(i) =>
      var e := q + |kws[i]|;
      Some((KeywordHit(s[q..e]), e))
    case None =>
      if OccursAt(s, q, BoldMark) then
        match LazyCloseFrom(s, q + 2, BoldMark)
        case Some(j) =>
          Enclosed(s, q, j, BoldMark);
          Some((BoldHit(s[q + 2..j]), j + 2))
        case None => None
      else None
  }

  // ---------------------------------------------------------------------------
  // `text.split(combinedRegex)`

  /** The text between matches, or a match. */
  datatype Token = Gap(text: string) | Match(hit: Hit)

  function TokenText(t: Token): string {
    match t
    case Gap(x) => x
    case Match(h) => HitText(h)
  }

  function Joined(ts: seq<Token>): string {
    if ts == [] then [] else TokenText(ts[0]) + Joined(ts[1..])
  }

  /** The split scan: the last piece ended at `p`, and the expression is tried
      at `q`, then `q + 1`, … up to the end of the text. */
  function Tokens(kws: seq<string>, s: string, p: nat, q: nat): seq<Token>
    requires KeywordList(kws) && p <= q <= |s|
    decreases |s| - q
  {
    if q >= |s| then [Gap(s[p..])]
    else match HitAt(kws, s, q)
      case None => Tokens(kws, s, p, q + 1)
      case Some((h, e)) => [Gap(s[p..q]), Match(h)] + Tokens(kws, s, e, e)
  }

  lemma {:induction false} JoinedAppend(a: seq<Token>, b: seq<Token>)
    ensures Joined(a + b) == Joined(a) + Joined(b)
  {
    if a == [] {
      assert a + b == b;
    } else {
      assert (a + b)[0] == a[0];
      assert (a + b)[1..] == a[1..] + b;
      JoinedAppend(a[1..], b);
    }
  }

  /** The split loses nothing: gaps and matched texts put back together give the text. */
  lemma {:induction false} TokensJoin(kws: seq<string>, s: string, p: nat, q: nat)
    requires KeywordList(kws) && p <= q <= |s|
    ensures Joined(Tokens(kws, s, p, q)) == s[p..]
    decreases |s| - q
  {
    if q >= |s| {
      TokensJoinEnd(kws, s, p, q);
    } else {
      match HitAt(kws, s, q)
      case None =>
        TokensJoin(kws, s, p, q + 1);
        TokensJoinPast(kws, s, p, q);
      case Some((h, e)) =>
        TokensJoin(kws, s, e, e);
        TokensJoinHit(kws, s, p, q, h, e);
    }
  }

  lemma TokensJoinEnd(kws: seq<string>, s: string, p: nat, q: nat)
    requires KeywordList(kws) && p <= q == |s|
    ensures Joined(Tokens(kws, s, p, q)) == s[p..]
  {
    assert [Gap(s[p..])][1..] == [];
  }

  lemma TokensJoinPast(kws: seq<string>, s: string, p: nat, q: nat)
    requires KeywordList(kws) && p <= q < |s| && HitAt(kws, s, q).None?
    requires Joined(Tokens(kws, s, p, q + 1)) == s[p..]
    ensures Joined(Tokens(kws, s, p, q)) == s[p..]
  {
    assert Tokens(kws, s, p, q) == Tokens(kws, s, p, q + 1);
  }

  lemma TokensJoinHit(kws: seq<string>, s: string, p: nat, q: nat, h: Hit, e: nat)
    requires KeywordList(kws) && p <= q < |s| && HitAt(kws, s, q) == Some((h, e))
    requires Joined(Tokens(kws, s, e, e)) == s[e..]
    ensures Joined(Tokens(kws, s, p, q)) == s[p..]
  {
    var rest := Tokens(kws, s, e, e);
    calc {
      Joined(Tokens(kws, s, p, q));
    ==  { TokensAtHit(kws, s, p, q, h, e); }
      Joined([Gap(s[p..q]), Match(h)] + rest);
    ==  { JoinedAppend([Gap(s[p..q]), Match(h)], rest); JoinedPair(s[p..q], h); }
      s[p..q] + HitText(h) + s[e..];
    ==  { SliceSplit(s, p, q, e); }
      s[p..];
    }
  }

  lemma TokensAtHit(kws: seq<string>, s: string, p: nat, q: nat, h: Hit, e: nat)
    requires KeywordList(kws) && p <= q < |s| && HitAt(kws, s, q) == Some((h, e))
    ensures Tokens(kws, s, p, q) == [Gap(s[p..q]), Match(h)] + Tokens(kws, s, e, e)
  {
  }

  lemma JoinedPair(x: string, h: Hit)
    ensures Joined([Gap(x), Match(h)]) == x + HitText(h)
  {
    var ts := [Gap(x), Match(h)];
    assert ts[1..] == [Match(h)] && ts[1..][1..] == [];
    assert Joined(ts[1..]) == HitText(h) + Joined([]);
  }

  /** The strings `split` returns for one token, captures included; a
      capture group that did not take part is `undefined`, which the later
      filter drops like "". */
  function PiecesOf(t: Token): seq<string> {
    match t
    case Gap(x) => [x]
    case Match(KeywordHit(k)) => [k]
    case Match(BoldHit(x)) => [BoldMark + x + BoldMark, x]
  }

  /** The strings `split` returns. */
  function SplitPieces(ts: seq<Token>): seq<string> {
    if ts == [] then [] else PiecesOf(ts[0]) + SplitPieces(ts[1..])
  }

  lemma PiecesCons(t: Token, rest: seq<Token>)
    ensures SplitPieces([t] + rest) == PiecesOf(t) + SplitPieces(rest)
    ensures Joined([t] + rest) == TokenText(t) + Joined(rest)
  {
    assert ([t] + rest)[1..] == rest;
  }

  /** `text.split(combinedRegex).filter(Boolean)` */
  function Parts(kws: seq<string>, text: string): seq<string>
    requires KeywordList(kws)
  {
    NonEmpty(SplitPieces(Tokens(kws, text, 0, 0)))
  }

  // ---------------------------------------------------------------------------
  // Rendering the parts, with the keyword colour counter

  datatype Color = Primary | Secondary | Accent

  /** `keywordColors[counter % keywordColors.length]`: the three colours in turn. */
  function ColorOf(counter: nat): (c: Color)
    ensures c == Primary <==> counter % 3 == 0
    ensures c == Secondary <==> counter % 3 == 1
    ensures c == Accent <==> counter % 3 == 2
  {
    [Primary, Secondary, Accent][counter % 3]
  }

  /** A rendered piece: plain text, a highlighted keyword, or a `<strong>` run. */
  datatype Segment = Plain(text: string) | Highlight(text: string, color: Color) | Strong(text: string)

  /** `keywordsToHighlight.some(…)`: the part equals some keyword, ignoring ASCII case. */
  predicate IsKeyword(kws: seq<string>, part: string) {
    Lower(part) in LowerAll(kws)
  }

  /** The keywords, lower-cased. */
  function LowerAll(kws: seq<string>): (r: seq<string>)
    ensures |r| == |kws| && forall i :: 0 <= i < |kws| ==> r[i] == Lower(kws[i])
  {
    seq(|kws|, i requires 0 <= i < |kws| => Lower(kws[i]))
  }

  lemma IsKeywordIff(kws: seq<string>, part: string)
    ensures IsKeyword(kws, part) <==> exists i :: 0 <= i < |kws| && Lower(part) == Lower(kws[i])
  {
    if IsKeyword(kws, part) {
      var i :| 0 <= i < |kws| && LowerAll(kws)[i] == Lower(part);
    }
  }

  /** `part.slice(2, -2)` */
  function StripMarks(part: string): (r: string)
    ensures |part| >= 4 ==> |r| == |part| - 4 && part == part[..2] + r + part[|part| - 2..]
    ensures |part| < 4 ==> r == ""
  {
    if |part| >= 4 then part[2..|part| - 2] else ""
  }

  /** The segment for one part when `counter` keywords came before it. */
  function SegmentOf(kws: seq<string>, part: string, counter: nat): Segment {
    if IsKeyword(kws, part) then Highlight(part, ColorOf(counter))
    else if StartsWith(part, BoldMark) && EndsWith(part, BoldMark) then Strong(StripMarks(part))
    else Plain(part)
  }

  /** The number of keyword parts in `parts`. */
  function KeywordCount(kws: seq<string>, parts: seq<string>): (n: nat)
    ensures n <= |parts|
  {
    if parts == [] then 0
    else KeywordCount(kws, parts[..|parts| - 1]) + (if IsKeyword(kws, parts[|parts| - 1]) then 1 else 0)
  }

  /** `parts.map(…)`: part `i` is rendered with the counter at the number of
      keyword parts before it. */
  function Render(kws: seq<string>, parts: seq<string>): (r: seq<Segment>)
    ensures |r| == |parts|
  {
    seq(|parts|, i requires 0 <= i < |parts| => SegmentOf(kws, parts[i], KeywordCount(kws, parts[..i])))
  }

  /** One more part counted. */
  lemma CountStep(kws: seq<string>, parts: seq<string>, i: nat)
    requires i < |parts|
    ensures KeywordCount(kws, parts[..i + 1]) == KeywordCount(kws, parts[..i]) + (if IsKeyword(kws, parts[i]) then 1 else 0)
  {
    assert parts[..i + 1][..i] == parts[..i];
    assert parts[..i + 1][i] == parts[i];
  }

  /** Past keyword part `i` and the non-keyword parts after it, the count is one higher. */
  lemma {:induction false} CountBetween(kws: seq<string>, parts: seq<string>, i: nat, j: nat)
    requires i < j <= |parts|
    requires IsKeyword(kws, parts[i])
    requires forall k :: i < k < j ==> !IsKeyword(kws, parts[k])
    ensures KeywordCount(kws, parts[..j]) == KeywordCount(kws, parts[..i]) + 1
    decreases j
  {
    if j == i + 1 {
      CountStep(kws, parts, i);
    } else {
      CountBetween(kws, parts, i, j - 1);
      CountStep(kws, parts, j - 1);
    }
  }

  /** Keyword colours cycle in the order of the keyword parts: the next
      keyword part after one drawn in colour `ColorOf(c)` is drawn in colour
      `ColorOf(c + 1)`. */
  lemma NextKeywordColour(kws: seq<string>, parts: seq<string>, i: nat, j: nat)
    requires i < j < |parts|
    requires IsKeyword(kws, parts[i]) && IsKeyword(kws, parts[j])
    requires forall k :: i < k < j ==> !IsKeyword(kws, parts[k])
    ensures var c := KeywordCount(kws, parts[..i]);
      Render(kws, parts)[i] == Highlight(parts[i], ColorOf(c)) &&
      Render(kws, parts)[j] == Highlight(parts[j], ColorOf(c + 1))
  {
    CountBetween(kws, parts, i, j);
  }

  /** No keyword part before `j`: the count there is zero. */
  lemma {:induction false} CountNone(kws: seq<string>, parts: seq<string>, j: nat)
    requires j <= |parts|
    requires forall k :: 0 <= k < j ==> !IsKeyword(kws, parts[k])
    ensures KeywordCount(kws, parts[..j]) == 0
    decreases j
  {
    if j == 0 {
      assert parts[..0] == [];
    } else {
      CountNone(kws, parts, j - 1);
      CountStep(kws, parts, j - 1);
    }
  }

  /** The first keyword part is drawn in the first colour. */
  lemma FirstKeywordColour(kws: seq<string>, parts: seq<string>, j: nat)
    requires j < |parts| && IsKeyword(kws, parts[j])
    requires forall k :: 0 <= k < j ==> !IsKeyword(kws, parts[k])
    ensures Render(kws, parts)[j] == Highlight(parts[j], ColorOf(0))
  {
    CountNone(kws, parts, j);
  }

  /** The `parts.map` callback of `renderRichText`: one part's segment, and
      the `keywordCounter` after it. */
  method RenderPart(kws: seq<string>, part: string, counter: nat) returns (segment: Segment, next: nat)
    ensures segment == SegmentOf(kws, part, counter)
    ensures next == counter + (if IsKeyword(kws, part) then 1 else 0)
  {
    next := counter;
    if IsKeyword(kws, part) {
      segment := Highlight(part, ColorOf(counter));
      next := counter + 1;
    } else if StartsWith(part, BoldMark) && EndsWith(part, BoldMark) {
      segment := Strong(StripMarks(part));
    } else {
      segment := Plain(part);
    }
  }

  /** The first `i` segments of `Render(kws, parts)`. */
  predicate RenderedUpTo(kws: seq<string>, parts: seq<string>, out: seq<Segment>, i: nat)
    requires i <= |parts|
  {
    |out| == i && forall m :: 0 <= m < i ==> out[m] == SegmentOf(kws, parts[m], KeywordCount(kws, parts[..m]))
  }

  /** One more segment rendered. */
  lemma RenderOneMore(kws: seq<string>, parts: seq<string>, out: seq<Segment>, i: nat, segment: Segment)
    requires i < |parts| && RenderedUpTo(kws, parts, out, i)
    requires segment == SegmentOf(kws, parts[i], KeywordCount(kws, parts[..i]))
    ensures RenderedUpTo(kws, parts, out + [segment], i + 1)
  {
  }

  /** All segments rendered. */
  lemma RenderedAll(kws: seq<string>, parts: seq<string>, out: seq<Segment>)
    requires RenderedUpTo(kws, parts, out, |parts|)
    ensures out == Render(kws, parts)
  {
  }

  /** The `parts.map` loop of `renderRichText`, with its mutable `keywordCounter`. */
  method RenderParts(kws: seq<string>, parts: seq<string>) returns (out: seq<Segment>)
    ensures out == Render(kws, parts)
  {
    out := [];
    var keywordCounter := 0;
    var i := 0;
    assert parts[..0] == [];
    while i < |parts|
      invariant 0 <= i <= |parts|
      invariant RenderedUpTo(kws, parts, out, i)
      invariant keywordCounter == KeywordCount(kws, parts[..i])
    {
      CountStep(kws, parts, i);
      var segment;
      segment, keywordCounter := RenderPart(kws, parts[i], keywordCounter);
      RenderOneMore(kws, parts, out, i, segment);
      out := out + [segment];
      i := i + 1;
    }
    RenderedAll(kws, parts, out);
  }

  /** `renderRichText(text)` with the page's keywords, over the corrected
      split (`IntendedParts`, without the inner capture group, see
      `BoldRunRepeated`): an empty text gives back no segments, and the
      parts rendered spell the text exactly. */
  method RenderRichText(text: string) returns (out: seq<Segment>)
    ensures text == "" ==> out == []
    ensures (KeywordsValid(Keywords);
      var parts := IntendedParts(Keywords, text);
      |out| == |parts| && Concat(parts) == text &&
      forall i :: 0 <= i < |out| ==> out[i] == SegmentOf(Keywords, parts[i], KeywordCount(Keywords, parts[..i])))
  {
    KeywordsValid(Keywords);
    var parts := IntendedParts(Keywords, text);
    out := RenderParts(Keywords, parts);
  }

  /** The page's keyword list has the shape the scanner needs. */
  lemma KeywordsValid(kws: seq<string>)
    requires kws == Keywords
    ensures KeywordList(kws)
  {
    assert kws[0][0] == 'A';
    assert kws[1][0] == 'p';
    assert kws[2][0] == 'g';
    assert kws[3][0] == 'A';
    assert kws[4][0] == 'p';
    assert kws[5][0] == 'T';
    assert kws[6][0] == 'H';
    assert kws[7][0] == 's';
    assert kws[8][0] == 'r';
    assert kws[9][0] == 'V';
    assert kws[10][0] == 'f';
    assert kws[11][0] == 'm';
    assert kws[12][0] == 'm';
    assert kws[13][0] == 'm';
    assert kws[14][0] == 'B';
    assert kws[15][0] == 'g';
    assert kws[16][0] == 'i';
    assert kws[17][0] == 'g';
    assert kws[18][0] == 'S';
    assert kws[19][0] == 'g';
    assert kws[20][0] == 't';
    assert kws[21][0] == 'V';
    assert kws[22][0] == 'g';
  }

  // ---------------------------------------------------------------------------
  // Properties of the scan

  /** The parts put back together give the text when every match is a
      keyword (a bold run adds its inside once more, see below). */
  lemma PartsNoBold(kws: seq<string>, text: string)
    requires KeywordList(kws)
    requires forall q :: 0 <= q < |text| ==> HitAt(kws, text, q).None? || HitAt(kws, text, q).value.0.KeywordHit?
    ensures Concat(Parts(kws, text)) == text
  {
    TokensJoin(kws, text, 0, 0);
    SplitPiecesNoBold(kws, text, 0, 0);
  }

  lemma {:induction false} SplitPiecesNoBold(kws: seq<string>, s: string, p: nat, q: nat)
    requires KeywordList(kws) && p <= q <= |s|
    requires forall k :: q <= k < |s| ==> HitAt(kws, s, k).None? || HitAt(kws, s, k).value.0.KeywordHit?
    ensures Concat(SplitPieces(Tokens(kws, s, p, q))) == Joined(Tokens(kws, s, p, q))
    decreases |s| - q
  {
    if q >= |s| {
      KeywordStep(s[p..], "", [], false);
    } else {
      var r := HitAt(kws, s, q);
      if r.None? {
        SplitPiecesNoBold(kws, s, p, q + 1);
      } else {
        var t := r.value.0.text;
        var e := r.value.1;
        var rest := Tokens(kws, s, e, e);
        assert Tokens(kws, s, p, q) == [Gap(s[p..q]), Match(KeywordHit(t))] + rest;
        SplitPiecesNoBold(kws, s, e, e);
        KeywordStep(s[p..q], t, rest, true);
      }
    }
  }

  /** One gap, optionally followed by one keyword match, in front of `rest`:
      its pieces and its text agree. */
  lemma KeywordStep(a: string, t: string, rest: seq<Token>, hit: bool)
    requires Concat(SplitPieces(rest)) == Joined(rest)
    ensures var ts := if hit then [Gap(a), Match(KeywordHit(t))] + rest else [Gap(a)];
      Concat(SplitPieces(ts)) == Joined(ts)
  {
    if hit {
      var m := [Match(KeywordHit(t))] + rest;
      assert [Gap(a), Match(KeywordHit(t))] + rest == [Gap(a)] + m;
      PiecesCons(Gap(a), m);
      PiecesCons(Match(KeywordHit(t)), rest);
      ConcatCons(a, SplitPieces(m));
      ConcatCons(t, SplitPieces(rest));
    } else {
      PiecesCons(Gap(a), []);
      ConcatCons(a, []);
    }
  }

  /** A keyword listed after another keyword that is a case-insensitive prefix
      of it is never matched: the earlier one always wins at that position. */
  lemma ShadowedKeyword(kws: seq<string>, s: string, q: nat, i: nat, j: nat)
    requires i < j < |kws|
    requires |kws[i]| <= |kws[j]| && Lower(kws[j])[..|kws[i]|] == Lower(kws[i])
    ensures KeywordAtFrom(kws, s, q, 0) != Some(j)
  {
    var n := |kws[i]|;
    var m := |kws[j]|;
    if q + m <= |s| && Lower(s[q..q + m]) == Lower(kws[j]) {
      assert s[q..q + m] == s[q..q + n] + s[q + n..q + m];
      LowerAppend(s[q..q + n], s[q + n..q + m]);
      assert FoldMatchesAt(s, q, kws[i]);
    }
  }

  /** A keyword that extends an earlier-listed keyword is never matched. */
  lemma PrefixKeyword(kws: seq<string>, i: nat, j: nat)
    requires i < j < |kws| && |kws[i]| <= |kws[j]| && kws[j][..|kws[i]|] == kws[i]
    ensures forall s: string, q: nat :: KeywordAtFrom(kws, s, q, 0) != Some(j)
  {
    var n := |kws[i]|;
    assert kws[j] == kws[i] + kws[j][n..];
    LowerAppend(kws[i], kws[j][n..]);
    assert Lower(kws[j])[..n] == Lower(kws[i]);
    forall s: string, q: nat ensures KeywordAtFrom(kws, s, q, 0) != Some(j) {
      ShadowedKeyword(kws, s, q, i, j);
    }
  }

  /** On the page, "multimodal AI" is never highlighted as itself:
      "multimodal", listed before it, always wins. */
  lemma MultimodalAiShadowed(kws: seq<string>)
    requires kws == Keywords
    ensures forall s: string, q: nat :: KeywordAtFrom(kws, s, q, 0) != Some(12)
  {
    assert kws[12][..10] == kws[11];
    PrefixKeyword(kws, 11, 12);
  }

  /** Nor is "multimodal model". */
  lemma MultimodalModelShadowed(kws: seq<string>)
    requires kws == Keywords
    ensures forall s: string, q: nat :: KeywordAtFrom(kws, s, q, 0) != Some(13)
  {
    assert kws[13][..10] == kws[11];
    PrefixKeyword(kws, 11, 13);
  }

  /** "gemini-2.5-flash" always wins over "gemini-2.5-flash-native-audio-preview-09-2025". */
  lemma FlashAudioShadowed(kws: seq<string>)
    requires kws == Keywords
    ensures forall s: string, q: nat :: KeywordAtFrom(kws, s, q, 0) != Some(17)
  {
    assert kws[17][..16] == kws[15];
    PrefixKeyword(kws, 15, 17);
  }

  /** and over "gemini-2.5-flash-image". */
  lemma FlashImageShadowed(kws: seq<string>)
    requires kws == Keywords
    ensures forall s: string, q: nat :: KeywordAtFrom(kws, s, q, 0) != Some(22)
  {
    assert kws[22][..16] == kws[15];
    PrefixKeyword(kws, 15, 22);
  }

  // ---------------------------------------------------------------------------
  // Bold runs: as written, and as evidently intended

  /** `**x**`, where `x` holds no `*` and no line break, is one bold match. */
  lemma {:induction false} BoldTokens(kws: seq<string>, x: string)
    requires KeywordList(kws)
    requires x != [] && '*' !in x
    requires forall k :: 0 <= k < |x| ==> !IsLineTerminator(x[k])
    ensures Tokens(kws, BoldMark + x + BoldMark, 0, 0) == [Gap(""), Match(BoldHit(x)), Gap("")]
  {
    var s := BoldMark + x + BoldMark;
    var e := 2 + |x|;
    assert KeywordAtFrom(kws, s, 0, 0).None? by {
      forall j | 0 <= j < |kws| ensures !FoldMatchesAt(s, 0, kws[j]) {
        if |kws[j]| <= |s| {
          assert Lower(s[0..|kws[j]|])[0] == '*' != Lower(kws[j])[0];
        }
      }
    }
    assert OccursAt(s, 0, BoldMark);
    assert OccursAt(s, e, BoldMark) by { assert s[e..e + 2] == BoldMark; }
    forall k | 2 <= k < e ensures !IsLineTerminator(s[k]) && !OccursAt(s, k, BoldMark) {
      assert s[k] == x[k - 2];
      assert x[k - 2] in x;
    }
    LazyCloseAt(s, 2, BoldMark, e);
    assert s[2..e] == x;
    assert HitAt(kws, s, 0) == Some((BoldHit(x), |s|));
    assert s[0..0] == "" && s[|s|..] == "";
    assert Tokens(kws, s, |s|, |s|) == [Gap("")];
  }

  /** `**x**` is neither a keyword nor, for `x` without `*`, a bold-marked text. */
  lemma BoldShape(kws: seq<string>, x: string)
    requires KeywordList(kws) && x != [] && '*' !in x
    ensures !IsKeyword(kws, BoldMark + x + BoldMark)
    ensures StartsWith(BoldMark + x + BoldMark, BoldMark) && EndsWith(BoldMark + x + BoldMark, BoldMark)
    ensures StripMarks(BoldMark + x + BoldMark) == x
    ensures !StartsWith(x, BoldMark)
  {
    var s := BoldMark + x + BoldMark;
    IsKeywordIff(kws, s);
    forall i | 0 <= i < |kws| ensures Lower(s) != Lower(kws[i]) {
      if |kws[i]| == |s| {
        assert Lower(s)[0] == '*' != Lower(kws[i])[0];
      }
    }
    assert s[|s| - 2..] == BoldMark;
    assert s[2..|s| - 2] == x;
    if |x| >= 2 {
      assert x[0] in x;
    }
  }

  /** As written: a bold run is rendered twice, in bold and then as plain
      text, because the inner group `(.*?)` captures too and `split` returns
      every capture. */
  lemma BoldRunRepeated(kws: seq<string>, x: string)
    requires KeywordList(kws)
    requires x != [] && '*' !in x && !IsKeyword(kws, x)
    requires forall k :: 0 <= k < |x| ==> !IsLineTerminator(x[k])
    ensures Render(kws, Parts(kws, BoldMark + x + BoldMark)) == [Strong(x), Plain(x)]
  {
    var s := BoldMark + x + BoldMark;
    BoldTokens(kws, x);
    BoldPieces(x);
    assert NonEmpty(["", s, x, ""]) == [s, x] by {
      NonEmptyCons("", []);
      NonEmptyCons(x, [""]);
      NonEmptyCons(s, [x, ""]);
      NonEmptyCons("", [s, x, ""]);
    }
    BoldShape(kws, x);
    assert Render(kws, [s, x])[0] == Strong(x);
    assert Render(kws, [s, x])[1] == Plain(x);
  }

  /** The pieces `split` gives for the tokens of one bold run. */
  lemma BoldPieces(x: string)
    ensures SplitPieces([Gap(""), Match(BoldHit(x)), Gap("")]) == ["", BoldMark + x + BoldMark, x, ""]
    ensures IntendedPieces([Gap(""), Match(BoldHit(x)), Gap("")]) == ["", BoldMark + x + BoldMark, ""]
  {
    var t3 := [Gap("")];
    var t2 := [Match(BoldHit(x))] + t3;
    var t1 := [Gap("")] + t2;
    assert t3[1..] == [] && t2[1..] == t3 && t1[1..] == t2;
    assert SplitPieces(t3) == [""];
    assert SplitPieces(t2) == [BoldMark + x + BoldMark, x] + [""];
    assert IntendedPieces(t3) == [""];
    assert IntendedPieces(t2) == [BoldMark + x + BoldMark] + [""];
    assert t1 == [Gap(""), Match(BoldHit(x)), Gap("")];
  }

  /** As evidently intended: the split keeps only the whole bold run. */
  function IntendedPieces(ts: seq<Token>): seq<string> {
    if ts == [] then [] else [TokenText(ts[0])] + IntendedPieces(ts[1..])
  }

  lemma {:induction false} IntendedPiecesJoin(ts: seq<Token>)
    ensures Concat(IntendedPieces(ts)) == Joined(ts)
  {
    if ts != [] {
      IntendedPiecesJoin(ts[1..]);
      ConcatAppend([TokenText(ts[0])], IntendedPieces(ts[1..]));
      assert Concat([TokenText(ts[0])]) == TokenText(ts[0]) by {
        assert [TokenText(ts[0])][1..] == [];
      }
    }
  }

  /** The parts with the inner group made non-capturing, `(?:.*?)`: put back
      together they give exactly the text. */
  function IntendedParts(kws: seq<string>, text: string): (r: seq<string>)
    requires KeywordList(kws)
    ensures Concat(r) == text
    ensures forall i :: 0 <= i < |r| ==> r[i] != []
  {
    var ts := Tokens(kws, text, 0, 0);
    TokensJoin(kws, text, 0, 0);
    IntendedPiecesJoin(ts);
    NonEmpty(IntendedPieces(ts))
  }

  /** With the fix, `**x**` is rendered once, in bold. */
  lemma BoldRunOnce(kws: seq<string>, x: string)
    requires KeywordList(kws)
    requires x != [] && '*' !in x
    requires forall k :: 0 <= k < |x| ==> !IsLineTerminator(x[k])
    ensures Render(kws, IntendedParts(kws, BoldMark + x + BoldMark)) == [Strong(x)]
  {
    var s := BoldMark + x + BoldMark;
    BoldTokens(kws, x);
    BoldPieces(x);
    assert NonEmpty(["", s, ""]) == [s] by {
      NonEmptyCons("", []);
      NonEmptyCons(s, [""]);
      NonEmptyCons("", [s, ""]);
    }
    BoldShape(kws, x);
    assert Render(kws, [s])[0] == Strong(x);
  }

  // ---------------------------------------------------------------------------
  // Layout dispatch

  datatype Layout = SsoLayout | AskSmartLayout | TutorLayout | DefaultLayout

  /** `ProjectPage`: the three projects with a dedicated layout, else the default one. */
  function LayoutFor(id: string): (r: Layout)
    ensures r == SsoLayout <==> id == "sso"
    ensures r == AskSmartLayout <==> id == "ask-smart"
    ensures r == TutorLayout <==> id == "miscellaneous-tutor"
    ensures r == DefaultLayout <==> id != "sso" && id != "ask-smart" && id != "miscellaneous-tutor"
  {
    if id == "sso" then SsoLayout
    else if id == "ask-smart" then AskSmartLayout
    else if id == "miscellaneous-tutor" then TutorLayout
    else DefaultLayout
  }

  // ---------------------------------------------------------------------------
  // The result video

  /** The inline iframe of the result section: the page keeps its own copy of
      `getYouTubeEmbedUrl`, identical to the modal's, and adds no autoplay flag. */
  function ResultVideoSource(videoUrl: string): (r: string)
    ensures r == "" <==> videoUrl == ""
    ensures r == videoUrl || StartsWith(r, VideoModal.DrivePrefix) || StartsWith(r, VideoModal.YouTubeEmbedPrefix)
  {
    VideoModal.EmbedUrl(videoUrl)
  }

  /** The home page's modal and the project page show the same video: the
      modal's URL is the page's one, plus `?autoplay=1` or `&autoplay=1` when
      it is a YouTube embed. */
  lemma ModalExtendsResultVideo(videoUrl: string)
    ensures var page := ResultVideoSource(videoUrl);
            var modal := VideoModal.ModalSource(videoUrl);
            modal == page || modal == page + "?autoplay=1" || modal == page + "&autoplay=1"
    ensures !Contains(ResultVideoSource(videoUrl), VideoModal.YouTubeEmbedHost) ==>
            VideoModal.ModalSource(videoUrl) == ResultVideoSource(videoUrl)
  {
  }
}
