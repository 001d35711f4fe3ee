/** pages/JournalPage.tsx: the journal entries grouped by author, each
    author's entries sorted (by station number for one author, by date for
    the others), and the `[kw-…]…[/kw-…]` highlight tags of the paragraphs. */
module JournalPage {
  import opened Text
  import opened Types
  import ProjectPage

  // ---------------------------------------------------------------------------
  // `entriesByAuthor`

  /** The entries of `author`, in their order. */
  function EntriesOf(es: seq<JournalEntry>, author: string): seq<JournalEntry> {
    if es == [] then []
    else EntriesOf(es[..|es| - 1], author) + (if es[|es| - 1].author == author then [es[|es| - 1]] else [])
  }

  /** Every entry lands in the list of its own author, as often as it occurs,
      and in no other list. */
  lemma {:induction false} EntriesOfCount(es: seq<JournalEntry>, author: string, e: JournalEntry)
    ensures multiset(EntriesOf(es, author))[e] == if e.author == author then multiset(es)[e] else 0
  {
    if es != [] {
      var init, last := es[..|es| - 1], es[|es| - 1];
      assert es == init + [last];
      EntriesOfCount(init, author, e);
    }
  }

  /** The `reduce` that fills `entriesByAuthor`. */
  method GroupByAuthor(es: seq<JournalEntry>) returns (grouped: map<string, seq<JournalEntry>>)
    ensures forall a :: a in grouped <==> exists i :: 0 <= i < |es| && es[i].author == a
    ensures forall a :: a in grouped ==> grouped[a] == EntriesOf(es, a)
  {
    grouped := map[];
    for i := 0 to |es|
      invariant forall a :: a in grouped <==> exists k :: 0 <= k < i && es[k].author == a
      invariant forall a :: a in grouped ==> grouped[a] == EntriesOf(es[..i], a)
    {
      assert es[..i + 1][..i] == es[..i];
      var author := es[i].author;
      if author !in grouped {
        grouped := grouped[author := []];
        assert EntriesOf(es[..i], author) == [] by {
          NoEntriesOf(es[..i], author);
        }
      }
      grouped := grouped[author := grouped[author] + [es[i]]];
    }
    assert es[..|es|] == es;
  }

  lemma {:induction false} NoEntriesOf(es: seq<JournalEntry>, author: string)
    requires forall k :: 0 <= k < |es| ==> es[k].author != author
    ensures EntriesOf(es, author) == []
  {
    if es != [] {
      NoEntriesOf(es[..|es| - 1], author);
    }
  }

  /** `entriesByAuthor[member.name] || []` */
  function MemberEntries(grouped: map<string, seq<JournalEntry>>, name: string): (r: seq<JournalEntry>)
    ensures name !in grouped ==> r == []
    ensures name in grouped ==> r == grouped[name]
  {
    if name in grouped then grouped[name] else []
  }

  // ---------------------------------------------------------------------------
  // `renderJournalContent`: the tags

  function ColorName(c: ProjectPage.Color): (r: string)
    ensures |r| > 0
    ensures forall i :: 0 <= i < |r| ==> r[i] != '['
  {
    match c
    case Primary => "primary"
    case Secondary => "secondary"
    case Accent => "accent"
  }

  /** Different colours have names with different first letters. */
  lemma DistinctInitials(c: ProjectPage.Color, d: ProjectPage.Color)
    requires c != d
    ensures ColorName(c)[0] != ColorName(d)[0]
  {
  }

  function Open(c: ProjectPage.Color): (r: string)
    ensures |r| > 5 && r[0] == '[' && r[1] == 'k' && r[4] == ColorName(c)[0]
  {
    "[kw-" + ColorName(c) + "]"
  }

  function Close(c: ProjectPage.Color): (r: string)
    ensures |r| > 5 && r[0] == '[' && r[1] == '/' && r[5] == ColorName(c)[0]
  {
    "[/kw-" + ColorName(c) + "]"
  }

  /** One alternative of the pattern at `q`: the opening tag of `c`, then a
      lazy run up to the first closing tag of `c`; its end. */
  function TagEnd(s: string, q: nat, c: ProjectPage.Color): (r: Option<nat>)
    ensures r.Some? ==> q < r.value <= |s| && StartsWith(s[q..r.value], Open(c))
  {
    if !OccursAt(s, q, Open(c)) then None
    else match LazyCloseFrom(s, q + |Open(c)|, Close(c))
      case None => None
      case Some(k) =>
        assert s[q..k + |Close(c)|][..|Open(c)|] == s[q..q + |Open(c)|];
        Some(k + |Close(c)|)
  }

  /** The pattern at `q`: the alternatives tried in the order primary, secondary, accent. */
  function TagAt(s: string, q: nat): (r: Option<nat>)
    ensures r.Some? ==> q < r.value <= |s|
  {
    if TagEnd(s, q, ProjectPage.Primary).Some? then TagEnd(s, q, ProjectPage.Primary)
    else if TagEnd(s, q, ProjectPage.Secondary).Some? then TagEnd(s, q, ProjectPage.Secondary)
    else TagEnd(s, q, ProjectPage.Accent)
  }

  /** `split` with the one capture group: the text between matches and the
      matched runs, alternately. */
  function Split(s: string, p: nat, q: nat): seq<string>
    requires p <= q <= |s|
    decreases |s| - q
  {
    if q >= |s| then [s[p..]]
    else match TagAt(s, q)
      case None => Split(s, p, q + 1)
      case Some(e) => [s[p..q], s[q..e]] + Split(s, e, e)
  }

  /** `text.split(…).filter(Boolean)` */
  function Parts(text: string): seq<string> {
    NonEmpty(Split(text, 0, 0))
  }

  /** The split loses nothing: the pieces put back together give the text. */
  lemma {:induction false} SplitJoin(s: string, p: nat, q: nat)
    requires p <= q <= |s|
    ensures Concat(Split(s, p, q)) == s[p..]
    decreases |s| - q
  {
    if q >= |s| {
      ConcatCons(s[p..], []);
    } else {
      var r := TagAt(s, q);
      if r.None? {
        SplitJoin(s, p, q + 1);
      } else {
        var e := r.value;
        var rest := Split(s, e, e);
        SplitJoin(s, e, e);
        ConcatCons(s[q..e], rest);
        ConcatCons(s[p..q], [s[q..e]] + rest);
        assert [s[p..q], s[q..e]] + rest == [s[p..q]] + ([s[q..e]] + rest);
        SliceSplit(s, p, q, e);
      }
    }
  }

  /** Nothing of a paragraph is lost, and no part is empty. */
  lemma PartsJoin(text: string)
    ensures Concat(Parts(text)) == text
    ensures forall i :: 0 <= i < |Parts(text)| ==> Parts(text)[i] != ""
  {
    SplitJoin(text, 0, 0);
  }

  /** Every `open` and every `close` removed from `s`, left to right. */
  function RemoveAll(s: string, open: string, close: string): (r: string)
    requires |open| > 0 && |close| > 0
    ensures |r| <= |s|
    decreases |s|
  {
    if s == [] then []
    else if StartsWith(s, open) then RemoveAll(s[|open|..], open, close)
    else if StartsWith(s, close) then RemoveAll(s[|close|..], open, close)
    else [s[0]] + RemoveAll(s[1..], open, close)
  }

  /** `part.replace(/\[\/?kw-c\]/g, '')`: every opening and closing tag of `c` removed. */
  function RemoveTags(s: string, c: ProjectPage.Color): string {
    RemoveAll(s, Open(c), Close(c))
  }

  /** The rendered form of one part: a part that starts with an opening tag is
      highlighted in that tag's colour with the tags of that colour removed;
      any other part is plain text. */
  function RenderPart(part: string): ProjectPage.Segment {
    if StartsWith(part, Open(ProjectPage.Primary)) then
      ProjectPage.Highlight(RemoveTags(part, ProjectPage.Primary), ProjectPage.Primary)
    else if StartsWith(part, Open(ProjectPage.Secondary)) then
      ProjectPage.Highlight(RemoveTags(part, ProjectPage.Secondary), ProjectPage.Secondary)
    else if StartsWith(part, Open(ProjectPage.Accent)) then
      ProjectPage.Highlight(RemoveTags(part, ProjectPage.Accent), ProjectPage.Accent)
    else ProjectPage.Plain(part)
  }

  /** `renderJournalContent` */
  function RenderContent(text: string): (r: seq<ProjectPage.Segment>)
    ensures |r| == |Parts(text)|
    ensures forall i :: 0 <= i < |r| ==> r[i] == RenderPart(Parts(text)[i])
  {
    var parts := Parts(text);
    seq(|parts|, i requires 0 <= i < |parts| => RenderPart(parts[i]))
  }

  // ---------------------------------------------------------------------------
  // Properties of the tags

  /** `s` holds no `[`, hence no tag, and no line break. */
  predicate TagFree(s: string) {
    forall i :: 0 <= i < |s| ==> s[i] != '[' && !IsLineTerminator(s[i])
  }

  /** No tag starts where there is no `[`. */
  lemma NoBracketNoTag(s: string, q: nat, t: string)
    requires q < |s| ==> s[q] != '['
    requires |t| > 0 && t[0] == '['
    ensures !OccursAt(s, q, t)
  {
    if q + |t| <= |s| {
      assert s[q..q + |t|][0] == s[q] != t[0];
    }
  }

  /** A paragraph without `[` is one plain part (none when it is empty). */
  lemma {:induction false} NoTagsPlain(text: string)
    requires forall i :: 0 <= i < |text| ==> text[i] != '['
    ensures text != "" ==> RenderContent(text) == [ProjectPage.Plain(text)]
    ensures text == "" ==> RenderContent(text) == []
  {
    forall q | 0 <= q < |text| ensures TagAt(text, q).None? {
      NoBracketNoMatch(text, q);
    }
    NoMatchSplit(text, 0, 0);
    NonEmptyCons(text, []);
    if text != "" {
      NoBracketNoTag(text, 0, Open(ProjectPage.Primary));
      NoBracketNoTag(text, 0, Open(ProjectPage.Secondary));
      NoBracketNoTag(text, 0, Open(ProjectPage.Accent));
    }
  }

  /** The pattern matches nowhere that holds no `[`. */
  lemma NoBracketNoMatch(s: string, q: nat)
    requires q < |s| ==> s[q] != '['
    ensures TagAt(s, q).None?
  {
    NoBracketNoTag(s, q, Open(ProjectPage.Primary));
    NoBracketNoTag(s, q, Open(ProjectPage.Secondary));
    NoBracketNoTag(s, q, Open(ProjectPage.Accent));
  }

  /** Where the pattern matches nowhere, `split` returns the text whole. */
  lemma {:induction false} NoMatchSplit(s: string, p: nat, q: nat)
    requires p <= q <= |s|
    requires forall k :: q <= k < |s| ==> TagAt(s, k).None?
    ensures Split(s, p, q) == [s[p..]]
    decreases |s| - q
  {
    if q < |s| {
      NoMatchSplit(s, p, q + 1);
    }
  }

  /** Nothing is removed from a bracket-free text before `t`. */
  lemma {:induction false} RemoveAllPrefix(x: string, t: string, open: string, close: string)
    requires forall i :: 0 <= i < |x| ==> x[i] != '['
    requires |open| > 0 && open[0] == '[' && |close| > 0 && close[0] == '['
    ensures RemoveAll(x + t, open, close) == x + RemoveAll(t, open, close)
  {
    if x != [] {
      NoBracketNoTag(x + t, 0, open);
      NoBracketNoTag(x + t, 0, close);
      assert (x + t)[1..] == x[1..] + t;
      RemoveAllPrefix(x[1..], t, open, close);
    } else {
      assert x + t == t;
    }
  }

  /** The tag run of one colour around `x`. */
  function Tagged(c: ProjectPage.Color, x: string): string {
    Open(c) + x + Close(c)
  }

  /** The lazy run after an opening text `o` stops at the closing tag at the end. */
  lemma TaggedEnd(o: string, x: string, close: string)
    requires TagFree(x) && |close| > 0 && close[0] == '['
    ensures LazyCloseFrom(o + x + close, |o|, close) == Some(|o| + |x|)
  {
    var s := o + x + close;
    var k := |o| + |x|;
    assert s[k..k + |close|] == close;
    forall j | |o| <= j < k ensures !IsLineTerminator(s[j]) && !OccursAt(s, j, close) {
      assert s[j] == x[j - |o|];
      NoBracketNoTag(s, j, close);
    }
    LazyCloseAt(s, |o|, close, k);
  }

  /** The pattern matches a tagged run at its start, up to its end. */
  lemma TaggedMatch(c: ProjectPage.Color, x: string)
    requires TagFree(x)
    ensures TagAt(Tagged(c, x), 0) == Some(|Tagged(c, x)|)
  {
    var s := Tagged(c, x);
    assert s[..|Open(c)|] == Open(c);
    TaggedEnd(Open(c), x, Close(c));
    assert TagEnd(s, 0, c) == Some(|s|);
    FirstTagWins(c, s);
  }

  /** A match at `q` ends the current piece and adds the matched run. */
  lemma SplitAtMatch(s: string, p: nat, q: nat, e: nat)
    requires p <= q < |s| && TagAt(s, q) == Some(e)
    ensures Split(s, p, q) == [s[p..q], s[q..e]] + Split(s, e, e)
  {
  }

  /** The split of a tagged run: the run, between two empty gaps. */
  lemma TaggedSplit(c: ProjectPage.Color, x: string)
    requires TagFree(x)
    ensures Split(Tagged(c, x), 0, 0) == ["", Tagged(c, x), ""]
  {
    var s := Tagged(c, x);
    TaggedMatch(c, x);
    calc {
      Split(s, 0, 0);
      { SplitAtMatch(s, 0, 0, |s|); }
      [s[0..0], s[0..|s|]] + Split(s, |s|, |s|);
      [s[0..0], s[0..|s|]] + [s[|s|..]];
      { assert s[0..0] == "" && s[0..|s|] == s && s[|s|..] == ""; }
      ["", s, ""];
    }
  }

  /** A paragraph that is one tagged run is one part. */
  lemma TaggedParts(c: ProjectPage.Color, x: string)
    requires TagFree(x)
    ensures Parts(Tagged(c, x)) == [Tagged(c, x)]
  {
    var s := Tagged(c, x);
    TaggedSplit(c, x);
    NonEmptyCons("", [s, ""]);
    NonEmptyCons(s, [""]);
    NonEmptyCons("", []);
    assert [s, ""] == [s] + [""];
    assert ["", s, ""] == [""] + [s, ""];
  }

  /** Removing the tags of the run's own colour leaves its text. */
  lemma TaggedText(c: ProjectPage.Color, x: string)
    requires TagFree(x)
    ensures RemoveTags(Tagged(c, x), c) == x
  {
    calc {
      RemoveTags(Tagged(c, x), c);
      { assert Tagged(c, x) == Open(c) + (x + Close(c)); }
      RemoveTags(Open(c) + (x + Close(c)), c);
      { RemoveTagsOpen(c, x + Close(c)); }
      RemoveAll(x + Close(c), Open(c), Close(c));
      { RemoveAllPrefix(x, Close(c), Open(c), Close(c)); }
      x + RemoveTags(Close(c), c);
      { RemoveTagsOnlyClose(c); }
      x + "";
      x;
    }
  }

  /** A paragraph that is one tagged run is one part, highlighted in the
      tag's colour with the tags removed. */
  lemma TaggedHighlight(c: ProjectPage.Color, x: string)
    requires TagFree(x)
    ensures RenderContent(Tagged(c, x)) == [ProjectPage.Highlight(x, c)]
  {
    var s := Tagged(c, x);
    TaggedParts(c, x);
    TaggedText(c, x);
    assert s[..|Open(c)|] == Open(c);
    RenderOpened(s, c);
  }

  /** A part opened by the tag of `c` is highlighted in `c`, its tags of `c` removed. */
  lemma RenderOpened(s: string, c: ProjectPage.Color)
    requires StartsWith(s, Open(c))
    ensures RenderPart(s) == ProjectPage.Highlight(RemoveTags(s, c), c)
  {
    forall d | d != c ensures !StartsWith(s, Open(d)) {
      DistinctOpens(s, c, d);
    }
  }

  /** The lazy run finds nothing when no closing tag occurs from `j` on. */
  lemma {:induction false} LazyCloseNone(s: string, j: nat, close: string)
    requires |close| > 0
    requires forall k :: j <= k < |s| ==> !OccursAt(s, k, close)
    ensures LazyCloseFrom(s, j, close).None?
    decreases |s| - j
  {
    if j < |s| {
      LazyCloseNone(s, j + 1, close);
    }
  }

  /** A run opened in colour `c` and closed in colour `d`. */
  function Mismatched(c: ProjectPage.Color, d: ProjectPage.Color, x: string): string {
    Open(c) + x + Close(d)
  }

  lemma MismatchedBrackets(c: ProjectPage.Color, d: ProjectPage.Color, x: string)
    requires TagFree(x)
    ensures forall q :: 0 < q < |Mismatched(c, d, x)| && q != |Open(c)| + |x| ==> Mismatched(c, d, x)[q] != '['
  {
    var s, o, k := Mismatched(c, d, x), |Open(c)|, |Open(c)| + |x|;
    forall q | 0 < q < |s| && q != k ensures s[q] != '[' {
      if q < o {
        assert s[q] == Open(c)[q];
      } else if q < k {
        assert s[q] == x[q - o];
      } else {
        assert s[q] == Close(d)[q - k];
      }
    }
  }

  /** A closing tag of another colour does not end a run: the pattern matches nowhere. */
  lemma MismatchedNoMatch(c: ProjectPage.Color, d: ProjectPage.Color, x: string)
    requires c != d && TagFree(x)
    ensures forall q :: 0 <= q < |Mismatched(c, d, x)| ==> TagAt(Mismatched(c, d, x), q).None?
  {
    MismatchedNoMatchAtStart(c, d, x);
    MismatchedNoMatchInside(c, d, x);
  }

  /** The opening tag at the start finds no closing tag of its colour. */
  lemma MismatchedNoMatchAtStart(c: ProjectPage.Color, d: ProjectPage.Color, x: string)
    requires c != d && TagFree(x)
    ensures TagAt(Mismatched(c, d, x), 0).None?
  {
    var s, k := Mismatched(c, d, x), |Open(c)| + |x|;
    MismatchedBrackets(c, d, x);
    OccursAfter(Open(c) + x, Close(d));
    forall j | |Open(c)| <= j < |s| ensures !OccursAt(s, j, Close(c)) {
      if j == k {
        DistinctCloses(s, k, c, d);
      } else {
        NoBracketNoTag(s, j, Close(c));
      }
    }
    LazyCloseNone(s, |Open(c)|, Close(c));
    assert s[..|Open(c)|] == Open(c);
    forall e | e != c ensures !OccursAt(s, 0, Open(e)) {
      DistinctOpens(s, c, e);
    }
  }

  /** Past the start, the only `[` opens the foreign closing tag, where no opening tag is. */
  lemma MismatchedNoMatchInside(c: ProjectPage.Color, d: ProjectPage.Color, x: string)
    requires c != d && TagFree(x)
    ensures forall q :: 0 < q < |Mismatched(c, d, x)| ==> TagAt(Mismatched(c, d, x), q).None?
  {
    var s, k := Mismatched(c, d, x), |Open(c)| + |x|;
    MismatchedBrackets(c, d, x);
    OccursAfter(Open(c) + x, Close(d));
    forall q | 0 < q < |s| ensures TagAt(s, q).None? {
      if q == k {
        OpenNotClose(s, k, ProjectPage.Primary, d);
        OpenNotClose(s, k, ProjectPage.Secondary, d);
        OpenNotClose(s, k, ProjectPage.Accent, d);
      } else {
        NoBracketNoMatch(s, q);
      }
    }
  }

  /** A run closed in another colour stays one part ... */
  lemma MismatchedParts(c: ProjectPage.Color, d: ProjectPage.Color, x: string)
    requires c != d && TagFree(x)
    ensures Parts(Mismatched(c, d, x)) == [Mismatched(c, d, x)]
  {
    var s := Mismatched(c, d, x);
    MismatchedNoMatch(c, d, x);
    NoMatchSplit(s, 0, 0);
    assert s[0..] == s;
    NonEmptyCons(s, []);
  }

  /** Only the tags of the opening colour are removed from such a run. */
  lemma MismatchedText(c: ProjectPage.Color, d: ProjectPage.Color, x: string)
    requires c != d && TagFree(x)
    ensures RemoveTags(Mismatched(c, d, x), c) == x + Close(d)
  {
    assert Mismatched(c, d, x) == Open(c) + (x + Close(d));
    RemoveTagsOpen(c, x + Close(d));
    RemoveAllPrefix(x, Close(d), Open(c), Close(c));
    RemoveOtherClose(c, d);
  }

  /** ... which is still highlighted, in the opening colour, with the foreign
      closing tag left in its text. */
  lemma MismatchedHighlight(c: ProjectPage.Color, d: ProjectPage.Color, x: string)
    requires c != d && TagFree(x)
    ensures RenderContent(Mismatched(c, d, x)) == [ProjectPage.Highlight(x + Close(d), c)]
  {
    var s := Mismatched(c, d, x);
    MismatchedParts(c, d, x);
    MismatchedText(c, d, x);
    assert s[..|Open(c)|] == Open(c);
    RenderOpened(s, c);
  }

  /** The tags of `c` removed from a closing tag of another colour leave it whole. */
  lemma RemoveOtherClose(c: ProjectPage.Color, d: ProjectPage.Color)
    requires c != d
    ensures RemoveAll(Close(d), Open(c), Close(c)) == Close(d)
  {
    var t := Close(d);
    assert t[0..|t|] == t;
    OpenNotClose(t, 0, c, d);
    DistinctCloses(t, 0, c, d);
    RemoveAllPrefix(t[1..], "", Open(c), Close(c));
    assert t[1..] + "" == t[1..];
  }

  /** The alternative that matches at 0 is the one whose opening tag starts the text. */
  lemma FirstTagWins(c: ProjectPage.Color, s: string)
    requires StartsWith(s, Open(c)) && TagEnd(s, 0, c).Some?
    ensures TagAt(s, 0) == TagEnd(s, 0, c)
  {
    forall d | d != c ensures !OccursAt(s, 0, Open(d)) {
      DistinctOpens(s, c, d);
    }
  }

  /** Two different opening tags differ at their fifth character. */
  lemma DistinctOpens(s: string, c: ProjectPage.Color, d: ProjectPage.Color)
    requires c != d && StartsWith(s, Open(c))
    ensures !OccursAt(s, 0, Open(d))
  {
    DistinctInitials(c, d);
    assert s[4] == s[0..|Open(c)|][4] == Open(c)[4];
    if |Open(d)| <= |s| {
      assert s[0..|Open(d)|][4] == s[4];
    }
  }

  /** Two different closing tags differ at their sixth character. */
  lemma DistinctCloses(s: string, k: nat, c: ProjectPage.Color, d: ProjectPage.Color)
    requires c != d && OccursAt(s, k, Close(d))
    ensures !OccursAt(s, k, Close(c))
  {
    DistinctInitials(c, d);
    assert s[k + 5] == s[k..k + |Close(d)|][5] == Close(d)[5];
    if k + |Close(c)| <= |s| {
      assert s[k..k + |Close(c)|][5] == s[k + 5];
    }
  }

  /** No opening tag starts where a closing tag does. */
  lemma OpenNotClose(s: string, k: nat, c: ProjectPage.Color, d: ProjectPage.Color)
    requires OccursAt(s, k, Close(d))
    ensures !OccursAt(s, k, Open(c))
  {
    assert s[k + 1] == s[k..k + |Close(d)|][1] == '/';
    if k + |Open(c)| <= |s| {
      assert s[k..k + |Open(c)|][1] == s[k + 1];
    }
  }

  lemma RemoveTagsOpen(c: ProjectPage.Color, rest: string)
    ensures RemoveTags(Open(c) + rest, c) == RemoveTags(rest, c)
  {
    var s := Open(c) + rest;
    assert s[..|Open(c)|] == Open(c);
    assert s[|Open(c)|..] == rest;
  }

  lemma RemoveTagsOnlyClose(c: ProjectPage.Color)
    ensures RemoveTags(Close(c), c) == ""
  {
    var s := Close(c);
    assert !StartsWith(s, Open(c)) by {
      assert s[1] == '/';
      assert Open(c)[1] == 'k';
    }
    assert s[|Close(c)|..] == "";
  }

  // ---------------------------------------------------------------------------
  // `getStationNumber`

  /** `s.replace(pat, rep)` with a string pattern: only the first occurrence is replaced. */
  function ReplaceFirst(s: string, pat: string, rep: string): (r: string)
    ensures IndexOf(s, pat).None? ==> r == s
    ensures forall k :: 0 <= k < |r| ==> r[k] in s || r[k] in rep
  {
    match IndexOf(s, pat)
    case None => s
    case Some(i) =>
      var rest := s[i + |pat|..];
      assert forall k :: 0 <= k < |rest| ==> rest[k] == s[i + |pat| + k];
      s[..i] + rep + rest
  }

  /** A string that starts with the pattern loses that prefix. */
  lemma ReplaceFirstPrefix(pat: string, t: string)
    ensures ReplaceFirst(pat + t, pat, "") == t
  {
    assert OccursAt(pat + t, 0, pat);
    assert (pat + t)[|pat|..] == t;
  }

  predicate IsDigit(c: char) {
    '0' <= c <= '9'
  }

  /** The length of the run of decimal digits at the start of `s`. */
  function DigitRun(s: string): (n: nat)
    ensures n <= |s|
    ensures forall i :: 0 <= i < n ==> IsDigit(s[i])
    ensures n < |s| ==> !IsDigit(s[n])
  {
    if s == [] || !IsDigit(s[0]) then 0 else 1 + DigitRun(s[1..])
  }

  /** `parseInt(s, 10)`: leading white space is skipped, then an optional sign,
      then the longest run of decimal digits; `None` stands for `NaN`, the
      result when there are no digits. */
  function ParseInt(s: string): (r: Option<int>)
    ensures (forall i :: 0 <= i < |s| ==> !IsDigit(s[i])) ==> r.None?
  {
    if s != [] && IsSpace(s[0]) then ParseInt(s[1..])
    else
      var neg := s != [] && s[0] == '-';
      var body := if s != [] && (s[0] == '-' || s[0] == '+') then s[1..] else s;
      var n := DigitRun(body);
      assert n > 0 ==> body[0] in s;
      if n == 0 then None
      else
        var v: int := DigitsValue(body[..n]);
        Some(if neg then -v else v)
  }

  /** The decimal string of a number parses back to it. */
  lemma ParseIntNat(n: nat)
    ensures ParseInt(NatToString(n)) == Some(n)
  {
    var s := NatToString(n);
    AllDigitsRun(s);
    assert s[..|s|] == s;
    NatToStringValue(n);
  }

  lemma {:induction false} AllDigitsRun(s: string)
    requires forall i :: 0 <= i < |s| ==> IsDigit(s[i])
    ensures DigitRun(s) == |s|
  {
    if s != [] {
      AllDigitsRun(s[1..]);
    }
  }

  /** `getStationNumber`: the number after `Station `, or 0 when there is none
      (`NaN || 0`): a date with no digit in it has station number 0. */
  function StationNumber(date: string): (r: int)
    ensures (forall i :: 0 <= i < |date| ==> !IsDigit(date[i])) ==> r == 0
  {
    var t := ReplaceFirst(date, "Station ", "");
    assert forall k :: 0 <= k < |t| ==> t[k] in date;
    match ParseInt(t)
    case None => 0
    case Some(v) => v
  }

  /** `Station n` has station number `n`. */
  lemma StationOfNumber(n: nat)
    ensures StationNumber("Station " + NatToString(n)) == n
  {
    ReplaceFirstPrefix("Station ", NatToString(n));
    ParseIntNat(n);
  }

  // ---------------------------------------------------------------------------
  // The per-author sort

  /** `a.localeCompare(b) < 0`, taken as the order of code points. */
  predicate LexLess(a: string, b: string) {
    if a == [] then b != []
    else b != [] && (a[0] < b[0] || (a[0] == b[0] && LexLess(a[1..], b[1..])))
  }

  lemma {:induction false} LexLessIrreflexive(a: string)
    ensures !LexLess(a, a)
  {
    if a != [] {
      LexLessIrreflexive(a[1..]);
    }
  }

  lemma {:induction false} LexLessTransitive(a: string, b: string, c: string)
    requires LexLess(a, b) && LexLess(b, c)
    ensures LexLess(a, c)
  {
    if a != [] && a[0] == b[0] && b[0] == c[0] {
      LexLessTransitive(a[1..], b[1..], c[1..]);
    }
  }

  lemma {:induction false} LexLessTotal(a: string, b: string)
    requires a != b
    ensures LexLess(a, b) || LexLess(b, a)
  {
    if a != [] && b != [] && a[0] == b[0] {
      assert a == [a[0]] + a[1..] && b == [b[0]] + b[1..];
      LexLessTotal(a[1..], b[1..]);
    }
  }

  lemma StationNine()
    ensures StationNumber("Station 9") == 9
  {
    StationOfNumber(9);
    assert NatToString(9) == "9";
    assert "Station " + NatToString(9) == "Station 9";
  }

  lemma StationTen()
    ensures StationNumber("Station 10") == 10
  {
    StationOfNumber(10);
    assert NatToString(1) == "1";
    assert NatToString(10) == NatToString(1) + "0";
    assert "Station " + NatToString(10) == "Station 10";
  }

  /** Why the station order is numeric: as strings `Station 10` comes before
      `Station 9`, as numbers after it. */
  lemma StationTenAfterNine()
    ensures LexLess("Station 10", "Station 9")
    ensures StationNumber("Station 9") < StationNumber("Station 10")
  {
    StationNine();
    StationTen();
    StationTenFirst();
  }

  /** As strings, `Station 10` comes first. */
  lemma StationTenFirst()
    ensures LexLess("Station 10", "Station 9")
  {
    assert LexLess("10", "9");
    LexLessPrefix("Station ", "10", "9");
    assert "Station " + "10" == "Station 10";
    assert "Station " + "9" == "Station 9";
  }

  /** A common prefix does not change the order. */
  lemma {:induction false} LexLessPrefix(p: string, a: string, b: string)
    requires LexLess(a, b)
    ensures LexLess(p + a, p + b)
  {
    if p != [] {
      assert (p + a)[1..] == p[1..] + a && (p + b)[1..] == p[1..] + b;
      assert (p + a)[0] == p[0] == (p + b)[0];
      LexLessPrefix(p[1..], a, b);
    } else {
      assert p + a == a && p + b == b;
    }
  }

  /** The two comparators. */
  datatype SortOrder = ByStation | ByDate

  /** Station numbers for EL AKKAD SAMI, dates for everyone else. */
  function OrderFor(name: string): (o: SortOrder)
    ensures o == ByStation <==> name == "EL AKKAD SAMI"
  {
    if name == "EL AKKAD SAMI" then ByStation else ByDate
  }

  /** The comparator is negative: `x` goes before `y`. */
  predicate Before(o: SortOrder, x: JournalEntry, y: JournalEntry) {
    match o
    case ByStation => StationNumber(x.date) < StationNumber(y.date)
    case ByDate => LexLess(x.date, y.date)
  }

  /** The comparator of `o` as a function value. */
  function Comparator(o: SortOrder): (JournalEntry, JournalEntry) -> bool {
    (x: JournalEntry, y: JournalEntry) => Before(o, x, y)
  }

  /** What a stable sort needs of a comparator: no two elements each before
      the other, and "not after" transitive. */
  ghost predicate Consistent(before: (JournalEntry, JournalEntry) -> bool) {
    && (forall x, y :: !(before(x, y) && before(y, x)))
    && (forall x, y, z :: !before(y, x) && !before(z, y) ==> !before(z, x))
  }

  /** Both comparators are consistent. */
  lemma ComparatorsConsistent(o: SortOrder)
    ensures Consistent(Comparator(o))
  {
    var before := Comparator(o);
    if o == ByDate {
      forall x, y ensures !(before(x, y) && before(y, x)) {
        if LexLess(x.date, y.date) && LexLess(y.date, x.date) {
          LexLessTransitive(x.date, y.date, x.date);
          LexLessIrreflexive(x.date);
        }
      }
      forall x, y, z | !before(y, x) && !before(z, y) ensures !before(z, x) {
        if x.date != y.date { LexLessTotal(x.date, y.date); }
        if y.date != z.date { LexLessTotal(y.date, z.date); }
        if LexLess(x.date, y.date) && LexLess(y.date, z.date) {
          LexLessTransitive(x.date, y.date, z.date);
        }
        if LexLess(z.date, x.date) {
          if x.date == y.date {
            LexLessIrreflexive(z.date);
          } else if LexLess(x.date, y.date) {
            LexLessTransitive(z.date, x.date, y.date);
          }
        }
      }
    }
  }

  /** One step of a stable insertion sort: `x` goes after every element that
      does not come after it. */
  function Insert(t: seq<JournalEntry>, x: JournalEntry, before: (JournalEntry, JournalEntry) -> bool): (r: seq<JournalEntry>)
    ensures |r| == |t| + 1
  {
    if t == [] then [x]
    else
      if before(x, t[|t| - 1]) then Insert(t[..|t| - 1], x, before) + [t[|t| - 1]]
      else t + [x]
  }

  /** `Array.prototype.sort` with a consistent comparator: a stable sort. */
  function StableSort(s: seq<JournalEntry>, before: (JournalEntry, JournalEntry) -> bool): (r: seq<JournalEntry>)
    ensures |r| == |s|
  {
    if s == [] then []
    else Insert(StableSort(s[..|s| - 1], before), s[|s| - 1], before)
  }

  /** Inserting adds `x` and loses nothing. */
  lemma {:induction false} InsertPermutes(t: seq<JournalEntry>, x: JournalEntry, before: (JournalEntry, JournalEntry) -> bool)
    ensures multiset(Insert(t, x, before)) == multiset(t) + multiset{x}
  {
    if t != [] {
      var init, last := t[..|t| - 1], t[|t| - 1];
      assert t == init + [last];
      if before(x, last) {
        InsertPermutes(init, x, before);
      }
    }
  }

  /** Sorting reorders the entries and nothing else. */
  lemma {:induction false} StableSortPermutes(s: seq<JournalEntry>, before: (JournalEntry, JournalEntry) -> bool)
    ensures multiset(StableSort(s, before)) == multiset(s)
  {
    if s != [] {
      var init, last := s[..|s| - 1], s[|s| - 1];
      assert s == init + [last];
      StableSortPermutes(init, before);
      InsertPermutes(StableSort(init, before), last, before);
    }
  }

  /** No element comes before an earlier one. */
  predicate SortedBy(s: seq<JournalEntry>, before: (JournalEntry, JournalEntry) -> bool) {
    forall i, j :: 0 <= i < j < |s| ==> !before(s[j], s[i])
  }

  lemma {:induction false} InsertSorted(t: seq<JournalEntry>, x: JournalEntry, before: (JournalEntry, JournalEntry) -> bool)
    requires Consistent(before) && SortedBy(t, before)
    ensures SortedBy(Insert(t, x, before), before)
  {
    if t != [] {
      var init, last := t[..|t| - 1], t[|t| - 1];
      if before(x, last) {
        InsertSorted(init, x, before);
        InsertPermutes(init, x, before);
        var u := Insert(init, x, before);
        forall i | 0 <= i < |u| ensures !before(last, u[i]) {
          assert u[i] in multiset(u);
          if u[i] != x {
            assert u[i] in multiset(init);
            var k :| 0 <= k < |init| && init[k] == u[i];
            assert t[k] == u[i];
          }
        }
      } else {
        forall i | 0 <= i < |t| ensures !before(x, t[i]) {
          assert !before(last, t[i]);
        }
      }
    }
  }

  /** The sort's result is sorted. */
  lemma {:induction false} StableSortSorted(s: seq<JournalEntry>, before: (JournalEntry, JournalEntry) -> bool)
    requires Consistent(before)
    ensures SortedBy(StableSort(s, before), before)
  {
    if s != [] {
      StableSortSorted(s[..|s| - 1], before);
      InsertSorted(StableSort(s[..|s| - 1], before), s[|s| - 1], before);
    }
  }

  /** The comparator returns 0 for `x` and `k`. */
  predicate Tie(before: (JournalEntry, JournalEntry) -> bool, x: JournalEntry, k: JournalEntry) {
    !before(x, k) && !before(k, x)
  }

  /** The elements that tie with `k`, in their order. */
  function Ties(s: seq<JournalEntry>, before: (JournalEntry, JournalEntry) -> bool, k: JournalEntry): seq<JournalEntry> {
    if s == [] then []
    else Ties(s[..|s| - 1], before, k) + (if Tie(before, s[|s| - 1], k) then [s[|s| - 1]] else [])
  }

  lemma TiesSnoc(s: seq<JournalEntry>, e: JournalEntry, before: (JournalEntry, JournalEntry) -> bool, k: JournalEntry)
    ensures Ties(s + [e], before, k) == Ties(s, before, k) + (if Tie(before, e, k) then [e] else [])
  {
    assert (s + [e])[..|s|] == s;
  }

  lemma {:induction false} InsertTies(t: seq<JournalEntry>, x: JournalEntry, before: (JournalEntry, JournalEntry) -> bool, k: JournalEntry)
    requires Consistent(before)
    ensures Ties(Insert(t, x, before), before, k) == Ties(t, before, k) + (if Tie(before, x, k) then [x] else [])
  {
    if t == [] {
      TiesSnoc([], x, before, k);
    } else {
      var init, last := t[..|t| - 1], t[|t| - 1];
      assert t == init + [last];
      if before(x, last) {
        InsertTies(init, x, before, k);
        TiesSnoc(Insert(init, x, before), last, before, k);
        TiesSnoc(init, last, before, k);
        assert !(Tie(before, x, k) && Tie(before, last, k));
      } else {
        TiesSnoc(t, x, before, k);
      }
    }
  }

  /** The sort is stable: the elements that tie keep their relative order. */
  lemma {:induction false} StableSortStable(s: seq<JournalEntry>, before: (JournalEntry, JournalEntry) -> bool, k: JournalEntry)
    requires Consistent(before)
    ensures Ties(StableSort(s, before), before, k) == Ties(s, before, k)
  {
    if s != [] {
      StableSortStable(s[..|s| - 1], before, k);
      InsertTies(StableSort(s[..|s| - 1], before), s[|s| - 1], before, k);
    }
  }

  /** Sorting a sorted list changes nothing. */
  lemma {:induction false} SortedUnchanged(s: seq<JournalEntry>, before: (JournalEntry, JournalEntry) -> bool)
    requires SortedBy(s, before)
    ensures StableSort(s, before) == s
  {
    if s != [] {
      var init := s[..|s| - 1];
      assert SortedBy(init, before);
      SortedUnchanged(init, before);
      if init != [] {
        assert !before(s[|s| - 1], init[|init| - 1]);
      }
      assert init + [s[|s| - 1]] == s;
    }
  }

  /** A second sort leaves the list as the first one left it. */
  lemma StableSortIdempotent(s: seq<JournalEntry>, before: (JournalEntry, JournalEntry) -> bool)
    requires Consistent(before)
    ensures StableSort(StableSort(s, before), before) == StableSort(s, before)
  {
    StableSortSorted(s, before);
    SortedUnchanged(StableSort(s, before), before);
  }

  /** Two elements given in the wrong order change places. */
  lemma SortSwapsTwo(x: JournalEntry, y: JournalEntry, before: (JournalEntry, JournalEntry) -> bool)
    requires before(y, x)
    ensures StableSort([x, y], before) == [y, x]
  {
    assert [x, y][..1] == [x];
    assert [x][..0] == [];
    assert StableSort([x], before) == [x];
    assert Insert([x], y, before) == [y, x];
  }

  /** Station 10 is shown after Station 9. */
  lemma StationsInNumberOrder(e9: JournalEntry, e10: JournalEntry)
    requires e9.date == "Station 9" && e10.date == "Station 10"
    ensures StableSort([e10, e9], Comparator(ByStation)) == [e9, e10]
  {
    StationNine();
    StationTen();
    assert Comparator(ByStation)(e9, e10);
    SortSwapsTwo(e10, e9, Comparator(ByStation));
  }

  /** Where the scan stops, `x` goes in: after the elements it does not go
      before, ahead of the ones it goes before. */
  lemma {:induction false} InsertAt(t: seq<JournalEntry>, j: nat, x: JournalEntry, before: (JournalEntry, JournalEntry) -> bool)
    requires j <= |t| && (j == 0 || !before(x, t[j - 1]))
    requires forall k :: j <= k < |t| ==> before(x, t[k])
    ensures Insert(t, x, before) == t[..j] + [x] + t[j..]
  {
    if j < |t| {
      var u := t[..|t| - 1];
      InsertAt(u, j, x, before);
      assert u[..j] == t[..j];
      assert t[j..] == u[j..] + [t[|t| - 1]];
    } else if t != [] {
      assert t[..j] == t && t[j..] == [];
    }
  }

  /** The scan of one pass: the elements left of `i` that `x` goes before
      move one place right, and the index of the gap is returned. */
  method ShiftRight(a: array<JournalEntry>, i: nat, x: JournalEntry, before: (JournalEntry, JournalEntry) -> bool) returns (j: nat)
    requires i < a.Length
    modifies a
    ensures j <= i
    ensures forall k :: 0 <= k < j ==> a[k] == old(a[k])
    ensures forall k :: j < k <= i ==> a[k] == old(a[k - 1])
    ensures forall k :: i < k < a.Length ==> a[k] == old(a[k])
    ensures forall k :: j <= k < i ==> before(x, old(a[k]))
    ensures j == 0 || !before(x, old(a[j - 1]))
  {
    j := i;
    while j > 0 && before(x, a[j - 1])
      invariant 0 <= j <= i
      invariant forall k :: 0 <= k < j ==> a[k] == old(a[k])
      invariant forall k :: j < k <= i ==> a[k] == old(a[k - 1])
      invariant forall k :: i < k < a.Length ==> a[k] == old(a[k])
      invariant forall k :: j <= k < i ==> before(x, old(a[k]))
    {
      a[j] := a[j - 1];
      j := j - 1;
    }
  }

  /** One pass of the insertion sort: `a[i]` moves left past the elements
      it goes before, which move one place right. */
  method InsertInPlace(a: array<JournalEntry>, i: nat, before: (JournalEntry, JournalEntry) -> bool)
    requires i < a.Length
    modifies a
    ensures a[..i + 1] == Insert(old(a[..i]), old(a[i]), before)
    ensures a[i + 1..] == old(a[i + 1..])
  {
    var x := a[i];
    ghost var t := a[..i];
    ghost var tail := a[i + 1..];
    var j := ShiftRight(a, i, x, before);
    a[j] := x;
    InsertAt(t, j, x, before);
    Placed(a[..i + 1], t, j, x);
    assert a[i + 1..] == tail by {
      forall k | 0 <= k < |tail| ensures a[i + 1..][k] == tail[k] {
        assert a[i + 1 + k] == old(a[i + 1 + k]);
      }
    }
  }

  /** A list that agrees with `t` left of `j`, holds `x` at `j` and `t` shifted right after it. */
  lemma Placed(r: seq<JournalEntry>, t: seq<JournalEntry>, j: nat, x: JournalEntry)
    requires j <= |t| && |r| == |t| + 1 && r[j] == x
    requires forall k :: 0 <= k < j ==> r[k] == t[k]
    requires forall k :: j < k <= |t| ==> r[k] == t[k - 1]
    ensures r == t[..j] + [x] + t[j..]
  {
  }

  /** `memberEntries.sort(comparator)` in place, as a stable insertion sort. */
  method SortInPlace(a: array<JournalEntry>, before: (JournalEntry, JournalEntry) -> bool)
    modifies a
    ensures a[..] == StableSort(old(a[..]), before)
  {
    ghost var s := a[..];
    for i := 0 to a.Length
      invariant a[..i] == StableSort(s[..i], before)
      invariant a[i..] == s[i..]
    {
      assert s[..i + 1] == s[..i] + [s[i]];
      InsertInPlace(a, i, before);
      assert a[i + 1..] == s[i + 1..];
    }
    assert s[..a.Length] == s;
  }

  /** The sort of one author section. */
  method SortMemberEntries(name: string, a: array<JournalEntry>)
    modifies a
    ensures a[..] == StableSort(old(a[..]), Comparator(OrderFor(name)))
  {
    if name == "EL AKKAD SAMI" {
      SortInPlace(a, Comparator(ByStation));
    } else {
      SortInPlace(a, Comparator(ByDate));
    }
  }

  // ---------------------------------------------------------------------------
  // The author sections

  /** A card of `HorizontalTimeline`: its paragraphs render their highlight tags. */
  datatype TimelineCard = TimelineCard(date: string, title: string, paragraphs: seq<seq<ProjectPage.Segment>>)

  /** One entry of the timeline: its card, and whether a connector follows it. */
  datatype TimelineStop = TimelineStop(card: TimelineCard, connectorAfter: bool)

  function TimelineCardOf(e: JournalEntry): (r: TimelineCard)
    ensures r.date == e.date && r.title == e.title && |r.paragraphs| == |e.content|
    ensures forall i :: 0 <= i < |e.content| ==> r.paragraphs[i] == RenderContent(e.content[i])
  {
    TimelineCard(e.date, e.title, seq(|e.content|, i requires 0 <= i < |e.content| => RenderContent(e.content[i])))
  }

  /** `HorizontalTimeline`: each entry's card, followed by a connector unless
      it is the last entry. */
  function Timeline(es: seq<JournalEntry>): (r: seq<TimelineStop>)
    ensures |r| == |es|
    ensures forall k :: 0 <= k < |es| ==> r[k].card == TimelineCardOf(es[k])
    ensures forall k :: 0 <= k < |es| ==> (r[k].connectorAfter <==> k < |es| - 1)
  {
    seq(|es|, k requires 0 <= k < |es| => TimelineStop(TimelineCardOf(es[k]), k < |es| - 1))
  }

  function CountConnectors(stops: seq<TimelineStop>): nat {
    if stops == [] then 0 else CountConnectors(stops[..|stops| - 1]) + (if stops[|stops| - 1].connectorAfter then 1 else 0)
  }

  lemma {:induction false} CountConnectorsAll(stops: seq<TimelineStop>, n: nat)
    requires n <= |stops|
    requires forall k :: 0 <= k < n ==> stops[k].connectorAfter
    ensures CountConnectors(stops[..n]) == n
  {
    if n > 0 {
      assert stops[..n][..n - 1] == stops[..n - 1];
      CountConnectorsAll(stops, n - 1);
    }
  }

  /** A timeline of `n` entries has `n - 1` connectors. */
  lemma ConnectorCount(es: seq<JournalEntry>)
    ensures CountConnectors(Timeline(es)) == if es == [] then 0 else |es| - 1
  {
    var stops := Timeline(es);
    if es != [] {
      CountConnectorsAll(stops, |es| - 1);
      assert stops[..|stops|][..|es| - 1] == stops[..|es| - 1];
      assert stops[..|stops|] == stops;
    }
  }

  /** An author section: EL AKKAD SAMI's entries as a horizontal timeline,
      anybody else's as a column of `JournalEntryCard`s, which show the
      paragraphs as written, tags included. */
  datatype Section = TimelineSection(stops: seq<TimelineStop>) | CardColumn(entries: seq<JournalEntry>)

  function AuthorSection(name: string, entries: seq<JournalEntry>): (r: Section)
    ensures r.TimelineSection? <==> name == "EL AKKAD SAMI"
    ensures r.TimelineSection? ==> r.stops == Timeline(entries)
    ensures r.CardColumn? ==> r.entries == entries
  {
    if name == "EL AKKAD SAMI" then TimelineSection(Timeline(entries)) else CardColumn(entries)
  }

  /** The section of one member: their entries, sorted by their order. */
  function MemberSection(name: string, entries: seq<JournalEntry>): Section {
    AuthorSection(name, StableSort(EntriesOf(entries, name), Comparator(OrderFor(name))))
  }

  /** `memberEntries` after the sort: the list is sorted in an array. */
  method SortedEntries(name: string, es: seq<JournalEntry>) returns (r: seq<JournalEntry>)
    ensures r == StableSort(es, Comparator(OrderFor(name)))
  {
    var a := new JournalEntry[|es|](i requires 0 <= i < |es| => es[i]);
    assert a[..] == es;
    SortMemberEntries(name, a);
    r := a[..];
  }

  /** `JournalPage`: one section per team member, in team order, holding the
      member's entries (none when the member wrote none), sorted. */
  method RenderPage(members: seq<string>, entries: seq<JournalEntry>) returns (sections: seq<Section>)
    ensures |sections| == |members|
    ensures forall k :: 0 <= k < |members| ==> sections[k] == MemberSection(members[k], entries)
  {
    var grouped := GroupByAuthor(entries);
    sections := [];
    for k := 0 to |members|
      invariant |sections| == k
      invariant forall m :: 0 <= m < k ==> sections[m] == MemberSection(members[m], entries)
    {
      var section := SectionOf(entries, grouped, members[k]);
      sections := sections + [section];
    }
  }

  /** The section of one member, from the grouped entries. */
  method SectionOf(entries: seq<JournalEntry>, grouped: map<string, seq<JournalEntry>>, name: string)
    returns (section: Section)
    requires forall a :: a in grouped <==> exists i :: 0 <= i < |entries| && entries[i].author == a
    requires forall a :: a in grouped ==> grouped[a] == EntriesOf(entries, a)
    ensures section == MemberSection(name, entries)
  {
    var es := MemberEntries(grouped, name);
    GroupedLookup(entries, grouped, name);
    var sorted := SortedEntries(name, es);
    section := AuthorSection(name, sorted);
  }

  /** Looking a member up in the grouped entries gives the member's entries. */
  lemma GroupedLookup(es: seq<JournalEntry>, grouped: map<string, seq<JournalEntry>>, name: string)
    requires forall a :: a in grouped <==> exists i :: 0 <= i < |es| && es[i].author == a
    requires forall a :: a in grouped ==> grouped[a] == EntriesOf(es, a)
    ensures MemberEntries(grouped, name) == EntriesOf(es, name)
  {
    if name !in grouped {
      NoEntriesOf(es, name);
    }
  }
}
