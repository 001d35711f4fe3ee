/** components/FunctionalityMatrix.tsx: the feature tables of the three
    portals. Each `functionality` text has its backtick-quoted runs turned
    into `<code>` elements by a global `/`([^`]+)`/` replacement, and the
    portal's goal appears in a tooltip while the mouse is over its icon. */
module FunctionalityMatrix {
  import opened Text

  // ---------------------------------------------------------------------------
  // The backtick replacement

  /** A piece of the rewritten text: text left as it was, or the inside of a
      backtick-quoted run, which becomes a `<code>` element. */
  datatype Piece = Text(plain: string) | Code(code: string)

  /** The opening tag that replaces the first backtick of a run. */
  const CodeOpen: string := "<code class=\"bg-gray-700 text-cyan-300 px-1.5 py-0.5 rounded-md text-sm font-mono\">"

  const CodeClose: string := "</code>"

  /** The first backtick at or after `from`. */
  function NextTick(s: string, from: nat): (r: Option<nat>)
    ensures r.Some? ==> from <= r.value < |s| && s[r.value] == '`'
    decreases |s| - from
  {
    if from >= |s| then None
    else if s[from] == '`' then Some(from)
    else NextTick(s, from + 1)
  }

  /** No backtick lies before the one found. */
  lemma {:induction false} NextTickFirst(s: string, from: nat)
    ensures NextTick(s, from).Some? ==> forall k :: from <= k < NextTick(s, from).value ==> s[k] != '`'
    ensures NextTick(s, from).None? ==> forall k :: from <= k < |s| ==> s[k] != '`'
    decreases |s| - from
  {
    if from < |s| && s[from] != '`' {
      NextTickFirst(s, from + 1);
    }
  }

  /** A text piece for `t`, none for the empty text. */
  function TextOf(t: string): seq<Piece> {
    if t == "" then [] else [Text(t)]
  }

  /** What a piece was in the source text. */
  function SourceOfPiece(pc: Piece): string {
    match pc
    case Text(t) => t
    case Code(x) => "`" + x + "`"
  }

  function SourceOf(ps: seq<Piece>): string {
    if ps == [] then "" else SourceOfPiece(ps[0]) + SourceOf(ps[1..])
  }

  lemma {:induction false} SourceOfAppend(a: seq<Piece>, b: seq<Piece>)
    ensures SourceOf(a + b) == SourceOf(a) + SourceOf(b)
  {
    if a != [] {
      assert (a + b)[1..] == a[1..] + b;
      SourceOfAppend(a[1..], b);
    } else {
      assert a + b == b;
    }
  }

  /** The replacement, scanning from `p`, with the text not yet emitted
      starting at `start`: a backtick followed by at least one other
      character before the next backtick starts a run that ends there; any
      other backtick is text. Left to right, and the scan resumes after each run. */
  function Scan(s: string, p: nat, start: nat): seq<Piece>
    requires start <= p <= |s|
    decreases |s| - p
  {
    if p == |s| then TextOf(s[start..p])
    else match RunEnd(s, p)
      case Some(q) => TextOf(s[start..p]) + [Code(s[p + 1..q])] + Scan(s, q + 1, q + 1)
      case None => Scan(s, p + 1, start)
  }

  /** Where the run opened at `p` closes: `p` holds a backtick and the next
      backtick comes at least two positions later. */
  function RunEnd(s: string, p: nat): (r: Option<nat>)
    requires p < |s|
    ensures r.Some? ==> p + 1 < r.value < |s| && s[p] == '`' && s[r.value] == '`'
  {
    if s[p] != '`' then None
    else match NextTick(s, p + 1)
      case Some(q) => if q > p + 1 then Some(q) else None
      case None => None
  }

  /** A run holds no backtick. */
  lemma RunEndClear(s: string, p: nat)
    requires p < |s| && RunEnd(s, p).Some?
    ensures forall k :: p < k < RunEnd(s, p).value ==> s[k] != '`'
  {
    NextTickFirst(s, p + 1);
  }

  /** A backtick that opens no run is followed by another backtick or by none. */
  lemma RunEndNone(s: string, p: nat)
    requires p < |s| && s[p] == '`' && RunEnd(s, p).None?
    ensures (p + 1 < |s| && s[p + 1] == '`') || NoTickAfter(s, p)
  {
    NextTickFirst(s, p + 1);
  }

  /** One step of the scan at a backtick that opens a run. */
  lemma ScanAtRun(s: string, p: nat, start: nat, q: nat)
    requires start <= p < |s| && RunEnd(s, p) == Some(q)
    ensures Scan(s, p, start) == TextOf(s[start..p]) + [Code(s[p + 1..q])] + Scan(s, q + 1, q + 1)
  {
  }

  /** One step of the scan anywhere else. */
  lemma ScanPast(s: string, p: nat, start: nat)
    requires start <= p < |s| && RunEnd(s, p).None?
    ensures Scan(s, p, start) == Scan(s, p + 1, start)
  {
  }

  predicate CodesWellFormed(ps: seq<Piece>) {
    forall i :: 0 <= i < |ps| && ps[i].Code? ==> ps[i].code != "" && '`' !in ps[i].code
  }

  lemma SourceOfText(t: string)
    ensures SourceOf(TextOf(t)) == t
  {
    if t != "" { assert TextOf(t)[1..] == []; }
  }

  lemma SourceOfRun(t: string, x: string, rest: seq<Piece>)
    ensures SourceOf(TextOf(t) + [Code(x)] + rest) == t + SourceOfPiece(Code(x)) + SourceOf(rest)
  {
    SourceOfText(t);
    assert SourceOf([Code(x)]) == SourceOfPiece(Code(x)) by {
      assert [Code(x)][1..] == [];
    }
    SourceOfAppend(TextOf(t) + [Code(x)], rest);
    SourceOfAppend(TextOf(t), [Code(x)]);
  }

  lemma QuotedRun(s: string, p: nat, q: nat)
    requires p < q < |s| && s[p] == '`' && s[q] == '`'
    ensures s[p..q + 1] == SourceOfPiece(Code(s[p + 1..q]))
  {
    var w := "`" + s[p + 1..q] + "`";
    assert |w| == q + 1 - p;
    forall k | 0 <= k < |w|
      ensures w[k] == s[p + k]
    {
      if 0 < k < |w| - 1 {
        assert w[k] == s[p + 1..q][k - 1];
      }
    }
  }

  lemma SourceOfRunAt(s: string, start: nat, p: nat, q: nat, rest: seq<Piece>)
    requires start <= p < q < |s| && s[p] == '`' && s[q] == '`'
    requires SourceOf(rest) == s[q + 1..]
    ensures SourceOf(TextOf(s[start..p]) + [Code(s[p + 1..q])] + rest) == s[start..]
  {
    var t, x := s[start..p], s[p + 1..q];
    calc {
      SourceOf(TextOf(t) + [Code(x)] + rest);
    ==  { SourceOfRun(t, x, rest); }
      t + SourceOfPiece(Code(x)) + SourceOf(rest);
    ==  { QuotedRun(s, p, q); }
      s[start..p] + s[p..q + 1] + s[q + 1..];
    ==  { SliceSplit(s, start, p, q + 1); }
      s[start..];
    }
  }

  lemma ScanSourceEnd(s: string, start: nat)
    requires start <= |s|
    ensures SourceOf(Scan(s, |s|, start)) == s[start..]
  {
    SourceOfText(s[start..|s|]);
    assert s[start..|s|] == s[start..];
  }

  lemma ScanSourceRun(s: string, p: nat, start: nat, q: nat)
    requires start <= p < |s| && RunEnd(s, p) == Some(q)
    requires SourceOf(Scan(s, q + 1, q + 1)) == s[q + 1..]
    ensures SourceOf(Scan(s, p, start)) == s[start..]
  {
    ScanAtRun(s, p, start, q);
    SourceOfRunAt(s, start, p, q, Scan(s, q + 1, q + 1));
  }

  lemma ScanSourcePast(s: string, p: nat, start: nat)
    requires start <= p < |s| && RunEnd(s, p).None?
    requires SourceOf(Scan(s, p + 1, start)) == s[start..]
    ensures SourceOf(Scan(s, p, start)) == s[start..]
  {
    ScanPast(s, p, start);
  }

  /** Putting each run back between its backticks gives the scanned text back. */
  lemma {:induction false} ScanSource(s: string, p: nat, start: nat)
    requires start <= p <= |s|
    ensures SourceOf(Scan(s, p, start)) == s[start..]
    decreases |s| - p
  {
    if p == |s| {
      ScanSourceEnd(s, start);
    } else {
      match RunEnd(s, p)
      case Some(q) =>
        ScanSource(s, q + 1, q + 1);
        ScanSourceRun(s, p, start, q);
      case None =>
        ScanSource(s, p + 1, start);
        ScanSourcePast(s, p, start);
    }
  }

  lemma ScanCodesRun(s: string, p: nat, start: nat, q: nat)
    requires start <= p < |s| && RunEnd(s, p) == Some(q)
    requires CodesWellFormed(Scan(s, q + 1, q + 1))
    ensures CodesWellFormed(Scan(s, p, start))
  {
    ScanAtRun(s, p, start, q);
    RunEndClear(s, p);
    var code := s[p + 1..q];
    assert forall k :: 0 <= k < |code| ==> code[k] == s[p + 1 + k];
    CodesAppend(TextOf(s[start..p]) + [Code(code)], Scan(s, q + 1, q + 1));
  }

  /** Each run is non-empty and holds no backtick. */
  lemma {:induction false} ScanCodes(s: string, p: nat, start: nat)
    requires start <= p <= |s|
    ensures CodesWellFormed(Scan(s, p, start))
    decreases |s| - p
  {
    if p == |s| {
    } else {
      match RunEnd(s, p)
      case Some(q) =>
        ScanCodes(s, q + 1, q + 1);
        ScanCodesRun(s, p, start, q);
      case None =>
        ScanCodes(s, p + 1, start);
        ScanPast(s, p, start);
    }
  }

  lemma CodesAppend(a: seq<Piece>, b: seq<Piece>)
    requires CodesWellFormed(a) && CodesWellFormed(b)
    ensures CodesWellFormed(a + b)
  {
    forall i | 0 <= i < |a + b| && (a + b)[i].Code?
      ensures (a + b)[i].code != "" && '`' !in (a + b)[i].code
    {
      if i >= |a| { assert (a + b)[i] == b[i - |a|]; }
    }
  }

  /** `t` holds a match of the pattern: a backtick, at least one other
      character, and the next backtick. */
  predicate HasRun(t: string) {
    exists i, j :: 0 <= i && i + 1 < j < |t| && t[i] == '`' && t[j] == '`' &&
      forall k :: i < k < j ==> t[k] != '`'
  }

  /** No text piece holds a match: the replacement is global. */
  predicate TextsPlain(ps: seq<Piece>) {
    forall i :: 0 <= i < |ps| && ps[i].Text? ==> !HasRun(ps[i].plain)
  }

  /** Every backtick the scan passed over between `start` and `p` was
      followed by another backtick or by no backtick at all. */
  predicate Passed(s: string, start: nat, p: nat)
    requires start <= p <= |s|
  {
    forall k :: start <= k < p && s[k] == '`' ==>
      (k + 1 < |s| && s[k + 1] == '`') || NoTickAfter(s, k)
  }

  predicate NoTickAfter(s: string, k: nat) {
    forall m :: k < m < |s| ==> s[m] != '`'
  }

  lemma PassedPlain(s: string, start: nat, p: nat)
    requires start <= p <= |s| && Passed(s, start, p)
    ensures TextsPlain(TextOf(s[start..p]))
  {
    var t := s[start..p];
    forall i, j | 0 <= i && i + 1 < j < |t| && t[i] == '`' && t[j] == '`'
      ensures exists k :: i < k < j && t[k] == '`'
    {
      if t[i + 1] != '`' {
        assert false;
      }
    }
  }

  lemma TextsAppend(a: seq<Piece>, b: seq<Piece>)
    requires TextsPlain(a) && TextsPlain(b)
    ensures TextsPlain(a + b)
  {
    forall i | 0 <= i < |a + b| && (a + b)[i].Text?
      ensures !HasRun((a + b)[i].plain)
    {
      if i >= |a| { assert (a + b)[i] == b[i - |a|]; }
    }
  }

  lemma ScanTextsRun(s: string, p: nat, start: nat, q: nat)
    requires start <= p < |s| && RunEnd(s, p) == Some(q) && Passed(s, start, p)
    requires TextsPlain(Scan(s, q + 1, q + 1))
    ensures TextsPlain(Scan(s, p, start))
  {
    ScanAtRun(s, p, start, q);
    PassedPlain(s, start, p);
    TextsAppend(TextOf(s[start..p]), [Code(s[p + 1..q])]);
    TextsAppend(TextOf(s[start..p]) + [Code(s[p + 1..q])], Scan(s, q + 1, q + 1));
  }

  /** Passing a character that opens no run keeps `Passed`. */
  lemma ScanTextsStep(s: string, p: nat, start: nat)
    requires start <= p < |s| && RunEnd(s, p).None? && Passed(s, start, p)
    ensures Passed(s, start, p + 1)
  {
    if s[p] == '`' {
      RunEndNone(s, p);
    }
  }

  /** The text pieces hold no match. */
  lemma {:induction false} ScanTexts(s: string, p: nat, start: nat)
    requires start <= p <= |s| && Passed(s, start, p)
    ensures TextsPlain(Scan(s, p, start))
    decreases |s| - p
  {
    if p == |s| {
      PassedPlain(s, start, p);
    } else {
      match RunEnd(s, p)
      case Some(q) =>
        ScanTexts(s, q + 1, q + 1);
        ScanTextsRun(s, p, start, q);
      case None =>
        ScanTextsStep(s, p, start);
        ScanTexts(s, p + 1, start);
        ScanPast(s, p, start);
    }
  }

  /** The pattern does not match at position `k` of `s`: a backtick there is
      followed by another backtick, or by no backtick at all. */
  predicate OpensNoRun(s: string, k: nat) {
    (k + 1 < |s| && s[k + 1] == '`') || NoTickAfter(s, k)
  }

  /** Laid along `s` from position `base`, every backtick inside a text piece
      sits where the pattern does not match: the runs are taken left to
      right and none is skipped. */
  predicate TicksUnmatched(s: string, ps: seq<Piece>, base: nat)
    decreases |ps|
  {
    ps == [] || (PieceTicks(s, ps[0], base) && TicksUnmatched(s, ps[1..], base + |SourceOfPiece(ps[0])|))
  }

  /** Laid along `s` at `base`, a text piece holds backticks only where the
      pattern does not match. */
  predicate PieceTicks(s: string, pc: Piece, base: nat) {
    pc.Text? ==> forall k :: 0 <= k < |pc.plain| && pc.plain[k] == '`' ==> OpensNoRun(s, base + k)
  }

  lemma TicksCons(s: string, pc: Piece, rest: seq<Piece>, base: nat)
    requires PieceTicks(s, pc, base) && TicksUnmatched(s, rest, base + |SourceOfPiece(pc)|)
    ensures TicksUnmatched(s, [pc] + rest, base)
  {
    assert ([pc] + rest)[0] == pc;
    assert ([pc] + rest)[1..] == rest;
  }


  /** The text before a run, or before the end, passed only backticks that open nothing. */
  lemma TicksText(s: string, start: nat, p: nat)
    requires start <= p <= |s| && Passed(s, start, p)
    ensures PieceTicks(s, Text(s[start..p]), start)
    ensures TicksUnmatched(s, TextOf(s[start..p]), start)
  {
    var t := s[start..p];
    forall k | 0 <= k < |t| && t[k] == '`' ensures OpensNoRun(s, start + k) {
      assert s[start + k] == t[k];
    }
    if t != "" {
      assert TextOf(t)[1..] == [];
    }
  }

  lemma TicksRun(s: string, p: nat, start: nat, q: nat)
    requires start <= p < |s| && RunEnd(s, p) == Some(q) && Passed(s, start, p)
    requires TicksUnmatched(s, Scan(s, q + 1, q + 1), q + 1)
    ensures TicksUnmatched(s, Scan(s, p, start), start)
  {
    ScanAtRun(s, p, start, q);
    TicksRunPieces(s, start, p, q, Scan(s, q + 1, q + 1));
  }

  lemma TicksRunPieces(s: string, start: nat, p: nat, q: nat, rest: seq<Piece>)
    requires start <= p < q < |s| && Passed(s, start, p)
    requires TicksUnmatched(s, rest, q + 1)
    ensures TicksUnmatched(s, TextOf(s[start..p]) + [Code(s[p + 1..q])] + rest, start)
  {
    var t, x := s[start..p], s[p + 1..q];
    TicksCode(s, p, q, rest);
    TicksTextCons(s, start, p, [Code(x)] + rest);
    assert TextOf(t) + [Code(x)] + rest == TextOf(t) + ([Code(x)] + rest);
  }

  lemma TicksCode(s: string, p: nat, q: nat, rest: seq<Piece>)
    requires p < q < |s| && TicksUnmatched(s, rest, q + 1)
    ensures TicksUnmatched(s, [Code(s[p + 1..q])] + rest, p)
  {
    assert |SourceOfPiece(Code(s[p + 1..q]))| == q + 1 - p;
    TicksCons(s, Code(s[p + 1..q]), rest, p);
  }

  lemma TicksTextCons(s: string, start: nat, p: nat, rest: seq<Piece>)
    requires start <= p <= |s| && Passed(s, start, p) && TicksUnmatched(s, rest, p)
    ensures TicksUnmatched(s, TextOf(s[start..p]) + rest, start)
  {
    var t := s[start..p];
    if t == "" {
      assert TextOf(t) + rest == rest;
    } else {
      TicksText(s, start, p);
      TicksCons(s, Text(t), rest, start);
      assert TextOf(t) + rest == [Text(t)] + rest;
    }
  }

  /** Every backtick left in a text piece opens no run. */
  lemma {:induction false} ScanTicks(s: string, p: nat, start: nat)
    requires start <= p <= |s| && Passed(s, start, p)
    ensures TicksUnmatched(s, Scan(s, p, start), start)
    decreases |s| - p
  {
    if p == |s| {
      TicksText(s, start, p);
    } else {
      match RunEnd(s, p)
      case Some(q) =>
        ScanTicks(s, q + 1, q + 1);
        TicksRun(s, p, start, q);
      case None =>
        ScanTextsStep(s, p, start);
        ScanTicks(s, p + 1, start);
        ScanPast(s, p, start);
    }
  }

  /** The pieces of a `functionality` text. */
  function Pieces(s: string): (r: seq<Piece>)
    ensures SourceOf(r) == s
    ensures CodesWellFormed(r)
    ensures TextsPlain(r)
    ensures TicksUnmatched(s, r, 0)
  {
    ScanSource(s, 0, 0);
    ScanCodes(s, 0, 0);
    ScanTexts(s, 0, 0);
    ScanTicks(s, 0, 0);
    Scan(s, 0, 0)
  }

  /** The HTML the cell receives. */
  function Html(ps: seq<Piece>): string {
    if ps == [] then ""
    else
      (match ps[0]
       case Text(t) => t
       case Code(x) => CodeHtml(x)) + Html(ps[1..])
  }

  /** The element a run becomes. */
  function CodeHtml(x: string): string {
    CodeOpen + x + CodeClose
  }

  /** The text after a replacement: `item.functionality.replace(…)`. A text
      with no backtick comes back unchanged. */
  function Rewrite(s: string): (r: string)
    ensures '`' !in s ==> r == s
  {
    if '`' !in s then (NoTicksKept(s); Html(Pieces(s))) else Html(Pieces(s))
  }

  // ---------------------------------------------------------------------------
  // Properties of the replacement

  /** With no backtick ahead, the rest of the text is one text piece. */
  lemma {:induction false} ScanNoTick(s: string, p: nat, start: nat)
    requires start <= p <= |s|
    requires forall k :: p <= k < |s| ==> s[k] != '`'
    ensures Scan(s, p, start) == TextOf(s[start..])
    decreases |s| - p
  {
    if p < |s| {
      ScanPast(s, p, start);
      ScanNoTick(s, p + 1, start);
    } else {
      assert s[start..p] == s[start..];
    }
  }

  /** A text without backticks is one text piece, rendered as itself. */
  lemma NoTicksKept(s: string)
    requires '`' !in s
    ensures Html(Pieces(s)) == s
  {
    ScanNoTick(s, 0, 0);
    assert s[0..] == s;
    assert Pieces(s) == TextOf(s);
    HtmlText(s);
  }

  /** A lone backtick is kept as text. */
  lemma UnpairedKept(a: string, b: string)
    requires '`' !in a && '`' !in b
    ensures Pieces(a + "`" + b) == [Text(a + "`" + b)]
  {
    var s := a + "`" + b;
    ScanNoTick(s, |a| + 1, 0);
    ScanNoTick2(s, 0, 0, |a|);
  }

  /** Runs of the scan open nowhere in `[p, e)`: the scan passes over it. */
  lemma {:induction false} ScanSkip(s: string, p: nat, start: nat, e: nat)
    requires start <= p <= e <= |s|
    requires forall k :: p <= k < e ==> RunEnd(s, k).None?
    ensures Scan(s, p, start) == Scan(s, e, start)
    decreases e - p
  {
    if p < e {
      ScanPast(s, p, start);
      ScanSkip(s, p + 1, start, e);
    }
  }

  /** Scanning over text without backticks up to `e` changes nothing. */
  lemma ScanNoTick2(s: string, p: nat, start: nat, e: nat)
    requires start <= p <= e < |s|
    requires forall k :: p <= k < e ==> s[k] != '`'
    ensures Scan(s, p, start) == Scan(s, e, start)
  {
    ScanSkip(s, p, start, e);
  }

  /** An empty pair of backticks is kept as text. */
  lemma EmptyPairKept(a: string, b: string)
    requires '`' !in a && '`' !in b
    ensures Pieces(a + "``" + b) == [Text(a + "``" + b)]
  {
    var s := a + "``" + b;
    ScanNoTick(s, |a| + 2, 0);
    assert NextTick(s, |a| + 2) == None;
    assert NextTick(s, |a| + 1) == Some(|a| + 1);
    ScanNoTick2(s, 0, 0, |a|);
  }

  /** The characters of `a + "`" + x + "`" + b`, by position. */
  lemma RunLayout(a: string, x: string, b: string)
    ensures var s := a + "`" + x + "`" + b; var q := |a| + 1 + |x|;
      && |s| == q + 1 + |b| && s[|a|] == '`' && s[q] == '`'
      && s[0..|a|] == a && s[|a| + 1..q] == x && s[q + 1..|s|] == b
  {
  }

  /** A slice without backticks. */
  lemma NoTickPart(s: string, lo: nat, t: string)
    requires lo + |t| <= |s| && s[lo..lo + |t|] == t && '`' !in t
    ensures forall k :: lo <= k < lo + |t| ==> s[k] != '`'
  {
    forall k | lo <= k < lo + |t|
      ensures s[k] != '`'
    {
      assert s[k] == t[k - lo];
    }
  }

  /** A run between two backticks becomes a code piece, and the text around
      it stays text. */
  lemma RunPieces(a: string, x: string, b: string)
    requires '`' !in a && '`' !in x && '`' !in b && x != ""
    ensures Pieces(a + "`" + x + "`" + b) == TextOf(a) + [Code(x)] + TextOf(b)
  {
    var s := a + "`" + x + "`" + b;
    var q := |a| + 1 + |x|;
    RunLayout(a, x, b);
    NoTickPart(s, 0, a);
    NoTickPart(s, |a| + 1, x);
    NoTickPart(s, q + 1, b);
    RunEndAt(s, |a|, q);
    calc {
      Scan(s, 0, 0);
    ==  { ScanNoTick2(s, 0, 0, |a|); }
      Scan(s, |a|, 0);
    ==  { ScanAtRun(s, |a|, 0, q); }
      TextOf(s[0..|a|]) + [Code(s[|a| + 1..q])] + Scan(s, q + 1, q + 1);
    ==  { ScanNoTick(s, q + 1, q + 1); assert s[q + 1..] == s[q + 1..|s|]; }
      TextOf(a) + [Code(x)] + TextOf(b);
    }
  }

  /** The run opened at `p` closes at the first backtick after it. */
  lemma RunEndAt(s: string, p: nat, q: nat)
    requires p + 1 < q < |s| && s[p] == '`' && s[q] == '`'
    requires forall k :: p < k < q ==> s[k] != '`'
    ensures RunEnd(s, p) == Some(q)
  {
    NextTickAt(s, p + 1, q);
  }

  /** ... and the rewrite puts a `<code>` element in its place. */
  lemma RunBecomesCode(a: string, x: string, b: string)
    requires '`' !in a && '`' !in x && '`' !in b && x != ""
    ensures Rewrite(a + "`" + x + "`" + b) == a + CodeHtml(x) + b
  {
    RunPieces(a, x, b);
    HtmlOf(a, x, b);
  }

  lemma {:induction false} NextTickAt(s: string, from: nat, q: nat)
    requires from <= q < |s| && s[q] == '`'
    requires forall k :: from <= k < q ==> s[k] != '`'
    ensures NextTick(s, from) == Some(q)
    decreases q - from
  {
    if from < q {
      NextTickAt(s, from + 1, q);
    }
  }

  lemma HtmlText(t: string)
    ensures Html(TextOf(t)) == t
  {
    if t != "" { assert TextOf(t)[1..] == []; }
  }

  lemma HtmlOf(a: string, x: string, b: string)
    ensures Html(TextOf(a) + [Code(x)] + TextOf(b)) == a + CodeHtml(x) + b
  {
    HtmlAppend(TextOf(a) + [Code(x)], TextOf(b));
    HtmlAppend(TextOf(a), [Code(x)]);
    assert Html([Code(x)]) == CodeHtml(x) by { assert [Code(x)][1..] == []; }
    HtmlText(a);
    HtmlText(b);
  }

  lemma {:induction false} HtmlAppend(a: seq<Piece>, b: seq<Piece>)
    ensures Html(a + b) == Html(a) + Html(b)
  {
    if a != [] {
      assert (a + b)[1..] == a[1..] + b;
      HtmlAppend(a[1..], b);
    } else {
      assert a + b == b;
    }
  }

  // ---------------------------------------------------------------------------
  // The goal tooltip

  class PortalSection {
    /** `isGoalVisible` */
    var goalVisible: bool

    constructor()
      ensures !goalVisible
    {
      goalVisible := false;
    }

    method MouseEnter()
      modifies this
      ensures goalVisible
    {
      goalVisible := true;
    }

    method MouseLeave()
      modifies this
      ensures !goalVisible
    {
      goalVisible := false;
    }
  }
}
