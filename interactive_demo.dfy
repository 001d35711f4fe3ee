/** components/InteractiveDemo.tsx: the demos on the project pages. A
    typing effect reveals a text one character per tick; the SSO portals
    generate a canned answer after a delay; the tutor chat appends the
    question and later writes a keyword-chosen reply into the last message;
    the Ask Smart analyser shows a canned analysis; the project id picks the
    demo. Timers are explicit steps: `Tick` for one interval callback,
    `Reply`/`Complete` for a `setTimeout` callback. */
module InteractiveDemo {
  import opened Text
  import ProjectPage

  // ---------------------------------------------------------------------------
  // `useTypingEffect`

  /** The state of one `useTypingEffect` hook: its `text` argument, the
      `displayText` state, the interval's counter and whether the interval is
      set, with each tick appending the character the counter is at when the
      tick runs. */
  class Typewriter {
    var text: string
    var display: string
    var i: nat
    var running: bool

    /** What is shown is always the first `i` characters of the text. */
    ghost predicate Valid()
      reads this
    {
      i <= |text| && display == text[..i] && (running ==> text != [])
    }

    constructor()
      ensures Valid() && text == "" && display == "" && i == 0 && !running
    {
      text, display, i, running := "", "", 0, false;
    }

    /** The effect that runs when `text` changes: the old interval is cleared,
        the display emptied, and a new interval set unless the text is empty. */
    method SetText(t: string)
      modifies this
      ensures Valid()
      ensures text == t && display == "" && i == 0
      ensures running <==> t != ""
    {
      text := t;
      display := "";
      i := 0;
      running := t != "";
    }

    /** One interval callback as intended: the character at the counter is
        read before `i++` and appended, or, once all are shown, the interval
        is cleared. As written the appended character is read later; see
        `QueuedTypewriter`. */
    method Tick()
      requires Valid()
      modifies this
      ensures Valid() && text == old(text)
      ensures old(running) && old(i) < |text| ==> running && i == old(i) + 1 && display == old(display) + [text[old(i)]]
      ensures old(running) && old(i) == |text| ==> !running && i == old(i) && display == old(display)
      ensures !old(running) ==> running == old(running) && i == old(i) && display == old(display)
    {
      if running {
        if i < |text| {
          assert text[..i + 1] == text[..i] + [text[i]];
          display := display + [text[i]];
          i := i + 1;
        } else {
          running := false;
        }
      }
    }

    /** `k` interval callbacks in a row. */
    method Ticks(k: nat)
      requires Valid()
      modifies this
      ensures Valid() && text == old(text)
      ensures old(running) ==> display == text[..Min(old(i) + k, |text|)]
      ensures old(running) && old(i) + k <= |text| ==> running
      ensures !old(running) ==> display == old(display) && !running
    {
      for n := 0 to k
        invariant Valid() && text == old(text)
        invariant old(running) ==> display == text[..Min(old(i) + n, |text|)]
        invariant old(running) && old(i) + n <= |text| ==> running
        invariant !old(running) ==> display == old(display) && !running
      {
        Tick();
      }
    }
  }

  function Min(a: nat, b: nat): (r: nat)
    ensures r <= a && r <= b && (r == a || r == b)
  {
    if a < b then a else b
  }

  /** From a fresh text, one intended tick per character shows the whole
      text; as written a character is lost (`TypeOutAsWritten`). */
  method TypeOut(w: Typewriter, t: string)
    modifies w
    ensures w.Valid() && w.text == t && w.display == t
    ensures t != "" ==> w.running
  {
    w.SetText(t);
    w.Ticks(|t|);
    assert t[..|t|] == t;
  }

  // ---------------------------------------------------------------------------
  // The interval callback as written

  /** `text.charAt(k)`: the character at `k` as a string, or `""` past the end. */
  function CharAt(text: string, k: nat): string {
    if k < |text| then [text[k]] else ""
  }

  /** The hook as its callback is written: `setDisplayText(prev => prev +
      text.charAt(i)); i++` hands React an updater that reads the counter when
      React runs it. React runs it at once only while the component has no
      update pending; otherwise it runs at the next render, after `i++`. Each
      tick says which of the two happens. */
  class QueuedTypewriter {
    var text: string
    var display: string
    var i: nat
    var running: bool

    constructor()
      ensures text == "" && display == "" && i == 0 && !running
    {
      text, display, i, running := "", "", 0, false;
    }

    /** The effect, as in `Typewriter.SetText`. */
    method SetText(t: string)
      modifies this
      ensures text == t && display == "" && i == 0
      ensures running <==> t != ""
    {
      text := t;
      display := "";
      i := 0;
      running := t != "";
    }

    /** One interval callback. With `atDispatch` the updater reads the counter
        before `i++`, otherwise after it. */
    method Tick(atDispatch: bool)
      modifies this
      ensures text == old(text)
      ensures old(running) && old(i) < |text| ==>
                running && i == old(i) + 1 &&
                display == old(display) + CharAt(text, if atDispatch then old(i) else old(i) + 1)
      ensures old(running) && old(i) >= |text| ==> !running && i == old(i) && display == old(display)
      ensures !old(running) ==> running == old(running) && i == old(i) && display == old(display)
    {
      if running {
        if i < |text| {
          var k := i;
          i := i + 1;
          display := display + CharAt(text, if atDispatch then k else i);
        } else {
          running := false;
        }
      }
    }
  }

  /** From a fresh text, one tick per character as written: the first updater
      may run at dispatch, every later one runs at the next render. A text of
      two or more characters then loses one, the second if the first updater
      ran at dispatch and the first otherwise; the last tick appends `""`. */
  method TypeOutAsWritten(w: QueuedTypewriter, t: string, firstAtDispatch: bool)
    modifies w
    ensures w.text == t
    ensures firstAtDispatch && t != "" ==> w.display == [t[0]] + t[Min(2, |t|)..]
    ensures !firstAtDispatch ==> w.display == t[Min(1, |t|)..]
    ensures |t| >= 2 ==> |w.display| == |t| - 1 && w.display != t
  {
    w.SetText(t);
    if t == "" {
      return;
    }
    w.Tick(firstAtDispatch);
    var first := if firstAtDispatch then [t[0]] else CharAt(t, 1);
    for n := 1 to |t|
      invariant w.text == t && w.i == n && w.running
      invariant w.display == first + t[Min(2, |t|)..Min(n + 1, |t|)]
    {
      w.Tick(false);
      assert t[Min(2, |t|)..Min(n + 2, |t|)] == t[Min(2, |t|)..Min(n + 1, |t|)] + CharAt(t, n + 1);
    }
    if !firstAtDispatch && |t| >= 2 {
      assert t[1..] == [t[1]] + t[2..];
    }
  }

  /** "Hello" typed as written, the first updater running at dispatch, shows
      "Hllo". */
  method HelloAsWritten() returns (shown: string)
    ensures shown == "Hllo"
  {
    var w := new QueuedTypewriter();
    TypeOutAsWritten(w, "Hello", true);
    shown := w.display;
  }

  // ---------------------------------------------------------------------------
  // The output of a portal

  /** `s.split(c)`: the pieces between the separators, at least one. */
  function SplitOn(s: string, c: char): (r: seq<string>)
    ensures |r| >= 1
    ensures forall k :: 0 <= k < |r| ==> c !in r[k]
    ensures JoinWith(r, c) == s
    decreases |s|
  {
    var h := Before(s, c);
    if |h| == |s| then
      assert h == s;
      [s]
    else
      var rest := SplitOn(s[|h| + 1..], c);
      assert s == h + [c] + s[|h| + 1..];
      [h] + rest
  }

  /** The pieces joined with `c` between them: `ps.join(c)`. */
  function JoinWith(ps: seq<string>, c: char): string {
    if ps == [] then []
    else if |ps| == 1 then ps[0]
    else ps[0] + [c] + JoinWith(ps[1..], c)
  }

  /** The characters of `s` other than `*`, in their order. */
  function NonStars(s: string): string {
    if s == [] then [] else (if s[0] == '*' then [] else [s[0]]) + NonStars(s[1..])
  }

  /** The global replace of `**` by the empty string: every `**`, taken left to right without
      overlap, is removed. No `**` is left, and nothing but `*`s is removed. */
  function StripStars(s: string): (r: string)
    ensures |r| <= |s|
    ensures forall k :: 0 <= k < |r| - 1 ==> !(r[k] == '*' && r[k + 1] == '*')
    ensures NonStars(r) == NonStars(s)
    ensures s != [] && s[0] != '*' ==> r != [] && r[0] == s[0]
    ensures '*' !in s ==> r == s
  {
    if s == [] then []
    else if |s| >= 2 && s[0] == '*' && s[1] == '*' then
      assert s[1..][1..] == s[2..];
      StripStars(s[2..])
    else
      var rest := StripStars(s[1..]);
      assert forall k :: 1 <= k < |rest| + 1 ==> ([s[0]] + rest)[k] == rest[k - 1];
      assert ([s[0]] + rest)[1..] == rest;
      [s[0]] + rest
  }

  /** The lines shown for an output: split at line breaks, `**` removed. */
  function OutputLines(display: string): (r: seq<string>)
    ensures |r| == |SplitOn(display, '\n')|
    ensures forall k :: 0 <= k < |r| ==> r[k] == StripStars(SplitOn(display, '\n')[k]) && '\n' !in r[k]
  {
    var ls := SplitOn(display, '\n');
    assert forall k :: 0 <= k < |ls| ==> '\n' !in StripStars(ls[k]) by {
      forall k | 0 <= k < |ls| ensures '\n' !in StripStars(ls[k]) {
        StripStarsKeepsLetters(ls[k], '\n');
      }
    }
    seq(|ls|, k requires 0 <= k < |ls| => StripStars(ls[k]))
  }

  /** Removing stars never removes a line break, so the lines stay lines. */
  lemma StripStarsKeepsLetters(s: string, c: char)
    requires c != '*'
    ensures c in s <==> c in StripStars(s)
  {
    NonStarsHas(s, c);
    NonStarsHas(StripStars(s), c);
  }

  lemma {:induction false} NonStarsHas(s: string, c: char)
    requires c != '*'
    ensures c in s <==> c in NonStars(s)
  {
    if s != [] {
      NonStarsHas(s[1..], c);
      assert s == [s[0]] + s[1..];
    }
  }

  // ---------------------------------------------------------------------------
  // `PortalDemoSection`

  class Portal {
    var input: string
    var rawOutput: string
    var loading: bool
    /** The `setTimeout` callbacks not yet run. */
    var pending: nat
    /** `typedOutput`: the typing effect over `rawOutput`. */
    const typed: Typewriter

    ghost predicate Valid()
      reads this, typed
    {
      typed.Valid() && typed.text == rawOutput
    }

    constructor()
      ensures Valid() && fresh(typed)
      ensures input == "" && rawOutput == "" && !loading && pending == 0 && typed.display == ""
    {
      input, rawOutput, loading, pending := "", "", false, 0;
      typed := new Typewriter();
    }

    method Type(s: string)
      modifies this
      ensures input == s && rawOutput == old(rawOutput) && loading == old(loading) && pending == old(pending)
    {
      input := s;
    }

    /** `setRawOutput`: the typing effect runs again only when the value changes. */
    method SetRawOutput(v: string)
      requires Valid()
      modifies this, typed
      ensures Valid() && rawOutput == v
      ensures v != old(rawOutput) ==> typed.display == "" && typed.i == 0 && (typed.running <==> v != "")
      ensures v == old(rawOutput) ==> unchanged(typed)
      ensures input == old(input) && loading == old(loading) && pending == old(pending)
    {
      if v != rawOutput {
        rawOutput := v;
        typed.SetText(v);
      }
    }

    /** The Generate button: disabled while loading or while the input is
        blank; otherwise `handleGenerate` shows the skeleton, empties the
        output and sets the timer. */
    method Generate()
      requires Valid()
      modifies this, typed
      ensures Valid()
      ensures old(loading) || IsBlank(old(input)) ==>
        rawOutput == old(rawOutput) && loading == old(loading) && pending == old(pending) && unchanged(typed)
      ensures !old(loading) && !IsBlank(old(input)) ==>
        loading && rawOutput == "" && typed.display == "" && pending == old(pending) + 1
      ensures input == old(input)
    {
      if loading || IsBlank(input) {
        return;
      }
      loading := true;
      SetRawOutput("");
      pending := pending + 1;
    }

    /** The timer: the generated answer replaces the output, which starts typing. */
    method Reply(result: string)
      requires Valid() && pending > 0
      modifies this, typed
      ensures Valid()
      ensures rawOutput == result && !loading && pending == old(pending) - 1
      ensures result != old(rawOutput) ==> typed.display == "" && typed.i == 0
      ensures input == old(input)
    {
      SetRawOutput(result);
      loading := false;
      pending := pending - 1;
    }

    /** The output box: shown once something is typed and nothing is loading. */
    function Shown(): (r: Option<seq<string>>)
      reads this, typed
      ensures r.Some? <==> typed.display != "" && !loading
      ensures r.Some? ==> r.value == OutputLines(typed.display)
    {
      if typed.display != "" && !loading then Some(OutputLines(typed.display)) else None
    }
  }

  // ---------------------------------------------------------------------------
  // `MiscellaneousTutorDemo`

  /** A chat message: the question and, once it came, the reply. */
  datatype Message = Message(user: string, ai: string, isHtml: bool)

  datatype Topic = Photosynthesis | Quiz | General

  /** The reply is chosen by keyword, ignoring case, `photosynthesis` first. */
  function TopicOf(input: string): (t: Topic)
    ensures t == Photosynthesis <==> Contains(Lower(input), "photosynthesis")
    ensures t == Quiz <==> !Contains(Lower(input), "photosynthesis") && Contains(Lower(input), "quiz")
  {
    var lower := Lower(input);
    if Contains(lower, "photosynthesis") then Photosynthesis
    else if Contains(lower, "quiz") then Quiz
    else General
  }

  /** The interactive lesson, rendered in an iframe. */
  const PhotosynthesisLesson: string :=
    "\n"
    + "                    <style>\n"
    + "                        body { font-family: sans-serif; background-color: #f0f9ff; color: #075985; padding: 20px; text-align: center; }\n"
    + "                        h2 { color: #0369a1; }\n"
    + "                        .diagram { background: #e0f2fe; border: 2px solid #7dd3fc; border-radius: 10px; padding: 15px; margin-top: 15px; }\n"
    + "                        .item { display: inline-block; margin: 10px; }\n"
    + "                    </style>\n"
    + "                    <h2>The Photosynthesis Process \U{1F33F}</h2>\n"
    + "                    <div class=\"diagram\">\n"
    + "                        <div class=\"item\">\U{2600}\U{FE0F}<br>Sunlight</div>\n"
    + "                        <div class=\"item\">+</div>\n"
    + "                        <div class=\"item\">\U{1F4A7}<br>Water</div>\n"
    + "                        <div class=\"item\">+</div>\n"
    + "                        <div class=\"item\">\U{1F4A8}<br>CO2</div>\n"
    + "                        <div class=\"item\">\U{27A1}\U{FE0F}</div>\n"
    + "                        <div class=\"item\">\U{1F343}<br>Sugar (Food)</div>\n"
    + "                        <div class=\"item\">+</div>\n"
    + "                        <div class=\"item\">\U{1F62E}<br>Oxygen</div>\n"
    + "                    </div>\n"
    + "                "

  const QuizText: string := "Of course! Here's a quick quiz: What is the powerhouse of the cell? A) Nucleus, B) Ribosome, C) Mitochondria."

  const SuggestionText: string := "That's a great question! Let me generate some learning materials for you on that topic. Try asking me to 'teach me about photosynthesis' for an interactive example!"

  function ReplyText(t: Topic): string {
    match t
    case Photosynthesis => PhotosynthesisLesson
    case Quiz => QuizText
    case General => SuggestionText
  }

  /** The routing ignores case. */
  lemma TopicIgnoresCase(input: string)
    ensures TopicOf(Lower(input)) == TopicOf(input)
  {
    LowerIdempotent(input);
  }

  /** A question mentioning photosynthesis gets the lesson, even when it
      also asks for a quiz. */
  lemma PhotosynthesisFirst(a: string, kw: string, b: string)
    requires Lower(kw) == "photosynthesis"
    ensures TopicOf(a + kw + b) == Photosynthesis
  {
    LowerContainsInside(a, kw, b, "photosynthesis");
  }

  /** The last message gets the reply to `input`; the others stay as they are. */
  function FillLast(msgs: seq<Message>, input: string): (r: seq<Message>)
    requires msgs != []
    ensures |r| == |msgs| && r[..|r| - 1] == msgs[..|msgs| - 1]
    ensures r[|r| - 1].user == msgs[|msgs| - 1].user
    ensures r[|r| - 1].ai == ReplyText(TopicOf(input))
    ensures r[|r| - 1].isHtml <==> TopicOf(input) == Photosynthesis
  {
    var last := msgs[|msgs| - 1];
    msgs[..|msgs| - 1] + [Message(last.user, ReplyText(TopicOf(input)), TopicOf(input) == Photosynthesis)]
  }

  class Tutor {
    var input: string
    var messages: seq<Message>
    var loading: bool
    /** The inputs of the sends whose timer has not run yet, oldest first:
        every timer waits the same 1500 ms, so they run in this order. */
    var pending: seq<string>

    ghost predicate Valid()
      reads this
    {
      |pending| <= |messages|
    }

    constructor()
      ensures Valid() && input == "" && messages == [] && !loading && pending == []
    {
      input, messages, loading, pending := "", [], false, [];
    }

    method Type(s: string)
      modifies this
      ensures input == s && messages == old(messages) && loading == old(loading) && pending == old(pending)
    {
      input := s;
    }

    /** `handleSend` (the button, which is never disabled, or Enter): a blank
        input is ignored; otherwise the question is appended without a reply,
        the input cleared and the timer set. */
    method Send()
      requires Valid()
      modifies this
      ensures Valid()
      ensures IsBlank(old(input)) ==>
        input == old(input) && messages == old(messages) && loading == old(loading) && pending == old(pending)
      ensures !IsBlank(old(input)) ==>
        messages == old(messages) + [Message(old(input), "", false)] && input == "" && loading &&
        pending == old(pending) + [old(input)]
    {
      if IsBlank(input) {
        return;
      }
      messages := messages + [Message(input, "", false)];
      pending := pending + [input];
      input := "";
      loading := true;
    }

    /** The oldest timer: its reply goes into whatever message is last now. */
    method Reply()
      requires Valid() && pending != []
      modifies this
      ensures Valid()
      ensures messages == FillLast(old(messages), old(pending)[0])
      ensures pending == old(pending)[1..] && !loading && input == old(input)
    {
      messages := FillLast(messages, pending[0]);
      pending := pending[1..];
      loading := false;
    }
  }

  /** Two questions sent within the delay: the first reply lands in the second
      question's message, the second reply overwrites it, and the first
      question is never answered. */
  lemma QuickSecondQuestion(msgs: seq<Message>, a: string, b: string)
    ensures var m := msgs + [Message(a, "", false), Message(b, "", false)];
      var once := FillLast(m, a);
      var twice := FillLast(once, b);
      && once[|msgs| + 1].ai == ReplyText(TopicOf(a))
      && twice[|msgs|] == Message(a, "", false)
      && twice[|msgs| + 1] == Message(b, ReplyText(TopicOf(b)), TopicOf(b) == Photosynthesis)
  {
    var m := msgs + [Message(a, "", false), Message(b, "", false)];
    var once := FillLast(m, a);
    assert once[|msgs|] == once[..|once| - 1][|msgs|] == m[|msgs|];
    var twice := FillLast(once, b);
    assert twice[|msgs|] == twice[..|twice| - 1][|msgs|];
  }

  // ---------------------------------------------------------------------------
  // `AskSmartDemo`

  datatype Analysis = Analysis(tone: string, pace: string, guidance: string)

  const CannedAnalysis: Analysis := Analysis("Tense (8/10)", "Rapid", "Suggestion: A moment of silence can be powerful.")

  const SampleConversation: string := "I don't think you're listening to me, this is the third time I've had to repeat the project requirements!"

  /** What the result panel shows. */
  datatype Panel = Hidden | Skeleton | Result(analysis: Analysis)

  class AskSmart {
    var input: string
    var analysis: Option<Analysis>
    var loading: bool
    var pending: nat

    constructor()
      ensures input == SampleConversation && analysis.None? && !loading && pending == 0
    {
      input, analysis, loading, pending := SampleConversation, None, false, 0;
    }

    method Type(s: string)
      modifies this
      ensures input == s && analysis == old(analysis) && loading == old(loading) && pending == old(pending)
    {
      input := s;
    }

    /** The Analyze button: disabled while loading or while the input is
        blank; otherwise `handleAnalyze` clears the analysis and sets the timer. */
    method Analyze()
      modifies this
      ensures old(loading) || IsBlank(old(input)) ==>
        analysis == old(analysis) && loading == old(loading) && pending == old(pending)
      ensures !old(loading) && !IsBlank(old(input)) ==> analysis.None? && loading && pending == old(pending) + 1
      ensures input == old(input)
    {
      if loading || IsBlank(input) {
        return;
      }
      loading := true;
      analysis := None;
      pending := pending + 1;
    }

    /** The timer: the canned analysis appears. */
    method Complete()
      requires pending > 0
      modifies this
      ensures analysis == Some(CannedAnalysis) && !loading && pending == old(pending) - 1 && input == old(input)
    {
      analysis := Some(CannedAnalysis);
      loading := false;
      pending := pending - 1;
    }

    /** The panel: the skeleton while loading, else the analysis if there is one. */
    function Shown(): (r: Panel)
      reads this
      ensures r.Hidden? <==> !loading && analysis.None?
      ensures r.Skeleton? <==> loading
      ensures r.Result? ==> analysis == Some(r.analysis)
    {
      if loading then Skeleton
      else match analysis
        case None => Hidden
        case Some(a) => Result(a)
    }
  }

  // ---------------------------------------------------------------------------
  // `InteractiveDemo`

  datatype Demo = SsoDemo | TutorDemo | AskSmartDemo | NoDemo

  /** The demo for a project id; any other id gets the fallback message. A
      project has a demo exactly when it has a layout of its own on the project
      page, and the demo is the one of that layout. */
  function DemoFor(projectId: string): (d: Demo)
    ensures d == NoDemo <==> ProjectPage.LayoutFor(projectId) == ProjectPage.DefaultLayout
    ensures d == SsoDemo <==> ProjectPage.LayoutFor(projectId) == ProjectPage.SsoLayout
    ensures d == TutorDemo <==> ProjectPage.LayoutFor(projectId) == ProjectPage.TutorLayout
    ensures d == AskSmartDemo <==> ProjectPage.LayoutFor(projectId) == ProjectPage.AskSmartLayout
  {
    match projectId
    case "sso" => SsoDemo
    case "miscellaneous-tutor" => TutorDemo
    case "ask-smart" => AskSmartDemo
    case _ => NoDemo
  }
}
