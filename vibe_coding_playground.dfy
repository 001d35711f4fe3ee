/** components/VibeCodingPlayground.tsx: a "vibe" typed by the visitor picks
    one of three canned HTML snippets by keyword, which is then typed out
    character by character. */
module VibeCodingPlayground {
  import opened Text

  // ---------------------------------------------------------------------------
  // `getCodeForVibe`

  const ButtonSnippet: string :=
    "<button class=\"bg-blue-500 hover:bg-blue-700 text-white font-bold py-2 px-4 rounded\">\n"
    + "  Click Me\n"
    + "</button>"

  const CardSnippet: string :=
    "<div class=\"max-w-sm rounded overflow-hidden shadow-lg bg-white\">\n"
    + "  <img class=\"w-full\" src=\"/img/card-top.jpg\" alt=\"Sunset in the mountains\">\n"
    + "  <div class=\"px-6 py-4\">\n"
    + "    <div class=\"font-bold text-xl mb-2\">The Coldest Sunset</div>\n"
    + "    <p class=\"text-gray-700 text-base\">\n"
    + "      Lorem ipsum dolor sit amet...\n"
    + "    </p>\n"
    + "  </div>\n"
    + "</div>"

  const FormSnippet: string :=
    "<form class=\"bg-white shadow-md rounded px-8 pt-6 pb-8 mb-4\">\n"
    + "  <div class=\"mb-4\">\n"
    + "    <label class=\"block text-gray-700 text-sm font-bold mb-2\" for=\"username\">\n"
    + "      Username\n"
    + "    </label>\n"
    + "    <input class=\"shadow appearance-none border rounded w-full py-2 px-3 text-gray-700\" id=\"username\" type=\"text\">\n"
    + "  </div>\n"
    + "  <div class=\"mb-6\">\n"
    + "    <label class=\"block text-gray-700 text-sm font-bold mb-2\" for=\"password\">\n"
    + "      Password\n"
    + "    </label>\n"
    + "    <input class=\"shadow appearance-none border rounded w-full py-2 px-3 text-gray-700 mb-3\" id=\"password\" type=\"password\">\n"
    + "  </div>\n"
    + "  <div class=\"flex items-center justify-between\">\n"
    + "    <button class=\"bg-blue-500 hover:bg-blue-700 text-white font-bold py-2 px-4 rounded\" type=\"button\">\n"
    + "      Sign In\n"
    + "    </button>\n"
    + "  </div>\n"
    + "</form>"

  const FallbackComment: string :=
    "// I'm not sure how to generate that yet. \n"
    + "// Try asking for 'a button', 'a card', or 'a login form'."

  /** The four answers. */
  datatype Snippet = ButtonCode | CardCode | FormCode | Fallback

  function SnippetText(c: Snippet): (r: string)
    ensures r != ""
    ensures r[|r| - 1] == '.' <==> c == Fallback
  {
    match c
    case ButtonCode => ButtonSnippet
    case CardCode => CardSnippet
    case FormCode => FormSnippet
    case Fallback => FallbackComment
  }

  /** `getCodeForVibe`: the snippet for a vibe, by keyword and ignoring case:
      `button` first, then `card`, then `login` or `form`, else the fallback comment. */
  function SnippetFor(vibe: string): (r: Snippet)
    ensures r == ButtonCode <==> Contains(Lower(vibe), "button")
    ensures r == CardCode <==> !Contains(Lower(vibe), "button") && Contains(Lower(vibe), "card")
    ensures r == FormCode <==> (!Contains(Lower(vibe), "button") && !Contains(Lower(vibe), "card") &&
      (Contains(Lower(vibe), "login") || Contains(Lower(vibe), "form")))
    ensures r != Fallback <==>
      Contains(Lower(vibe), "button") || Contains(Lower(vibe), "card") ||
      Contains(Lower(vibe), "login") || Contains(Lower(vibe), "form")
  {
    var lower := Lower(vibe);
    if Contains(lower, "button") then ButtonCode
    else if Contains(lower, "card") then CardCode
    else if Contains(lower, "login") || Contains(lower, "form") then FormCode
    else Fallback
  }

  /** `getCodeForVibe`: the snippet's text; the fallback comment exactly when
      no keyword occurs, and the button snippet whenever `button` does. */
  function CodeForVibe(vibe: string): (r: string)
    ensures r != ""
    ensures Contains(Lower(vibe), "button") ==> r == ButtonSnippet
    ensures r == FallbackComment <==>
      !(Contains(Lower(vibe), "button") || Contains(Lower(vibe), "card") ||
        Contains(Lower(vibe), "login") || Contains(Lower(vibe), "form"))
  {
    var c := SnippetFor(vibe);
    assert FallbackComment[|FallbackComment| - 1] == '.';
    SnippetText(c)
  }

  /** The choice ignores case. */
  lemma CodeIgnoresCase(vibe: string)
    ensures SnippetFor(Lower(vibe)) == SnippetFor(vibe)
  {
    LowerIdempotent(vibe);
  }

  /** A vibe that asks for a button, in any case, gets the button, whatever
      else it mentions: "a card with a button" is a button. */
  lemma ButtonWins(a: string, kw: string, b: string)
    requires Lower(kw) == "button"
    ensures SnippetFor(a + kw + b) == ButtonCode
  {
    LowerContainsInside(a, kw, b, "button");
  }

  /** A vibe that asks for a card and no button gets the card, even when it also asks for a form. */
  lemma CardBeforeForm(a: string, kw: string, b: string)
    requires Lower(kw) == "card" && !Contains(Lower(a + kw + b), "button")
    ensures SnippetFor(a + kw + b) == CardCode
  {
    LowerContainsInside(a, kw, b, "card");
  }

  // ---------------------------------------------------------------------------
  // This file's `useTypingEffect`

  /** The state of the hook. Unlike the one of the demos, an empty text stops
      the interval but leaves the display as it was. */
  class Typewriter {
    var text: string
    var display: string
    var i: nat
    var running: bool

    /** While the text is not empty, the display is its first `i` characters. */
    ghost predicate Valid()
      reads this
    {
      i <= |text| && (text != "" ==> display == text[..i]) && (running ==> text != "")
    }

    constructor()
      ensures Valid() && text == "" && display == "" && !running
    {
      text, display, i, running := "", "", 0, false;
    }

    /** The effect that runs when `text` changes: the old interval is cleared;
        an empty text changes nothing else, any other text empties the
        display and sets a new interval. */
    method SetText(t: string)
      modifies this
      ensures Valid() && text == t && i == 0
      ensures t == "" ==> display == old(display) && !running
      ensures t != "" ==> display == "" && running
    {
      text := t;
      i := 0;
      running := t != "";
      if t != "" {
        display := "";
      }
    }

    /** One interval callback as intended: the character at the counter is
        appended. The callback as written reads the counter after `i++` once
        React defers the updater, as `InteractiveDemo.QueuedTypewriter`
        shows for the identical callback of the demos. */
    method Tick()
      requires Valid()
      modifies this
      ensures Valid() && text == old(text)
      ensures old(running) && old(i) < |text| ==> running && i == old(i) + 1 && display == old(display) + [text[old(i)]]
      ensures old(running) && old(i) == |text| ==> !running && i == old(i) && display == old(display)
      ensures !old(running) ==> running == old(running) && i == old(i) && display == old(display)
    {
      if running {
        if i < |text| {
          assert text[..i + 1] == text[..i] + [text[i]];
          display := display + [text[i]];
          i := i + 1;
        } else {
          running := false;
        }
      }
    }
  }

  // ---------------------------------------------------------------------------
  // `VibeCodingPlayground`

  class Playground {
    var vibe: string
    var generatedCode: string
    var isLoading: bool
    /** The vibes of the clicks whose timer has not run yet, oldest first. */
    var pending: seq<string>
    /** `displayText`: the typing effect over `generatedCode`. */
    const typed: Typewriter

    ghost predicate Valid()
      reads this, typed
    {
      typed.Valid() && typed.text == generatedCode
    }

    constructor()
      ensures Valid() && fresh(typed)
      ensures vibe == "" && generatedCode == "" && !isLoading && pending == [] && typed.display == ""
    {
      vibe, generatedCode, isLoading, pending := "", "", false, [];
      typed := new Typewriter();
    }

    method Type(s: string)
      modifies this
      ensures vibe == s && generatedCode == old(generatedCode) && isLoading == old(isLoading) && pending == old(pending)
    {
      vibe := s;
    }

    /** `setGeneratedCode`: the typing effect runs again only when the value changes. */
    method SetCode(v: string)
      requires Valid()
      modifies this, typed
      ensures Valid() && generatedCode == v
      ensures v != old(generatedCode) && v != "" ==> typed.display == "" && typed.running
      ensures v == "" ==> typed.display == old(typed.display) && !typed.running
      ensures v == old(generatedCode) ==> unchanged(typed)
      ensures vibe == old(vibe) && isLoading == old(isLoading) && pending == old(pending)
    {
      if v != generatedCode {
        generatedCode := v;
        typed.SetText(v);
      }
    }

    /** The Generate button: disabled while loading or while the vibe is the
        empty string (a vibe of spaces is accepted); otherwise the code is
        emptied, which leaves the old code on screen, and the timer is set. */
    method Generate()
      requires Valid()
      modifies this, typed
      ensures Valid() && vibe == old(vibe)
      ensures old(isLoading) || old(vibe) == "" ==>
        generatedCode == old(generatedCode) && isLoading == old(isLoading) && pending == old(pending) && unchanged(typed)
      ensures !old(isLoading) && old(vibe) != "" ==>
        isLoading && generatedCode == "" && pending == old(pending) + [old(vibe)] &&
        typed.display == old(typed.display) && !typed.running
    {
      if isLoading || vibe == "" {
        return;
      }
      isLoading := true;
      SetCode("");
      pending := pending + [vibe];
    }

    /** The oldest timer: the snippet for the vibe of its click starts typing. */
    method Reply()
      requires Valid() && pending != []
      modifies this, typed
      ensures Valid() && vibe == old(vibe)
      ensures generatedCode == CodeForVibe(old(pending)[0]) && !isLoading && pending == old(pending)[1..]
      ensures old(generatedCode) == "" ==> typed.display == "" && typed.running
    {
      SetCode(CodeForVibe(pending[0]));
      isLoading := false;
      pending := pending[1..];
    }
  }
}
