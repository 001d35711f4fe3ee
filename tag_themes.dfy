/** The tag colouring of pages/ProjectPage.tsx and pages/HomePage.tsx
    (`getTagColorClass`): a tag is lower-cased, stripped of white space and
    hyphens, and given the colour of the first theme one of whose keywords
    occurs in it. The two pages carry slightly different keyword lists. */
module TagThemes {
  import opened Text

  /** The five colour themes and the slate default; each stands for its
      Tailwind class string. */
  datatype Theme = Fuchsia | Emerald | Cyan | Rose | Amber | Slate

  /** One theme with the keywords that select it. */
  datatype Rule = Rule(theme: Theme, keywords: seq<string>)

  // ---------------------------------------------------------------------------
  // Normalisation: `tag.toLowerCase().replace(/[\s-]/g, '')`

  /** `s.replace(/[\s-]/g, '')` */
  function Strip(s: string): (r: string)
    ensures |r| <= |s|
    ensures forall i :: 0 <= i < |r| ==> !IsSpace(r[i]) && r[i] != '-'
    ensures forall i :: 0 <= i < |r| ==> r[i] in s
  {
    if s == [] then []
    else if IsSpace(s[0]) || s[0] == '-' then Strip(s[1..])
    else [s[0]] + Strip(s[1..])
  }

  function Normalize(tag: string): (r: string)
    ensures forall i :: 0 <= i < |r| ==> !IsSpace(r[i]) && r[i] != '-' && !('A' <= r[i] <= 'Z')
  {
    var r := Strip(Lower(tag));
    assert forall i :: 0 <= i < |r| ==> !('A' <= r[i] <= 'Z') by {
      LowerChars(tag);
      forall i | 0 <= i < |r| ensures !('A' <= r[i] <= 'Z') {
        var k :| 0 <= k < |Lower(tag)| && Lower(tag)[k] == r[i];
      }
    }
    r
  }

  lemma {:induction false} StripClean(s: string)
    requires forall i :: 0 <= i < |s| ==> !IsSpace(s[i]) && s[i] != '-'
    ensures Strip(s) == s
  {
    if s != [] {
      StripClean(s[1..]);
    }
  }

  lemma {:induction false} LowerClean(s: string)
    requires forall i :: 0 <= i < |s| ==> !('A' <= s[i] <= 'Z')
    ensures Lower(s) == s
  {
    LowerChars(s);
  }

  /** Normalising twice is normalising once. */
  lemma NormalizeIdempotent(tag: string)
    ensures Normalize(Normalize(tag)) == Normalize(tag)
  {
    var n := Normalize(tag);
    LowerClean(n);
    StripClean(n);
  }

  // ---------------------------------------------------------------------------
  // Theme selection

  /** `keywords.some(kw => s.includes(kw))` */
  function AnyKeyword(s: string, keywords: seq<string>): (r: bool)
    ensures r <==> exists k :: 0 <= k < |keywords| && Contains(s, keywords[k])
  {
    if keywords == [] then false
    else if Contains(s, keywords[0]) then true
    else
      var r := AnyKeyword(s, keywords[1..]);
      assert r <==> exists k :: 1 <= k < |keywords| && Contains(s, keywords[k]) by {
        forall k | 1 <= k < |keywords| ensures keywords[k] == keywords[1..][k - 1] { }
        if r {
          var k :| 0 <= k < |keywords[1..]| && Contains(s, keywords[1..][k]);
          assert Contains(s, keywords[k + 1]);
        }
      }
      r
  }

  lemma AnyKeywordAppend(s: string, a: seq<string>, b: seq<string>)
    ensures AnyKeyword(s, a + b) <==> AnyKeyword(s, a) || AnyKeyword(s, b)
  {
    if AnyKeyword(s, a + b) {
      var k :| 0 <= k < |a + b| && Contains(s, (a + b)[k]);
      if k >= |a| {
        assert (a + b)[k] == b[k - |a|];
      }
    }
    if AnyKeyword(s, a) {
      var k :| 0 <= k < |a| && Contains(s, a[k]);
      assert (a + b)[k] == a[k];
    }
    if AnyKeyword(s, b) {
      var k :| 0 <= k < |b| && Contains(s, b[k]);
      assert (a + b)[|a| + k] == b[k];
    }
  }

  /** The first rule at or after `from` one of whose keywords occurs in `s`. */
  function FirstRule(rules: seq<Rule>, s: string, from: nat): (r: Option<nat>)
    ensures r.Some? ==> from <= r.value < |rules| && AnyKeyword(s, rules[r.value].keywords)
    ensures r.Some? ==> forall j :: from <= j < r.value ==> !AnyKeyword(s, rules[j].keywords)
    ensures r.None? ==> forall j :: from <= j < |rules| ==> !AnyKeyword(s, rules[j].keywords)
    decreases |rules| - from
  {
    if from >= |rules| then None
    else if AnyKeyword(s, rules[from].keywords) then Some(from)
    else FirstRule(rules, s, from + 1)
  }

  /** `getTagColorClass` over a list of rules: the theme of the first rule that
      matches the normalised tag, slate when none does. */
  function Classify(rules: seq<Rule>, tag: string): (r: Theme)
    ensures r != Slate ==>
      exists i :: 0 <= i < |rules| && rules[i].theme == r && AnyKeyword(Normalize(tag), rules[i].keywords) &&
        forall j :: 0 <= j < i ==> !AnyKeyword(Normalize(tag), rules[j].keywords)
    ensures forall i :: 0 <= i < |rules| && AnyKeyword(Normalize(tag), rules[i].keywords) ==>
      (exists j :: 0 <= j < i && AnyKeyword(Normalize(tag), rules[j].keywords)) || r == rules[i].theme
    ensures (forall i :: 0 <= i < |rules| ==> !AnyKeyword(Normalize(tag), rules[i].keywords)) ==> r == Slate
  {
    var n := Normalize(tag);
    var f := FirstRule(rules, n, 0);
    ThemeOfMatched(rules, n, f);
    ThemeOfEarliest(rules, n, f);
    ThemeOf(rules, f)
  }

  /** The theme a rule index gives, slate for none. */
  function ThemeOf(rules: seq<Rule>, f: Option<nat>): Theme
    requires f.Some? ==> f.value < |rules|
  {
    if f.None? then Slate else rules[f.value].theme
  }

  lemma ThemeOfMatched(rules: seq<Rule>, n: string, f: Option<nat>)
    requires f == FirstRule(rules, n, 0)
    ensures ThemeOf(rules, f) != Slate ==>
      exists i :: 0 <= i < |rules| && rules[i].theme == ThemeOf(rules, f) && AnyKeyword(n, rules[i].keywords) &&
        forall j :: 0 <= j < i ==> !AnyKeyword(n, rules[j].keywords)
  {
    if f.Some? {
      var i := f.value;
      assert rules[i].theme == ThemeOf(rules, f) && AnyKeyword(n, rules[i].keywords);
    }
  }

  lemma ThemeOfEarliest(rules: seq<Rule>, n: string, f: Option<nat>)
    requires f == FirstRule(rules, n, 0)
    ensures forall i :: 0 <= i < |rules| && AnyKeyword(n, rules[i].keywords) ==>
      (exists j :: 0 <= j < i && AnyKeyword(n, rules[j].keywords)) || ThemeOf(rules, f) == rules[i].theme
  {
    forall i | 0 <= i < |rules| && AnyKeyword(n, rules[i].keywords) && ThemeOf(rules, f) != rules[i].theme
      ensures exists j :: 0 <= j < i && AnyKeyword(n, rules[j].keywords)
    {
      var j := f.value;
      assert AnyKeyword(n, rules[j].keywords);
    }
  }

  /** Only the normalised tag matters: case, white space and hyphens never change the colour. */
  lemma ClassifyNormalized(rules: seq<Rule>, tag: string)
    ensures Classify(rules, Normalize(tag)) == Classify(rules, tag)
  {
    NormalizeIdempotent(tag);
  }

  // ---------------------------------------------------------------------------
  // The keyword lists of the two pages

  const PedagogyKeywords: seq<string> := ["gamifiedcurriculum", "herosjourney", "narrativedriven", "culturalheroes",
    "historicalpersonas", "studentengagement", "learningquests", "privacyfirst", "aitool", "realtime"]
  const ContentKeywords: seq<string> := ["folklore", "personalizedlearning", "adaptivelearning", "globaleducation",
    "curriculumgeneration", "lessongeneration", "teacherautomation", "edtech"]
  const TechKeywords: seq<string> := ["crosscurricular", "aimentor", "multimodal", "serverless", "aipoweredassessment",
    "educationalos", "ainative", "api", "gemini", "gsap", "rokid", "aiglasses"]
  const DataKeywords: seq<string> := ["analytics", "datainsights", "realtimefeedback", "equityanalytics"]
  const DomainKeywords: seq<string> := ["education", "learning", "student", "teacher", "admin", "communication",
    "tutor", "curriculum", "chatbot", "classroom", "interactive"]

  /** The keywords only the project page's copy lists, at the end of its lists. */
  const ProjectPedagogyExtra: seq<string> := ["client-sideai"]
  const ProjectTechExtra: seq<string> := ["deepseekapi", "vanillajs"]

  const HomePageRules: seq<Rule> := [Rule(Fuchsia, PedagogyKeywords), Rule(Emerald, ContentKeywords),
    Rule(Cyan, TechKeywords), Rule(Rose, DataKeywords), Rule(Amber, DomainKeywords)]

  const ProjectPageRules: seq<Rule> := [Rule(Fuchsia, PedagogyKeywords + ProjectPedagogyExtra),
    Rule(Emerald, ContentKeywords), Rule(Cyan, TechKeywords + ProjectTechExtra),
    Rule(Rose, DataKeywords), Rule(Amber, DomainKeywords)]

  /** `getTagColorClass` of pages/HomePage.tsx: the chain of checks over its five lists. */
  function HomePageTheme(tag: string): (r: Theme)
    ensures r == ThemeChain(Normalize(tag), PedagogyKeywords, ContentKeywords,
                            TechKeywords, DataKeywords, DomainKeywords)
  {
    ClassifyIsChain(HomePageRules, tag);
    Classify(HomePageRules, tag)
  }

  /** `getTagColorClass` of pages/ProjectPage.tsx: the same chain, over its own lists. */
  function ProjectPageTheme(tag: string): (r: Theme)
    ensures r == ThemeChain(Normalize(tag), PedagogyKeywords + ProjectPedagogyExtra,
                            ContentKeywords, TechKeywords + ProjectTechExtra,
                            DataKeywords, DomainKeywords)
  {
    ClassifyIsChain(ProjectPageRules, tag);
    Classify(ProjectPageRules, tag)
  }

  // ---------------------------------------------------------------------------
  // Properties

  /** The chain of `if (…some…) return …` of the source, written out: an
      independent reference for `Classify` on five themed keyword lists. */
  function ThemeChain(n: string, pedagogy: seq<string>, content: seq<string>, tech: seq<string>,
                      data: seq<string>, domain: seq<string>): Theme
  {
    if AnyKeyword(n, pedagogy) then Fuchsia
    else if AnyKeyword(n, content) then Emerald
    else if AnyKeyword(n, tech) then Cyan
    else if AnyKeyword(n, data) then Rose
    else if AnyKeyword(n, domain) then Amber
    else Slate
  }

  /** The rule-list classifier agrees with the chain of checks. */
  lemma ClassifyIsChain(rules: seq<Rule>, tag: string)
    requires |rules| == 5
    requires rules[0].theme == Fuchsia && rules[1].theme == Emerald && rules[2].theme == Cyan
    requires rules[3].theme == Rose && rules[4].theme == Amber
    ensures Classify(rules, tag) == ThemeChain(Normalize(tag), rules[0].keywords, rules[1].keywords,
                                               rules[2].keywords, rules[3].keywords, rules[4].keywords)
  {
    var n := Normalize(tag);
    if !AnyKeyword(n, rules[0].keywords) {
      assert FirstRule(rules, n, 0) == FirstRule(rules, n, 1);
      if !AnyKeyword(n, rules[1].keywords) {
        assert FirstRule(rules, n, 1) == FirstRule(rules, n, 2);
        if !AnyKeyword(n, rules[2].keywords) {
          assert FirstRule(rules, n, 2) == FirstRule(rules, n, 3);
          if !AnyKeyword(n, rules[3].keywords) {
            assert FirstRule(rules, n, 3) == FirstRule(rules, n, 4);
            if !AnyKeyword(n, rules[4].keywords) {
              assert FirstRule(rules, n, 4) == FirstRule(rules, n, 5);
            }
          }
        }
      }
    }
  }

  /** A needle holding a character the haystack lacks never occurs in it. */
  lemma MissingChar(s: string, p: string, c: char)
    requires c in p && c !in s
    ensures !Contains(s, p)
  {
  }

  /** No keyword matches when each has a character the text lacks, named in `absent`. */
  lemma NoneMatch(n: string, keywords: seq<string>, absent: seq<char>)
    requires |absent| == |keywords|
    requires forall k :: 0 <= k < |keywords| ==> absent[k] in keywords[k] && absent[k] !in n
    ensures !AnyKeyword(n, keywords)
  {
    forall k | 0 <= k < |keywords| ensures !Contains(n, keywords[k]) {
      MissingChar(n, keywords[k], absent[k]);
    }
  }
}
