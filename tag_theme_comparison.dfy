/** How the two copies of `getTagColorClass` (pages/ProjectPage.tsx and
    pages/HomePage.tsx) compare on the same tag. */
module TagThemeComparison {
  import opened Text
  import opened TagThemes

  /** The project page's `client-sideai` can never match: normalisation removes every hyphen. */
  lemma ClientSideAiNeverMatches(tag: string)
    ensures !AnyKeyword(Normalize(tag), ProjectPedagogyExtra)
  {
    var n := Normalize(tag);
    assert '-' !in n;
    MissingChar(n, "client-sideai", '-');
  }

  /** A tag holding `deepseekapi` holds `api`, which both tech lists share. */
  lemma DeepSeekIsApi(n: string)
    requires Contains(n, "deepseekapi")
    ensures AnyKeyword(n, TechKeywords)
  {
    ContainsIff(n, "deepseekapi");
    var i: nat :| OccursAt(n, i, "deepseekapi");
    assert OccursAt("deepseekapi", 8, "api");
    OccursWithin(n, i, "deepseekapi", 8, "api");
    ContainsIff(n, "api");
    assert TechKeywords[7] == "api";
  }

  /** The two copies disagree only on tags whose normalised form contains
      `vanillajs`. */
  lemma CopiesAgreeElsewhere(tag: string)
    requires !Contains(Normalize(tag), "vanillajs")
    ensures ProjectPageTheme(tag) == HomePageTheme(tag)
  {
    var n := Normalize(tag);
    ClientSideAiNeverMatches(tag);
    AnyKeywordAppend(n, PedagogyKeywords, ProjectPedagogyExtra);
    AnyKeywordAppend(n, TechKeywords, ProjectTechExtra);
    if Contains(n, "deepseekapi") {
      DeepSeekIsApi(n);
    } else {
      assert !AnyKeyword(n, ProjectTechExtra);
    }
  }

  // None of the home page's keywords occurs in `vanillajs`: each has a
  // character that `vanillajs` lacks.

  lemma VanillaJsNotPedagogy(n: string)
    requires n == "vanillajs"
    ensures !AnyKeyword(n, PedagogyKeywords)
  {
    NoneMatch(n, PedagogyKeywords, "ghrchteptr");
  }

  lemma VanillaJsNotContent(n: string)
    requires n == "vanillajs"
    ensures !AnyKeyword(n, ContentKeywords)
  {
    NoneMatch(n, ContentKeywords, "fpdgcete");
  }

  lemma VanillaJsNotTech(n: string)
    requires n == "vanillajs"
    ensures !AnyKeyword(n, TechKeywords)
  {
    NoneMatch(n, TechKeywords, "cmmepetpggrg");
  }

  lemma VanillaJsNotData(n: string)
    requires n == "vanillajs"
    ensures !AnyKeyword(n, DataKeywords)
  {
    NoneMatch(n, DataKeywords, "ydre");
  }

  lemma VanillaJsNotDomain(n: string)
    requires n == "vanillajs"
    ensures !AnyKeyword(n, DomainKeywords)
  {
    NoneMatch(n, DomainKeywords, "eettdctccct");
  }

  /** A tag that normalises to `vanillajs`, such as the Miscellaneous Tutor
      project's "Vanilla JS", is slate on the home page. */
  lemma VanillaJsHomePage(tag: string)
    requires Normalize(tag) == "vanillajs"
    ensures HomePageTheme(tag) == Slate
  {
    var n := Normalize(tag);
    VanillaJsNotPedagogy(n);
    VanillaJsNotContent(n);
    VanillaJsNotTech(n);
    VanillaJsNotData(n);
    VanillaJsNotDomain(n);
  }

  /** The same tag is cyan on the project page, through its extra `vanillajs` keyword. */
  lemma VanillaJsProjectPage(tag: string)
    requires Normalize(tag) == "vanillajs"
    ensures ProjectPageTheme(tag) == Cyan
  {
    var n := Normalize(tag);
    VanillaJsNotPedagogy(n);
    VanillaJsNotContent(n);
    assert Contains(n, ProjectTechExtra[1]) by {
      assert OccursAt(n, 0, ProjectTechExtra[1]);
    }
    AnyKeywordAppend(n, TechKeywords, ProjectTechExtra);
    AnyKeywordAppend(n, PedagogyKeywords, ProjectPedagogyExtra);
    ClientSideAiNeverMatches(tag);
  }
}
