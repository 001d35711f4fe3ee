/** App.tsx, `AppContent`: the route table, the Ctrl/Cmd+K shortcut that
    opens and closes the command palette, and the scrolled state of the header. */
module App {
  import opened Text
  import HomePage
  import CommandPalette

  /** The page a route renders; `ProjectView(i)` is `ProjectPage` for `projects[i]`. */
  datatype Page = Home | Team | AboutHackathon | ProjectView(index: nat) | Communication | Journal | Glossary | Tutorial

  datatype Route = Route(path: string, page: Page)

  /** The `<Routes>` of `AppContent`. */
  const RouteTable: seq<Route> := [
    Route("/", Home),
    Route("/team", Team),
    Route("/about-hackathon", AboutHackathon),
    Route("/project1", ProjectView(0)),
    Route("/project2", ProjectView(1)),
    Route("/project3", ProjectView(2)),
    Route("/communication", Communication),
    Route("/journal", Journal),
    Route("/glossary", Glossary),
    Route("/tutorial", Tutorial)]

  /** `s` without its trailing `/` characters. */
  function TrimSlashes(s: string): (r: string)
    ensures |r| <= |s| && r == s[..|r|]
    ensures r == [] || r[|r| - 1] != '/'
    ensures forall k :: |r| <= k < |s| ==> s[k] == '/'
    decreases |s|
  {
    if s != [] && s[|s| - 1] == '/' then TrimSlashes(s[..|s| - 1]) else s
  }

  /** What a path is compared by: lower-cased, trailing slashes dropped. */
  function Key(path: string): string {
    Lower(TrimSlashes(path))
  }

  /** React Router's default matching of a route's path against the location:
      the route's path with its trailing slashes dropped, then any number of
      slashes, to the end, in any case (a regular expression with the `i`
      flag; route paths are ASCII, and no other character folds onto an
      ASCII one under that flag). */
  predicate RouteMatches(routePath: string, path: string) {
    path != [] && Key(path) == Key(routePath)
  }

  /** The index of the first element `p` holds for, if any. */
  function FirstWhere<T>(xs: seq<T>, p: T -> bool): (r: Option<nat>)
    ensures r.Some? ==> r.value < |xs| && p(xs[r.value]) && forall j :: 0 <= j < r.value ==> !p(xs[j])
    ensures r.None? ==> forall j :: 0 <= j < |xs| ==> !p(xs[j])
  {
    if xs == [] then None
    else if p(xs[0]) then Some(0)
    else
      var r := FirstWhere(xs[1..], p);
      assert forall j :: 1 <= j < |xs| ==> xs[j] == xs[1..][j - 1];
      if r.None? then None else Some(r.value + 1)
  }

  /** The page of the first route that matches `path`; there is no catch-all
      route, so any other path renders nothing. */
  function Lookup(routes: seq<Route>, path: string): (r: Option<Page>)
    ensures r.Some? ==> exists i :: 0 <= i < |routes| && RouteMatches(routes[i].path, path) && routes[i].page == r.value
    ensures r.None? <==> forall i :: 0 <= i < |routes| ==> !RouteMatches(routes[i].path, path)
    ensures forall i :: (0 <= i < |routes| && RouteMatches(routes[i].path, path) &&
      forall j :: 0 <= j < i ==> !RouteMatches(routes[j].path, path)) ==> r == Some(routes[i].page)
  {
    match FirstWhere(routes, (route: Route) => RouteMatches(route.path, path))
    case None => None
    case Some(i) => Some(routes[i].page)
  }

  /** One more trailing slash does not change what a path matches. */
  lemma TrailingSlashIgnored(routePath: string, path: string)
    requires path != []
    ensures RouteMatches(routePath, path + "/") <==> RouteMatches(routePath, path)
  {
    assert (path + "/")[..|path|] == path;
  }

  /** Lower-casing keeps a trailing slash ... */
  lemma LowerSlashEnd(s: string)
    requires s != [] && s[|s| - 1] == '/'
    ensures Lower(s) == Lower(s[..|s| - 1]) + "/"
  {
    var t := s[..|s| - 1];
    assert s == t + "/";
    LowerAppend(t, "/");
    assert Lower("/") == "/";
  }

  /** ... and makes no slash at the end. */
  lemma LowerOtherEnd(s: string)
    requires s != [] && s[|s| - 1] != '/'
    ensures Lower(s)[|s| - 1] != '/'
  {
    LowerChars(s);
  }

  /** Dropping trailing slashes commutes with lower-casing. */
  lemma {:induction false} TrimSlashesLower(s: string)
    ensures Lower(TrimSlashes(s)) == TrimSlashes(Lower(s))
    decreases |s|
  {
    if s != [] && s[|s| - 1] == '/' {
      var t := s[..|s| - 1];
      TrimSlashesLower(t);
      LowerSlashEnd(s);
      assert (Lower(t) + "/")[..|s| - 1] == Lower(t);
    } else if s != [] {
      LowerOtherEnd(s);
    }
  }

  /** The case of the location's path does not change what it matches. */
  lemma CaseIgnored(routePath: string, path: string)
    ensures RouteMatches(routePath, Lower(path)) <==> RouteMatches(routePath, path)
  {
    TrimSlashesLower(path);
    TrimSlashesLower(Lower(path));
    LowerIdempotent(path);
    LowerIdempotent(TrimSlashes(path));
  }

  function Navigate(path: string): Option<Page> {
    Lookup(RouteTable, path)
  }

  /** Ten routes, no two with the same path. */
  lemma RoutePathsDistinct()
    ensures |RouteTable| == 10
    ensures forall i, j :: 0 <= i < j < |RouteTable| ==> RouteTable[i].path != RouteTable[j].path
  {
  }

  /** A lower-case path without a trailing slash is its own key. */
  lemma PlainKey(path: string)
    requires path == [] || path[|path| - 1] != '/'
    requires forall k :: 0 <= k < |path| ==> !('A' <= path[k] <= 'Z')
    ensures Key(path) == path
  {
    LowerNoUpper(path);
  }

  /** The keys of the route table: its paths, the root's being empty. */
  lemma RouteKey(i: nat)
    requires i < |RouteTable|
    ensures Key(RouteTable[i].path) == if i == 0 then "" else RouteTable[i].path
  {
    if i == 0 {
      assert TrimSlashes("/") == TrimSlashes("/"[..0]);
    } else {
      PlainKey(RouteTable[i].path);
    }
  }

  /** No two routes have the same key, so no path matches two routes and the
      order of the table, or React Router's ranking, decides nothing. */
  lemma RouteKeysDistinct()
    ensures forall i, j :: 0 <= i < j < |RouteTable| ==> Key(RouteTable[i].path) != Key(RouteTable[j].path)
  {
    RoutePathsDistinct();
    forall i, j | 0 <= i < j < |RouteTable| ensures Key(RouteTable[i].path) != Key(RouteTable[j].path) {
      RouteKey(i);
      RouteKey(j);
    }
  }

  /** A path renders the page of the route whose key it has. */
  lemma NavigateByKey(k: nat, path: string)
    requires k < |RouteTable| && path != [] && Key(path) == Key(RouteTable[k].path)
    ensures Navigate(path) == Some(RouteTable[k].page)
  {
    RouteKeysDistinct();
  }

  /** Every route's own path renders its page. */
  lemma NavigateRoute(k: nat)
    requires k < |RouteTable|
    ensures Navigate(RouteTable[k].path) == Some(RouteTable[k].page)
  {
    NavigateByKey(k, RouteTable[k].path);
  }

  /** The home page's cards link to `/project1` … `/project3`, which render
      `projects[0]` … `projects[2]`. */
  lemma ProjectRoutesRender(i: nat)
    requires i < 3
    ensures Navigate(HomePage.ProjectRoute(i)) == Some(ProjectView(i))
  {
    if i == 0 {
      assert NatToString(1) == "1";
      assert HomePage.ProjectRoute(i) == RouteTable[3].path;
    } else if i == 1 {
      assert NatToString(2) == "2";
      assert HomePage.ProjectRoute(i) == RouteTable[4].path;
    } else {
      assert NatToString(3) == "3";
      assert HomePage.ProjectRoute(i) == RouteTable[5].path;
    }
    NavigateRoute(i + 3);
  }

  /** Every link of the command palette leads to a page. */
  lemma PaletteLinksRouted()
    ensures forall k :: 0 <= k < |CommandPalette.NavLinks| ==> Navigate(CommandPalette.NavLinks[k].path).Some?
  {
    forall k | 0 <= k < |CommandPalette.NavLinks|
      ensures Navigate(CommandPalette.NavLinks[k].path).Some?
    {
      assert CommandPalette.NavLinks[k].path == RouteTable[k].path;
      NavigateRoute(k);
    }
  }

  /** A fourth project, if one were added, would get a card route on the home
      page but no route here. */
  lemma FourthProjectUnrouted()
    ensures Navigate(HomePage.ProjectRoute(3)) == None
  {
    FourthRoute();
    forall i | 0 <= i < |RouteTable|
      ensures !RouteMatches(RouteTable[i].path, "/project4")
    {
      FourthUnmatched(i);
    }
  }

  lemma FourthRoute()
    ensures HomePage.ProjectRoute(3) == "/project4"
  {
    assert NatToString(4) == "4";
  }

  /** `/project4` has no route's key. */
  lemma FourthUnmatched(i: nat)
    requires i < |RouteTable|
    ensures !RouteMatches(RouteTable[i].path, "/project4")
  {
    PlainKey("/project4");
    RouteKey(i);
    FourthNotInTable();
  }

  lemma FourthNotInTable()
    ensures forall k :: 0 <= k < |RouteTable| ==> RouteTable[k].path != "/project4"
  {
    forall k | 0 <= k < |RouteTable| ensures RouteTable[k].path != "/project4" {
      var q := RouteTable[k].path;
      assert |q| != 9 || q[8] != '4';
    }
  }

  /** The team page is reached in any case and with a trailing slash. */
  lemma TeamAnyCase()
    ensures Navigate("/Team") == Some(Team)
    ensures Navigate("/team/") == Some(Team)
  {
    RouteKey(1);
    TeamCapitalKey();
    NavigateByKey(1, "/Team");
    TeamSlashKey();
    NavigateByKey(1, "/team/");
  }

  lemma TeamCapitalKey()
    ensures Key("/Team") == "/team"
  {
    assert TrimSlashes("/Team") == "/Team";
    LowerChars("/Team");
  }

  lemma TeamSlashKey()
    ensures Key("/team/") == "/team"
  {
    assert "/team/"[..5] == "/team";
    assert TrimSlashes("/team/") == TrimSlashes("/team") == "/team";
    PlainKey("/team");
  }

  // ---------------------------------------------------------------------------
  // The window's keydown and scroll handlers

  /** The palette's open state after a key press: lower-case `k` with Meta or
      Ctrl flips it, any other key leaves it. */
  function PaletteOpenAfterKey(open: bool, key: string, meta: bool, ctrl: bool): (r: bool)
    ensures r != open <==> key == "k" && (meta || ctrl)
  {
    if key == "k" && (meta || ctrl) then !open else open
  }

  /** The shortcut pressed twice restores the state. */
  lemma ShortcutTwice(open: bool, key: string, meta: bool, ctrl: bool)
    ensures PaletteOpenAfterKey(PaletteOpenAfterKey(open, key, meta, ctrl), key, meta, ctrl) == open
  {
  }

  class Shell {
    /** The palette whose `isOpen` is `isCommandPaletteOpen`. */
    const palette: CommandPalette.Palette
    var isScrolled: bool

    constructor()
      ensures fresh(palette)
      ensures !palette.isOpen && !isScrolled && palette.Valid()
      ensures palette.searchTerm == "" && palette.visited == []
    {
      palette := new CommandPalette.Palette();
      isScrolled := false;
    }

    /** The window `keydown` handler. */
    method OnKeyDown(key: string, meta: bool, ctrl: bool)
      modifies palette
      ensures palette.isOpen == PaletteOpenAfterKey(old(palette.isOpen), key, meta, ctrl)
      ensures palette.searchTerm == old(palette.searchTerm) && palette.activeIndex == old(palette.activeIndex)
      ensures palette.visited == old(palette.visited)
      ensures isScrolled == old(isScrolled)
    {
      if key == "k" && (meta || ctrl) {
        palette.SetIsOpen(!palette.isOpen);
      }
    }

    /** The window `scroll` handler: the header counts as scrolled past 10 pixels. */
    method OnScroll(scrollY: real)
      modifies this
      ensures isScrolled <==> scrollY > 10.0
    {
      isScrolled := scrollY > 10.0;
    }
  }
}
