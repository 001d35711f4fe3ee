/** components/CommandPalette.tsx: the page search of the site. The list of
    links is filtered by the search term; the arrow keys move a highlighted
    index that wraps around, Enter follows the highlighted link and Escape
    closes the palette. */
module CommandPalette {
  import opened Text

  datatype NavLink = NavLink(path: string, title: string)

  /** `navLinks` */
  const NavLinks: seq<NavLink> := [
    NavLink("/", "Home"),
    NavLink("/team", "Team"),
    NavLink("/about-hackathon", "About Hackathon"),
    NavLink("/project1", "Project: S.S.O."),
    NavLink("/project2", "Project: Miscellaneous Tutor"),
    NavLink("/project3", "Project: Ask Smart"),
    NavLink("/communication", "Communication"),
    NavLink("/journal", "Journal"),
    NavLink("/glossary", "Glossary"),
    NavLink("/tutorial", "Tutorial")]

  // ---------------------------------------------------------------------------
  // `filteredLinks`

  /** `link.label.toLowerCase().includes(searchTerm.toLowerCase())` */
  predicate LinkMatches(link: NavLink, term: string) {
    Contains(Lower(link.title), Lower(term))
  }

  /** `links.filter(…)`: the matching links, in their order. */
  function Filter(links: seq<NavLink>, term: string): (r: seq<NavLink>)
    ensures |r| <= |links|
    ensures forall i :: 0 <= i < |r| ==> r[i] in links && LinkMatches(r[i], term)
    ensures forall i :: 0 <= i < |links| && LinkMatches(links[i], term) ==> links[i] in r
  {
    if links == [] then []
    else
      var rest := Filter(links[1..], term);
      assert forall i :: 1 <= i < |links| ==> links[i] == links[1..][i - 1];
      if LinkMatches(links[0], term) then [links[0]] + rest else rest
  }

  /** Filtering keeps the order: a list and its extension filter to a list and its extension. */
  lemma {:induction false} FilterAppend(a: seq<NavLink>, b: seq<NavLink>, term: string)
    ensures Filter(a + b, term) == Filter(a, term) + Filter(b, term)
  {
    if a == [] {
      assert a + b == b;
    } else {
      assert (a + b)[1..] == a[1..] + b;
      FilterAppend(a[1..], b, term);
    }
  }

  /** The empty term occurs in every label, so it keeps every link. */
  lemma {:induction false} EmptyTermKeepsAll(links: seq<NavLink>)
    ensures Filter(links, "") == links
  {
    if links != [] {
      assert OccursAt(Lower(links[0].title), 0, Lower(""));
      EmptyTermKeepsAll(links[1..]);
    }
  }

  /** With no search term the palette lists all ten pages. */
  lemma AllTenWithoutTerm()
    ensures |Filter(NavLinks, "")| == 10
  {
    EmptyTermKeepsAll(NavLinks);
  }

  // ---------------------------------------------------------------------------
  // The highlighted index

  /** The highlighted index as JavaScript holds it: a number that is an index
      into the filtered links, or NaN once the arrows were used on an empty list. */
  datatype ActiveIndex = At(i: nat) | NaN

  /** ArrowDown: `(prev + 1) % filteredLinks.length` */
  function Down(a: ActiveIndex, n: nat): (r: ActiveIndex)
    ensures n > 0 && a.At? ==> r.At? && r.i < n
    ensures n == 0 || a.NaN? ==> r.NaN?
  {
    match a
    case NaN => NaN
    case At(i) => if n == 0 then NaN else At(JsRem(i + 1, n))
  }

  /** ArrowUp: `(prev - 1 + filteredLinks.length) % filteredLinks.length` */
  function Up(a: ActiveIndex, n: nat): (r: ActiveIndex)
    ensures n > 0 && a.At? ==> r.At? && r.i < n
    ensures n == 0 || a.NaN? ==> r.NaN?
  {
    match a
    case NaN => NaN
    case At(i) => if n == 0 then NaN else At(JsRem(i - 1 + n, n))
  }

  /** ArrowDown then ArrowUp, or ArrowUp then ArrowDown, comes back to the same link. */
  lemma UpUndoesDown(i: nat, n: nat)
    requires i < n
    ensures Up(Down(At(i), n), n) == At(i)
    ensures Down(Up(At(i), n), n) == At(i)
  {
    if i + 1 < n {
      ModUnique(i + 1, n, 0, i + 1);
      ModUnique(i + 1 - 1 + n, n, 1, i);
    } else {
      ModUnique(i + 1, n, 1, 0);
      ModUnique(0 - 1 + n, n, 0, n - 1);
    }
    if i > 0 {
      ModUnique(i - 1 + n, n, 1, i - 1);
      ModUnique(i - 1 + 1, n, 0, i);
    } else {
      ModUnique(i - 1 + n, n, 0, n - 1);
      ModUnique(n - 1 + 1, n, 1, 0);
    }
  }

  /** ArrowDown pressed `k` times. */
  function DownTimes(a: ActiveIndex, n: nat, k: nat): ActiveIndex {
    if k == 0 then a else Down(DownTimes(a, n, k - 1), n)
  }

  lemma {:induction false} DownTimesAt(i: nat, n: nat, k: nat)
    requires i < n
    ensures DownTimes(At(i), n, k) == At((i + k) % n)
  {
    if k == 0 {
      ModUnique(i, n, 0, i);
    } else {
      DownTimesAt(i, n, k - 1);
      ModNext(i + (k - 1), n);
    }
  }

  /** Pressing ArrowDown `n` times on a list of `n` links comes back to the start. */
  lemma FullCycle(i: nat, n: nat)
    requires i < n
    ensures DownTimes(At(i), n, n) == At(i)
  {
    DownTimesAt(i, n, n);
    ModUnique(i + n, n, 1, i);
  }

  // ---------------------------------------------------------------------------
  // The palette

  datatype Key = ArrowDown | ArrowUp | Enter | Escape | OtherKey

  class Palette {
    /** `isOpen`, owned by the application shell and set through `setIsOpen`. */
    var isOpen: bool
    var searchTerm: string
    var activeIndex: ActiveIndex
    /** The paths handed to `navigate`, oldest first. */
    var visited: seq<string>

    /** `filteredLinks` for the current term. */
    function Filtered(): seq<NavLink>
      reads this
    {
      Filter(NavLinks, searchTerm)
    }

    /** The highlighted index points into the list, or is the reset value 0
        or NaN when the list is empty. */
    ghost predicate Valid()
      reads this
    {
      && (activeIndex.At? ==> activeIndex.i < |Filtered()| || activeIndex.i == 0)
      && (activeIndex.NaN? ==> |Filtered()| == 0)
    }

    constructor()
      ensures Valid()
      ensures !isOpen && searchTerm == "" && activeIndex == At(0) && visited == []
    {
      isOpen := false;
      searchTerm := "";
      activeIndex := At(0);
      visited := [];
    }

    /** `setIsOpen(open)` from outside. */
    method SetIsOpen(open: bool)
      modifies this
      ensures isOpen == open
      ensures searchTerm == old(searchTerm) && activeIndex == old(activeIndex) && visited == old(visited)
    {
      isOpen := open;
    }

    /** Typing in the box: a new term resets the highlighted index to 0
        (the effect on `searchTerm`); the same term changes nothing. */
    method ChangeSearch(term: string)
      requires Valid()
      modifies this
      ensures Valid()
      ensures searchTerm == term
      ensures activeIndex == if term != old(searchTerm) then At(0) else old(activeIndex)
      ensures isOpen == old(isOpen) && visited == old(visited)
    {
      if term != searchTerm {
        activeIndex := At(0);
      }
      searchTerm := term;
    }

    /** `handleKeyDown` */
    method KeyDown(key: Key)
      requires Valid()
      modifies this
      ensures Valid()
      ensures searchTerm == old(searchTerm)
      ensures key == ArrowDown ==> activeIndex == Down(old(activeIndex), |Filtered()|)
      ensures key == ArrowUp ==> activeIndex == Up(old(activeIndex), |Filtered()|)
      ensures key != ArrowDown && key != ArrowUp ==> activeIndex == old(activeIndex)
      ensures key == Enter && old(activeIndex).At? && old(activeIndex).i < |Filtered()| ==>
        visited == old(visited) + [Filtered()[old(activeIndex).i].path] && !isOpen
      ensures key == Escape ==> !isOpen && visited == old(visited)
      ensures key == Enter && !(old(activeIndex).At? && old(activeIndex).i < |Filtered()|) ==>
        isOpen == old(isOpen) && visited == old(visited)
      ensures key == ArrowDown || key == ArrowUp || key == OtherKey ==> isOpen == old(isOpen) && visited == old(visited)
    {
      var filtered := Filter(NavLinks, searchTerm);
      var n := |filtered|;
      match key
      case ArrowDown =>
        activeIndex := Down(activeIndex, n);
      case ArrowUp =>
        activeIndex := Up(activeIndex, n);
      case Enter =>
        if activeIndex.At? && activeIndex.i < n {
          visited := visited + [filtered[activeIndex.i].path];
          isOpen := false;
        }
      case Escape =>
        isOpen := false;
      case OtherKey =>
    }

    /** `handleClose`: closes and clears the term, which resets the index
        when the term was not already empty. */
    method Close()
      requires Valid()
      modifies this
      ensures Valid()
      ensures !isOpen && searchTerm == ""
      ensures activeIndex == if old(searchTerm) != "" then At(0) else old(activeIndex)
      ensures visited == old(visited)
    {
      isOpen := false;
      ChangeSearch("");
    }

    /** Clicking the `i`-th listed link: the router follows it, then `handleClose` runs. */
    method ClickLink(i: nat)
      requires Valid()
      requires i < |Filtered()|
      modifies this
      ensures Valid()
      ensures visited == old(visited) + [old(Filtered())[i].path]
      ensures !isOpen && searchTerm == ""
      ensures activeIndex == if old(searchTerm) != "" then At(0) else old(activeIndex)
    {
      visited := visited + [Filter(NavLinks, searchTerm)[i].path];
      Close();
    }
  }
}
