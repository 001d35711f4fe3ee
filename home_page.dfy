/** pages/HomePage.tsx: the tags a project card shows, with their colour
    (the home page's own `getTagColorClass`, see `TagThemes`), and the page
    each project card links to. */
module HomePage {
  import opened Text
  import TagThemes

  /** The part of a project a card uses. */
  datatype Project = Project(id: string, name: string, tags: Option<seq<string>>)

  /** How many tags a card that is not featured shows. */
  const CardTagLimit := 5

  /** `tags && tags.length > 0 && (isFeatured ? tags : tags.slice(0, 5))`:
      the featured card shows every tag, the others the first five; a missing
      or empty list shows nothing. */
  function VisibleTags(tags: Option<seq<string>>, featured: bool): (r: seq<string>)
    ensures tags.None? ==> r == []
    ensures tags.Some? ==> |r| <= |tags.value| && r == tags.value[..|r|]
    ensures tags.Some? && featured ==> r == tags.value
    ensures tags.Some? && !featured ==> |r| == if |tags.value| < CardTagLimit then |tags.value| else CardTagLimit
  {
    match tags
    case None => []
    case Some(t) =>
      if featured || |t| <= CardTagLimit then t else t[..CardTagLimit]
  }

  /** One tag pill: its text and colour theme. */
  datatype Badge = Badge(tag: string, theme: TagThemes.Theme)

  /** The pills of a card, in the order of its tags. */
  function Badges(tags: Option<seq<string>>, featured: bool): (r: seq<Badge>)
    ensures |r| == |VisibleTags(tags, featured)|
    ensures forall i :: 0 <= i < |r| ==>
      r[i].tag == VisibleTags(tags, featured)[i] && r[i].theme == TagThemes.HomePageTheme(r[i].tag)
  {
    var v := VisibleTags(tags, featured);
    seq(|v|, i requires 0 <= i < |v| => Badge(v[i], TagThemes.HomePageTheme(v[i])))
  }

  /** The route of the `i`-th project (0-based): `/project` followed by decimal digits. */
  function ProjectRoute(i: nat): (r: string)
    ensures |r| > 8 && r[..8] == "/project"
    ensures forall k :: 8 <= k < |r| ==> '0' <= r[k] <= '9'
  {
    "/project" + NatToString(i + 1)
  }

  lemma FirstRoute()
    ensures ProjectRoute(0) == "/project1"
  {
    assert NatToString(1) == "1";
  }

  /** A card on the page: where it links, whose project it shows, whether it is the featured one. */
  datatype Card = Card(route: string, projectId: string, featured: bool, badges: seq<Badge>)

  /** The card of `projects.slice(1)[index]`, linked to `/project${index + 2}`. */
  function OtherCard(p: Project, index: nat): (r: Card)
    ensures r.route == ProjectRoute(index + 1) && r.projectId == p.id && !r.featured
  {
    Card("/project" + NatToString(index + 2), p.id, false, Badges(p.tags, false))
  }

  /** The featured card for `projects[0]`, linked to `/project1`, then the
      cards of the other projects in order. */
  function Cards(projects: seq<Project>): (r: seq<Card>)
    requires |projects| >= 1
    ensures |r| == |projects|
    ensures forall i :: 0 <= i < |r| ==>
      r[i].route == ProjectRoute(i) && r[i].projectId == projects[i].id && (r[i].featured <==> i == 0)
  {
    var first := Card("/project1", projects[0].id, true, Badges(projects[0].tags, true));
    var others := projects[1..];
    var rest := seq(|others|, index requires 0 <= index < |others| => OtherCard(others[index], index));
    var r := [first] + rest;
    FirstRoute();
    forall i | 1 <= i < |r| ensures r[i] == OtherCard(projects[i], i - 1) {
      assert r[i] == rest[i - 1];
    }
    r
  }

  /** Every card links to a different page. */
  lemma CardRoutesDistinct(projects: seq<Project>, i: nat, j: nat)
    requires |projects| >= 1 && i < j < |projects|
    ensures Cards(projects)[i].route != Cards(projects)[j].route
  {
    var c := Cards(projects);
    if c[i].route == c[j].route {
      assert "/project" + NatToString(i + 1) == "/project" + NatToString(j + 1);
      assert NatToString(i + 1) == ("/project" + NatToString(i + 1))[8..];
      assert NatToString(j + 1) == ("/project" + NatToString(j + 1))[8..];
      NatToStringInjective(i + 1, j + 1);
    }
  }
}
