/** components/HeroImageSelector.tsx: a dialog that lists the hero background
    images of one category at a time; picking an image hands its URL to the
    caller and asks the caller to close the dialog. */
module HeroImageSelector {
  import opened Text

  /** `HeroImage['category']` */
  datatype Category = Countries | Fantasy | SciFi | History | Nature

  /** `HeroImage` */
  datatype HeroImage = HeroImage(id: string, url: string, alt: string, category: Category)

  /** `categories`: the tabs, in their order. */
  const Categories: seq<Category> := [Countries, Fantasy, SciFi, History, Nature]

  /** The five tabs are the five categories, each once. */
  lemma CategoriesComplete()
    ensures forall c: Category :: c in Categories
    ensures forall i, j :: 0 <= i < j < |Categories| ==> Categories[i] != Categories[j]
  {
    forall c: Category
      ensures c in Categories
    {
      match c
      case Countries => assert Categories[0] == c;
      case Fantasy => assert Categories[1] == c;
      case SciFi => assert Categories[2] == c;
      case History => assert Categories[3] == c;
      case Nature => assert Categories[4] == c;
    }
  }

  // ---------------------------------------------------------------------------
  // `filteredImages`

  /** `images.filter(img => img.category === activeCategory)` */
  function Filter(images: seq<HeroImage>, c: Category): (r: seq<HeroImage>)
    ensures |r| <= |images|
    ensures forall x :: x in r <==> x in images && x.category == c
  {
    if images == [] then []
    else
      var rest := Filter(images[1..], c);
      assert forall x :: x in images <==> x == images[0] || x in images[1..];
      if images[0].category == c then [images[0]] + rest else rest
  }

  /** Filtering keeps the order: the images of a list and its extension are
      the images of the list and those of the extension. */
  lemma {:induction false} FilterAppend(a: seq<HeroImage>, b: seq<HeroImage>, c: Category)
    ensures Filter(a + b, c) == Filter(a, c) + Filter(b, c)
  {
    if a == [] {
      assert a + b == b;
    } else {
      assert (a + b)[1..] == a[1..] + b;
      FilterAppend(a[1..], b, c);
    }
  }

  /** The number of images the tabs `cs` show between them. */
  function Shown(images: seq<HeroImage>, cs: seq<Category>): nat {
    if cs == [] then 0 else |Filter(images, cs[0])| + Shown(images, cs[1..])
  }

  /** One more image adds one to what the tabs show exactly when its category is among them. */
  lemma {:induction false} ShownStep(images: seq<HeroImage>, x: HeroImage, cs: seq<Category>)
    requires forall i, j :: 0 <= i < j < |cs| ==> cs[i] != cs[j]
    ensures Shown([x] + images, cs) == Shown(images, cs) + (if x.category in cs then 1 else 0)
  {
    if cs != [] {
      assert ([x] + images)[1..] == images;
      ShownStep(images, x, cs[1..]);
      assert x.category in cs <==> x.category == cs[0] || x.category in cs[1..];
    }
  }

  /** Between them the five tabs show every image exactly once. */
  lemma {:induction false} TabsPartition(images: seq<HeroImage>)
    ensures Shown(images, Categories) == |images|
  {
    if images != [] {
      TabsPartition(images[1..]);
      CategoriesComplete();
      assert images == [images[0]] + images[1..];
      ShownStep(images[1..], images[0], Categories);
    } else {
      assert Shown([], Categories) == 0;
    }
  }

  // ---------------------------------------------------------------------------
  // The dialog

  /** A call the dialog makes to its caller. */
  datatype Call = OnSelect(url: string) | OnClose

  /** Every `onSelect` the dialog makes is answered at once by `onClose`. */
  predicate SelectThenClose(calls: seq<Call>) {
    forall i :: 0 <= i < |calls| && calls[i].OnSelect? ==> i + 1 < |calls| && calls[i + 1] == OnClose
  }

  lemma SelectThenCloseAppend(calls: seq<Call>, more: seq<Call>)
    requires SelectThenClose(calls) && SelectThenClose(more)
    requires more == [] || more[|more| - 1] == OnClose
    ensures SelectThenClose(calls + more)
  {
    var all := calls + more;
    forall i | 0 <= i < |all| && all[i].OnSelect?
      ensures i + 1 < |all| && all[i + 1] == OnClose
    {
      if i >= |calls| {
        assert all[i] == more[i - |calls|];
      } else {
        assert all[i] == calls[i];
      }
    }
  }
  class Selector {
    /** The `isOpen` prop, which the caller owns. */
    var isOpen: bool
    const images: seq<HeroImage>
    var activeCategory: Category
    /** The calls made to `onSelect` and `onClose`, oldest first. */
    var calls: seq<Call>

    ghost predicate Valid()
      reads this
    {
      SelectThenClose(calls)
    }

    constructor(isOpen: bool, images: seq<HeroImage>)
      ensures this.isOpen == isOpen && this.images == images
      ensures Valid() && activeCategory == Countries && calls == []
    {
      this.isOpen := isOpen;
      this.images := images;
      activeCategory := Countries;
      calls := [];
    }

    /** What the dialog renders: nothing while closed, otherwise the images
        of the active tab. */
    function Visible(): (r: Option<seq<HeroImage>>)
      reads this
      ensures !isOpen <==> r.None?
      ensures r.Some? ==> forall x :: x in r.value <==> x in images && x.category == activeCategory
    {
      if !isOpen then None else Some(Filter(images, activeCategory))
    }

    /** The caller opens or closes the dialog. */
    method SetOpen(open: bool)
      modifies this
      ensures isOpen == open
      ensures activeCategory == old(activeCategory) && calls == old(calls)
    {
      isOpen := open;
    }

    /** A tab button. */
    method ChooseCategory(c: Category)
      requires isOpen
      modifies this
      ensures activeCategory == c
      ensures isOpen == old(isOpen) && calls == old(calls)
    {
      activeCategory := c;
    }

    /** `handleSelect` for the `i`-th visible image: `onSelect` with its URL, then `onClose`. */
    method ClickImage(i: nat)
      requires Valid() && isOpen && i < |Filter(images, activeCategory)|
      modifies this
      ensures Valid()
      ensures isOpen == old(isOpen) && activeCategory == old(activeCategory)
      ensures calls == old(calls) + [OnSelect(Filter(images, activeCategory)[i].url), OnClose]
    {
      var url := Filter(images, activeCategory)[i].url;
      SelectThenCloseAppend(calls, [OnSelect(url), OnClose]);
      calls := calls + [OnSelect(url)];
      calls := calls + [OnClose];
    }

    /** The backdrop or the close button: `onClose` alone. */
    method Dismiss()
      requires Valid() && isOpen
      modifies this
      ensures Valid()
      ensures calls == old(calls) + [OnClose]
      ensures isOpen == old(isOpen) && activeCategory == old(activeCategory)
    {
      SelectThenCloseAppend(calls, [OnClose]);
      calls := calls + [OnClose];
    }
  }

}
