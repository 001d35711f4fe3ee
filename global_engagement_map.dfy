/** components/GlobalEngagementMap.tsx: testimonials grouped by country, one
    marker per country on the globe, sized by its number of testimonials,
    the largest group highlighted. */
module GlobalEngagementMap {
  import opened Text
  import opened Types

  /** The keys of `countryPositions`: the countries that have a place on the globe. */
  const KnownCountries: seq<string> := ["USA", "Canada", "Brazil", "Japan"]

  predicate Known(country: string) {
    country in KnownCountries
  }

  // ---------------------------------------------------------------------------
  // Specification of the grouping

  /** The testimonials from `country`, in their order. */
  function GroupOf(ts: seq<Testimonial>, country: string): seq<Testimonial> {
    if ts == [] then []
    else GroupOf(ts[..|ts| - 1], country) + (if ts[|ts| - 1].country == country then [ts[|ts| - 1]] else [])
  }

  /** The testimonials from a country with a place on the globe, in their order. */
  function KnownOnly(ts: seq<Testimonial>): seq<Testimonial> {
    if ts == [] then []
    else KnownOnly(ts[..|ts| - 1]) + (if Known(ts[|ts| - 1].country) then [ts[|ts| - 1]] else [])
  }

  /** The known countries in the order of their first testimonial: the order
      in which the grouping object receives its keys. */
  function FirstSeen(ts: seq<Testimonial>): seq<string> {
    if ts == [] then []
    else
      var p := FirstSeen(ts[..|ts| - 1]);
      var c := ts[|ts| - 1].country;
      if Known(c) && c !in p then p + [c] else p
  }

  lemma {:induction false} FirstSeenIff(ts: seq<Testimonial>, c: string)
    ensures c in FirstSeen(ts) <==> Known(c) && GroupOf(ts, c) != []
  {
    if ts != [] {
      FirstSeenIff(ts[..|ts| - 1], c);
    }
  }

  lemma {:induction false} FirstSeenDistinct(ts: seq<Testimonial>)
    ensures forall i, j :: 0 <= i < j < |FirstSeen(ts)| ==> FirstSeen(ts)[i] != FirstSeen(ts)[j]
  {
    if ts != [] {
      FirstSeenDistinct(ts[..|ts| - 1]);
    }
  }

  // ---------------------------------------------------------------------------
  // `groupTestimonialsByCountry`

  /** Fills the grouping object testimonial by testimonial; `order` is the
      order of its keys, as `Object.entries` lists them. */
  method GroupByCountry(ts: seq<Testimonial>) returns (order: seq<string>, grouped: map<string, seq<Testimonial>>)
    ensures order == FirstSeen(ts)
    ensures forall c :: c in grouped <==> c in order
    ensures forall c :: c in grouped ==> Known(c) && grouped[c] == GroupOf(ts, c) && grouped[c] != []
  {
    order := [];
    grouped := map[];
    for i := 0 to |ts|
      invariant order == FirstSeen(ts[..i])
      invariant forall c :: c in grouped <==> c in order
      invariant forall c :: c in grouped ==> Known(c) && grouped[c] == GroupOf(ts[..i], c)
    {
      assert ts[..i + 1][..i] == ts[..i];
      var t := ts[i];
      if t.country in KnownCountries {
        if t.country !in grouped {
          grouped := grouped[t.country := []];
          order := order + [t.country];
          FirstSeenIff(ts[..i], t.country);
        }
        grouped := grouped[t.country := grouped[t.country] + [t]];
      }
    }
    assert ts[..|ts|] == ts;
    forall c | c in grouped ensures grouped[c] != [] {
      FirstSeenIff(ts, c);
    }
  }

  // ---------------------------------------------------------------------------
  // Group sizes

  /** The sizes of the groups of the countries `cs`, added up. */
  function SumGroups(cs: seq<string>, ts: seq<Testimonial>): nat {
    if cs == [] then 0 else |GroupOf(ts, cs[0])| + SumGroups(cs[1..], ts)
  }

  lemma {:induction false} SumGroupsAppend(cs: seq<string>, c: string, ts: seq<Testimonial>)
    ensures SumGroups(cs + [c], ts) == SumGroups(cs, ts) + |GroupOf(ts, c)|
  {
    if cs == [] {
      assert [] + [c] == [c];
    } else {
      assert (cs + [c])[1..] == cs[1..] + [c];
      SumGroupsAppend(cs[1..], c, ts);
    }
  }

  /** One more testimonial adds one to the total exactly when its country is listed once in `cs`. */
  lemma {:induction false} SumGroupsStep(cs: seq<string>, ts: seq<Testimonial>, t: Testimonial)
    requires forall i, j :: 0 <= i < j < |cs| ==> cs[i] != cs[j]
    ensures SumGroups(cs, ts + [t]) == SumGroups(cs, ts) + (if t.country in cs then 1 else 0)
  {
    if cs != [] {
      assert (ts + [t])[..|ts + [t]| - 1] == ts;
      SumGroupsStep(cs[1..], ts, t);
      assert t.country in cs <==> t.country == cs[0] || t.country in cs[1..];
    }
  }

  /** The markers account for every testimonial from a known country, once. */
  lemma {:induction false} GroupSizesSum(ts: seq<Testimonial>)
    ensures SumGroups(FirstSeen(ts), ts) == |KnownOnly(ts)|
  {
    if ts != [] {
      var s := ts[..|ts| - 1];
      var t := ts[|ts| - 1];
      assert ts == s + [t];
      var p := FirstSeen(s);
      GroupSizesSum(s);
      FirstSeenDistinct(s);
      SumGroupsStep(p, s, t);
      if Known(t.country) && t.country !in p {
        SumGroupsAppend(p, t.country, ts);
        FirstSeenIff(s, t.country);
      } else if !Known(t.country) {
        FirstSeenIff(s, t.country);
      }
    }
  }

  // ---------------------------------------------------------------------------
  // Markers

  /** `Math.max(0, ...sizes)` */
  function MaxCount(sizes: seq<nat>): (r: nat)
    ensures forall i :: 0 <= i < |sizes| ==> sizes[i] <= r
    ensures (sizes == [] && r == 0) || exists i :: 0 <= i < |sizes| && sizes[i] == r
  {
    if sizes == [] then 0
    else
      var m := MaxCount(sizes[1..]);
      assert forall i :: 1 <= i < |sizes| ==> sizes[i] == sizes[1..][i - 1];
      if sizes[0] >= m then sizes[0]
      else
        assert sizes[1..] != [];
        var i :| 0 <= i < |sizes[1..]| && sizes[1..][i] == m;
        assert sizes[i + 1] == m;
        m
  }

  /** The marker diameter in pixels: 16 for one testimonial, 4 more for each further one. */
  function MarkerSize(count: nat): int {
    16 + (count - 1) * 4
  }

  lemma MarkerSizeGrows(a: nat, b: nat)
    requires 1 <= a < b
    ensures 16 <= MarkerSize(a) < MarkerSize(b)
  {
  }

  /** A marker is gold when its group is the largest and has more than one testimonial. */
  predicate IsMax(count: nat, maxCount: nat) {
    count == maxCount && maxCount > 1
  }

  /** One marker: its country, the size of its group, its diameter, whether
      it is gold and whether it shows the count. */
  datatype Marker = Marker(country: string, count: nat, size: int, highlighted: bool, showsCount: bool)

  function Sizes(order: seq<string>, grouped: map<string, seq<Testimonial>>): (r: seq<nat>)
    requires forall c :: c in order ==> c in grouped
    ensures |r| == |order| && forall i :: 0 <= i < |order| ==> r[i] == |grouped[order[i]]|
  {
    seq(|order|, i requires 0 <= i < |order| => |grouped[order[i]]|)
  }

  /** The markers, in the order of `Object.entries`. */
  function Markers(order: seq<string>, grouped: map<string, seq<Testimonial>>): (r: seq<Marker>)
    requires forall c :: c in order ==> c in grouped
    ensures |r| == |order|
    ensures forall i :: 0 <= i < |r| ==>
      var n := |grouped[order[i]]|;
      r[i].country == order[i] && r[i].count == n && r[i].size == MarkerSize(n) &&
      (r[i].highlighted <==> n == MaxCount(Sizes(order, grouped)) && n > 1) &&
      (r[i].showsCount <==> n > 1)
  {
    var m := MaxCount(Sizes(order, grouped));
    seq(|order|, i requires 0 <= i < |order| =>
      var n := |grouped[order[i]]|;
      Marker(order[i], n, MarkerSize(n), IsMax(n, m), n > 1))
  }

  /** A group of one is never gold and never shows its count; when some group
      has two or more testimonials, some marker is gold, and no gold marker
      is smaller than another. */
  lemma HighlightRules(order: seq<string>, grouped: map<string, seq<Testimonial>>)
    requires forall c :: c in order ==> c in grouped
    ensures forall i :: 0 <= i < |order| && |grouped[order[i]]| == 1 ==>
      !Markers(order, grouped)[i].highlighted && !Markers(order, grouped)[i].showsCount
    ensures (exists i :: 0 <= i < |order| && |grouped[order[i]]| > 1) ==>
      exists i :: 0 <= i < |order| && Markers(order, grouped)[i].highlighted
    ensures forall i, j :: 0 <= i < |order| && 0 <= j < |order| && Markers(order, grouped)[i].highlighted ==>
      Markers(order, grouped)[j].size <= Markers(order, grouped)[i].size
  {
    var sizes := Sizes(order, grouped);
    var m := MaxCount(sizes);
    var r := Markers(order, grouped);
    if exists i :: 0 <= i < |order| && |grouped[order[i]]| > 1 {
      var i :| 0 <= i < |order| && |grouped[order[i]]| > 1;
      assert sizes[i] > 1;
      var k :| 0 <= k < |sizes| && sizes[k] == m;
      assert r[k].highlighted;
    }
    forall i, j | 0 <= i < |order| && 0 <= j < |order| && r[i].highlighted
      ensures r[j].size <= r[i].size
    {
      assert sizes[j] <= m;
    }
  }

  // ---------------------------------------------------------------------------
  // Hovering

  class GlobeView {
    const order: seq<string>
    const grouped: map<string, seq<Testimonial>>
    var activeCountry: Option<string>

    constructor(ts: seq<Testimonial>)
      ensures order == FirstSeen(ts) && activeCountry.None?
      ensures forall c :: c in grouped <==> c in order
      ensures forall c :: c in grouped ==> grouped[c] == GroupOf(ts, c)
    {
      var o, g := GroupByCountry(ts);
      order, grouped := o, g;
      activeCountry := None;
    }

    /** `activeTestimonials`: the group of the hovered country, nothing while no country is hovered. */
    function ActiveTestimonials(): (r: Option<seq<Testimonial>>)
      reads this
      ensures activeCountry.None? ==> r.None?
      ensures r.Some? ==> activeCountry.Some? && activeCountry.value in grouped && r.value == grouped[activeCountry.value]
      ensures activeCountry.Some? && activeCountry.value in grouped ==> r == Some(grouped[activeCountry.value])
    {
      match activeCountry
      case None => None
      case Some(c) => if c in grouped then Some(grouped[c]) else None
    }

    /** `onMouseEnter` of a marker. */
    method Enter(country: string)
      modifies this
      ensures activeCountry == Some(country)
    {
      activeCountry := Some(country);
    }

    /** `onMouseLeave` of a marker. */
    method Leave()
      modifies this
      ensures activeCountry.None?
    {
      activeCountry := None;
    }
  }
}
