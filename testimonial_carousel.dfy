/** components/TestimonialCarousel.tsx: one testimonial at a time, moved by
    an interval tick, by the dots below it and by swiping; the country line
    carries a flag. */
module TestimonialCarousel {
  import opened Text
  import opened Types

  // ---------------------------------------------------------------------------
  // `getCountryFlag`

  /** The regional indicator symbol of an upper-case ASCII letter. */
  function RegionalIndicator(c: char): char
    requires 'A' <= c <= 'Z'
  {
    (0x1F1E6 + (c as int - 'A' as int)) as char
  }

  /** The flag emoji of a two-letter ISO 3166 code: its two regional indicators. */
  function IsoFlag(code: string): string
    requires |code| == 2 && 'A' <= code[0] <= 'Z' && 'A' <= code[1] <= 'Z'
  {
    [RegionalIndicator(code[0]), RegionalIndicator(code[1])]
  }

  /** The countries with a flag, and their ISO codes. */
  const IsoCodes: map<string, string> := map["Canada" := "CA", "USA" := "US", "Brazil" := "BR", "Japan" := "JP"]

  /** The globe shown for any other country. */
  const Globe: string := "\U{1F310}"

  /** `getCountryFlag`: the four listed countries get their flag, every other
      string the globe. */
  function CountryFlag(country: string): (r: string)
    ensures country in IsoCodes ==> r == IsoFlag(IsoCodes[country])
    ensures country !in IsoCodes ==> r == Globe
  {
    if country == "Canada" then "\U{1F1E8}\U{1F1E6}"
    else if country == "USA" then "\U{1F1FA}\U{1F1F8}"
    else if country == "Brazil" then "\U{1F1E7}\U{1F1F7}"
    else if country == "Japan" then "\U{1F1EF}\U{1F1F5}"
    else Globe
  }

  // ---------------------------------------------------------------------------
  // Pagination

  /** `(page + newDirection + testimonials.length) % testimonials.length` */
  function Step(page: nat, n: nat, d: int): (r: nat)
    requires page < n && (d == 1 || d == -1)
    ensures r < n
    ensures d == 1 ==> r == (page + 1) % n
    ensures d == -1 ==> r == (if page == 0 then n - 1 else page - 1)
  {
    var a := page + d + n;
    assert d == -1 ==> a % n == (if page == 0 then n - 1 else page - 1) by {
      if d == -1 {
        if page == 0 { ModUnique(a, n, 0, n - 1); } else { ModUnique(a, n, 1, page - 1); }
      }
    }
    assert d == 1 ==> a % n == (page + 1) % n by {
      if d == 1 {
        ModUnique(a, n, (page + 1) / n + 1, (page + 1) % n);
      }
    }
    JsRem(a, n)
  }

  /** A step back undoes a step forward, and a step forward undoes a step back. */
  lemma StepBackUndoesStep(page: nat, n: nat)
    requires page < n
    ensures Step(Step(page, n, 1), n, -1) == page
    ensures Step(Step(page, n, -1), n, 1) == page
  {
    if page + 1 < n {
      ModUnique(page + 1, n, 0, page + 1);
    } else {
      ModUnique(page + 1, n, 1, 0);
    }
    if page > 0 {
      ModUnique(page, n, 0, page);
    } else {
      ModUnique(n, n, 1, 0);
    }
  }

  /** The page after `k` ticks. */
  function Advance(page: nat, n: nat, k: nat): (r: nat)
    requires page < n
    ensures r < n
  {
    if k == 0 then page else Step(Advance(page, n, k - 1), n, 1)
  }

  lemma {:induction false} AdvanceIsRemainder(page: nat, n: nat, k: nat)
    requires page < n
    ensures Advance(page, n, k) == (page + k) % n
  {
    if k == 0 {
      ModUnique(page, n, 0, page);
    } else {
      AdvanceIsRemainder(page, n, k - 1);
      ModNext(page + (k - 1), n);
    }
  }

  /** After one tick per testimonial the carousel shows the first one again. */
  lemma FullRound(page: nat, n: nat)
    requires page < n
    ensures Advance(page, n, n) == page
  {
    AdvanceIsRemainder(page, n, n);
    ModUnique(page + n, n, 1, page);
  }

  // ---------------------------------------------------------------------------
  // Swiping

  const SwipeConfidenceThreshold: real := 10000.0

  function Abs(x: real): real {
    if x < 0.0 then -x else x
  }

  /** `swipePower`: the drag distance weighted by the release velocity. */
  function SwipePower(offset: real, velocity: real): real {
    Abs(offset) * velocity
  }

  datatype SwipeMove = Forward | Backward | Stay

  /** The `onDragEnd` decision: a strong swipe to the left moves forward, a
      strong swipe to the right moves back, anything weaker stays. */
  function SwipeOutcome(offset: real, velocity: real): (r: SwipeMove)
    ensures r == Forward ==> velocity < 0.0
    ensures r == Backward ==> velocity > 0.0
    ensures offset == 0.0 || velocity == 0.0 ==> r == Stay
  {
    var swipe := SwipePower(offset, velocity);
    assert velocity == 0.0 ==> swipe == 0.0;
    assert velocity > 0.0 ==> swipe >= 0.0;
    assert velocity < 0.0 ==> swipe <= 0.0;
    if swipe < -SwipeConfidenceThreshold then Forward
    else if swipe > SwipeConfidenceThreshold then Backward
    else Stay
  }

  /** A swipe no more than 100 pixels long released at no more than 100 pixels
      per second never turns the page. */
  lemma ShortSlowSwipeStays(offset: real, velocity: real)
    requires Abs(offset) <= 100.0 && Abs(velocity) <= 100.0
    ensures SwipeOutcome(offset, velocity) == Stay
  {
    var a := Abs(offset);
    if velocity >= 0.0 {
      assert a * velocity <= 100.0 * velocity;
    } else {
      var w := -velocity;
      assert a * w <= 100.0 * w;
      assert a * velocity == -(a * w);
      assert SwipePower(offset, velocity) >= -SwipeConfidenceThreshold;
    }
  }

  // ---------------------------------------------------------------------------
  // The carousel

  class Carousel {
    const testimonials: seq<Testimonial>
    /** `[page, direction]` */
    var page: nat
    var direction: int

    ghost predicate Valid()
      reads this
    {
      page < |testimonials|
    }

    /** The card shows `testimonials[page]`, so the list must not be empty. */
    constructor(ts: seq<Testimonial>)
      requires |ts| > 0
      ensures Valid() && testimonials == ts && page == 0 && direction == 0
    {
      testimonials := ts;
      page := 0;
      direction := 0;
    }

    /** The testimonial on the card. */
    function Current(): (t: Testimonial)
      requires Valid()
      reads this
      ensures t in testimonials
    {
      testimonials[page]
    }

    /** `paginate(newDirection)` */
    method Paginate(d: int)
      requires Valid() && (d == 1 || d == -1)
      modifies this
      ensures Valid()
      ensures page == Step(old(page), |testimonials|, d) && direction == d
    {
      page := Step(page, |testimonials|, d);
      direction := d;
    }

    /** The interval callback: every tick moves one testimonial forward. */
    method Tick()
      requires Valid()
      modifies this
      ensures Valid()
      ensures page == (old(page) + 1) % |testimonials| && direction == 1
    {
      Paginate(1);
    }

    /** The `i`-th dot: jump to it, sliding in from the right when it lies ahead. */
    method ClickDot(i: nat)
      requires Valid() && i < |testimonials|
      modifies this
      ensures Valid()
      ensures page == i
      ensures direction == if i > old(page) then 1 else -1
    {
      direction := if i > page then 1 else -1;
      page := i;
    }

    /** `onDragEnd` */
    method DragEnd(offset: real, velocity: real)
      requires Valid()
      modifies this
      ensures Valid()
      ensures SwipeOutcome(offset, velocity) == Forward ==> page == Step(old(page), |testimonials|, 1) && direction == 1
      ensures SwipeOutcome(offset, velocity) == Backward ==> page == Step(old(page), |testimonials|, -1) && direction == -1
      ensures SwipeOutcome(offset, velocity) == Stay ==> page == old(page) && direction == old(direction)
    {
      var swipe := SwipePower(offset, velocity);
      if swipe < -SwipeConfidenceThreshold {
        Paginate(1);
      } else if swipe > SwipeConfidenceThreshold {
        Paginate(-1);
      }
    }
  }
}
