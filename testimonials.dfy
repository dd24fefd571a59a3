/** The testimonials carousel (`src/app/components/sections/TestimonialsSection.tsx`):
    the initials badge, the arrow and dot handlers, and the swipe gesture
    that the touch handlers record. Touch positions are whole pixels. */
module Testimonials {
  import opened Wrappers
  import opened JsText
  import TextParser
  import ProjectCarousel

  datatype Testimonial = Testimonial(receivedFrom: string, designation: string, linkedinUserName: string, message: string)

  datatype TestimonialsData = TestimonialsData(enabled: bool, title: string, highlight: string, items: seq<Testimonial>)

  // ---------------------------------------------------------------------------
  // Initials

  /** `.map(word => word[0]).join('')`: the first character of every word;
      an empty word gives `undefined`, which joins as nothing. */
  function Firsts(words: seq<string>): string
    decreases |words|
  {
    if words == [] then []
    else (if words[0] == [] then [] else [words[0][0]]) + Firsts(words[1..])
  }

  /** The words that are not empty, in order. */
  function NonEmptyWords(words: seq<string>): (r: seq<string>)
    ensures forall i :: 0 <= i < |r| ==> r[i] != []
    decreases |words|
  {
    if words == [] then []
    else (if words[0] == [] then [] else [words[0]]) + NonEmptyWords(words[1..])
  }

  /** One character per non-empty word, each that word's first. */
  lemma {:induction false} FirstsOfWords(words: seq<string>)
    ensures |Firsts(words)| == |NonEmptyWords(words)|
    ensures forall i :: 0 <= i < |Firsts(words)| ==> Firsts(words)[i] == NonEmptyWords(words)[i][0]
    decreases |words|
  {
    if words != [] {
      FirstsOfWords(words[1..]);
    }
  }

  /** `slice(-2)`: the last two characters, or all of a shorter string. */
  function LastTwo(s: string): (r: string)
    ensures |r| == if |s| < 2 then |s| else 2
    ensures r == s[|s| - |r|..]
  {
    if |s| < 2 then s else s[|s| - 2..]
  }

  /** `getInitials`: split on spaces, first letters, upper case, last two. */
  function GetInitials(name: string): (r: string)
    ensures |r| <= 2
  {
    LastTwo(Upper(Firsts(Split(name, ' '))))
  }

  /** The badge holds the upper-cased first letters of the last two
      non-empty words of the name (all of them when there are fewer). */
  lemma InitialsOfLastWords(name: string, words: seq<string>)
    requires words == NonEmptyWords(Split(name, ' '))
    ensures |GetInitials(name)| == if |words| < 2 then |words| else 2
    ensures forall i :: 0 <= i < |GetInitials(name)| ==>
              GetInitials(name)[i] == UpperChar(words[|words| - |GetInitials(name)| + i][0])
  {
    var all := Split(name, ' ');
    FirstsOfWords(all);
    LastTwoUpper(Firsts(all), words);
  }

  lemma LastTwoUpper(f: string, words: seq<string>)
    requires |f| == |words|
    requires forall i :: 0 <= i < |words| ==> words[i] != [] && f[i] == words[i][0]
    ensures var r := LastTwo(Upper(f));
            |r| == (if |words| < 2 then |words| else 2) &&
            forall i :: 0 <= i < |r| ==> r[i] == UpperChar(words[|words| - |r| + i][0])
  {
    var u := Upper(f);
    var r := LastTwo(u);
    forall i | 0 <= i < |r|
      ensures r[i] == UpperChar(words[|words| - |r| + i][0])
    {
      assert r[i] == u[|u| - |r| + i];
    }
  }

  // ---------------------------------------------------------------------------
  // The carousel state

  /** The least distance, in pixels, that counts as a swipe. */
  const SwipeThreshold := 50

  class Carousel {
    const data: TestimonialsData
    var currentIndex: int
    var touchStart: int
    var touchEnd: int

    predicate Valid()
      reads this
    {
      |data.items| >= 1 ==> 0 <= currentIndex < |data.items|
    }

    constructor(data: TestimonialsData)
      ensures this.data == data && Valid()
      ensures currentIndex == 0 && touchStart == 0 && touchEnd == 0
    {
      this.data := data;
      currentIndex := 0;
      touchStart := 0;
      touchEnd := 0;
    }

    /** `nextTestimonial` */
    method Next()
      requires Valid()
      modifies this
      ensures Valid()
      ensures currentIndex == ProjectCarousel.NextIndex(old(currentIndex), |data.items|)
      ensures touchStart == old(touchStart) && touchEnd == old(touchEnd)
    {
      currentIndex := if currentIndex == |data.items| - 1 then 0 else currentIndex + 1;
      if |data.items| >= 1 {
        ProjectCarousel.RingSteps(old(currentIndex), |data.items|);
      }
    }

    /** `previousTestimonial` */
    method Previous()
      requires Valid()
      modifies this
      ensures Valid()
      ensures currentIndex == ProjectCarousel.PrevIndex(old(currentIndex), |data.items|)
      ensures touchStart == old(touchStart) && touchEnd == old(touchEnd)
    {
      currentIndex := if currentIndex == 0 then |data.items| - 1 else currentIndex - 1;
      if |data.items| >= 1 {
        ProjectCarousel.RingSteps(old(currentIndex), |data.items|);
      }
    }

    /** A click on the dot of testimonial `index`. */
    method Select(index: nat)
      requires index < |data.items|
      modifies this
      ensures Valid() && currentIndex == index
      ensures touchStart == old(touchStart) && touchEnd == old(touchEnd)
    {
      currentIndex := index;
    }

    /** `handleTouchStart`: record where the finger went down. */
    method TouchStart(x: int)
      modifies this
      ensures touchStart == x && touchEnd == old(touchEnd) && currentIndex == old(currentIndex)
    {
      touchStart := x;
    }

    /** `handleTouchMove`: record where the finger is now. */
    method TouchMove(x: int)
      modifies this
      ensures touchEnd == x && touchStart == old(touchStart) && currentIndex == old(currentIndex)
    {
      touchEnd := x;
    }

    /** `handleTouchEnd`: a position of 0 counts as unrecorded and cancels
        the gesture; a move of more than 50 pixels to the left shows the
        next testimonial, more than 50 to the right the previous one. The
        recorded positions are kept. */
    method TouchEnd()
      requires Valid()
      modifies this
      ensures Valid()
      ensures currentIndex == SwipeTarget(old(currentIndex), touchStart, touchEnd, |data.items|)
      ensures touchStart == old(touchStart) && touchEnd == old(touchEnd)
    {
      if touchStart == 0 || touchEnd == 0 {
        return;
      }
      var distance := touchStart - touchEnd;
      var isLeftSwipe := distance > SwipeThreshold;
      var isRightSwipe := distance < -SwipeThreshold;
      if isLeftSwipe {
        Next();
      }
      if isRightSwipe {
        Previous();
      }
    }
  }

  /** Where a gesture from `start` to `end` leaves the index. */
  function SwipeTarget(i: int, start: int, end: int, count: int): int {
    if start == 0 || end == 0 then i
    else if start - end > SwipeThreshold then ProjectCarousel.NextIndex(i, count)
    else if start - end < -SwipeThreshold then ProjectCarousel.PrevIndex(i, count)
    else i
  }

  /** A gesture with an unrecorded end, or one of at most 50 pixels, leaves
      the index alone; a long one moves exactly one place round the ring,
      and a swipe back the other way undoes it. */
  lemma SwipeRule(i: int, start: int, end: int, count: int)
    requires 0 <= i < count
    ensures 0 <= SwipeTarget(i, start, end, count) < count
    ensures start == 0 || end == 0 || -SwipeThreshold <= start - end <= SwipeThreshold ==>
              SwipeTarget(i, start, end, count) == i
    ensures start != 0 && end != 0 && start - end > SwipeThreshold ==>
              SwipeTarget(i, start, end, count) == (i + 1) % count &&
              SwipeTarget(SwipeTarget(i, start, end, count), end, start, count) == i
  {
    ProjectCarousel.RingSteps(i, count);
    var j := ProjectCarousel.NextIndex(i, count);
    if 0 <= j < count {
      ProjectCarousel.RingSteps(j, count);
    }
  }

  // ---------------------------------------------------------------------------
  // What is shown

  const ProfileBase := "https://www.linkedin.com/in/"

  datatype CardView = CardView(
    message: seq<TextParser.Node>, initials: string, receivedFrom: string,
    designation: string, profileUrl: string)

  datatype SectionView = SectionView(current: CardView, dots: nat, activeDot: int)

  function CardOf(t: Testimonial): CardView {
    CardView(TextParser.ParseText(t.message), GetInitials(t.receivedFrom), t.receivedFrom,
             t.designation, ProfileBase + t.linkedinUserName)
  }

  /** A disabled section shows nothing; otherwise the testimonial at the
      current index, one dot per testimonial, and the active dot. */
  function Render(c: Carousel): (v: Option<SectionView>)
    requires c.Valid() && (!c.data.enabled || |c.data.items| >= 1)
    reads c
    ensures v.None? <==> !c.data.enabled
    ensures v.Some? ==> v.value.current.receivedFrom == c.data.items[c.currentIndex].receivedFrom &&
                        |v.value.current.initials| <= 2 &&
                        v.value.activeDot == c.currentIndex && v.value.dots == |c.data.items|
  {
    if !c.data.enabled then None
    else Some(SectionView(CardOf(c.data.items[c.currentIndex]), |c.data.items|, c.currentIndex))
  }
}
