/** The project carousel (`src/app/components/ProjectCarousel.tsx`): one
    index that the arrows move round the ring of projects and the dots set
    directly. The wrap-around steps are shared with the testimonials. */
module ProjectCarousel {
  import opened Wrappers

  /** The step of the "next" arrow: from the last index back to 0. */
  function NextIndex(i: int, count: int): (r: int)
    ensures i == count - 1 ==> r == 0
    ensures i != count - 1 ==> r == i + 1
  {
    if i == count - 1 then 0 else i + 1
  }

  /** The step of the "previous" arrow: from 0 round to the last index. */
  function PrevIndex(i: int, count: int): (r: int)
    ensures i == 0 ==> r == count - 1
    ensures i != 0 ==> r == i - 1
  {
    if i == 0 then count - 1 else i - 1
  }

  /** On a ring of `count` positions both steps stay on the ring, they are
      the steps of arithmetic modulo `count`, and each undoes the other. */
  lemma RingSteps(i: int, count: int)
    requires 0 <= i < count
    ensures 0 <= NextIndex(i, count) < count && 0 <= PrevIndex(i, count) < count
    ensures NextIndex(i, count) == (i + 1) % count
    ensures PrevIndex(i, count) == (i - 1 + count) % count
    ensures PrevIndex(NextIndex(i, count), count) == i
    ensures NextIndex(PrevIndex(i, count), count) == i
  {
    if i == count - 1 {
      assert (i + 1) % count == 0;
    } else {
      assert (i + 1) % count == i + 1;
    }
    if i == 0 {
      assert (i - 1 + count) % count == count - 1;
    } else {
      assert (i - 1 + count) % count == i - 1;
    }
  }

  /** `k` presses of "next" from `i`. */
  function Steps(i: int, count: int, k: nat): int
    decreases k
  {
    if k == 0 then i else NextIndex(Steps(i, count, k - 1), count)
  }

  /** Up to a full turn, `k` presses of "next" move `k` places round the
      ring. */
  lemma {:induction false} StepsAround(i: int, count: int, k: nat)
    requires 0 <= i < count && k <= count
    ensures Steps(i, count, k) == if i + k < count then i + k else i + k - count
    decreases k
  {
    if k > 0 {
      StepsAround(i, count, k - 1);
    }
  }

  /** `count` presses of "next" come back to the start. */
  lemma FullTurn(i: int, count: int)
    requires 0 <= i < count
    ensures Steps(i, count, count) == i
  {
    StepsAround(i, count, count);
  }

  datatype Project = Project(
    title: string, description: string, githubLink: Option<string>,
    technologies: seq<string>, kind: string)

  /** The GitHub link shows only for a non-empty address. */
  function GithubLink(p: Project): (link: Option<string>)
    ensures link.Some? <==> p.githubLink.Some? && p.githubLink.value != ""
    ensures link.Some? ==> link == p.githubLink
  {
    if p.githubLink.Some? && p.githubLink.value != "" then p.githubLink else None
  }

  class Carousel {
    const projects: seq<Project>
    var currentIndex: int

    /** With at least one project the index points at one of them. */
    predicate Valid()
      reads this
    {
      |projects| >= 1 ==> 0 <= currentIndex < |projects|
    }

    constructor(projects: seq<Project>)
      ensures this.projects == projects && currentIndex == 0 && Valid()
    {
      this.projects := projects;
      currentIndex := 0;
    }

    /** `nextProject` */
    method Next()
      requires Valid()
      modifies this
      ensures Valid()
      ensures currentIndex == NextIndex(old(currentIndex), |projects|)
    {
      currentIndex := if currentIndex == |projects| - 1 then 0 else currentIndex + 1;
      if |projects| >= 1 {
        RingSteps(old(currentIndex), |projects|);
      }
    }

    /** `prevProject` */
    method Prev()
      requires Valid()
      modifies this
      ensures Valid()
      ensures currentIndex == PrevIndex(old(currentIndex), |projects|)
    {
      currentIndex := if currentIndex == 0 then |projects| - 1 else currentIndex - 1;
      if |projects| >= 1 {
        RingSteps(old(currentIndex), |projects|);
      }
    }

    /** A click on the dot of project `index`. */
    method Select(index: nat)
      requires index < |projects|
      modifies this
      ensures Valid() && currentIndex == index
    {
      currentIndex := index;
    }

    /** The card and the dot at `index` are drawn as the active ones. */
    predicate IsActive(index: int)
      reads this
    {
      currentIndex == index
    }

    /** The strip is moved left by `currentIndex` whole card widths, in
        percent. */
    function Offset(): int
      reads this
    {
      currentIndex * 100
    }
  }

  /** Exactly one card (and one dot) is active, and the strip is moved so
      that this card is the one in view. */
  lemma OneActive(c: Carousel)
    requires c.Valid() && |c.projects| >= 1
    ensures (set i | 0 <= i < |c.projects| && c.IsActive(i)) == {c.currentIndex}
    ensures 0 <= c.Offset() <= (|c.projects| - 1) * 100 && c.Offset() % 100 == 0
  {
  }

  /** Pressing "next" then "previous" brings the same project back. */
  method NextThenPrev(c: Carousel)
    requires c.Valid() && |c.projects| >= 1
    modifies c
    ensures c.Valid() && c.currentIndex == old(c.currentIndex)
  {
    c.Next();
    c.Prev();
    RingSteps(old(c.currentIndex), |c.projects|);
  }
}
