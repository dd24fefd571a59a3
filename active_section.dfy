/** Which section the navigation bar marks as active
    (`src/app/hooks/useActiveSection.ts`): on every scroll the candidate
    sections are tried in navigation order, and the first one whose box
    holds the probe line, 100 pixels below the top of the window, wins.
    The page layout is a parameter: it gives the box of the element with a
    given id, or nothing when there is no such element. */
module ActiveSection {
  import opened Wrappers

  datatype NavLink = NavLink(
    text: string, section: string,
    navEligibleForDesktop: Option<bool>, navEligibleForMobile: Option<bool>)

  /** `offsetTop` and `offsetHeight` of an element, in whole pixels. */
  datatype Box = Box(offsetTop: int, offsetHeight: int)

  const InitialSection := "about"

  /** How far below the top of the window the probe line sits. */
  const ProbeOffset := 100

  /** The element of `section` exists and the probe line falls in it: at or
      below its top edge and above its bottom edge. */
  predicate Hit(layout: string -> Option<Box>, section: string, probe: int) {
    layout(section).Some? &&
    layout(section).value.offsetTop <= probe < layout(section).value.offsetTop + layout(section).value.offsetHeight
  }

  /** The first section, in order, that the probe line falls in. */
  function FirstHit(sections: seq<string>, layout: string -> Option<Box>, probe: int): (r: Option<string>)
    ensures r.Some? ==> r.value in sections
    decreases |sections|
  {
    if sections == [] then None
    else if Hit(layout, sections[0], probe) then Some(sections[0])
    else FirstHit(sections[1..], layout, probe)
  }

  /** The winner is the first section hit, and later sections do not
      matter; when no section is hit there is no winner. */
  lemma {:induction false} FirstHitSpec(sections: seq<string>, layout: string -> Option<Box>, probe: int)
    ensures FirstHit(sections, layout, probe).None? <==>
              forall k :: 0 <= k < |sections| ==> !Hit(layout, sections[k], probe)
    ensures FirstHit(sections, layout, probe).Some? ==>
              exists k :: 0 <= k < |sections| && sections[k] == FirstHit(sections, layout, probe).value &&
                          Hit(layout, sections[k], probe) &&
                          forall j :: 0 <= j < k ==> !Hit(layout, sections[j], probe)
    decreases |sections|
  {
    if sections != [] && !Hit(layout, sections[0], probe) {
      var rest := sections[1..];
      FirstHitSpec(rest, layout, probe);
      if FirstHit(rest, layout, probe).Some? {
        var k :| 0 <= k < |rest| && rest[k] == FirstHit(rest, layout, probe).value &&
                 Hit(layout, rest[k], probe) && forall j :: 0 <= j < k ==> !Hit(layout, rest[j], probe);
        assert sections[k + 1] == rest[k];
        forall j | 0 <= j < k + 1
          ensures !Hit(layout, sections[j], probe)
        {
          if j > 0 {
            assert sections[j] == rest[j - 1];
          }
        }
      } else {
        forall k | 0 <= k < |sections|
          ensures !Hit(layout, sections[k], probe)
        {
          if k > 0 {
            assert sections[k] == rest[k - 1];
          }
        }
      }
    }
  }

  /** The `for ... break` loop of the scroll handler. */
  method FindActive(sections: seq<string>, layout: string -> Option<Box>, probe: int)
    returns (found: Option<string>)
    ensures found == FirstHit(sections, layout, probe)
  {
    found := None;
    var i := 0;
    while i < |sections|
      invariant 0 <= i <= |sections|
      invariant found.None?
      invariant FirstHit(sections, layout, probe) == FirstHit(sections[i..], layout, probe)
    {
      var section := sections[i];
      var element := layout(section);
      if element.Some? {
        var offsetTop := element.value.offsetTop;
        var offsetHeight := element.value.offsetHeight;
        if probe >= offsetTop && probe < offsetTop + offsetHeight {
          found := Some(section);
          break;
        }
      }
      assert sections[i..][1..] == sections[i + 1..];
      i := i + 1;
    }
  }

  /** A navigation link counts when it is marked for the desktop or for the
      mobile menu. */
  predicate Eligible(link: NavLink) {
    link.navEligibleForDesktop == Some(true) || link.navEligibleForMobile == Some(true)
  }

  /** `.filter(eligible).map(link => link.section)` */
  function EligibleSections(links: seq<NavLink>): (r: seq<string>)
    ensures |r| <= |links|
    decreases |links|
  {
    if links == [] then []
    else (if Eligible(links[0]) then [links[0].section] else []) + EligibleSections(links[1..])
  }

  /** `.map(link => link.section)` */
  function AllSections(links: seq<NavLink>): (r: seq<string>)
    ensures |r| == |links| && forall i :: 0 <= i < |links| ==> r[i] == links[i].section
  {
    seq(|links|, i requires 0 <= i < |links| => links[i].section)
  }

  /** The candidates are exactly the sections of the eligible links: every
      candidate belongs to an eligible link and every eligible link's section
      is a candidate; when every link is eligible the candidates are all the
      sections in order, and when none is there are no candidates. */
  lemma {:induction false} EligibleSectionsSpec(links: seq<NavLink>)
    ensures forall s :: s in EligibleSections(links) ==> exists l :: l in links && Eligible(l) && l.section == s
    ensures forall l :: l in links && Eligible(l) ==> l.section in EligibleSections(links)
    ensures (forall l :: l in links ==> Eligible(l)) ==> EligibleSections(links) == AllSections(links)
    ensures (forall l :: l in links ==> !Eligible(l)) ==> EligibleSections(links) == []
    decreases |links|
  {
    if links != [] {
      EligibleSectionsSpec(links[1..]);
      assert forall l :: l in links[1..] ==> l in links;
      assert forall l :: l in links ==> l == links[0] || l in links[1..];
      if forall l :: l in links ==> Eligible(l) {
        assert links[0] in links;
        assert AllSections(links) == [links[0].section] + AllSections(links[1..]);
      }
      if forall l :: l in links ==> !Eligible(l) {
        assert links[0] in links;
      }
    }
  }

  /** The positions, from `from` on, of the eligible links, in order. */
  function EligibleIndices(links: seq<NavLink>, from: nat): (idx: seq<nat>)
    requires from <= |links|
    ensures |idx| <= |links| - from
    decreases |links| - from
  {
    if from == |links| then []
    else (if Eligible(links[from]) then [from] else []) + EligibleIndices(links, from + 1)
  }

  /** The filter keeps order: the k-th candidate is the section of the k-th
      eligible link, the positions of those links increase, and no eligible
      link is skipped. */
  lemma {:induction false} EligibleSectionsOrder(links: seq<NavLink>, from: nat)
    requires from <= |links|
    ensures var idx := EligibleIndices(links, from);
            var r := EligibleSections(links[from..]);
            |idx| == |r| &&
            (forall k :: 0 <= k < |idx| ==>
               from <= idx[k] < |links| && Eligible(links[idx[k]]) && r[k] == links[idx[k]].section) &&
            (forall k, k' :: 0 <= k < k' < |idx| ==> idx[k] < idx[k']) &&
            (forall i :: from <= i < |links| && Eligible(links[i]) ==> i in idx)
    decreases |links| - from
  {
    if from < |links| {
      EligibleSectionsOrder(links, from + 1);
      assert links[from..][0] == links[from];
      assert links[from..][1..] == links[from + 1..];
    }
  }

  /** What a scroll leaves active: the winner if there is one, else the
      section that was active before. */
  function Pick(current: string, found: Option<string>): string {
    if found.Some? then found.value else current
  }

  /** The state of `useActiveSection`; `navLinks` is absent until the
      portfolio data has loaded. */
  class Hook {
    const navLinks: Option<seq<NavLink>>
    var activeSection: string

    constructor(navLinks: Option<seq<NavLink>>)
      ensures this.navLinks == navLinks && activeSection == InitialSection
    {
      this.navLinks := navLinks;
      activeSection := InitialSection;
    }

    /** `handleScroll` at scroll offset `scrollY`. */
    method HandleScroll(scrollY: int, layout: string -> Option<Box>)
      modifies this
      ensures navLinks.None? ==> activeSection == old(activeSection)
      ensures navLinks.Some? ==>
                activeSection == Pick(old(activeSection),
                                      FirstHit(EligibleSections(navLinks.value), layout, scrollY + ProbeOffset))
    {
      if navLinks.None? {
        return;
      }
      var sections := EligibleSections(navLinks.value);
      var scrollPosition := scrollY + ProbeOffset;
      var found := FindActive(sections, layout, scrollPosition);
      if found.Some? {
        activeSection := found.value;
      }
    }
  }

  /** A scroll only ever activates the section of an eligible link, or
      keeps the one that was active. */
  lemma OnlyEligible(current: string, links: seq<NavLink>, layout: string -> Option<Box>, probe: int)
    ensures var next := Pick(current, FirstHit(EligibleSections(links), layout, probe));
            next == current || exists l :: l in links && Eligible(l) && l.section == next
  {
    EligibleSectionsSpec(links);
  }
}
