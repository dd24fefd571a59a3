/** The home page (`src/app/page.tsx`): loading and failure gating, the
    active-section tracking over every navigation link, the once-per-session
    visit beacon, the fixed order of the sections, and the footer's year.
    The fetch outcome, the session flag, the layout and the current year
    are inputs; the markup itself is not modelled. */
module HomePage {
  import opened Wrappers
  import opened JsText
  import ActiveSection

  /** The part of the portfolio data the page's own logic reads. */
  datatype HomeData = HomeData(
    headerEnabled: bool, navLinks: seq<ActiveSection.NavLink>,
    trackingEnabled: Option<bool>,
    introEnabled: bool, statsEnabled: bool, skillsEnabled: bool, experienceEnabled: bool,
    projectsEnabled: bool, achievementsEnabled: bool, contactEnabled: bool, quoteEnabled: bool,
    footerEnabled: bool, footerText: string)

  /** The sections of the page, by the id they carry. */
  datatype SectionId = About | Skills | Experience | Portfolio | Achievements | Contact | Quote

  /** The order the page writes them in. */
  const SectionOrder: seq<SectionId> := [About, Skills, Experience, Portfolio, Achievements, Contact, Quote]

  function Enabled(d: HomeData, s: SectionId): bool {
    match s
    case About => d.introEnabled
    case Skills => d.skillsEnabled
    case Experience => d.experienceEnabled
    case Portfolio => d.projectsEnabled
    case Achievements => d.achievementsEnabled
    case Contact => d.contactEnabled
    case Quote => d.quoteEnabled
  }

  /** Position of a section in the fixed order. */
  function Rank(s: SectionId): (r: nat)
    ensures r < |SectionOrder| && SectionOrder[r] == s
  {
    match s
    case About => 0
    case Skills => 1
    case Experience => 2
    case Portfolio => 3
    case Achievements => 4
    case Contact => 5
    case Quote => 6
  }

  /** The enabled sections among `order`, keeping its order. */
  function EnabledAmong(d: HomeData, order: seq<SectionId>): (r: seq<SectionId>)
    ensures forall s :: s in r <==> s in order && Enabled(d, s)
    decreases |order|
  {
    if order == [] then []
    else (if Enabled(d, order[0]) then [order[0]] else []) + EnabledAmong(d, order[1..])
  }

  /** Sections in strictly increasing rank. */
  predicate Ascending(xs: seq<SectionId>) {
    forall i, j :: 0 <= i < j < |xs| ==> Rank(xs[i]) < Rank(xs[j])
  }

  /** Dropping disabled sections keeps the rest in order. */
  lemma {:induction false} EnabledAmongOrdered(d: HomeData, order: seq<SectionId>)
    requires Ascending(order)
    ensures Ascending(EnabledAmong(d, order))
    decreases |order|
  {
    if order != [] {
      AscendingTail(order);
      EnabledAmongOrdered(d, order[1..]);
      var rest := EnabledAmong(d, order[1..]);
      forall x | x in rest ensures Rank(order[0]) < Rank(x) {
        var k :| 0 <= k < |order[1..]| && order[1..][k] == x;
        assert order[k + 1] == x;
      }
      if Enabled(d, order[0]) {
        AscendingCons(order[0], rest);
      } else {
        assert EnabledAmong(d, order) == rest;
      }
    }
  }

  lemma AscendingTail(xs: seq<SectionId>)
    requires Ascending(xs) && xs != []
    ensures Ascending(xs[1..])
  {
    forall i, j | 0 <= i < j < |xs[1..]| ensures Rank(xs[1..][i]) < Rank(xs[1..][j]) {
      assert xs[1..][i] == xs[i + 1] && xs[1..][j] == xs[j + 1];
    }
  }

  lemma AscendingCons(x: SectionId, rest: seq<SectionId>)
    requires Ascending(rest)
    requires forall y :: y in rest ==> Rank(x) < Rank(y)
    ensures Ascending([x] + rest)
  {
    var r := [x] + rest;
    forall i, j | 0 <= i < j < |r| ensures Rank(r[i]) < Rank(r[j]) {
      assert r[j] == rest[j - 1] && r[j] in rest;
      if i > 0 {
        assert r[i] == rest[i - 1];
      }
    }
  }

  /** Each section is shown exactly when enabled, always in the order
      intro, skills, experience, projects, achievements, contact, quote. */
  lemma SectionsRule(d: HomeData)
    ensures forall s :: s in EnabledAmong(d, SectionOrder) <==> Enabled(d, s)
    ensures Ascending(EnabledAmong(d, SectionOrder))
  {
    forall s ensures s in SectionOrder {
      assert SectionOrder[Rank(s)] == s;
    }
    OrderAscending();
    EnabledAmongOrdered(d, SectionOrder);
  }

  /** The fixed order lists each section at its rank. */
  lemma OrderAscending()
    ensures Ascending(SectionOrder)
  {
    forall i | 0 <= i < |SectionOrder| ensures Rank(SectionOrder[i]) == i {
    }
  }

  // ---------------------------------------------------------------------------
  // Footer

  const YearToken := "{year}"

  /** The footer line with its first `{year}` replaced. */
  function FooterLine(text: string, year: string): string {
    ReplaceFirst(text, YearToken, year)
  }

  /** Only the first `{year}` is replaced; text without one is unchanged. */
  lemma FooterYear(text: string, year: string)
    ensures IndexOf(text, YearToken) < 0 ==> FooterLine(text, year) == text
    ensures IndexOf(text, YearToken) >= 0 ==>
              var i := IndexOf(text, YearToken);
              FooterLine(text, year) == text[..i] + year + text[i + |YearToken|..] &&
              (forall j :: 0 <= j < i ==> !OccursAt(text, YearToken, j))
  {
  }

  // ---------------------------------------------------------------------------
  // The page state

  datatype Screen =
    | Loader
    | Failure
    | Page(navbar: bool, sections: seq<SectionId>, stats: bool, footer: Option<string>)

  class Home {
    var data: Option<HomeData>
    var loading: bool
    var activeSection: string
    /** The `hasTrackedVisit` entry of the session storage. */
    var sessionTracked: bool
    /** Calls to `trackVisit` made from this page. */
    var visitsSent: nat

    /** A visit is sent at most once, and only with the session flag set
        right after. */
    predicate Valid()
      reads this
    {
      visitsSent <= 1 && (visitsSent == 1 ==> sessionTracked)
    }

    constructor(sessionTracked: bool)
      ensures Valid()
      ensures data.None? && loading && activeSection == ActiveSection.InitialSection
      ensures this.sessionTracked == sessionTracked && visitsSent == 0
    {
      data := None;
      loading := true;
      activeSection := ActiveSection.InitialSection;
      this.sessionTracked := sessionTracked;
      visitsSent := 0;
    }

    /** The end of the fetch: data stored on success; loading ends either
        way. */
    method FetchDone(result: Option<HomeData>)
      requires Valid()
      modifies this
      ensures Valid()
      ensures result.Some? ==> data == result
      ensures result.None? ==> data == old(data)
      ensures !loading
      ensures activeSection == old(activeSection) && sessionTracked == old(sessionTracked)
      ensures visitsSent == old(visitsSent)
    {
      if result.Some? {
        data := result;
      }
      loading := false;
    }

    /** The scroll handler: the same first-hit rule as the hook, over every
        navigation link with no eligibility filter. */
    method HandleScroll(scrollY: int, layout: string -> Option<ActiveSection.Box>)
      requires Valid()
      modifies this
      ensures Valid()
      ensures data.None? ==> activeSection == old(activeSection)
      ensures data.Some? ==>
                activeSection == ActiveSection.Pick(old(activeSection),
                  ActiveSection.FirstHit(ActiveSection.AllSections(data.value.navLinks), layout,
                                         scrollY + ActiveSection.ProbeOffset))
      ensures data == old(data) && loading == old(loading)
      ensures sessionTracked == old(sessionTracked) && visitsSent == old(visitsSent)
    {
      if data.None? {
        return;
      }
      var sections := ActiveSection.AllSections(data.value.navLinks);
      var scrollPosition := scrollY + ActiveSection.ProbeOffset;
      var found := ActiveSection.FindActive(sections, layout, scrollPosition);
      if found.Some? {
        activeSection := found.value;
      }
    }

    predicate TrackingOn()
      reads this
    {
      data.Some? && data.value.trackingEnabled == Some(true)
    }

    /** The visit effect, run whenever the data changes: send a visit when
        the session has none yet and tracking is on, then set the flag. */
    method VisitEffect()
      requires Valid()
      modifies this
      ensures Valid()
      ensures !old(sessionTracked) && TrackingOn() ==> visitsSent == old(visitsSent) + 1 && sessionTracked
      ensures old(sessionTracked) || !TrackingOn() ==>
                visitsSent == old(visitsSent) && sessionTracked == old(sessionTracked)
      ensures data == old(data) && loading == old(loading) && activeSection == old(activeSection)
    {
      if !sessionTracked && data.Some? && data.value.trackingEnabled == Some(true) {
        visitsSent := visitsSent + 1;
        sessionTracked := true;
      }
    }

    /** What the page shows in the given year. */
    function Render(year: string): Screen
      reads this
    {
      if loading then Loader
      else if data.None? then Failure
      else
        var d := data.value;
        Page(d.headerEnabled, EnabledAmong(d, SectionOrder), d.introEnabled && d.statsEnabled,
             if d.footerEnabled then Some(FooterLine(d.footerText, year)) else None)
    }
  }

  /** Only the loader while loading, only the failure message after a
      failed load; the stats show only inside an enabled intro. */
  lemma RenderRule(h: Home, year: string)
    ensures h.loading ==> h.Render(year) == Loader
    ensures !h.loading ==> (h.Render(year) == Failure <==> h.data.None?)
    ensures h.Render(year).Page? ==>
              (h.Render(year).stats <==> h.data.value.introEnabled && h.data.value.statsEnabled) &&
              (h.Render(year).footer.Some? <==> h.data.value.footerEnabled)
  {
  }

  /** However often the effect runs in a session, at most one visit goes
      out. */
  method RepeatedEffects(h: Home, runs: nat)
    requires h.Valid()
    modifies h
    ensures h.Valid() && h.visitsSent <= 1
    ensures old(h.sessionTracked) ==> h.visitsSent == old(h.visitsSent)
  {
    var k := 0;
    while k < runs
      invariant h.Valid()
      invariant old(h.sessionTracked) ==> h.sessionTracked && h.visitsSent == old(h.visitsSent)
    {
      h.VisitEffect();
      k := k + 1;
    }
  }
}
