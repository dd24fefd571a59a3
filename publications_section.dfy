/** The publications section of the home page
    (`src/app/components/sections/PublicationsSection.tsx`): the first
    `displayLimit` items, a "show more" button when some are left over, the
    title split around its highlighted word, and the image fallback. */
module PublicationsSection {
  import opened Wrappers
  import opened JsText
  import TextParser

  datatype Publication = Publication(
    title: string, description: string, url: string, platform: string, date: string,
    kind: string, image: Option<string>, tags: seq<string>, authors: Option<string>)

  datatype Publications = Publications(
    enabled: bool, title: string, highlight: string, displayLimit: Option<int>,
    showMoreText: Option<string>, loadingText: Option<string>, items: seq<Publication>)

  const DefaultDisplayLimit := 3
  const DefaultShowMoreText := "Show More"
  const DefaultLoadingText := "Fetching publications"

  // ---------------------------------------------------------------------------
  // Title highlight

  /** A heading split around the first occurrence of its highlight. */
  datatype TitleParts = TitleParts(before: string, highlighted: bool, after: string)

  /** `title.indexOf(highlight)` and the two `substring` calls around it. */
  function SplitTitle(title: string, highlight: string): (parts: TitleParts)
    ensures parts.highlighted <==> IndexOf(title, highlight) >= 0
  {
    var i := IndexOf(title, highlight);
    if i >= 0 then TitleParts(title[..i], true, title[i + |highlight|..])
    else TitleParts(title, false, "")
  }

  /** When the highlight occurs, the three pieces give back the title and
      the cut is at its first occurrence; when it does not, the title stays
      whole and no highlight is shown. */
  lemma SplitTitleRoundTrip(title: string, highlight: string)
    ensures var parts := SplitTitle(title, highlight);
            (parts.highlighted ==>
               parts.before + highlight + parts.after == title &&
               forall j :: 0 <= j < |parts.before| ==> !OccursAt(title, highlight, j)) &&
            (!parts.highlighted ==>
               parts.before == title && parts.after == "" &&
               forall j :: 0 <= j ==> !OccursAt(title, highlight, j))
  {
    var i := IndexOf(title, highlight);
    if i >= 0 {
      assert title[..i] + title[i..i + |highlight|] + title[i + |highlight|..] == title;
    }
  }

  // ---------------------------------------------------------------------------
  // Truncation

  /** `items.slice(0, limit)` with JavaScript's reading of a negative end:
      counted back from the length, and clamped to 0. */
  function SliceEnd(n: nat, limit: int): (end: nat)
    ensures end <= n
    ensures limit >= 0 ==> end == if limit < n then limit else n
    ensures limit < 0 ==> end == if n + limit > 0 then n + limit else 0
  {
    if limit >= 0 then (if limit < n then limit else n)
    else if n + limit > 0 then n + limit else 0
  }

  function DisplayLimit(p: Publications): int {
    if p.displayLimit.Some? then p.displayLimit.value else DefaultDisplayLimit
  }

  function DisplayedItems(p: Publications): (shown: seq<Publication>)
    ensures shown <= p.items
  {
    p.items[..SliceEnd(|p.items|, DisplayLimit(p))]
  }

  /** `publications.items.length > displayLimit` */
  predicate HasMore(p: Publications) {
    |p.items| > DisplayLimit(p)
  }

  /** With a non-negative limit the section shows the first `limit` items in
      order, and "show more" appears exactly when some item is left out. */
  lemma TruncationRule(p: Publications)
    requires DisplayLimit(p) >= 0
    ensures |DisplayedItems(p)| == if DisplayLimit(p) < |p.items| then DisplayLimit(p) else |p.items|
    ensures forall i :: 0 <= i < |DisplayedItems(p)| ==> DisplayedItems(p)[i] == p.items[i]
    ensures HasMore(p) <==> |DisplayedItems(p)| < |p.items|
  {
  }

  /** A negative limit drops that many items from the end, and the button
      is shown even when nothing was left out. */
  lemma NegativeLimit(p: Publications)
    requires DisplayLimit(p) < 0
    ensures HasMore(p)
    ensures |DisplayedItems(p)| == if |p.items| + DisplayLimit(p) > 0 then |p.items| + DisplayLimit(p) else 0
  {
  }

  /** Without a configured limit, three items are shown. */
  lemma DefaultLimit(p: Publications)
    requires p.displayLimit.None?
    ensures |DisplayedItems(p)| == if |p.items| < 3 then |p.items| else 3
    ensures HasMore(p) <==> |p.items| > 3
  {
  }

  // ---------------------------------------------------------------------------
  // Image with fallback

  /** `PublicationImage`: an optional picture that falls back to an icon
      when missing, empty, or when loading it failed. */
  class PublicationImage {
    const image: Option<string>
    var imageError: bool

    constructor(image: Option<string>)
      ensures this.image == image && !imageError
    {
      this.image := image;
      imageError := false;
    }

    /** `onError` */
    method OnError()
      modifies this
      ensures imageError
    {
      imageError := true;
    }

    predicate ShowFallback()
      reads this
    {
      image.None? || image.value == "" || imageError
    }

    predicate ShowImage()
      reads this
    {
      image.Some? && image.value != "" && !imageError
    }
  }

  /** The picture and the fallback icon are never shown together, and one of
      them always is. */
  lemma ImageOrFallback(img: PublicationImage)
    ensures img.ShowImage() <==> !img.ShowFallback()
  {
  }

  // ---------------------------------------------------------------------------
  // The section

  datatype ItemView = ItemView(
    title: string, url: string, kind: string, image: Option<string>,
    description: seq<TextParser.Node>, tags: seq<string>, platform: string, date: string)

  function ItemOf(p: Publication): ItemView {
    ItemView(p.title, p.url, p.kind, p.image, TextParser.ParseText(p.description), p.tags, p.platform, p.date)
  }

  datatype SectionView = SectionView(
    heading: TitleParts, items: seq<ItemView>, showMore: bool, showMoreText: string,
    buttonDisabled: bool, loadingOverlay: Option<string>)

  /** The section with its show-more flag. */
  class Section {
    const data: Publications
    var isNavigating: bool

    constructor(data: Publications)
      ensures this.data == data && !isNavigating
    {
      this.data := data;
      isNavigating := false;
    }

    /** `handleShowMoreClick`: mark the section as navigating; the route
        change itself is not modelled. */
    method ShowMoreClick()
      modifies this
      ensures isNavigating
    {
      isNavigating := true;
    }

    function Render(): (v: Option<SectionView>)
      reads this
      ensures v.None? <==> !data.enabled
    {
      if !data.enabled then None
      else
        var shown := DisplayedItems(data);
        Some(SectionView(
          SplitTitle(data.title, data.highlight),
          seq(|shown|, i requires 0 <= i < |shown| => ItemOf(shown[i])),
          HasMore(data),
          if data.showMoreText.Some? then data.showMoreText.value else DefaultShowMoreText,
          isNavigating,
          if isNavigating
          then Some(if data.loadingText.Some? then data.loadingText.value else DefaultLoadingText)
          else None))
    }
  }

  /** What an enabled section shows: the displayed items in order, the
      button when items are left over, and while navigating a disabled
      button under the loading overlay with its default text. */
  lemma RenderRule(s: Section)
    requires s.data.enabled
    ensures var v := s.Render().value;
            |v.items| == |DisplayedItems(s.data)| &&
            (forall i :: 0 <= i < |v.items| ==> v.items[i].title == DisplayedItems(s.data)[i].title) &&
            (v.showMore <==> HasMore(s.data)) &&
            (v.buttonDisabled <==> s.isNavigating) &&
            (v.loadingOverlay.Some? <==> s.isNavigating) &&
            (s.isNavigating && s.data.loadingText.None? ==> v.loadingOverlay == Some(DefaultLoadingText)) &&
            (s.data.showMoreText.None? ==> v.showMoreText == DefaultShowMoreText)
  {
  }
}
