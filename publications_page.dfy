/** The full publications page (`src/app/publications/page.tsx`): it loads
    the portfolio data, then shows a loader, a failure message, or every
    publication with its heading split around the highlight. The fetch is
    an input: its outcome is handed to `FetchDone`. */
module PublicationsPage {
  import opened Wrappers
  import TextParser
  import PublicationsSection

  /** The part of the portfolio data this page reads. */
  datatype PageData = PageData(siteTitle: string, publications: PublicationsSection.Publications)

  const ArchivedDataPath := "/archived/data.json"

  /** The address the page fetches: the archived copy in development, the
      configured address otherwise. */
  function DataSource(isDevelopment: bool, configuredUrl: Option<string>): (url: Option<string>)
    ensures isDevelopment ==> url == Some(ArchivedDataPath)
    ensures !isDevelopment ==> url == configuredUrl
  {
    if isDevelopment then Some(ArchivedDataPath) else configuredUrl
  }

  /** One listed publication. The picture is shown only when the image is a
      non-empty string that has not failed to load, and the fallback icon
      exactly when it is not; the authors segment is present only when the
      authors are a non-empty string. */
  datatype EntryView = EntryView(
    title: string, url: string, kind: string, picture: Option<string>, fallback: bool,
    description: seq<TextParser.Node>, tags: seq<string>, platform: string, date: string,
    authors: Option<string>)

  /** The entry for `p`; `imageError` is the state of its `PublicationImage`. */
  function EntryOf(p: PublicationsSection.Publication, imageError: bool): (e: EntryView)
    ensures e.fallback <==> p.image.None? || p.image.value == "" || imageError
    ensures e.picture.Some? <==> !e.fallback
    ensures e.picture.Some? ==> e.picture == p.image
    ensures e.authors.Some? <==> p.authors.Some? && p.authors.value != ""
    ensures e.authors.Some? ==> e.authors == p.authors
  {
    var fallback := p.image.None? || p.image.value == "" || imageError;
    EntryView(p.title, p.url, p.kind, if fallback then None else p.image, fallback,
              TextParser.ParseText(p.description), p.tags, p.platform, p.date,
              if p.authors.Some? && p.authors.value != "" then p.authors else None)
  }

  /** The page's own `PublicationImage` follows the same rule as the one in
      the home-page section. */
  lemma EntryImageAgrees(p: PublicationsSection.Publication, img: PublicationsSection.PublicationImage)
    requires img.image == p.image
    ensures EntryOf(p, img.imageError).fallback == img.ShowFallback()
    ensures EntryOf(p, img.imageError).picture.Some? == img.ShowImage()
  {
  }

  datatype Screen =
    | Loader
    | Failure
    | Listing(heading: PublicationsSection.TitleParts, entries: seq<EntryView>)

  class Page {
    var data: Option<PageData>
    var loading: bool
    /** The positions whose image reported a load error. */
    var imageErrors: set<nat>

    constructor()
      ensures data.None? && loading && imageErrors == {}
    {
      data := None;
      loading := true;
      imageErrors := {};
    }

    /** The end of the fetch effect: a parsed document is stored; a failed
        request or parse leaves the data as it was; loading ends either way. */
    method FetchDone(result: Option<PageData>)
      modifies this
      ensures result.Some? ==> data == result
      ensures result.None? ==> data == old(data)
      ensures !loading
      ensures imageErrors == old(imageErrors)
    {
      if result.Some? {
        data := result;
      }
      loading := false;
    }

    /** `onError` of the image at position `i`: from now on that entry shows
        the fallback icon. */
    method ImageFailed(i: nat)
      modifies this
      ensures imageErrors == old(imageErrors) + {i}
      ensures data == old(data) && loading == old(loading)
    {
      imageErrors := imageErrors + {i};
    }

    function Render(): Screen
      reads this
    {
      if loading then Loader
      else if data.None? || !data.value.publications.enabled then Failure
      else
        var pubs := data.value.publications;
        var failed := imageErrors;
        Listing(PublicationsSection.SplitTitle(pubs.title, pubs.highlight),
                seq(|pubs.items|, i requires 0 <= i < |pubs.items| => EntryOf(pubs.items[i], i in failed)))
    }
  }

  /** Only the loader while loading; afterwards the failure message when
      there is no data or the publications are disabled; otherwise every
      publication, in order, with no display limit, each showing either its
      picture or the fallback icon, never both. */
  lemma RenderRule(p: Page)
    ensures p.loading ==> p.Render() == Loader
    ensures !p.loading ==>
              (p.Render() == Failure <==> p.data.None? || !p.data.value.publications.enabled)
    ensures p.Render().Listing? ==>
              var items := p.data.value.publications.items;
              |p.Render().entries| == |items| &&
              forall i :: 0 <= i < |items| ==>
                p.Render().entries[i] == EntryOf(items[i], i in p.imageErrors) &&
                (p.Render().entries[i].picture.Some? <==> !p.Render().entries[i].fallback)
  {
  }

  /** A failed image turns its own entry to the fallback icon and leaves
      every other entry as it was. */
  method ImageFailure(page: Page, i: nat) returns (before: Screen, after: Screen)
    requires !page.loading && page.data.Some? && page.data.value.publications.enabled
    requires i < |page.data.value.publications.items|
    modifies page
    ensures before.Listing? && after.Listing? && i < |after.entries| == |before.entries|
    ensures after.entries[i].fallback && after.entries[i].picture.None?
    ensures forall j :: 0 <= j < |before.entries| && j != i ==> after.entries[j] == before.entries[j]
  {
    before := page.Render();
    page.ImageFailed(i);
    after := page.Render();
  }

  /** A failed fetch on the fresh page ends in the failure message. */
  method FailedLoad() returns (screen: Screen)
    ensures screen == Failure
  {
    var page := new Page();
    page.FetchDone(None);
    screen := page.Render();
  }
}
