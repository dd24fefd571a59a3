/** The custom sections of `src/app/components/sections/CustomSections.tsx`:
    the section's `content` is free-form JSON, and each section type picks
    its data out of it with `Array.isArray` tests and `??` fallbacks. A view
    is modelled as the values the markup shows, not the markup itself. */
module CustomSections {
  import opened Wrappers
  import TextParser

  /** A JSON value; an absent property is `None` around it. Numbers are
      integers: `NaN` and fractions are not represented. */
  datatype Json = Null | Bool(b: bool) | Num(n: int) | Str(s: string) | Arr(items: seq<Json>) | Obj(fields: map<string, Json>)

  /** `v?.key`: defined only when `v` is an object holding `key`. */
  function Member(v: Option<Json>, key: string): (r: Option<Json>)
    ensures r.Some? <==> v.Some? && v.value.Obj? && key in v.value.fields
    ensures r.Some? ==> r.value == v.value.fields[key]
  {
    if v.Some? && v.value.Obj? && key in v.value.fields then Some(v.value.fields[key]) else None
  }

  /** Missing, or present as `null`: the two cases `??` replaces. */
  predicate Nullish(v: Option<Json>) {
    v.None? || v.value == Null
  }

  /** `v ?? fallback` on a value that may be absent. */
  function Coalesce(v: Option<Json>, fallback: Json): (r: Json)
    ensures Nullish(v) ==> r == fallback
    ensures !Nullish(v) ==> r == v.value
  {
    if Nullish(v) then fallback else v.value
  }

  /** `??` keeps every present, non-null value, empty strings, `false` and
      `0` included. */
  lemma CoalesceKeepsFalsy(fallback: Json)
    ensures Coalesce(Some(Str("")), fallback) == Str("")
    ensures Coalesce(Some(Bool(false)), fallback) == Bool(false)
    ensures Coalesce(Some(Num(0)), fallback) == Num(0)
  {
  }

  /** JavaScript truthiness of a possibly absent value. */
  predicate Truthy(v: Option<Json>) {
    v.Some? &&
    match v.value
    case Null => false
    case Bool(b) => b
    case Num(n) => n != 0
    case Str(s) => s != ""
    case Arr(_) => true
    case Obj(_) => true
  }

  /** `Array.isArray(v)` */
  predicate IsArray(v: Option<Json>) {
    v.Some? && v.value.Arr?
  }

  datatype CustomSection = CustomSection(
    id: string, kind: string, enabled: bool, title: string,
    eyebrow: Option<string>, description: Option<string>, content: Option<Json>)

  // ---------------------------------------------------------------------------
  // Item lists: `content.list` / `content.links`, else `content`, else []

  /** The list an info or links section shows: the array under `key` when
      there is one, else the content itself when it is an array, else
      nothing. */
  function ArrayOrContent(content: Option<Json>, key: string): (items: seq<Json>)
    ensures IsArray(Member(content, key)) ==> items == Member(content, key).value.items
    ensures !IsArray(Member(content, key)) && IsArray(content) ==> items == content.value.items
    ensures !IsArray(Member(content, key)) && !IsArray(content) ==> items == []
  {
    var inner := Member(content, key);
    if IsArray(inner) then inner.value.items
    else if IsArray(content) then content.value.items
    else []
  }

  /** The two arrays cannot both be present: an array has no named member,
      so the fallback to the content applies only to a bare array. */
  lemma ArrayOrContentExclusive(content: Option<Json>, key: string)
    ensures IsArray(content) ==> ArrayOrContent(content, key) == content.value.items
    ensures !IsArray(content) && !(content.Some? && content.value.Obj?) ==> ArrayOrContent(content, key) == []
  {
  }

  /** Each info item goes through the markup parser; a non-string item
      shows nothing. */
  function ItemText(item: Json): seq<TextParser.Node> {
    if item.Str? then TextParser.ParseText(item.s) else []
  }

  /** The rendered items of an info section, in order. */
  function InfoItems(section: CustomSection): (rows: seq<seq<TextParser.Node>>)
    ensures |rows| == |ArrayOrContent(section.content, "list")|
    ensures forall i :: 0 <= i < |rows| ==> rows[i] == ItemText(ArrayOrContent(section.content, "list")[i])
  {
    var items := ArrayOrContent(section.content, "list");
    seq(|items|, i requires 0 <= i < |items| => ItemText(items[i]))
  }

  /** A links card: its target, its label, and the description line, shown
      only when truthy. */
  datatype LinkCard = LinkCard(url: Option<Json>, caption: Option<Json>, description: Option<Json>)

  function LinkCardOf(link: Json): (card: LinkCard)
    ensures card.description.Some? <==> Truthy(Member(Some(link), "description"))
  {
    var d := Member(Some(link), "description");
    LinkCard(Member(Some(link), "url"), Member(Some(link), "label"), if Truthy(d) then d else None)
  }

  function LinkCards(section: CustomSection): (cards: seq<LinkCard>)
    ensures |cards| == |ArrayOrContent(section.content, "links")|
    ensures forall i :: 0 <= i < |cards| ==> cards[i] == LinkCardOf(ArrayOrContent(section.content, "links")[i])
  {
    var links := ArrayOrContent(section.content, "links");
    seq(|links|, i requires 0 <= i < |links| => LinkCardOf(links[i]))
  }

  // ---------------------------------------------------------------------------
  // Button

  const DefaultButtonDescription := "Stay in touch for collaborations, consulting, or speaking gigs."
  const DefaultButtonLabel := "Learn more"

  datatype ButtonCard = ButtonCard(description: Json, url: Option<Json>, caption: Json)

  /** `content?.button ?? content` */
  function ButtonData(content: Option<Json>): (button: Option<Json>)
    ensures !Nullish(Member(content, "button")) ==> button == Member(content, "button")
    ensures Nullish(Member(content, "button")) ==> button == content
  {
    var b := Member(content, "button");
    if Nullish(b) then content else b
  }

  function ButtonCardOf(section: CustomSection): ButtonCard {
    var button := ButtonData(section.content);
    ButtonCard(Coalesce(Member(button, "description"), Str(DefaultButtonDescription)),
               Member(button, "url"),
               Coalesce(Member(button, "label"), Str(DefaultButtonLabel)))
  }

  /** The button reads `content.button` when that is set, else the content
      itself; its description and label fall back to the fixed strings only
      when missing or null. */
  lemma ButtonCardRule(section: CustomSection)
    ensures var button := ButtonData(section.content);
            var card := ButtonCardOf(section);
            (!Nullish(Member(button, "description")) ==> card.description == Member(button, "description").value) &&
            (Nullish(Member(button, "description")) ==> card.description == Str(DefaultButtonDescription)) &&
            card.url == Member(button, "url") &&
            (!Nullish(Member(button, "label")) ==> card.caption == Member(button, "label").value) &&
            (Nullish(Member(button, "label")) ==> card.caption == Str(DefaultButtonLabel))
  {
  }

  // ---------------------------------------------------------------------------
  // Newsletter

  datatype NewsletterCard = NewsletterCard(
    eyebrow: string, heading: Json, supportingCopy: Option<Json>, pitch: Option<Json>,
    placeholder: Json, ctaLabel: Json, ctaUrl: Json, note: Option<Json>,
    stats: Json, showStats: bool)

  /** An optional string as a JSON value. */
  function StrOf(v: Option<string>): Option<Json> {
    if v.Some? then Some(Str(v.value)) else None
  }

  /** Present only when truthy: the `x && <p>{x}</p>` pattern. */
  function Shown(v: Option<Json>): (r: Option<Json>)
    ensures r.Some? <==> Truthy(v)
    ensures r.Some? ==> r == v
  {
    if Truthy(v) then v else None
  }

  function NewsletterCardOf(section: CustomSection): NewsletterCard {
    var config := Member(section.content, "newsletter");
    var subcopy := Member(config, "subcopy");
    var copy := if Nullish(subcopy) then StrOf(section.description) else subcopy;
    var stats := Coalesce(Member(config, "stats"), Arr([]));
    NewsletterCard(
      if section.eyebrow.Some? then section.eyebrow.value else "Newsletter",
      Coalesce(Member(config, "heading"), Str(section.title)),
      Shown(copy),
      Shown(Member(config, "pitch")),
      Coalesce(Member(config, "placeholder"), Str("Your email")),
      Coalesce(Member(config, "ctaLabel"), Str("Subscribe")),
      Coalesce(Member(config, "ctaUrl"), Str("#")),
      Shown(Member(config, "note")),
      stats,
      stats.Arr? && |stats.items| > 0)
  }

  /** Without a `newsletter` object every field takes its default: the
      section's title and description, "Your email", "Subscribe", "#", no
      stats grid; an eyebrow that is set, even to "", is kept. */
  lemma NewsletterDefaults(section: CustomSection)
    requires Member(section.content, "newsletter").None?
    ensures var card := NewsletterCardOf(section);
            card.heading == Str(section.title) &&
            card.placeholder == Str("Your email") && card.ctaLabel == Str("Subscribe") &&
            card.ctaUrl == Str("#") && card.stats == Arr([]) && !card.showStats &&
            card.pitch.None? && card.note.None? &&
            (card.supportingCopy.Some? <==> section.description.Some? && section.description.value != "") &&
            (section.eyebrow.Some? ==> card.eyebrow == section.eyebrow.value) &&
            (section.eyebrow.None? ==> card.eyebrow == "Newsletter")
  {
  }

  /** Configured fields win over the defaults even when empty strings. */
  lemma NewsletterKeepsEmpty(section: CustomSection, config: map<string, Json>)
    requires Member(section.content, "newsletter") == Some(Obj(config))
    requires forall k :: k in ["heading", "placeholder", "ctaLabel", "ctaUrl"] ==> k in config && config[k] == Str("")
    ensures var card := NewsletterCardOf(section);
            card.heading == Str("") && card.placeholder == Str("") &&
            card.ctaLabel == Str("") && card.ctaUrl == Str("")
  {
    assert "heading" in ["heading", "placeholder", "ctaLabel", "ctaUrl"];
    assert "placeholder" in ["heading", "placeholder", "ctaLabel", "ctaUrl"];
    assert "ctaLabel" in ["heading", "placeholder", "ctaLabel", "ctaUrl"];
    assert "ctaUrl" in ["heading", "placeholder", "ctaLabel", "ctaUrl"];
  }

  /** The stats grid shows exactly when the stats resolve to a non-empty
      array. */
  lemma NewsletterStats(section: CustomSection)
    ensures var config := Member(section.content, "newsletter");
            var card := NewsletterCardOf(section);
            card.showStats <==> IsArray(Member(config, "stats")) && |Member(config, "stats").value.items| > 0
  {
  }

  // ---------------------------------------------------------------------------
  // The section and its dispatch

  datatype Body =
    | InfoBody(items: seq<seq<TextParser.Node>>)
    | LinksBody(cards: seq<LinkCard>)
    | ButtonBody(button: ButtonCard)
    | NewsletterBody(newsletter: NewsletterCard)
    | RawBody(raw: Option<Json>)

  datatype View =
    | Hidden
    | SectionView(id: string, eyebrow: Option<string>, title: string,
                  description: seq<TextParser.Node>, body: Body)

  /** `renderContent`: one view per known type, the raw content otherwise. */
  function RenderContent(section: CustomSection): Body {
    match section.kind
    case "info" => InfoBody(InfoItems(section))
    case "links" => LinksBody(LinkCards(section))
    case "button" => ButtonBody(ButtonCardOf(section))
    case "newsletter" => NewsletterBody(NewsletterCardOf(section))
    case _ => RawBody(section.content)
  }

  /** The header eyebrow and description show only when non-empty; the
      description goes through the markup parser. */
  function Render(section: CustomSection): View {
    if !section.enabled then Hidden
    else
      SectionView(
        section.id,
        if section.eyebrow.Some? && section.eyebrow.value != "" then section.eyebrow else None,
        section.title,
        if section.description.Some? && section.description.value != ""
        then TextParser.ParseText(section.description.value) else [],
        RenderContent(section))
  }

  /** A disabled section renders nothing; an enabled one renders the view
      its type selects, and an unknown type shows its content unchanged. */
  lemma RenderDispatch(section: CustomSection)
    ensures Render(section).Hidden? <==> !section.enabled
    ensures section.enabled ==>
              var body := Render(section).body;
              (body.InfoBody? <==> section.kind == "info") &&
              (body.LinksBody? <==> section.kind == "links") &&
              (body.ButtonBody? <==> section.kind == "button") &&
              (body.NewsletterBody? <==> section.kind == "newsletter") &&
              (body.RawBody? ==> body.raw == section.content)
  {
  }

  /** The description block is non-empty exactly when the description is a
      non-empty string. */
  lemma DescriptionShown(section: CustomSection)
    requires section.enabled
    ensures Render(section).description != [] <==>
              section.description.Some? && section.description.value != ""
  {
    if section.description.Some? {
      TextParser.ParseTextEmpty(section.description.value);
    }
  }
}
