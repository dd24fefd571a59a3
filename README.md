# json-folio core, modelled in Dafny

json-folio is a portfolio web site. A single JSON document describes the site,
and React components render it. This project models the behaviour-carrying core
of the site and proves properties of that model:

- **Rich-text parser** (`TextParser`, `MarkupRegex`). `parseText` splits a
  string on `\n` or a literal backslash-n. `parseHTMLTags` turns
  `<b>`/`<strong>`/`<i>`/`<u>` pairs into styled nodes, recursing into their
  content. `parseLinks` turns `(caption)[href]` into links. The two regular
  expressions are modelled as matchers at a position, with the leftmost search
  that a `g`-flagged `exec` performs from `lastIndex`. The rendered React tree
  is flattened into a sequence of `Node`s (text, bold, italic, underline, link,
  line break).
- **Contact form** (`ContactForm`). Per-field validation, including the e-mail
  regular expression (given as a character-level pattern and proved equivalent
  to a split-based check). Whole-form validation as a loop over the form's keys.
  The component state (form data, errors, submitting flag, status) and its event
  handlers.
- **Custom sections** (`CustomSections`). The JSON `content` of info, links,
  button and newsletter sections, with the `??` defaulting and `&&` display conditions
  the renderers apply, and dispatch on the section type.
- **Publications** (`PublicationsSection`, `PublicationsPage`). Title
  highlighting by first occurrence, truncation with JavaScript `slice`
  semantics (negative limits included), the "show more" button, the image
  fallback, and the page's load states.
- **Achievements** (`Achievements`). URL and icon validity, full-width placement
  of the last card of an odd count.
- **Carousels** (`ProjectCarousel`, `Testimonials`). Wrap-around navigation,
  dots, swipe detection with its 50-pixel threshold, and testimonial initials.
- **Active navigation section** (`ActiveSection`, also used by `HomePage`).
  The first section whose box contains the scroll position plus 100.
- **Visit tracking** (`TrackVisit`). The source-detection decision (URL
  parameter, ignore value, referrer table, default) and the summary line sent
  with the visit.
- **Typewriter effect** (`Typewriter`). One character per tick, then cursor
  blinking.
- **Home page** (`HomePage`). Load states, the fixed section order filtered by
  the enabled flags, the footer `{year}` substitution, and the
  at-most-once-per-session visit effect.

Shared helpers: `Wrappers` (Option) and `JsText`, which holds the
JavaScript string built-ins the core calls (`trim`, ASCII case mapping,
`indexOf`, `includes`, `split`, `join`, and the first-occurrence string
`replace`).

Inputs the components read from the browser or the network become parameters.
These are the element layout (`string -> Option<Box>`), the URL-protocol
parser, fetch results (`Option<…>`), the session-storage flag, the current
year, and whether the mail service accepted the message.

## Model

| member | source | states |
|---|---|---|
| MarkupRegex.CloseFrom | src/app/utils/textParser.tsx:18 | the lazy `(.*?)` search: a closing tag it finds starts at or after the search start and lies wholly inside the text |
| MarkupRegex.CloseFromSound | src/app/utils/textParser.tsx:18 | a closing tag found by the lazy search really is `</name>` case-insensitively, no earlier one exists and the content holds no line terminator |
| MarkupRegex.CloseFromComplete | src/app/utils/textParser.tsx:18 | whenever a closing tag with terminator-free content exists at some position, the lazy search finds one at or before it |
| MarkupRegex.TagWith | src/app/utils/textParser.tsx:18 | a match for one tag name starts at 0, carries that lower-case name and the content between the tags |
| MarkupRegex.FirstAlternative | src/app/utils/textParser.tsx:18 | the alternation `(b\|strong\|i\|u)` picks a listed name that matches, trying the names in order |
| MarkupRegex.TagHere | src/app/utils/textParser.tsx:18 | a tag match at the head of the text has a name from b/strong/i/u, starts at 0 and ends inside the text |
| MarkupRegex.TagHereSound | src/app/utils/textParser.tsx:18 | a match is an opening tag, the content, and the same tag name closed, case-insensitively, with the content the shortest possible |
| MarkupRegex.TagHereComplete | src/app/utils/textParser.tsx:18 | whenever some tag pair with terminator-free content starts the text, TagHere finds a match |
| MarkupRegex.TagHereExact | src/app/utils/textParser.tsx:18 | the match found is exactly the lazy span for the opening tag's name |
| MarkupRegex.OpenNameUnique | src/app/utils/textParser.tsx:18 | at most one tag name can open the text, so the alternation's order never changes the result |
| MarkupRegex.FirstAlternativeReaches | src/app/utils/textParser.tsx:18 | if the i-th alternative matches, the alternation matches |
| MarkupRegex.OpenTagName | src/app/utils/textParser.tsx:27 | the tag recorded for a match is the lower-cased text of the opening tag |
| MarkupRegex.TagMatchAt | src/app/utils/textParser.tsx:23-29 | a match at position p starts at p, has a known tag name, and ends after p inside the string |
| MarkupRegex.FirstTagFrom | src/app/utils/textParser.tsx:23 | `exec` from `lastIndex`: the result is a match at its own start, at or after `lastIndex` |
| MarkupRegex.FirstTagFromLeftmost | src/app/utils/textParser.tsx:23 | no match starts between `lastIndex` and the match `exec` returns |
| MarkupRegex.TagMatchAtShift | src/app/utils/textParser.tsx:23 | matching at k+j in s is matching at j in the suffix s[k..], shifted by k |
| MarkupRegex.FirstTagFromShift | src/app/utils/textParser.tsx:23 | the leftmost search commutes with taking a suffix |
| MarkupRegex.CharFrom | src/app/utils/textParser.tsx:103 | the `[^)]+` / `[^\]]+` scan: a result is a position of the sought character at or after the start |
| MarkupRegex.CharFromSound | src/app/utils/textParser.tsx:103 | the sought character does not occur before the position found |
| MarkupRegex.CharFromComplete | src/app/utils/textParser.tsx:103 | any occurrence of the character at or after the start means the scan finds one no later |
| MarkupRegex.LinkHere | src/app/utils/textParser.tsx:103 | a link match at the head of the text starts at 0 and is at least four characters long |
| MarkupRegex.LinkHereSound | src/app/utils/textParser.tsx:103 | a link match is `(` caption `)[` href `]` with a non-empty caption free of `)` and a non-empty href free of `]` |
| MarkupRegex.LinkHereComplete | src/app/utils/textParser.tsx:103 | whenever the text starts with that syntax, LinkHere returns exactly that caption and href |
| MarkupRegex.LinkHerePrefix | src/app/utils/textParser.tsx:103 | appending text after a link match does not change it |
| MarkupRegex.LinkAt | src/app/utils/textParser.tsx:109 | a link match at p starts at p and ends after p inside the string |
| MarkupRegex.FirstLinkFrom | src/app/utils/textParser.tsx:109 | `exec` from `lastIndex` returns a match at its own start, at or after `lastIndex` |
| MarkupRegex.FirstLinkFromLeftmost | src/app/utils/textParser.tsx:109 | no link starts between `lastIndex` and the match `exec` returns |
| MarkupRegex.FirstLinkFromShift | src/app/utils/textParser.tsx:109 | the leftmost link search commutes with taking a suffix |
| TextParser.LinkParts | src/app/utils/textParser.tsx:102-151 | the parts `parseLinks` collects from `lastIndex` on: for each leftmost link match, the text before it when non-empty, then the link; after the last match, the non-empty remainder (properties: LinkPartsSource, LinkPartsNodes, LinkPartsDisplay) |
| TextParser.ParseLinks | src/app/utils/textParser.tsx:102-151 | `parseLinks`: the collected parts, or the whole text as one text node when none were collected (properties: ParseLinksSource, ParseLinksDisplay, ParseLinksPlain) |
| TextParser.StripLinks | src/app/utils/textParser.tsx:102-151 | the reference scan for the visible text of `parseLinks`: left to right, a link at the current position is replaced by its caption, any other character is copied |
| TextParser.ScanLinks | src/app/utils/textParser.tsx:102-151 | the loop of parseLinks (text before each match, the link, the remainder; the whole text when nothing matched) yields exactly ParseLinks |
| TextParser.LinkPartsUnfold | src/app/utils/textParser.tsx:109-134 | one loop iteration: the text before the leftmost match, the link, then the parse from the match's end |
| TextParser.LinkPartsEnd | src/app/utils/textParser.tsx:137-143 | with no further match, only the non-empty remainder is added |
| TextParser.ParseLinksSource | src/app/utils/textParser.tsx:102-151 | round trip: writing each link back as `(caption)[href]` and concatenating reproduces the input exactly |
| TextParser.LinkPartsSource | src/app/utils/textParser.tsx:109-143 | the same round trip for the parse from any `lastIndex` |
| TextParser.LinkAtSource | src/app/utils/textParser.tsx:114-129 | a link node written back is exactly the matched slice of the text |
| TextParser.LinkAtHere | src/app/utils/textParser.tsx:109 | a match at p exists iff the suffix at p starts with a link, and it is that link shifted by p |
| TextParser.LinkHereSource | src/app/utils/textParser.tsx:103 | the matched prefix is `(` + caption + `)[` + href + `]` |
| TextParser.LinkAtWellFormed | src/app/utils/textParser.tsx:124-129 | every produced link has a non-empty caption without `)` and a non-empty href without `]` |
| TextParser.GapLinkFree | src/app/utils/textParser.tsx:111-117 | a text part between links contains no link syntax |
| TextParser.SkippedLinks | src/app/utils/textParser.tsx:109 | positions before the next match hold no link |
| TextParser.ParseLinksNodes | src/app/utils/textParser.tsx:102-151 | parseLinks yields text parts and well-formed links only |
| TextParser.LinkPartsNodes | src/app/utils/textParser.tsx:109-143 | the same for the parse from any `lastIndex` |
| TextParser.ParseLinksKinds | src/app/utils/textParser.tsx:102-151 | parseLinks produces only text and link nodes |
| TextParser.ParseLinksPlain | src/app/utils/textParser.tsx:146-148 | text without link syntax comes back unchanged as one text node |
| TextParser.ParseLinksDisplay | src/app/utils/textParser.tsx:102-151 | the visible text of the parse equals StripLinks, an independent character scan that replaces each link by its caption |
| TextParser.LinkPartsDisplay | src/app/utils/textParser.tsx:109-143 | the same for the parse from any `lastIndex` |
| TextParser.StripLinksGap | src/app/utils/textParser.tsx:114 | the reference scan keeps link-free stretches verbatim |
| TextParser.StripLinksAt | src/app/utils/textParser.tsx:129 | the reference scan replaces a link by its caption |
| TextParser.StripLinksChar | src/app/utils/textParser.tsx:114 | the reference scan copies a character that does not start a link |
| TextParser.LinkSourceAppend | src/app/utils/textParser.tsx:150 | writing nodes back distributes over concatenation |
| TextParser.DisplayAppend | src/app/utils/textParser.tsx:96 | visible text distributes over concatenation of rendered parts |
| TextParser.TagParts | src/app/utils/textParser.tsx:11-97 | the parts `parseHTMLTags` builds from a chain of matches: the non-empty gap before each match through `parseLinks`, the match as a styled node over the recursively parsed content, then the non-empty remainder through `parseLinks` (properties: TagPartsDisplay, TagPartsNoBreak, TagPartsNonEmpty) |
| TextParser.ParseTags | src/app/utils/textParser.tsx:11-97 | `parseHTMLTags`: the parts over all leftmost matches, or `parseLinks` of the whole text when no parts were collected (properties: ParseTagsDisplay, ParseTagsNoBreak, ParseTagsNonEmpty) |
| TextParser.Unmark | src/app/utils/textParser.tsx:11-97 | the reference scan for the visible text of `parseHTMLTags`: a tag pair at the current position is replaced by its unmarked content, a link by its caption, any other character is copied |
| TextParser.TagMatches | src/app/utils/textParser.tsx:22-30 | the collected matches form a chain: each lies after the previous one's end, and each is the leftmost match from there |
| TextParser.CollectTagMatches | src/app/utils/textParser.tsx:22-30 | the collecting `while (exec)` loop yields exactly TagMatches |
| TextParser.TagMatchesUnfold | src/app/utils/textParser.tsx:23-48 | one step of the collect loop and of the `for` loop: the gap, the styled match, then the rest |
| TextParser.ScanTags | src/app/utils/textParser.tsx:11-97 | the `for` loop of parseHTMLTags (gap text through parseLinks, recursion into the content, the remainder, the plain-text fallback) yields exactly ParseTags |
| TextParser.TagPartsEnd | src/app/utils/textParser.tsx:80-94 | after the last match, the remainder goes through parseLinks, and nothing is added when none is left |
| TextParser.ParseTagsDisplay | src/app/utils/textParser.tsx:11-97 | the visible text of the parse equals Unmark, an independent scan that drops the matched tags and replaces links by their captions |
| TextParser.TagPartsDisplay | src/app/utils/textParser.tsx:33-89 | the same from any `lastIndex` |
| TextParser.UnmarkSkip | src/app/utils/textParser.tsx:35-45 | the reference scan is unchanged across stretches without tags |
| TextParser.StyledDisplay | src/app/utils/textParser.tsx:51-74 | wrapping in bold, italic or underline keeps the visible text of the children |
| TextParser.TagPartsNonEmpty | src/app/utils/textParser.tsx:33-89 | a non-empty text or a text with a match yields at least one part |
| TextParser.ParseTagsNonEmpty | src/app/utils/textParser.tsx:92-94 | parseHTMLTags never yields nothing; the fallback is the text itself |
| TextParser.ParseTagsPlain | src/app/utils/textParser.tsx:92-94 | text without tags or links comes back as one text node |
| TextParser.FirstTagFromNone | src/app/utils/textParser.tsx:23 | when no position matches, `exec` returns null |
| TextParser.SkippedTags | src/app/utils/textParser.tsx:23 | positions before the next match hold no tag pair |
| TextParser.ParseTagsNoBreak | src/app/utils/textParser.tsx:11-97 | parseHTMLTags never produces a line break; breaks come only from parseText |
| TextParser.TagPartsNoBreak | src/app/utils/textParser.tsx:33-89 | the same from any `lastIndex` |
| TextParser.GapNoBreak | src/app/utils/textParser.tsx:35-45 | the text before a match carries no line break |
| TextParser.SplitLines | src/app/utils/textParser.tsx:157 | `text.split(/\\n\|\n/)`: the lines between separators, in order (properties: SplitLinesRoundTrip, SplitLinesClean) |
| TextParser.SplitLinesRoundTrip | src/app/utils/textParser.tsx:157 | the split on `\\n\|\n` has one more line than separators, every separator is a newline or a literal backslash-n, and interleaving them again reproduces the text |
| TextParser.SplitFromRoundTrip | src/app/utils/textParser.tsx:157 | the same for the split from any position |
| TextParser.SplitLinesClean | src/app/utils/textParser.tsx:157 | no line contains a separator |
| TextParser.SplitFromClean | src/app/utils/textParser.tsx:157 | the same for the split from any position |
| TextParser.SliceNoSeparator | src/app/utils/textParser.tsx:157 | a stretch with no separator start contains no separator |
| TextParser.SplitFrom | src/app/utils/textParser.tsx:157 | a split always yields at least one line |
| TextParser.ParseText | src/app/utils/textParser.tsx:153-170 | `parseText`: nothing for "", otherwise each line through `parseHTMLTags` with a break between consecutive lines (properties: ParseTextEmpty, ParseTextBreaks, ParseTextDisplay) |
| TextParser.ParseTextEmpty | src/app/utils/textParser.tsx:154 | parseText renders nothing exactly for the empty string |
| TextParser.ParseTextBreaks | src/app/utils/textParser.tsx:159-169 | a non-empty text gets one line break between consecutive lines and none after the last |
| TextParser.RenderLinesBreaks | src/app/utils/textParser.tsx:166 | the line loop adds `lines - 1 - i` breaks from line i on |
| TextParser.ParseTextDisplay | src/app/utils/textParser.tsx:153-170 | the visible text of parseText is the unmarked lines joined by newlines |
| TextParser.RenderLinesDisplay | src/app/utils/textParser.tsx:159-169 | the same from line i on |
| TextParser.CountBreaksAppend | src/app/utils/textParser.tsx:166 | break counts add over concatenation |
| TextParser.CountBreaksNone | src/app/utils/textParser.tsx:166 | parts without a break node count zero breaks |
| MarkupExamples.NestedExample | src/app/utils/textParser.tsx:48 | `<b>a<i>b</i>c</b>` becomes bold over text, italic and text: the content is parsed again |
| MarkupExamples.InnerParse | src/app/utils/textParser.tsx:33-89 | `a<i>b</i>c` becomes text, italic, text |
| MarkupExamples.OuterMatch | src/app/utils/textParser.tsx:18 | the lazy pair on `<b>a<i>b</i>c</b>` spans the whole string |
| MarkupExamples.ItalicMatch | src/app/utils/textParser.tsx:18 | `<i>b</i>c` matches the italic pair only |
| MarkupExamples.StrongMatch | src/app/utils/textParser.tsx:18 | `<STRONG>x</Strong>` matches case-insensitively with tag `strong` |
| MarkupExamples.StrongExample | src/app/utils/textParser.tsx:51-74 | `strong` renders as bold like `b` |
| MarkupExamples.MismatchAtStart | src/app/utils/textParser.tsx:18 | the back-reference `\1` rejects `<b>x</i>` |
| MarkupExamples.MismatchExample | src/app/utils/textParser.tsx:92-94 | mismatched tags fall back to the plain text |
| MarkupExamples.LinkExample | src/app/utils/textParser.tsx:103 | `(a)[u]` becomes a link with caption `a` and href `u` |
| MarkupExamples.UnmatchedExample | src/app/utils/textParser.tsx:146-148 | `(a)` without an href stays text |
| MarkupExamples.PlainChar | src/app/utils/textParser.tsx:92-94 | a single character is left as text by both parsers |
| MarkupExamples.NoTagAt | src/app/utils/textParser.tsx:18 | text not starting with `<` has no tag match |
| JsText.SkipLeading | src/app/components/ContactForm.tsx:32 | `trim` at the start: the index of the first non-whitespace character, everything before it whitespace |
| JsText.SkipTrailing | src/app/components/ContactForm.tsx:32 | `trim` at the end: the index just past the last non-whitespace character, everything after it whitespace |
| JsText.Trim | src/app/components/ContactForm.tsx:32 | the trimmed string is no longer than the input and neither starts nor ends with whitespace |
| JsText.TrimSlice | src/app/components/ContactForm.tsx:32 | the trimmed string is a slice of the input, and everything cut away on either side is whitespace |
| JsText.TrimEmpty | src/app/components/sections/AchievementsSection.tsx:56-58 | trimming yields "" iff the string is all whitespace |
| JsText.Lower | src/app/utils/textParser.tsx:27 | `toLowerCase` maps each character, keeping the length |
| JsText.Upper | src/app/components/sections/TestimonialsSection.tsx:16 | `toUpperCase` maps each character, keeping the length |
| JsText.IndexOfFrom | src/app/components/sections/PublicationsSection.tsx:64-66 | -1 or an occurrence at or after the start, with no earlier occurrence |
| JsText.IndexOf | src/app/components/sections/PublicationsSection.tsx:64-66 | `indexOf`: -1 or the first occurrence |
| JsText.Split | src/app/components/sections/TestimonialsSection.tsx:13 | `split` on a character: at least one part, and no part contains the separator |
| JsText.JoinSplit | src/app/components/sections/TestimonialsSection.tsx:13-15 | joining the parts of a split with the separator gives back the string |
| JsText.ReplaceFirst | src/app/page.tsx:565 | string `replace` changes only the first occurrence, and nothing when there is none |
| ContactForm.ValidateField | src/app/components/ContactForm.tsx:29-44 | the error is "" or one of the configured messages |
| ContactForm.FieldRules | src/app/components/ContactForm.tsx:29-44 | name and subject fail iff their trimmed length is below 2; email passes iff it matches the e-mail pattern; message passes iff its trimmed length is 2 to 1000, with the short and long messages for the two failures; any other field never fails |
| ContactForm.IsEmailPattern | src/app/components/ContactForm.tsx:34 | the regex `^[^\s@]+@[^\s@]+\.[^\s@]+$` holds iff the value has exactly one `@`, a non-empty local part, no whitespace, and a dot with characters on both sides in the domain |
| ContactForm.PatternIsEmail | src/app/components/ContactForm.tsx:34 | direction one of the equivalence: a regex match passes the split check |
| ContactForm.EmailIsPattern | src/app/components/ContactForm.tsx:34 | direction two: a value passing the split check matches the regex |
| ContactForm.SplitSingle | src/app/components/ContactForm.tsx:34 | a single `@` splits the value into the parts before and after it |
| ContactForm.SplitNone | src/app/components/ContactForm.tsx:34 | a value without `@` splits into itself |
| ContactForm.EmptyForm | src/app/components/ContactForm.tsx:18-24 | the initial form has exactly the five field keys, all empty |
| ContactForm.CollectErrors | src/app/components/ContactForm.tsx:66-82 | the loop over the form's keys produces exactly FormErrors (an error for each failing field), and the form is valid iff no error was recorded |
| ContactForm.FormErrorsEmpty | src/app/components/ContactForm.tsx:66-82 | there are no errors iff every key other than `phone` validates |
| ContactForm.FieldsPass | src/app/components/ContactForm.tsx:66-82 | over the five form keys, "every non-phone key validates" is the four named checks |
| ContactForm.LowerFieldNames | src/app/components/ContactForm.tsx:30-40 | the field names are already lower case, so the switch sees them unchanged |
| ContactForm.FormValid | src/app/components/ContactForm.tsx:66-82 | the five-field form is valid iff name and subject have at least 2 characters after trimming, the e-mail matches the pattern, and the trimmed message is 2 to 1000 characters; the phone is never checked |
| ContactForm.ContactForm.constructor | src/app/components/ContactForm.tsx:18-27 | the empty form, no errors, not submitting, idle status |
| ContactForm.ContactForm.HandleChange | src/app/components/ContactForm.tsx:46-56 | the value is stored; the field is re-validated only when it already shows an error; the rest is unchanged |
| ContactForm.ContactForm.HandleBlur | src/app/components/ContactForm.tsx:58-64 | the field's error is replaced by its validation result and nothing else changes |
| ContactForm.ContactForm.ValidateForm | src/app/components/ContactForm.tsx:66-82 | the errors become FormErrors of the current data; the result says whether they are empty |
| ContactForm.ContactForm.BeginSubmit | src/app/components/ContactForm.tsx:84-90 | the message is sent iff the form is valid; then the form is submitting with idle status, otherwise the status is untouched |
| ContactForm.ContactForm.FinishSubmit | src/app/components/ContactForm.tsx:100-113 | on success the status is success and the form is reset; on failure the status is failure and the data kept; submitting ends either way |
| CustomSections.Member | src/app/components/sections/CustomSections.tsx:14 | optional member access `v?.key`: a value exactly when v is an object holding the key |
| CustomSections.Coalesce | src/app/components/sections/CustomSections.tsx:78 | `??` falls back only for null or undefined |
| CustomSections.CoalesceKeepsFalsy | src/app/components/sections/CustomSections.tsx:93-101 | `??` keeps "", false and 0 |
| CustomSections.ArrayOrContent | src/app/components/sections/CustomSections.tsx:14-19 | the list comes from `content[key]` when that is an array, otherwise from `content` when it is an array, otherwise it is empty |
| CustomSections.ArrayOrContentExclusive | src/app/components/sections/CustomSections.tsx:37-41 | an array content is used as is; content that is neither an array nor an object gives no items |
| CustomSections.InfoItems | src/app/components/sections/CustomSections.tsx:13-34 | one parsed row per list item, in order |
| CustomSections.LinkCardOf | src/app/components/sections/CustomSections.tsx:58 | a link card shows a description exactly when the link's description is truthy |
| CustomSections.LinkCards | src/app/components/sections/CustomSections.tsx:36-70 | one card per link, in order |
| CustomSections.ButtonData | src/app/components/sections/CustomSections.tsx:73 | the button config is `content.button` unless that is nullish, then `content` itself |
| CustomSections.ButtonCardOf | src/app/components/sections/CustomSections.tsx:72-90 | the button card: description and label from `content?.button ?? content` with their `??` defaults, and the url as given (property: ButtonCardRule) |
| CustomSections.ButtonCardRule | src/app/components/sections/CustomSections.tsx:72-90 | description and label fall back to the defaults only when nullish; the URL is taken as given |
| CustomSections.Shown | src/app/components/sections/CustomSections.tsx:108-113 | `x && <…>`: shown exactly when truthy, unchanged |
| CustomSections.NewsletterCardOf | src/app/components/sections/CustomSections.tsx:92-158 | the newsletter card: each configured text with its `??` default, the subcopy falling back to the section description, and the stats list (properties: NewsletterDefaults, NewsletterKeepsEmpty) |
| CustomSections.NewsletterDefaults | src/app/components/sections/CustomSections.tsx:92-158 | without a newsletter config: the section title as heading, "Your email", "Subscribe", "#", no stats, the supporting copy only for a non-empty description, the eyebrow default "Newsletter" |
| CustomSections.NewsletterKeepsEmpty | src/app/components/sections/CustomSections.tsx:93-101 | empty strings in the config are kept, not defaulted |
| CustomSections.NewsletterStats | src/app/components/sections/CustomSections.tsx:143 | stats are shown iff `stats` is a non-empty array |
| CustomSections.RenderContent | src/app/components/sections/CustomSections.tsx:160-177 | `renderContent`: the info, links, button or newsletter view by type, otherwise the raw content (property: RenderDispatch) |
| CustomSections.Render | src/app/components/sections/CustomSections.tsx:179-215 | nothing when disabled; otherwise the id, the eyebrow and the parsed description when non-empty, the title, and the content view (properties: RenderDispatch, DescriptionShown) |
| CustomSections.RenderDispatch | src/app/components/sections/CustomSections.tsx:160-180 | a disabled section renders nothing; an enabled one renders the body of its type, and an unknown type shows the raw content |
| CustomSections.DescriptionShown | src/app/components/sections/CustomSections.tsx:198-202 | the description appears iff it is present and non-empty |
| PublicationsSection.SplitTitle | src/app/components/sections/PublicationsSection.tsx:64-66 | the title is highlighted iff the highlight occurs in it |
| PublicationsSection.SplitTitleRoundTrip | src/app/components/sections/PublicationsSection.tsx:64-66 | before + highlight + after is the title, split at the first occurrence; without an occurrence the whole title is the first part |
| PublicationsSection.SliceEnd | src/app/components/sections/PublicationsSection.tsx:57-58 | `slice(0, limit)`: a non-negative limit is capped at the length; a negative one counts from the end, floored at 0 |
| PublicationsSection.DisplayedItems | src/app/components/sections/PublicationsSection.tsx:57-58 | the shown items are a prefix of the list |
| PublicationsSection.TruncationRule | src/app/components/sections/PublicationsSection.tsx:57-59 | a non-negative limit shows the first min(limit, n) items, and "show more" appears iff items were cut |
| PublicationsSection.NegativeLimit | src/app/components/sections/PublicationsSection.tsx:57-59 | a negative limit drops that many items from the end and always shows the button |
| PublicationsSection.DefaultLimit | src/app/components/sections/PublicationsSection.tsx:57-59 | without a limit, 3 items are shown, with the button iff there are more than 3 |
| PublicationsSection.PublicationImage.constructor | src/app/components/sections/PublicationsSection.tsx:21-22 | a new image has not failed |
| PublicationsSection.PublicationImage.OnError | src/app/components/sections/PublicationsSection.tsx:35 | a load error switches to the fallback |
| PublicationsSection.ImageOrFallback | src/app/components/sections/PublicationsSection.tsx:24-28 | exactly one of the image and the fallback is shown; the fallback shows when the image is missing, empty or failed |
| PublicationsSection.Section.constructor | src/app/components/sections/PublicationsSection.tsx:52-71 | not navigating initially |
| PublicationsSection.Section.ShowMoreClick | src/app/components/sections/PublicationsSection.tsx:68-71 | clicking "show more" starts navigation |
| PublicationsSection.Section.Render | src/app/components/sections/PublicationsSection.tsx:52 | nothing renders iff the section is disabled |
| PublicationsSection.ItemOf | src/app/components/sections/PublicationsSection.tsx:89-149 | one shown publication: its fields as given and its description through `parseText` |
| PublicationsSection.RenderRule | src/app/components/sections/PublicationsSection.tsx:52-177 | the shown items, the button iff items were cut, the button disabled and the overlay shown iff navigating, and the default texts |
| PublicationsPage.DataSource | src/app/publications/page.tsx:69-72 | development reads the archived data file; otherwise the configured URL |
| PublicationsPage.EntryOf | src/app/publications/page.tsx:25-53 | the fallback icon shows exactly when the image is missing, empty or failed, and the picture exactly when it does not; authors are shown exactly when present and non-empty |
| PublicationsPage.EntryImageAgrees | src/app/publications/page.tsx:25-53 | the page's image rule agrees with the section's `PublicationImage` on fallback and picture |
| PublicationsPage.Page.constructor | src/app/publications/page.tsx:65-66 | loading with no data |
| PublicationsPage.Page.FetchDone | src/app/publications/page.tsx:65-86 | a successful fetch stores the data, a failed one keeps it; loading ends either way |
| PublicationsPage.Page.ImageFailed | src/app/publications/page.tsx:26-38 | an image's load error is recorded for its position and nothing else changes |
| PublicationsPage.Page.Render | src/app/publications/page.tsx:88-185 | the loader while loading; the failure message without data or with publications disabled; otherwise the split title and one entry per publication (property: RenderRule) |
| PublicationsPage.RenderRule | src/app/publications/page.tsx:88-185 | the loader while loading; the failure screen iff there is no data or publications are disabled; otherwise one entry per item, in order, each showing exactly one of its picture and the fallback icon |
| PublicationsPage.ImageFailure | src/app/publications/page.tsx:26-53 | a failed image switches its own entry to the fallback icon and leaves every other entry unchanged |
| PublicationsPage.FailedLoad | src/app/publications/page.tsx:80-102 | a failed fetch ends in the failure screen |
| Achievements.IsValidUrl | src/app/components/sections/AchievementsSection.tsx:12-19 | a URL is valid iff it parses and its protocol is `http:` or `https:`; a parse failure is invalid |
| Achievements.LinkRule | src/app/components/sections/AchievementsSection.tsx:58-98 | a card links iff the URL is present, not blank and valid |
| Achievements.CertificationCard.constructor | src/app/components/sections/AchievementsSection.tsx:54-55 | a new card has not failed to load its icon |
| Achievements.CertificationCard.OnError | src/app/components/sections/AchievementsSection.tsx:72 | an icon load error switches to the default icon |
| Achievements.IconRule | src/app/components/sections/AchievementsSection.tsx:55-57 | the custom icon shows iff it is present, not blank, and loaded |
| Achievements.FullWidthCount | src/app/components/sections/AchievementsSection.tsx:136-144 | exactly one card is full-width for an odd count, none for an even count |
| Achievements.CardOf | src/app/components/sections/AchievementsSection.tsx:85-98 | a card view carries the URL exactly when it is valid |
| Achievements.Render | src/app/components/sections/AchievementsSection.tsx:102 | nothing renders iff the section is disabled |
| Achievements.RenderRule | src/app/components/sections/AchievementsSection.tsx:102-144 | each description paragraph is parsed in order; one card per certification in order; only the last card of an odd count is full-width |
| ProjectCarousel.NextIndex | src/app/components/ProjectCarousel.tsx:9-11 | the last index wraps to 0, others step forward |
| ProjectCarousel.PrevIndex | src/app/components/ProjectCarousel.tsx:13-15 | index 0 wraps to the last, others step back |
| ProjectCarousel.RingSteps | src/app/components/ProjectCarousel.tsx:9-15 | both steps stay in range, equal `(i+1) % n` and `(i-1+n) % n`, and undo each other |
| ProjectCarousel.StepsAround | src/app/components/ProjectCarousel.tsx:9-11 | k forward steps from i land at i+k, wrapped once |
| ProjectCarousel.FullTurn | src/app/components/ProjectCarousel.tsx:9-11 | n forward steps return to the start |
| ProjectCarousel.GithubLink | src/app/components/ProjectCarousel.tsx:64 | the GitHub link shows exactly when present and non-empty |
| ProjectCarousel.Carousel.constructor | src/app/components/ProjectCarousel.tsx:7 | the carousel starts at the first project |
| ProjectCarousel.Carousel.Next | src/app/components/ProjectCarousel.tsx:9-11 | the index moves by NextIndex and stays valid |
| ProjectCarousel.Carousel.Prev | src/app/components/ProjectCarousel.tsx:13-15 | the index moves by PrevIndex and stays valid |
| ProjectCarousel.Carousel.Select | src/app/components/ProjectCarousel.tsx:100 | a dot click selects that project |
| ProjectCarousel.OneActive | src/app/components/ProjectCarousel.tsx:22-38 | exactly one dot is active, and the slide offset is a multiple of 100 within range |
| ProjectCarousel.NextThenPrev | src/app/components/ProjectCarousel.tsx:9-15 | next then previous returns to the same project |
| Testimonials.NonEmptyWords | src/app/components/sections/TestimonialsSection.tsx:13-14 | the words that contribute a letter are the non-empty ones |
| Testimonials.FirstsOfWords | src/app/components/sections/TestimonialsSection.tsx:14-15 | the joined letters are the first characters of the non-empty words, in order |
| Testimonials.LastTwo | src/app/components/sections/TestimonialsSection.tsx:17 | `slice(-2)` keeps the last two characters, or all when fewer |
| Testimonials.GetInitials | src/app/components/sections/TestimonialsSection.tsx:11-18 | initials have at most two characters |
| Testimonials.InitialsOfLastWords | src/app/components/sections/TestimonialsSection.tsx:11-18 | the initials are the upper-cased first letters of the last two non-empty words |
| Testimonials.LastTwoUpper | src/app/components/sections/TestimonialsSection.tsx:16-17 | upper-casing then keeping the last two gives the last two words' capitals |
| Testimonials.Carousel.constructor | src/app/components/sections/TestimonialsSection.tsx:21-23 | the first testimonial, with both touch positions 0 |
| Testimonials.Carousel.Next | src/app/components/sections/TestimonialsSection.tsx:27-31 | the index moves by the wrapping forward step |
| Testimonials.Carousel.Previous | src/app/components/sections/TestimonialsSection.tsx:33-37 | the index moves by the wrapping backward step |
| Testimonials.Carousel.Select | src/app/components/sections/TestimonialsSection.tsx:133-144 | a dot click selects that testimonial |
| Testimonials.Carousel.TouchStart | src/app/components/sections/TestimonialsSection.tsx:40-42 | records the start position only |
| Testimonials.Carousel.TouchMove | src/app/components/sections/TestimonialsSection.tsx:44-46 | records the end position only |
| Testimonials.Carousel.TouchEnd | src/app/components/sections/TestimonialsSection.tsx:48-60 | the index moves to SwipeTarget and stays valid |
| Testimonials.SwipeRule | src/app/components/sections/TestimonialsSection.tsx:48-60 | a missing touch or a distance within 50 keeps the index; a left swipe beyond 50 moves forward, and the reverse swipe comes back |
| Testimonials.CardOf | src/app/components/sections/TestimonialsSection.tsx:91-102 | the card of one testimonial: the parsed message, the initials, the name, the designation and the LinkedIn profile address (property: InitialsOfLastWords) |
| Testimonials.Render | src/app/components/sections/TestimonialsSection.tsx:25-144 | nothing iff disabled; otherwise the current testimonial, at most two initials, one dot per testimonial with the current one active |
| ActiveSection.FirstHit | src/app/hooks/useActiveSection.ts:16-26 | a found section is one of those searched |
| ActiveSection.FirstHitSpec | src/app/hooks/useActiveSection.ts:16-26 | nothing is found iff no section's box contains the probe; otherwise the result is the first section that does |
| ActiveSection.FindActive | src/app/hooks/useActiveSection.ts:16-26 | the loop with `break` returns FirstHit |
| ActiveSection.EligibleSections | src/app/hooks/useActiveSection.ts:11-13 | filtering never adds sections |
| ActiveSection.AllSections | src/app/page.tsx:64 | every nav link's section, in order |
| ActiveSection.EligibleSectionsSpec | src/app/hooks/useActiveSection.ts:11-13 | the kept sections are exactly those of the links eligible on desktop or mobile (both directions); all eligible keeps all; none eligible keeps none |
| ActiveSection.EligibleSectionsOrder | src/app/hooks/useActiveSection.ts:11-13 | the filter keeps order: the k-th kept section is that of the k-th eligible link, at increasing positions, with no eligible link skipped |
| ActiveSection.Hook.constructor | src/app/hooks/useActiveSection.ts:5 | the active section starts as "about" |
| ActiveSection.Hook.HandleScroll | src/app/hooks/useActiveSection.ts:7-26 | without nav links nothing changes; otherwise the first hit among the eligible sections at scroll + 100 becomes active, if any |
| ActiveSection.OnlyEligible | src/app/hooks/useActiveSection.ts:11-26 | the active section only ever changes to an eligible link's section |
| TrackVisit.ReferrerSource | src/app/functions/TrackVisit.tsx:15-22 | the key of the first referrer entry whose value the lower-cased referrer contains, else the default source (property: ReferrerSourceSpec) |
| TrackVisit.ReferrerSourceSpec | src/app/functions/TrackVisit.tsx:15-22 | the source is the key of the first referrer entry the referrer contains, or the default when none matches |
| TrackVisit.DetectFromReferrer | src/app/functions/TrackVisit.tsx:15-22 | the loop with `break` returns ReferrerSource |
| TrackVisit.UpperCaseNeverMatches | src/app/functions/TrackVisit.tsx:12-18 | a referrer value with an upper-case letter never matches, because the referrer is lower-cased |
| TrackVisit.DetectSource | src/app/functions/TrackVisit.tsx:4-25 | the detection code returns Decide |
| TrackVisit.Decide | src/app/functions/TrackVisit.tsx:4-25 | skip when disabled; without a non-empty parameter, send the referrer source; a parameter equal to the ignore value skips; any other parameter is sent as the source (property: DecideRule) |
| TrackVisit.DecideRule | src/app/functions/TrackVisit.tsx:4-25 | disabled tracking sends nothing; a non-empty parameter is skipped iff it equals the ignore value and is otherwise the source; without one a visit is always sent |
| TrackVisit.AdditionalFields | src/app/functions/TrackVisit.tsx:37-45 | the summary has eight labelled fields |
| TrackVisit.AdditionalData | src/app/functions/TrackVisit.tsx:37-46 | the eight labelled fields joined with " \| " (property: EightFields) |
| TrackVisit.EightFields | src/app/functions/TrackVisit.tsx:37-46 | when no field holds `\|`, the joined line has exactly seven separators |
| TrackVisit.JoinCount | src/app/functions/TrackVisit.tsx:46 | joining k parts free of c with a one-c separator gives k-1 c's |
| TrackVisit.CountAppend | src/app/functions/TrackVisit.tsx:46 | character counts add over concatenation |
| TrackVisit.CountAbsent | src/app/functions/TrackVisit.tsx:46 | a character not in the string counts zero |
| Typewriter.Typewriter.constructor | src/app/functions/TypewriterEffect.tsx:5-7 | nothing typed, cursor shown |
| Typewriter.Typewriter.Tick | src/app/functions/TypewriterEffect.tsx:10-21 | while typing, the next character is appended; afterwards the cursor toggles; the display stays a prefix of the text |
| Typewriter.TypeAll | src/app/functions/TypewriterEffect.tsx:10-13 | ticking until done displays the whole text with the cursor unchanged |
| Typewriter.BlinkTwice | src/app/functions/TypewriterEffect.tsx:17-21 | after typing, two ticks leave the text and the cursor as they were |
| Typewriter.CursorOpacity | src/app/functions/TypewriterEffect.tsx:30 | full opacity iff the cursor is shown, zero otherwise |
| HomePage.Rank | src/app/page.tsx:143-539 | each section has its place in the fixed page order |
| HomePage.EnabledAmong | src/app/page.tsx:143-539 | a section is rendered iff it is in the order and enabled |
| HomePage.EnabledAmongOrdered | src/app/page.tsx:143-539 | filtering keeps the page order |
| HomePage.OrderAscending | src/app/page.tsx:143-539 | the page order is strictly ascending in rank |
| HomePage.SectionsRule | src/app/page.tsx:143-539 | exactly the enabled sections are rendered, in page order |
| HomePage.FooterLine | src/app/page.tsx:565 | the footer text with the first `{year}` replaced by the year (property: FooterYear) |
| HomePage.FooterYear | src/app/page.tsx:565 | the first `{year}` is replaced by the year; text without it is unchanged |
| HomePage.Home.constructor | src/app/page.tsx:30-34 | loading, no data, "about" active, no visit sent |
| HomePage.Home.FetchDone | src/app/page.tsx:41-57 | a successful fetch stores the data, a failure keeps none; loading ends either way |
| HomePage.Home.HandleScroll | src/app/page.tsx:60-83 | without data nothing changes; otherwise the first nav section hit at scroll + 100, without the eligibility filter |
| HomePage.Home.VisitEffect | src/app/page.tsx:85-91 | a visit is sent and the session marked only when not yet tracked and tracking is enabled |
| HomePage.Home.Render | src/app/page.tsx:93-567 | the loader while loading, the failure screen without data, otherwise the navbar when the header is enabled, the enabled sections in page order, the stats only inside an enabled intro, and the footer line when enabled (properties: RenderRule, SectionsRule) |
| HomePage.RenderRule | src/app/page.tsx:93-565 | the loader while loading, the failure screen iff there is no data, stats iff intro and stats are enabled, the footer iff enabled |
| HomePage.RepeatedEffects | src/app/page.tsx:85-91 | however often the effect runs, at most one visit is sent per session, and none when the session was already tracked |

## Left out

- Strings are sequences of Unicode scalar values. JavaScript lengths and indices count UTF-16 code units, so `length`, `slice` and `maxLength` differ for characters outside the Basic Multilingual Plane.
- JsText.Lower, JsText.Upper: map ASCII letters only. `toLowerCase`, `toLocaleLowerCase` and `toUpperCase` also map other scripts, and some characters change length.
- JsText.ReplaceFirst: `$` patterns in the replacement string are not interpreted.
- Pretty printing of unknown custom-section content with `JSON.stringify`: the model keeps the raw JSON value instead of its text.
- Network and browser I/O are left out: `fetch`, `emailjs.sendForm`, `sessionStorage`, `router.push`, the IP and geo lookups, the Google Form POST, `window` and `document`. Each becomes a parameter or a field; the mail outcome, for instance, is a boolean passed to FinishSubmit.
- Timers and animation: the typewriter's intervals become discrete ticks; animation and motion props are left out.
- Positions and sizes (touch coordinates, scroll offsets, element boxes) and `displayLimit` are modelled as integers, not floating-point numbers.
- TrackDownload.tsx is not part of this model. It is a fire-and-forget network call with no logic of its own.
- Typewriter: a change of the `text` prop while mounted, which restarts the effect, is not modelled.
- TrackVisit.ReferrerSourceSpec: the referrer table is an ordered list. `Object.entries` puts integer-like keys first, which this order does not reflect.
- Optional fields in typed data use one `None` for both `null` and `undefined`.
- TrackVisit.Shown: an absent geo field prints `undefined`; a field that is `null` prints `null` in the source, which the model does not distinguish. Latitude and longitude are numbers in the source and are modelled by their printed text.
- CustomSections.Json: numbers are integers, so `NaN` and fractional values, and their truthiness, are not represented.
- CustomSections.InfoItems: a non-string list item renders as no text. In the source a truthy non-string item makes `parseText` throw.
- CustomSections.LinkCards: a `null` link item makes the source throw when it reads `link.url`; the model renders a card with no target, label or description instead.
- CustomSections.NewsletterStats: stats given as a non-array are treated as absent.
- Testimonials.Render: for an enabled section, requires a non-empty item list. In the source an enabled section with no items throws on `items[0]`; a disabled one renders nothing, as modelled.
- ContactForm.CollectErrors: the key order of the source's iteration is not modelled; the proved result does not depend on it.
- React keys, CSS classes, icons, `<Head>` metadata, the testimonials heading split, and the section composer's sort by `index` are left out. The page renders its sections in the fixed order of page.tsx.
- Achievements.IsValidUrl: `new URL` parsing is a parameter that returns the protocol or a parse failure.
