/** The inline markup parser of `src/app/utils/textParser.tsx`.

    React output is modelled as a sequence of nodes: a fragment's children
    are spliced into the enclosing sequence, a string child is a `Text`, an
    anchor is a `Link`, `<strong>`/`<em>`/`<u>` are `Bold`/`Italic`/`Underline`
    and `<br />` is `Break`. Keys and class names are presentation and are
    not modelled. */
module TextParser {
  import opened Wrappers
  import opened JsText
  import opened MarkupRegex

  datatype Node =
    | Text(text: string)
    | Link(caption: string, href: string)
    | Bold(children: seq<Node>)
    | Italic(children: seq<Node>)
    | Underline(children: seq<Node>)
    | Break

  // ---------------------------------------------------------------------------
  // What a reader sees, and the link syntax written back

  /** The text a reader sees: text runs and captions in order, a line break
      for `Break`. */
  function Display(ns: seq<Node>): string
    decreases ns
  {
    if ns == [] then [] else DisplayNode(ns[0]) + Display(ns[1..])
  }

  function DisplayNode(n: Node): string
    decreases n
  {
    match n
    case Text(t) => t
    case Link(c, _) => c
    case Bold(ch) => Display(ch)
    case Italic(ch) => Display(ch)
    case Underline(ch) => Display(ch)
    case Break => "\n"
  }

  /** Link syntax for a link. */
  function LinkText(caption: string, href: string): string {
    "(" + caption + ")[" + href + "]"
  }

  /** Text runs and links written back as source text. */
  function LinkSource(ns: seq<Node>): string {
    if ns == [] then [] else NodeSource(ns[0]) + LinkSource(ns[1..])
  }

  function NodeSource(n: Node): string {
    match n
    case Text(t) => t
    case Link(c, h) => LinkText(c, h)
    case _ => []
  }

  lemma {:induction false} LinkSourceAppend(a: seq<Node>, b: seq<Node>)
    ensures LinkSource(a + b) == LinkSource(a) + LinkSource(b)
  {
    if a != [] {
      var ab := a + b;
      assert ab[0] == a[0];
      assert ab[1..] == a[1..] + b;
      LinkSourceAppend(a[1..], b);
      assert LinkSource(ab) == NodeSource(a[0]) + LinkSource(a[1..] + b);
    } else {
      assert a + b == b;
    }
  }

  lemma DisplayAppend(a: seq<Node>, b: seq<Node>)
    ensures Display(a + b) == Display(a) + Display(b)
  {
    if a != [] {
      assert (a + b)[0] == a[0];
      assert (a + b)[1..] == a[1..] + b;
      DisplayAppend(a[1..], b);
    } else {
      assert a + b == b;
    }
  }

  // ---------------------------------------------------------------------------
  // parseLinks

  /** The parts `parseLinks` pushes once its `lastIndex` is `last`: the text
      before each link, the link, and the text after the last link. */
  function LinkParts(s: string, last: nat): seq<Node>
    requires last <= |s|
    decreases |s| - last
  {
    match FirstLinkFrom(s, last)
    case None => if last < |s| then [Text(s[last..])] else []
    case Some(m) =>
      Before(s, last, m.start) + ([Link(m.caption, m.href)] + LinkParts(s, m.end))
  }

  /** `parseLinks`: with no parts (only for the empty text) the text itself. */
  function ParseLinks(s: string): seq<Node> {
    var parts := LinkParts(s, 0);
    if parts == [] then [Text(s)] else parts
  }

  /** The expression at index `p`, read from the suffix that starts there. */
  lemma LinkAtHere(s: string, p: nat)
    requires p <= |s|
    ensures LinkAt(s, p).None? <==> LinkHere(s[p..]).None?
    ensures LinkAt(s, p).Some? ==>
            var m := LinkHere(s[p..]).value;
            LinkAt(s, p).value == LinkMatch(p, p + m.end, m.caption, m.href)
  {
  }

  /** A link's syntax in the text it was found in. */
  lemma LinkHereSource(t: string)
    requires LinkHere(t).Some?
    ensures var m := LinkHere(t).value;
            t[..m.end] == LinkText(m.caption, m.href)
  {
    var m := LinkHere(t).value;
    LinkHereSound(t);
    var q := 1 + |m.caption|;
    assert t[..m.end] == [t[0]] + t[1..q] + [t[q], t[q + 1]] + t[q + 2..m.end - 1] + [t[m.end - 1]];
  }

  /** The syntax of the link found at index `p`. */
  lemma LinkAtSource(s: string, p: nat)
    requires p <= |s| && LinkAt(s, p).Some?
    ensures var m := LinkAt(s, p).value;
            s[p..m.end] == LinkText(m.caption, m.href)
  {
    LinkAtHere(s, p);
    LinkHereSource(s[p..]);
    var m := LinkAt(s, p).value;
    assert s[p..][..m.end - p] == s[p..m.end];
  }

  /** Round trip: writing the parts back as link syntax gives the text
      parsed, so no character is lost, duplicated or moved. */
  lemma {:induction false} LinkPartsSource(s: string, last: nat)
    requires last <= |s|
    ensures LinkSource(LinkParts(s, last)) == s[last..]
    decreases |s| - last
  {
    var r := FirstLinkFrom(s, last);
    if r.None? {
      if last < |s| {
        assert LinkSource([Text(s[last..])]) == s[last..] + LinkSource([]);
      }
    } else {
      var m := r.value;
      LinkPartsSource(s, m.end);
      LinkPartsStep(s, last, m);
    }
  }

  /** The text before a link found from `last`. */
  function Before(s: string, last: nat, start: nat): seq<Node>
    requires last <= start <= |s|
  {
    if start > last then [Text(s[last..start])] else []
  }

  lemma LinkPartsUnfold(s: string, last: nat, m: LinkMatch)
    requires last <= |s| && FirstLinkFrom(s, last) == Some(m)
    ensures last <= m.start < m.end <= |s| && LinkAt(s, m.start) == Some(m)
    ensures LinkParts(s, last) == Before(s, last, m.start) + ([Link(m.caption, m.href)] + LinkParts(s, m.end))
  {
  }

  lemma LinkPartsStep(s: string, last: nat, m: LinkMatch)
    requires last <= |s| && FirstLinkFrom(s, last) == Some(m)
    requires LinkSource(LinkParts(s, m.end)) == s[m.end..]
    ensures LinkSource(LinkParts(s, last)) == s[last..]
  {
    LinkPartsUnfold(s, last, m);
    LinkAtSource(s, m.start);
    var link := [Link(m.caption, m.href)];
    assert LinkSource(link) == LinkText(m.caption, m.href) + LinkSource([]);
    SourceStep(s, last, m.start, m.end, link, LinkParts(s, m.end));
  }

  lemma SourceStep(s: string, last: nat, start: nat, end: nat, link: seq<Node>, rest: seq<Node>)
    requires last <= start <= end <= |s|
    requires LinkSource(link) == s[start..end] && LinkSource(rest) == s[end..]
    ensures LinkSource(Before(s, last, start) + (link + rest)) == s[last..]
  {
    var before := Before(s, last, start);
    assert LinkSource(before) == s[last..start] by {
      if start > last {
        assert LinkSource(before) == s[last..start] + LinkSource([]);
      }
    }
    SourceConcat(before, link, rest, s[last..start], s[start..end], s[end..]);
    SliceSplit(s, last, start, end);
  }

  lemma SourceConcat(a: seq<Node>, b: seq<Node>, c: seq<Node>, x: string, y: string, z: string)
    requires LinkSource(a) == x && LinkSource(b) == y && LinkSource(c) == z
    ensures LinkSource(a + (b + c)) == x + y + z
  {
    LinkSourceAppend(b, c);
    LinkSourceAppend(a, b + c);
    Assoc3(x, y, z);
  }

  lemma SliceSplit(s: string, a: nat, b: nat, c: nat)
    requires a <= b <= c <= |s|
    ensures s[a..] == s[a..b] + s[b..c] + s[c..]
  {
  }

  lemma ParseLinksSource(s: string)
    ensures LinkSource(ParseLinks(s)) == s
  {
    LinkPartsSource(s, 0);
    assert s[0..] == s;
  }

  /** No link syntax starts anywhere in `t`. */
  predicate LinkFree(t: string) {
    forall i :: 0 <= i <= |t| ==> LinkHere(t[i..]).None?
  }

  /** A link as the expression accepts it: a non-empty caption without `)`
      and a non-empty URL without `]`. */
  predicate WellFormedLink(caption: string, href: string) {
    caption != [] && ')' !in caption && href != [] && ']' !in href
  }

  /** What `parseLinks` can return: text runs holding no link, and links. */
  predicate LinkNode(n: Node) {
    match n
    case Text(t) => LinkFree(t)
    case Link(c, h) => WellFormedLink(c, h)
    case _ => false
  }

  lemma LinkAtWellFormed(s: string, p: nat)
    requires p <= |s| && LinkAt(s, p).Some?
    ensures WellFormedLink(LinkAt(s, p).value.caption, LinkAt(s, p).value.href)
  {
    LinkAtHere(s, p);
    var t := s[p..];
    LinkHereSound(t);
    var m := LinkHere(t).value;
    var q := 1 + |m.caption|;
    assert m.caption == t[1..q] && m.href == t[q + 2..m.end - 1];
  }

  /** A run of text the search passed over holds no link. */
  lemma GapLinkFree(s: string, a: nat, b: nat)
    requires a <= b <= |s|
    requires forall j :: a <= j < b ==> LinkAt(s, j).None?
    ensures LinkFree(s[a..b])
  {
    var gap := s[a..b];
    forall i | 0 <= i <= |gap|
      ensures LinkHere(gap[i..]).None?
    {
      if i < |gap| && LinkHere(gap[i..]).Some? {
        LinkHerePrefix(gap[i..], s[b..]);
        assert gap[i..] + s[b..] == s[a + i..];
        LinkAtHere(s, a + i);
        assert false;
      }
    }
  }

  lemma SkippedLinks(s: string, last: nat, p: nat)
    requires last <= p <= |s|
    requires FirstLinkFrom(s, last).None? || p <= FirstLinkFrom(s, last).value.start
    ensures forall j :: last <= j < p ==> LinkAt(s, j).None?
  {
    forall j | last <= j < p
      ensures LinkAt(s, j).None?
    {
      FirstLinkFromLeftmost(s, last, j);
    }
  }

  lemma {:induction false} LinkPartsNodes(s: string, last: nat)
    requires last <= |s|
    ensures forall n :: n in LinkParts(s, last) ==> LinkNode(n)
    decreases |s| - last
  {
    var r := FirstLinkFrom(s, last);
    if r.None? {
      SkippedLinks(s, last, |s|);
      GapLinkFree(s, last, |s|);
      assert s[last..|s|] == s[last..];
    } else {
      var m := r.value;
      LinkPartsUnfold(s, last, m);
      LinkPartsNodes(s, m.end);
      SkippedLinks(s, last, m.start);
      GapLinkFree(s, last, m.start);
      LinkAtWellFormed(s, m.start);
    }
  }

  /** `parseLinks` returns text runs that hold no link and well-formed links. */
  lemma ParseLinksNodes(s: string)
    ensures forall n :: n in ParseLinks(s) ==> LinkNode(n)
  {
    LinkPartsNodes(s, 0);
    assert LinkHere(s[0..]).None? ==> LinkFree(s[0..0]);
  }

  /** A text with no link syntax comes back as it is. */
  lemma ParseLinksPlain(s: string)
    requires LinkFree(s)
    ensures ParseLinks(s) == [Text(s)]
  {
    forall j | 0 <= j <= |s|
      ensures LinkAt(s, j).None?
    {
      LinkAtHere(s, j);
    }
    assert s[0..] == s;
  }

  /** Reference reading of a line's links: from left to right, where link
      syntax starts it reads as its caption, else the character reads as
      itself. */
  function StripLinks(s: string): string
    decreases |s|
  {
    if s == [] then []
    else
      match LinkHere(s)
      case Some(m) => m.caption + StripLinks(s[m.end..])
      case None => [s[0]] + StripLinks(s[1..])
  }

  lemma {:induction false} StripLinksGap(s: string, a: nat, b: nat)
    requires a <= b <= |s|
    requires forall j :: a <= j < b ==> LinkAt(s, j).None?
    ensures StripLinks(s[a..]) == s[a..b] + StripLinks(s[b..])
    decreases b - a
  {
    if a < b {
      StripLinksGap(s, a + 1, b);
      assert StripLinks(s[a..]) == [s[a]] + StripLinks(s[a + 1..]) by {
        LinkAtHere(s, a);
        StripLinksChar(s[a..]);
        assert s[a..][1..] == s[a + 1..];
      }
      PrependChar(s, a, b, StripLinks(s[b..]));
    }
  }

  lemma PrependChar(s: string, a: nat, b: nat, x: string)
    requires a < b <= |s|
    ensures [s[a]] + (s[a + 1..b] + x) == s[a..b] + x
  {
    assert [s[a]] + s[a + 1..b] == s[a..b];
  }

  lemma StripLinksChar(t: string)
    requires t != [] && LinkHere(t).None?
    ensures StripLinks(t) == [t[0]] + StripLinks(t[1..])
  {
  }

  lemma StripLinksAt(s: string, p: nat)
    requires p <= |s| && LinkAt(s, p).Some?
    ensures StripLinks(s[p..]) == LinkAt(s, p).value.caption + StripLinks(s[LinkAt(s, p).value.end..])
  {
    LinkAtHere(s, p);
    var m := LinkHere(s[p..]).value;
    assert s[p..][m.end..] == s[p + m.end..];
  }

  lemma DisplayStep(s: string, last: nat, start: nat, end: nat, link: Node, rest: seq<Node>)
    requires last <= start <= end <= |s| && link.Link?
    requires Display(rest) == StripLinks(s[end..])
    requires StripLinks(s[last..]) == s[last..start] + (link.caption + StripLinks(s[end..]))
    ensures Display(Before(s, last, start) + ([link] + rest)) == StripLinks(s[last..])
  {
    var before := Before(s, last, start);
    if start > last {
      assert Display(before) == s[last..start] + Display([]);
    }
    DisplayAppend(before, [link] + rest);
    assert Display([link] + rest) == link.caption + Display(rest) by {
      assert ([link] + rest)[1..] == rest;
    }
  }

  /** Text is kept in order: what `parseLinks` displays is the text with each
      link replaced by its caption. */
  lemma {:induction false} LinkPartsDisplay(s: string, last: nat)
    requires last <= |s|
    ensures Display(LinkParts(s, last)) == StripLinks(s[last..])
    decreases |s| - last
  {
    var r := FirstLinkFrom(s, last);
    SkippedLinks(s, last, if r.None? then |s| else r.value.start);
    if r.None? {
      StripLinksGap(s, last, |s|);
      assert s[|s|..] == [] && s[last..|s|] == s[last..];
      if last < |s| {
        assert Display([Text(s[last..])]) == s[last..] + Display([]);
      }
    } else {
      var m := r.value;
      LinkPartsUnfold(s, last, m);
      LinkPartsDisplay(s, m.end);
      LinkPartsDisplayStep(s, last, m);
    }
  }

  lemma LinkPartsDisplayStep(s: string, last: nat, m: LinkMatch)
    requires last <= m.start < m.end <= |s| && LinkAt(s, m.start) == Some(m)
    requires forall j :: last <= j < m.start ==> LinkAt(s, j).None?
    requires LinkParts(s, last) == Before(s, last, m.start) + ([Link(m.caption, m.href)] + LinkParts(s, m.end))
    requires Display(LinkParts(s, m.end)) == StripLinks(s[m.end..])
    ensures Display(LinkParts(s, last)) == StripLinks(s[last..])
  {
    StripLinksGap(s, last, m.start);
    StripLinksAt(s, m.start);
    DisplayStep(s, last, m.start, m.end, Link(m.caption, m.href), LinkParts(s, m.end));
  }

  lemma ParseLinksDisplay(s: string)
    ensures Display(ParseLinks(s)) == StripLinks(s)
  {
    LinkPartsDisplay(s, 0);
    assert s[0..] == s;
    if s == [] {
      assert Display([Text(s)]) == s + Display([]);
    }
  }

  // ---------------------------------------------------------------------------
  // parseHTMLTags

  /** The `matches` array: `exec` repeated from `lastIndex`, each search
      starting where the previous match ended. */
  function TagMatches(s: string, from: nat): (ms: seq<TagMatch>)
    requires from <= |s|
    ensures Chain(s, ms, from)
    decreases |s| - from
  {
    match FirstTagFrom(s, from)
    case None => []
    case Some(m) => [m] + TagMatches(s, m.end)
  }

  /** Matches of the tag expression in `s`, left to right and without
      overlap, none starting before `last`. */
  predicate Chain(s: string, ms: seq<TagMatch>, last: nat)
    decreases |ms|
  {
    last <= |s| &&
    (ms != [] ==>
       last <= ms[0].start <= |s| && TagMatchAt(s, ms[0].start) == Some(ms[0]) &&
       Chain(s, ms[1..], ms[0].end))
  }

  /** The `switch` on the lower-cased tag name. */
  function Styled(tag: string, children: seq<Node>): seq<Node> {
    if tag == "b" || tag == "strong" then [Bold(children)]
    else if tag == "i" then [Italic(children)]
    else if tag == "u" then [Underline(children)]
    else []
  }

  /** The parts the `for` loop pushes from the match list `ms` on, with
      `lastIndex == last`, followed by the remaining text. */
  function TagParts(s: string, ms: seq<TagMatch>, last: nat): seq<Node>
    requires Chain(s, ms, last)
    decreases |s|, 0, |ms|
  {
    if ms == [] then
      if last < |s| then ParseLinks(s[last..]) else []
    else
      var m := ms[0];
      Gap(s, last, m.start) + (Styled(m.tag, ParseTags(m.content)) + TagParts(s, ms[1..], m.end))
  }

  /** The parts for the text before a tag pair, when there is any. */
  function Gap(s: string, last: nat, start: nat): seq<Node>
    requires last <= start <= |s|
  {
    if start > last then ParseLinks(s[last..start]) else []
  }

  /** `parseHTMLTags`: with no parts (only for the empty text) the links of
      the whole text. */
  function ParseTags(s: string): seq<Node>
    decreases |s|, 1, 0
  {
    var parts := TagParts(s, TagMatches(s, 0), 0);
    if parts == [] then ParseLinks(s) else parts
  }

  /** Reference reading of a line: from left to right, where a tag pair
      starts it reads as its content read the same way, and each run of
      text between tag pairs reads with its links replaced by captions. */
  function Unmark(s: string): string
    decreases |s|, 1, 0
  {
    UnmarkFrom(s, 0, 0)
  }

  /** `s[g..i]` is the current run of text, `i` the next index to look at. */
  function UnmarkFrom(s: string, g: nat, i: nat): string
    requires g <= i <= |s|
    decreases |s|, 0, |s| - i
  {
    if i == |s| then StripLinks(s[g..])
    else
      match TagMatchAt(s, i)
      case Some(m) => StripLinks(s[g..i]) + Unmark(m.content) + UnmarkFrom(s, m.end, m.end)
      case None => UnmarkFrom(s, g, i + 1)
  }

  lemma StyledDisplay(tag: string, children: seq<Node>)
    requires tag in TagNames
    ensures Display(Styled(tag, children)) == Display(children)
  {
    var r := Styled(tag, children);
    assert |r| == 1 && DisplayNode(r[0]) == Display(children);
    assert Display(r) == DisplayNode(r[0]) + Display([]);
  }

  lemma TagPartsNonEmpty(s: string, ms: seq<TagMatch>, last: nat)
    requires Chain(s, ms, last) && (ms != [] || last < |s|)
    ensures TagParts(s, ms, last) != []
  {
    if ms != [] {
      var m := ms[0];
      assert m.tag in TagNames;
      assert |Styled(m.tag, ParseTags(m.content))| == 1;
    }
  }

  lemma SkippedTags(s: string, last: nat, p: nat)
    requires last <= p <= |s|
    requires FirstTagFrom(s, last).None? || p <= FirstTagFrom(s, last).value.start
    ensures forall j :: last <= j < p ==> TagMatchAt(s, j).None?
  {
    forall j | last <= j < p
      ensures TagMatchAt(s, j).None?
    {
      FirstTagFromLeftmost(s, last, j);
    }
  }

  lemma {:induction false} UnmarkSkip(s: string, g: nat, i: nat, p: nat)
    requires g <= i <= p <= |s|
    requires forall j :: i <= j < p ==> TagMatchAt(s, j).None?
    ensures UnmarkFrom(s, g, i) == UnmarkFrom(s, g, p)
    decreases p - i
  {
    if i < p {
      UnmarkSkip(s, g, i + 1, p);
    }
  }

  /** Text before, between and after the tag pairs is kept in order, and
      tag markers are all that is dropped: the parts display as the
      reference reading of the text from `last`. */
  lemma {:induction false} TagPartsDisplay(s: string, last: nat)
    requires last <= |s|
    ensures Display(TagParts(s, TagMatches(s, last), last)) == UnmarkFrom(s, last, last)
    decreases |s|, 0, |s| - last
  {
    var r := FirstTagFrom(s, last);
    SkippedTags(s, last, if r.None? then |s| else r.value.start);
    if r.None? {
      UnmarkSkip(s, last, last, |s|);
      if last < |s| {
        ParseLinksDisplay(s[last..]);
      }
    } else {
      var m := r.value;
      UnmarkSkip(s, last, last, m.start);
      TagMatchesUnfold(s, last, m);
      ParseTagsDisplay(m.content);
      TagPartsDisplay(s, m.end);
      var gap := Gap(s, last, m.start);
      assert Display(gap) == StripLinks(s[last..m.start]) by {
        if m.start > last {
          ParseLinksDisplay(s[last..m.start]);
        } else {
          assert s[last..m.start] == [];
        }
      }
      StyledDisplay(m.tag, ParseTags(m.content));
      DisplayConcat3(gap, Styled(m.tag, ParseTags(m.content)), TagParts(s, TagMatches(s, m.end), m.end),
                     StripLinks(s[last..m.start]), Unmark(m.content), UnmarkFrom(s, m.end, m.end));
    }
  }

  lemma TagMatchesUnfold(s: string, last: nat, m: TagMatch)
    requires last <= |s| && FirstTagFrom(s, last) == Some(m)
    ensures last <= m.start < m.end <= |s| && TagMatchAt(s, m.start) == Some(m)
    ensures TagMatches(s, last) == [m] + TagMatches(s, m.end)
    ensures TagParts(s, TagMatches(s, last), last) ==
            Gap(s, last, m.start) + (Styled(m.tag, ParseTags(m.content)) + TagParts(s, TagMatches(s, m.end), m.end))
  {
    TagMatchesStep(s, last, m);
    assert ([m] + TagMatches(s, m.end))[1..] == TagMatches(s, m.end);
  }

  lemma TagMatchesStep(s: string, last: nat, m: TagMatch)
    requires last <= |s| && FirstTagFrom(s, last) == Some(m)
    ensures last <= m.start < m.end <= |s| && TagMatchAt(s, m.start) == Some(m)
    ensures TagMatches(s, last) == [m] + TagMatches(s, m.end)
  {
  }

  lemma DisplayConcat3(a: seq<Node>, b: seq<Node>, c: seq<Node>, x: string, y: string, z: string)
    requires Display(a) == x && Display(b) == y && Display(c) == z
    ensures Display(a + (b + c)) == x + y + z
  {
    DisplayAppend(a, b + c);
    DisplayAppend(b, c);
  }

  /** `parseHTMLTags` displays the reference reading of its text. */
  lemma {:induction false} ParseTagsDisplay(s: string)
    ensures Display(ParseTags(s)) == Unmark(s)
    decreases |s|, 1, 0
  {
    TagPartsDisplay(s, 0);
    if TagParts(s, TagMatches(s, 0), 0) == [] {
      if s != [] {
        TagPartsNonEmpty(s, TagMatches(s, 0), 0);
      }
      assert Display(ParseLinks(s)) == Display([Text([])]) == [] + Display([]);
    }
  }

  /** No tag pair starts anywhere in `t`. */
  predicate TagFree(t: string) {
    forall i :: 0 <= i <= |t| ==> TagHere(t[i..]).None?
  }

  lemma {:induction false} FirstTagFromNone(s: string, from: nat)
    requires from <= |s|
    requires forall j :: from <= j <= |s| ==> TagMatchAt(s, j).None?
    ensures FirstTagFrom(s, from).None?
    decreases |s| - from
  {
    if from < |s| {
      FirstTagFromNone(s, from + 1);
    }
  }

  /** A text with no tag pair and no link comes back unchanged. */
  lemma ParseTagsPlain(s: string)
    requires TagFree(s) && LinkFree(s)
    ensures ParseTags(s) == [Text(s)]
  {
    forall j | 0 <= j <= |s|
      ensures TagMatchAt(s, j).None?
    {
      assert TagHere(s[j..]).None?;
    }
    FirstTagFromNone(s, 0);
    ParseLinksPlain(s);
    assert s[0..] == s;
  }

  /** Everything `parseLinks` returns is a text run or a link. */
  lemma ParseLinksKinds(s: string)
    ensures forall n :: n in ParseLinks(s) ==> n.Text? || n.Link?
  {
    ParseLinksNodes(s);
  }

  /** Line breaks come only from `parseText`: `parseHTMLTags` never returns
      one at the top level. */
  lemma {:induction false} TagPartsNoBreak(s: string, ms: seq<TagMatch>, last: nat)
    requires Chain(s, ms, last)
    ensures Break !in TagParts(s, ms, last)
    decreases |ms|
  {
    if ms == [] {
      if last < |s| {
        ParseLinksKinds(s[last..]);
      }
    } else {
      TagPartsNoBreak(s, ms[1..], ms[0].end);
      TagPartsNoBreakStep(s, ms, last);
    }
  }

  lemma TagPartsNoBreakStep(s: string, ms: seq<TagMatch>, last: nat)
    requires Chain(s, ms, last) && ms != []
    requires Break !in TagParts(s, ms[1..], ms[0].end)
    ensures Break !in TagParts(s, ms, last)
  {
    TagPartsCons(s, ms, last);
    GapNoBreak(s, ms[0].start, last);
    NotInConcat3(Break, TagParts(s, ms, last), Gap(s, last, ms[0].start), Styled(ms[0].tag, ParseTags(ms[0].content)),
                 TagParts(s, ms[1..], ms[0].end));
  }

  lemma GapNoBreak(s: string, start: nat, last: nat)
    requires last <= start <= |s|
    ensures Break !in Gap(s, last, start)
  {
    if start > last {
      ParseLinksKinds(s[last..start]);
    }
  }

  lemma TagPartsCons(s: string, ms: seq<TagMatch>, last: nat)
    requires Chain(s, ms, last) && ms != []
    ensures var m := ms[0];
            last <= m.start <= m.end <= |s| && Chain(s, ms[1..], m.end) &&
            TagParts(s, ms, last) ==
            Gap(s, last, m.start) + (Styled(m.tag, ParseTags(m.content)) + TagParts(s, ms[1..], m.end))
  {
  }

  lemma NotInConcat3(x: Node, parts: seq<Node>, a: seq<Node>, b: seq<Node>, c: seq<Node>)
    requires parts == a + (b + c)
    requires x !in a && x !in b && x !in c
    ensures x !in parts
  {
  }

  lemma ParseTagsNoBreak(s: string)
    ensures Break !in ParseTags(s)
  {
    TagPartsNoBreak(s, TagMatches(s, 0), 0);
    ParseLinksKinds(s);
  }

  // ---------------------------------------------------------------------------
  // The loops of textParser.tsx, proved to compute the functions above

  /** The `while` loop of `parseLinks`. */
  method ScanLinks(s: string) returns (parts: seq<Node>)
    ensures parts == ParseLinks(s)
  {
    parts := [];
    var lastIndex: nat := 0;
    while true
      invariant lastIndex <= |s|
      invariant parts + LinkParts(s, lastIndex) == LinkParts(s, 0)
      decreases |s| - lastIndex
    {
      var found := FirstLinkFrom(s, lastIndex);
      if found.None? {
        break;
      }
      var m := found.value;
      ScanLinksStep(s, lastIndex, m, parts);
      var before := parts;
      if m.start > lastIndex {
        parts := parts + [Text(s[lastIndex..m.start])];
      }
      assert parts == before + Before(s, lastIndex, m.start);
      parts := parts + [Link(m.caption, m.href)];
      lastIndex := m.end;
    }
    LinkPartsEnd(s, lastIndex);
    if lastIndex < |s| {
      parts := parts + [Text(s[lastIndex..])];
    }
    assert parts == LinkParts(s, 0);
    if parts == [] {
      parts := [Text(s)];
    }
  }

  lemma ScanLinksStep(s: string, last: nat, m: LinkMatch, parts: seq<Node>)
    requires last <= |s| && FirstLinkFrom(s, last) == Some(m)
    requires parts + LinkParts(s, last) == LinkParts(s, 0)
    ensures last < m.end <= |s| && m.start <= |s|
    ensures parts + Before(s, last, m.start) + [Link(m.caption, m.href)] + LinkParts(s, m.end) == LinkParts(s, 0)
  {
    LinkPartsUnfold(s, last, m);
    AppendStep(parts, Before(s, last, m.start), [Link(m.caption, m.href)], LinkParts(s, m.end));
  }

  lemma AppendStep(parts: seq<Node>, a: seq<Node>, b: seq<Node>, c: seq<Node>)
    ensures parts + a + b + c == parts + (a + (b + c))
  {
  }

  lemma LinkPartsEnd(s: string, last: nat)
    requires last <= |s| && FirstLinkFrom(s, last).None?
    ensures LinkParts(s, last) == if last < |s| then [Text(s[last..])] else []
  {
  }

  /** The `while` loop that collects the `matches` array. */
  method CollectTagMatches(s: string) returns (ms: seq<TagMatch>)
    ensures ms == TagMatches(s, 0)
  {
    ms := [];
    var lastIndex: nat := 0;
    while true
      invariant lastIndex <= |s|
      invariant ms + TagMatches(s, lastIndex) == TagMatches(s, 0)
      decreases |s| - lastIndex
    {
      var found := FirstTagFrom(s, lastIndex);
      if found.None? {
        break;
      }
      var m := found.value;
      CollectStep(s, lastIndex, m, ms);
      ms := ms + [m];
      lastIndex := m.end;
    }
  }

  lemma CollectStep(s: string, last: nat, m: TagMatch, ms: seq<TagMatch>)
    requires last <= |s| && FirstTagFrom(s, last) == Some(m)
    requires ms + TagMatches(s, last) == TagMatches(s, 0)
    ensures last < m.end <= |s|
    ensures ms + [m] + TagMatches(s, m.end) == TagMatches(s, 0)
  {
    TagMatchesStep(s, last, m);
    Assoc3(ms, [m], TagMatches(s, m.end));
  }

  lemma Assoc3<T>(a: seq<T>, b: seq<T>, c: seq<T>)
    ensures a + b + c == a + (b + c)
  {
  }

  /** `parseHTMLTags`: collect the matches, then the `for` loop over them,
      the remaining text, and the fallback for no parts. */
  method ScanTags(s: string) returns (parts: seq<Node>)
    ensures parts == ParseTags(s)
    decreases |s|
  {
    var matches := CollectTagMatches(s);
    parts := [];
    var lastIndex: nat := 0;
    assert matches[0..] == matches;
    for i := 0 to |matches|
      invariant Chain(s, matches, 0) && Chain(s, matches[i..], lastIndex)
      invariant parts + TagParts(s, matches[i..], lastIndex) == TagParts(s, matches, 0)
    {
      var m := matches[i];
      ScanTagsStep(s, matches, i, lastIndex, parts);
      var before := [];
      if m.start > lastIndex {
        before := ScanLinks(s[lastIndex..m.start]);
      }
      var content := ScanTags(m.content);
      parts := parts + before + Styled(m.tag, content);
      lastIndex := m.end;
    }
    TagPartsEnd(s, matches, lastIndex);
    if lastIndex < |s| {
      var rest := ScanLinks(s[lastIndex..]);
      parts := parts + rest;
    }
    if parts == [] {
      parts := ScanLinks(s);
    }
  }

  lemma TagPartsEnd(s: string, ms: seq<TagMatch>, last: nat)
    requires Chain(s, ms[|ms|..], last)
    ensures TagParts(s, ms[|ms|..], last) == if last < |s| then ParseLinks(s[last..]) else []
  {
    assert ms[|ms|..] == [];
  }

  lemma ScanTagsStep(s: string, ms: seq<TagMatch>, i: nat, last: nat, parts: seq<Node>)
    requires i < |ms| && Chain(s, ms, 0) && Chain(s, ms[i..], last)
    requires parts + TagParts(s, ms[i..], last) == TagParts(s, ms, 0)
    ensures last <= ms[i].start <= ms[i].end <= |s| && |ms[i].content| < |s|
    ensures Chain(s, ms[i + 1..], ms[i].end)
    ensures parts + Gap(s, last, ms[i].start) + Styled(ms[i].tag, ParseTags(ms[i].content)) +
            TagParts(s, ms[i + 1..], ms[i].end) == TagParts(s, ms, 0)
  {
    TagPartsCons(s, ms[i..], last);
    assert ms[i..][1..] == ms[i + 1..];
    var m := ms[i];
    AppendStep(parts, Gap(s, last, m.start), Styled(m.tag, ParseTags(m.content)), TagParts(s, ms[i + 1..], m.end));
  }

  // ---------------------------------------------------------------------------
  // parseText

  /** The length of the separator `/\\n|\n/` matches at index `i`: 2 for a
      backslash followed by `n`, 1 for a newline, 0 for none. */
  function SeparatorAt(s: string, i: nat): nat
    requires i < |s|
  {
    if i + 1 < |s| && s[i] == '\\' && s[i + 1] == 'n' then 2
    else if s[i] == '\n' then 1
    else 0
  }

  /** No separator starts in `t`. */
  predicate NoSeparator(t: string) {
    forall i :: 0 <= i < |t| ==> SeparatorAt(t, i) == 0
  }

  /** The parts of `s.split(/\\n|\n/)` from index `i` on, the current part
      having started at `start`. */
  function SplitFrom(s: string, start: nat, i: nat): (lines: seq<string>)
    requires start <= i <= |s|
    ensures |lines| >= 1
    decreases |s| - i
  {
    if i == |s| then [s[start..]]
    else
      var k := SeparatorAt(s, i);
      if k == 0 then SplitFrom(s, start, i + 1)
      else [s[start..i]] + SplitFrom(s, i + k, i + k)
  }

  /** The separators the split cuts at, in order. */
  function SeparatorsFrom(s: string, i: nat): seq<string>
    requires i <= |s|
    decreases |s| - i
  {
    if i == |s| then []
    else
      var k := SeparatorAt(s, i);
      if k == 0 then SeparatorsFrom(s, i + 1)
      else [s[i..i + k]] + SeparatorsFrom(s, i + k)
  }

  function SplitLines(s: string): seq<string> {
    SplitFrom(s, 0, 0)
  }

  function Separators(s: string): seq<string> {
    SeparatorsFrom(s, 0)
  }

  /** The lines with the separators put back between them. */
  function Interleave(lines: seq<string>, seps: seq<string>): string
    requires |lines| >= 1 && |seps| == |lines| - 1
    decreases |lines|
  {
    if |lines| == 1 then lines[0]
    else lines[0] + seps[0] + Interleave(lines[1..], seps[1..])
  }

  lemma {:induction false} SplitFromRoundTrip(s: string, start: nat, i: nat)
    requires start <= i <= |s|
    ensures |SeparatorsFrom(s, i)| == |SplitFrom(s, start, i)| - 1
    ensures forall sep :: sep in SeparatorsFrom(s, i) ==> sep == "\\n" || sep == "\n"
    ensures Interleave(SplitFrom(s, start, i), SeparatorsFrom(s, i)) == s[start..]
    decreases |s| - i
  {
    if i < |s| {
      var k := SeparatorAt(s, i);
      if k == 0 {
        SplitFromRoundTrip(s, start, i + 1);
      } else {
        SplitFromRoundTrip(s, i + k, i + k);
        var rest := SplitFrom(s, i + k, i + k);
        assert ([s[start..i]] + rest)[1..] == rest;
        assert s[start..] == s[start..i] + s[i..i + k] + s[i + k..];
      }
    }
  }

  /** Splitting and putting the separators back gives the text, and every
      separator is a newline or a backslash followed by `n`. */
  lemma SplitLinesRoundTrip(s: string)
    ensures |Separators(s)| == |SplitLines(s)| - 1
    ensures forall sep :: sep in Separators(s) ==> sep == "\\n" || sep == "\n"
    ensures Interleave(SplitLines(s), Separators(s)) == s
  {
    SplitFromRoundTrip(s, 0, 0);
    assert s[0..] == s;
  }

  lemma SliceNoSeparator(s: string, start: nat, i: nat)
    requires start <= i <= |s|
    requires forall j :: start <= j < i ==> SeparatorAt(s, j) == 0
    ensures NoSeparator(s[start..i])
  {
    var t := s[start..i];
    forall k | 0 <= k < |t|
      ensures SeparatorAt(t, k) == 0
    {
      assert SeparatorAt(s, start + k) == 0;
    }
  }

  lemma {:induction false} SplitFromClean(s: string, start: nat, i: nat)
    requires start <= i <= |s|
    requires forall j :: start <= j < i ==> SeparatorAt(s, j) == 0
    ensures forall line :: line in SplitFrom(s, start, i) ==> NoSeparator(line)
    decreases |s| - i
  {
    if i == |s| {
      SliceNoSeparator(s, start, i);
      assert s[start..] == s[start..i];
    } else if SeparatorAt(s, i) == 0 {
      SplitFromClean(s, start, i + 1);
    } else {
      SliceNoSeparator(s, start, i);
      SplitFromClean(s, i + SeparatorAt(s, i), i + SeparatorAt(s, i));
    }
  }

  /** The text is cut at every separator: no line holds one. */
  lemma SplitLinesClean(s: string)
    ensures forall line :: line in SplitLines(s) ==> NoSeparator(line)
  {
    SplitFromClean(s, 0, 0);
  }

  /** `lines.map(...)` from line `i` on: each line's markup, then a break
      unless it is the last line. */
  function RenderLines(lines: seq<string>, i: nat): seq<Node>
    requires i <= |lines|
    decreases |lines| - i
  {
    if i == |lines| then []
    else ParseTags(lines[i]) + (if i < |lines| - 1 then [Break] else []) + RenderLines(lines, i + 1)
  }

  /** `parseText`: nothing for the empty (falsy) text. */
  function ParseText(s: string): seq<Node> {
    if s == [] then [] else RenderLines(SplitLines(s), 0)
  }

  /** The line breaks at the top level of a node sequence. */
  function CountBreaks(ns: seq<Node>): nat {
    if ns == [] then 0 else (if ns[0].Break? then 1 else 0) + CountBreaks(ns[1..])
  }

  lemma CountBreaksAppend(a: seq<Node>, b: seq<Node>)
    ensures CountBreaks(a + b) == CountBreaks(a) + CountBreaks(b)
  {
    if a != [] {
      assert (a + b)[0] == a[0];
      assert (a + b)[1..] == a[1..] + b;
      CountBreaksAppend(a[1..], b);
    } else {
      assert a + b == b;
    }
  }

  lemma CountBreaksNone(ns: seq<Node>)
    requires Break !in ns
    ensures CountBreaks(ns) == 0
  {
    if ns != [] {
      assert ns[0] in ns;
      assert forall n :: n in ns[1..] ==> n in ns;
      CountBreaksNone(ns[1..]);
    }
  }

  lemma {:induction false} RenderLinesBreaks(lines: seq<string>, i: nat)
    requires i < |lines|
    ensures CountBreaks(RenderLines(lines, i)) == |lines| - 1 - i
    decreases |lines| - i
  {
    var here := ParseTags(lines[i]);
    var br: seq<Node> := if i < |lines| - 1 then [Break] else [];
    ParseTagsNoBreak(lines[i]);
    CountBreaksNone(here);
    assert CountBreaks(br) == if i < |lines| - 1 then 1 else 0 by {
      if i < |lines| - 1 {
        assert CountBreaks(br) == 1 + CountBreaks([]);
      }
    }
    if i + 1 < |lines| {
      RenderLinesBreaks(lines, i + 1);
    }
    CountBreaksAppend(here + br, RenderLines(lines, i + 1));
    CountBreaksAppend(here, br);
  }

  /** Exactly one break between consecutive lines. */
  lemma ParseTextBreaks(s: string)
    requires s != []
    ensures CountBreaks(ParseText(s)) == |SplitLines(s)| - 1
  {
    RenderLinesBreaks(SplitLines(s), 0);
  }

  lemma ParseTagsNonEmpty(s: string)
    ensures ParseTags(s) != []
  {
  }

  /** Only the empty text renders nothing. */
  lemma ParseTextEmpty(s: string)
    ensures ParseText(s) == [] <==> s == []
  {
    if s != [] {
      var lines := SplitLines(s);
      ParseTagsNonEmpty(lines[0]);
      assert RenderLines(lines, 0) == ParseTags(lines[0]) + (if 0 < |lines| - 1 then [Break] else []) + RenderLines(lines, 1);
    }
  }

  function UnmarkLines(lines: seq<string>): seq<string> {
    seq(|lines|, k requires 0 <= k < |lines| => Unmark(lines[k]))
  }

  lemma {:induction false} RenderLinesDisplay(lines: seq<string>, i: nat)
    requires i < |lines|
    ensures Display(RenderLines(lines, i)) == Join(UnmarkLines(lines)[i..], "\n")
    decreases |lines| - i
  {
    var u := UnmarkLines(lines);
    var here := ParseTags(lines[i]);
    ParseTagsDisplay(lines[i]);
    if i == |lines| - 1 {
      assert RenderLines(lines, i + 1) == [];
      assert RenderLines(lines, i) == here + [] + [];
      assert here + [] + [] == here;
      assert u[i..] == [Unmark(lines[i])];
      assert Join(u[i..], "\n") == Unmark(lines[i]);
    } else {
      RenderLinesDisplay(lines, i + 1);
      DisplayAppend(here + [Break], RenderLines(lines, i + 1));
      DisplayAppend(here, [Break]);
      assert Display([Break]) == "\n" + Display([]);
      assert u[i..][0] == Unmark(lines[i]) && u[i..][1..] == u[i + 1..];
    }
  }

  /** What a reader sees of `parseText`: each line's reference reading,
      with a line break between consecutive lines. */
  lemma ParseTextDisplay(s: string)
    requires s != []
    ensures Display(ParseText(s)) == Join(UnmarkLines(SplitLines(s)), "\n")
  {
    RenderLinesDisplay(SplitLines(s), 0);
    assert UnmarkLines(SplitLines(s))[0..] == UnmarkLines(SplitLines(s));
  }
}
