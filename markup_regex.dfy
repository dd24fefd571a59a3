/** The two regular expressions of the inline markup parser:

      tags:  /<(b|strong|i|u)>(.*?)<\/\1>/gi
      links: /\(([^)]+)\)\[([^\]]+)\]/g

    Neither expression has an anchor or a look-behind, so whether it matches
    at index `p` of a string depends only on the text from `p` on. Each is
    therefore written as a function that tries the expression at the start of
    a text (`TagHere`, `LinkHere`), lifted to an index of a larger string
    (`TagMatchAt`, `LinkAt`), and a search for the leftmost index at or after
    `lastIndex` where it matches (`FirstTagFrom`, `FirstLinkFrom`), which is
    what `RegExp.prototype.exec` does for a global expression.

    Each expression also has a declarative partner (`TagSpan`, `LinkSyntax`)
    saying which texts it accepts; the lemmas below show that the functions
    find exactly those. */
module MarkupRegex {
  import opened Wrappers
  import opened JsText

  /** The alternatives of the tag group, in the order the expression tries them. */
  const TagNames: seq<string> := ["b", "strong", "i", "u"]

  function OpenTag(name: string): string { "<" + name + ">" }

  function CloseTag(name: string): string { "</" + name + ">" }

  /** `word` is written at index `at` of `s`, up to ASCII case (the `i` flag;
      for the ASCII letters of the tag names that is exactly what the flag
      does). */
  predicate OccursIgnoreCase(s: string, word: string, at: int) {
    0 <= at && at + |word| <= |s| &&
    forall k :: 0 <= k < |word| ==> LowerChar(s[at + k]) == LowerChar(word[k])
  }

  /** None of `s[i..j]` is a line terminator, so `.` accepts all of it. */
  predicate NoTerminator(s: string, i: int, j: int) {
    0 <= i <= j <= |s| && forall k :: i <= k < j ==> !IsLineTerminator(s[k])
  }

  // ---------------------------------------------------------------------------
  // Tags

  /** The language of the tag expression at the start of `t`: group 1 spells
      `name`, the content runs from after the opening tag to `q`, where a
      closing tag of the same name starts, and contains no line terminator. */
  predicate TagSpan(t: string, name: string, q: int) {
    name in TagNames && OccursIgnoreCase(t, OpenTag(name), 0) &&
    |name| + 2 <= q && OccursIgnoreCase(t, CloseTag(name), q) &&
    NoTerminator(t, |name| + 2, q)
  }

  /** ... where `q` is the first such closing tag, which the lazy `(.*?)` picks. */
  predicate LazyTagSpan(t: string, name: string, q: int) {
    TagSpan(t, name, q) &&
    forall j :: |name| + 2 <= j < q ==> !OccursIgnoreCase(t, CloseTag(name), j)
  }

  /** One entry of the parser's `matches` array: `start` is `match.index`,
      `end` is `match.index + match[0].length`, `tag` is `match[1]` lower-cased
      and `content` is `match[2]`. */
  datatype TagMatch = TagMatch(start: nat, end: nat, tag: string, content: string)

  /** The match an accepted span gives. */
  function SpanMatch(t: string, name: string, q: nat): TagMatch
    requires |name| + 2 <= q <= |t|
  {
    TagMatch(0, q + |name| + 3, name, t[|name| + 2..q])
  }

  /** `(.*?)<\/name>` from index `q`: the first index at which the closing tag
      starts, scanning only over characters `.` accepts. */
  function CloseFrom(t: string, name: string, q: nat): (r: Option<nat>)
    requires q <= |t|
    ensures r.Some? ==> q <= r.value && r.value + |name| + 3 <= |t|
    decreases |t| - q
  {
    if OccursIgnoreCase(t, CloseTag(name), q) then Some(q)
    else if q < |t| && !IsLineTerminator(t[q]) then CloseFrom(t, name, q + 1)
    else None
  }

  /** The expression at the start of `t` with group 1 fixed to `name`. */
  function TagWith(t: string, name: string): (r: Option<TagMatch>)
    ensures r.Some? ==> r.value.start == 0 && r.value.tag == name &&
                        |name| + 2 <= r.value.end - |name| - 3 && r.value.end <= |t| &&
                        r.value == SpanMatch(t, name, r.value.end - |name| - 3)
  {
    if OccursIgnoreCase(t, OpenTag(name), 0) then
      match CloseFrom(t, name, |name| + 2)
      case None => None
      case Some(q) => Some(SpanMatch(t, name, q))
    else None
  }

  /** The alternation `(b|strong|i|u)`: the first alternative with which the
      whole expression matches. */
  function FirstAlternative(t: string, names: seq<string>): (r: Option<string>)
    ensures r.Some? ==> r.value in names && TagWith(t, r.value).Some?
  {
    if names == [] then None
    else if TagWith(t, names[0]).Some? then Some(names[0])
    else FirstAlternative(t, names[1..])
  }

  /** The tag expression tried at the start of `t`. */
  function TagHere(t: string): (r: Option<TagMatch>)
    ensures r.Some? ==> r.value.tag in TagNames && r.value.start == 0 &&
                        |r.value.tag| + 2 <= r.value.end - |r.value.tag| - 3 && r.value.end <= |t| &&
                        r.value == SpanMatch(t, r.value.tag, r.value.end - |r.value.tag| - 3)
  {
    match FirstAlternative(t, TagNames)
    case None => None
    case Some(name) => TagWith(t, name)
  }

  lemma CloseFromSound(t: string, name: string, q: nat)
    requires q <= |t| && CloseFrom(t, name, q).Some?
    ensures var c := CloseFrom(t, name, q).value;
            OccursIgnoreCase(t, CloseTag(name), c) && NoTerminator(t, q, c) &&
            forall j :: q <= j < c ==> !OccursIgnoreCase(t, CloseTag(name), j)
    decreases |t| - q
  {
    if !OccursIgnoreCase(t, CloseTag(name), q) {
      CloseFromSound(t, name, q + 1);
    }
  }

  lemma CloseFromComplete(t: string, name: string, q: nat, c: int)
    requires q <= |t| && NoTerminator(t, q, c) && OccursIgnoreCase(t, CloseTag(name), c)
    ensures CloseFrom(t, name, q).Some?
    decreases |t| - q
  {
    if !OccursIgnoreCase(t, CloseTag(name), q) {
      CloseFromComplete(t, name, q + 1, c);
    }
  }

  /** Soundness: a match of the expression is a lazily closed span, and its
      recorded tag is the opening name as written, lower-cased. */
  lemma TagHereSound(t: string)
    requires TagHere(t).Some?
    ensures var m := TagHere(t).value;
            LazyTagSpan(t, m.tag, m.end - |m.tag| - 3) &&
            Lower(t[1..1 + |m.tag|]) == m.tag
  {
    var n := FirstAlternative(t, TagNames).value;
    CloseFromSound(t, n, |n| + 2);
    OpenTagName(t, n);
  }

  /** The four names are lower case, so an opening tag matched up to case
      lower-cases to its name. */
  lemma OpenTagName(t: string, n: string)
    requires n in TagNames && OccursIgnoreCase(t, OpenTag(n), 0)
    ensures Lower(t[1..1 + |n|]) == n
  {
    forall k | 0 <= k < |n|
      ensures LowerChar(t[1 + k]) == n[k]
    {
      assert OpenTag(n)[1 + k] == n[k];
    }
  }

  /** Completeness: wherever a span of any of the four names starts, the
      expression matches. */
  lemma TagHereComplete(t: string, name: string, q: int)
    requires TagSpan(t, name, q)
    ensures TagHere(t).Some?
  {
    CloseFromComplete(t, name, |name| + 2, q);
    assert TagWith(t, name).Some?;
    var i :| 0 <= i < |TagNames| && TagNames[i] == name;
    FirstAlternativeReaches(t, TagNames, i);
  }

  lemma FirstAlternativeReaches(t: string, names: seq<string>, i: nat)
    requires i < |names| && TagWith(t, names[i]).Some?
    ensures FirstAlternative(t, names).Some?
  {
    if i > 0 && TagWith(t, names[0]).None? {
      FirstAlternativeReaches(t, names[1..], i - 1);
    }
  }

  /** The four names start with different letters, so at most one opening
      tag is written at the start of a text. */
  lemma OpenNameUnique(t: string, n1: string, n2: string)
    requires n1 in TagNames && n2 in TagNames
    requires OccursIgnoreCase(t, OpenTag(n1), 0) && OccursIgnoreCase(t, OpenTag(n2), 0)
    ensures n1 == n2
  {
    assert OpenTag(n1)[1] == n1[0] && OpenTag(n2)[1] == n2[0];
    assert LowerChar(t[1]) == LowerChar(n1[0]) == LowerChar(n2[0]);
  }

  /** The match of the expression is exactly the lazily closed span: which
      span is taken does not depend on how the alternation is searched. */
  lemma TagHereExact(t: string, name: string, q: nat)
    requires LazyTagSpan(t, name, q)
    ensures TagHere(t) == Some(SpanMatch(t, name, q))
  {
    TagHereComplete(t, name, q);
    TagHereSound(t);
    var m := TagHere(t).value;
    OpenNameUnique(t, m.tag, name);
  }

  /** The tag expression tried at index `p` of `s`. */
  function TagMatchAt(s: string, p: nat): (r: Option<TagMatch>)
    requires p <= |s|
    ensures r.Some? ==> r.value.start == p && r.value.tag in TagNames &&
                        p + 2 * |r.value.tag| + 5 <= r.value.end <= |s| &&
                        |r.value.content| == r.value.end - p - 2 * |r.value.tag| - 5 &&
                        r.value.content == s[p + |r.value.tag| + 2..r.value.end - |r.value.tag| - 3]
  {
    match TagHere(s[p..])
    case None => None
    case Some(m) =>
      assert s[p..][|m.tag| + 2..m.end - |m.tag| - 3] == s[p + |m.tag| + 2..p + m.end - |m.tag| - 3];
      Some(TagMatch(p, p + m.end, m.tag, m.content))
  }

  /** `exec` with `lastIndex == from`: the match at the leftmost index at or
      after `from` where the expression matches. */
  function FirstTagFrom(s: string, from: nat): (r: Option<TagMatch>)
    requires from <= |s|
    ensures r.Some? ==> from <= r.value.start <= |s| && TagMatchAt(s, r.value.start) == r
    decreases |s| - from
  {
    var m := TagMatchAt(s, from);
    if m.Some? then m
    else if from == |s| then None
    else FirstTagFrom(s, from + 1)
  }

  /** The search finds the leftmost match: no index it skips has one, and
      when it finds nothing no index from `from` on has one. */
  lemma FirstTagFromLeftmost(s: string, from: nat, p: nat)
    requires from <= p <= |s|
    requires FirstTagFrom(s, from).None? || p < FirstTagFrom(s, from).value.start
    ensures TagMatchAt(s, p).None?
    decreases |s| - from
  {
    if from < p {
      FirstTagFromLeftmost(s, from + 1, p);
    }
  }

  /** A match in the suffix `s[k..]` is the match in `s` moved left by `k`. */
  function ShiftTag(m: TagMatch, k: nat): TagMatch
    requires k <= m.start <= m.end
  {
    TagMatch(m.start - k, m.end - k, m.tag, m.content)
  }

  lemma TagMatchAtShift(s: string, k: nat, j: nat)
    requires k + j <= |s|
    ensures TagMatchAt(s, k + j).Some? <==> TagMatchAt(s[k..], j).Some?
    ensures TagMatchAt(s, k + j).Some? ==>
            TagMatchAt(s[k..], j) == Some(ShiftTag(TagMatchAt(s, k + j).value, k))
  {
    assert s[k..][j..] == s[k + j..];
  }

  lemma FirstTagFromShift(s: string, k: nat, j: nat)
    requires k + j <= |s|
    ensures FirstTagFrom(s, k + j).Some? <==> FirstTagFrom(s[k..], j).Some?
    ensures FirstTagFrom(s, k + j).Some? ==>
            FirstTagFrom(s[k..], j) == Some(ShiftTag(FirstTagFrom(s, k + j).value, k))
    decreases |s| - (k + j)
  {
    TagMatchAtShift(s, k, j);
    if TagMatchAt(s, k + j).None? && k + j < |s| {
      FirstTagFromShift(s, k, j + 1);
    }
  }

  // ---------------------------------------------------------------------------
  // Links

  /** The language of the link expression at the start of `t`: `(`, a
      non-empty caption with no `)`, `)` at `q`, `[`, a non-empty URL with no
      `]`, and `]` at `e`. */
  predicate LinkSyntax(t: string, q: int, e: int) {
    1 < q && q + 2 < e < |t| &&
    t[0] == '(' && t[q] == ')' && t[q + 1] == '[' && t[e] == ']' &&
    ')' !in t[1..q] && ']' !in t[q + 2..e]
  }

  /** A match of the link expression: `caption` is group 1, `href` group 2. */
  datatype LinkMatch = LinkMatch(start: nat, end: nat, caption: string, href: string)

  /** The first index at or after `from` holding `c`. */
  function CharFrom(t: string, c: char, from: nat): (r: Option<nat>)
    requires from <= |t|
    ensures r.Some? ==> from <= r.value < |t| && t[r.value] == c
    decreases |t| - from
  {
    if from == |t| then None
    else if t[from] == c then Some(from)
    else CharFrom(t, c, from + 1)
  }

  /** The link expression tried at the start of `t`. The greedy groups can
      only give back characters up to the first `)` and the first `]`, so the
      match is found by two scans. */
  function LinkHere(t: string): (r: Option<LinkMatch>)
    ensures r.Some? ==> r.value.start == 0 && 4 <= r.value.end <= |t|
  {
    if 0 < |t| && t[0] == '(' then
      match CharFrom(t, ')', 1)
      case None => None
      case Some(q) =>
        if q == 1 || q + 1 >= |t| || t[q + 1] != '[' then None
        else
          match CharFrom(t, ']', q + 2)
          case None => None
          case Some(e) => if e == q + 2 then None else Some(LinkMatch(0, e + 1, t[1..q], t[q + 2..e]))
    else None
  }

  lemma CharFromSound(t: string, c: char, from: nat)
    requires from <= |t| && CharFrom(t, c, from).Some?
    ensures c !in t[from..CharFrom(t, c, from).value]
    decreases |t| - from
  {
    if t[from] != c {
      CharFromSound(t, c, from + 1);
      assert t[from..CharFrom(t, c, from).value] == [t[from]] + t[from + 1..CharFrom(t, c, from).value];
    }
  }

  lemma CharFromComplete(t: string, c: char, from: nat, i: int)
    requires from <= i < |t| && t[i] == c
    ensures CharFrom(t, c, from).Some? && CharFrom(t, c, from).value <= i
    decreases |t| - from
  {
    if t[from] != c {
      CharFromComplete(t, c, from + 1, i);
    }
  }

  /** Soundness: a match of the link expression is link syntax. */
  lemma LinkHereSound(t: string)
    requires LinkHere(t).Some?
    ensures var m := LinkHere(t).value;
            LinkSyntax(t, 1 + |m.caption|, m.end - 1)
  {
    var q := CharFrom(t, ')', 1).value;
    CharFromSound(t, ')', 1);
    CharFromSound(t, ']', q + 2);
  }

  /** Completeness: wherever link syntax starts, the expression matches, and
      it matches with the first `)` and the first `]`. */
  lemma LinkHereComplete(t: string, q: int, e: int)
    requires LinkSyntax(t, q, e)
    ensures LinkHere(t) == Some(LinkMatch(0, e + 1, t[1..q], t[q + 2..e]))
  {
    CharFromComplete(t, ')', 1, q);
    var q' := CharFrom(t, ')', 1).value;
    CharFromComplete(t, ']', q + 2, e);
    var e' := CharFrom(t, ']', q + 2).value;
  }

  /** The link expression tried at index `p` of `s`. */
  function LinkAt(s: string, p: nat): (r: Option<LinkMatch>)
    requires p <= |s|
    ensures r.Some? ==> r.value.start == p && p < r.value.end <= |s|
  {
    match LinkHere(s[p..])
    case None => None
    case Some(m) => Some(LinkMatch(p, p + m.end, m.caption, m.href))
  }

  /** `exec` with `lastIndex == from` for the link expression. */
  function FirstLinkFrom(s: string, from: nat): (r: Option<LinkMatch>)
    requires from <= |s|
    ensures r.Some? ==> from <= r.value.start <= |s| && LinkAt(s, r.value.start) == r
    decreases |s| - from
  {
    var m := LinkAt(s, from);
    if m.Some? then m
    else if from == |s| then None
    else FirstLinkFrom(s, from + 1)
  }

  lemma FirstLinkFromLeftmost(s: string, from: nat, p: nat)
    requires from <= p <= |s|
    requires FirstLinkFrom(s, from).None? || p < FirstLinkFrom(s, from).value.start
    ensures LinkAt(s, p).None?
    decreases |s| - from
  {
    if from < p {
      FirstLinkFromLeftmost(s, from + 1, p);
    }
  }

  function ShiftLink(m: LinkMatch, k: nat): LinkMatch
    requires k <= m.start <= m.end
  {
    LinkMatch(m.start - k, m.end - k, m.caption, m.href)
  }

  lemma FirstLinkFromShift(s: string, k: nat, j: nat)
    requires k + j <= |s|
    ensures FirstLinkFrom(s, k + j).Some? <==> FirstLinkFrom(s[k..], j).Some?
    ensures FirstLinkFrom(s, k + j).Some? ==>
            FirstLinkFrom(s[k..], j) == Some(ShiftLink(FirstLinkFrom(s, k + j).value, k))
    decreases |s| - (k + j)
  {
    LinkAtShift(s, k, j);
    if LinkAt(s, k + j).None? && k + j < |s| {
      FirstLinkFromShift(s, k, j + 1);
    }
  }

  lemma LinkAtShift(s: string, k: nat, j: nat)
    requires k + j <= |s|
    ensures LinkAt(s, k + j).Some? <==> LinkAt(s[k..], j).Some?
    ensures LinkAt(s, k + j).Some? ==>
            LinkAt(s[k..], j) == Some(ShiftLink(LinkAt(s, k + j).value, k))
  {
    assert s[k..][j..] == s[k + j..];
  }

  /** A link written inside a prefix of a text is matched in the whole text
      as well: the expression never looks past the `]` that closes it. */
  lemma LinkHerePrefix(t: string, u: string)
    requires LinkHere(t).Some?
    ensures LinkHere(t + u) == LinkHere(t)
  {
    var m := LinkHere(t).value;
    LinkHereSound(t);
    var q := 1 + |m.caption|;
    var e := m.end - 1;
    assert (t + u)[1..q] == t[1..q];
    assert (t + u)[q + 2..e] == t[q + 2..e];
    LinkHereComplete(t + u, q, e);
  }
}
