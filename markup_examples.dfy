/** Worked instances of the inline markup parser: nested tags, the two
    spellings of bold, a link, and an unmatched bracket. */
module MarkupExamples {
  import opened Wrappers
  import opened JsText
  import opened MarkupRegex
  import opened TextParser

  /** A one-character text that starts neither a tag nor a link is plain. */
  lemma PlainChar(c: char)
    requires c != '<' && c != '('
    ensures ParseTags([c]) == [Text([c])] && ParseLinks([c]) == [Text([c])]
  {
    var t := [c];
    assert t[1..] == [];
    assert TagHere(t).None? by {
      assert !OccursIgnoreCase(t, OpenTag("b"), 0);
    }
    assert TagFree(t);
    assert LinkFree(t);
    ParseTagsPlain(t);
    ParseLinksPlain(t);
  }

  lemma InnerContent()
    ensures "<b>a<i>b</i>c</b>"[3..13] == "a<i>b</i>c"
  {
  }

  lemma OuterMatch()
    ensures TagHere("<b>a<i>b</i>c</b>") == Some(TagMatch(0, 17, "b", "a<i>b</i>c"))
  {
    var t := "<b>a<i>b</i>c</b>";
    var close := CloseTag("b");
    assert close == "</b>";
    forall j | 3 <= j < 13
      ensures !OccursIgnoreCase(t, close, j)
    {
      assert LowerChar(t[j]) != LowerChar(close[0]) || LowerChar(t[j + 1]) != LowerChar(close[1]) ||
             LowerChar(t[j + 2]) != LowerChar(close[2]);
    }
    assert OccursIgnoreCase(t, OpenTag("b"), 0);
    assert OccursIgnoreCase(t, close, 13);
    TagHereExact(t, "b", 13);
    InnerContent();
  }

  lemma NoTagAt(t: string)
    requires t == [] || t[0] != '<'
    ensures TagHere(t).None?
  {
    forall n | n in TagNames
      ensures !OccursIgnoreCase(t, OpenTag(n), 0)
    {
      if t != [] {
        assert LowerChar(t[0]) != LowerChar(OpenTag(n)[0]);
      }
    }
  }

  lemma ItalicMatch()
    ensures TagHere("<i>b</i>c") == Some(TagMatch(0, 8, "i", "b"))
  {
    var t := "<i>b</i>c";
    var close := CloseTag("i");
    assert close == "</i>";
    assert !OccursIgnoreCase(t, close, 3) by {
      assert LowerChar(t[3]) != LowerChar(close[0]);
    }
    assert OccursIgnoreCase(t, OpenTag("i"), 0);
    assert OccursIgnoreCase(t, close, 4);
    TagHereExact(t, "i", 4);
    assert t[3..4] == "b";
  }

  lemma InnerSlices()
    ensures "a<i>b</i>c"[1..] == "<i>b</i>c"
    ensures "a<i>b</i>c"[9..] == "c" && "a<i>b</i>c"[10..] == []
    ensures "a<i>b</i>c"[0..1] == "a"
  {
  }

  /** The matches collected from `a<i>b</i>c`: the italic span only. */
  lemma InnerMatches()
    ensures FirstTagFrom("a<i>b</i>c", 0) == Some(TagMatch(1, 9, "i", "b"))
    ensures FirstTagFrom("a<i>b</i>c", 9).None?
  {
    var s := "a<i>b</i>c";
    var m := TagMatch(1, 9, "i", "b");
    InnerSlices();
    NoTagAt(s);
    NoTagAt("c");
    NoTagAt([]);
    ItalicMatch();
    assert s[0..] == s;
    assert TagMatchAt(s, 0).None? && TagMatchAt(s, 1) == Some(m);
    assert TagMatchAt(s, 9).None? && TagMatchAt(s, 10).None?;
  }

  /** The content of the bold span: a text run, an italic span, a text run. */
  lemma InnerParse()
    ensures ParseTags("a<i>b</i>c") == [Text("a"), Italic([Text("b")]), Text("c")]
  {
    var s := "a<i>b</i>c";
    var m := TagMatch(1, 9, "i", "b");
    InnerMatches();
    InnerSlices();
    TagMatchesUnfold(s, 0, m);
    PlainChar('b');
    InnerEnds();
  }

  /** The text runs around the italic span of `a<i>b</i>c`. */
  lemma InnerEnds()
    ensures Gap("a<i>b</i>c", 0, 1) == [Text("a")]
    ensures TagParts("a<i>b</i>c", TagMatches("a<i>b</i>c", 9), 9) == [Text("c")]
  {
    var s := "a<i>b</i>c";
    InnerMatches();
    InnerSlices();
    PlainChar('a');
    PlainChar('c');
  }

  /** Nesting: `<b>a<i>b</i>c</b>` is a bold span holding a text run, an
      italic span and a text run. */
  lemma NestedExample()
    ensures ParseTags("<b>a<i>b</i>c</b>") == [Bold([Text("a"), Italic([Text("b")]), Text("c")])]
  {
    var s := "<b>a<i>b</i>c</b>";
    var m := TagMatch(0, 17, "b", "a<i>b</i>c");
    OuterMatch();
    assert s[0..] == s && s[17..] == [];
    NoTagAt([]);
    assert TagMatchAt(s, 0) == Some(m);
    assert FirstTagFrom(s, 0) == Some(m);
    assert TagMatchAt(s, 17).None?;
    assert FirstTagFrom(s, 17).None?;
    TagMatchesUnfold(s, 0, m);
    InnerParse();
  }

  lemma StrongOpen()
    ensures OccursIgnoreCase("<STRONG>x</Strong>", OpenTag("strong"), 0)
  {
    assert OpenTag("strong") == "<strong>";
  }

  lemma StrongClose()
    ensures OccursIgnoreCase("<STRONG>x</Strong>", CloseTag("strong"), 9)
    ensures !OccursIgnoreCase("<STRONG>x</Strong>", CloseTag("strong"), 8)
  {
    var s := "<STRONG>x</Strong>";
    var close := CloseTag("strong");
    assert close == "</strong>";
    assert LowerChar(s[8]) != LowerChar(close[0]);
  }

  /** `<STRONG>x</Strong>` is a lazily closed `strong` span whose content ends at 9. */
  lemma StrongSpan()
    ensures LazyTagSpan("<STRONG>x</Strong>", "strong", 9)
  {
    StrongOpen();
    StrongClose();
    assert !IsLineTerminator("<STRONG>x</Strong>"[8]);
  }

  lemma StrongMatch()
    ensures TagHere("<STRONG>x</Strong>") == Some(TagMatch(0, 18, "strong", "x"))
  {
    var s := "<STRONG>x</Strong>";
    StrongSpan();
    TagHereExact(s, "strong", 9);
    assert s[8..9] == "x";
  }

  /** Tag names are matched whatever their case, and `strong` is bold too. */
  lemma StrongExample()
    ensures ParseTags("<STRONG>x</Strong>") == [Bold([Text("x")])]
  {
    var s := "<STRONG>x</Strong>";
    StrongMatch();
    assert s[0..] == s && s[18..] == [];
    var m := TagMatch(0, 18, "strong", "x");
    NoTagAt([]);
    assert TagMatchAt(s, 0) == Some(m);
    assert FirstTagFrom(s, 0) == Some(m);
    assert TagMatchAt(s, 18).None?;
    assert FirstTagFrom(s, 18).None?;
    TagMatchesUnfold(s, 0, m);
    PlainChar('x');
  }

  /** A link: caption and URL, nothing else. */
  lemma LinkExample()
    ensures ParseLinks("(a)[u]") == [Link("a", "u")]
  {
    var s := "(a)[u]";
    assert s[1..2] == "a" && s[4..5] == "u" && s[6..] == [];
    LinkHereComplete(s, 2, 5);
    assert s[0..] == s;
    assert LinkAt(s, 0) == Some(LinkMatch(0, 6, "a", "u"));
    assert FirstLinkFrom(s, 0) == Some(LinkMatch(0, 6, "a", "u"));
    assert LinkAt(s, 6).None?;
    assert FirstLinkFrom(s, 6).None?;
    LinkPartsUnfold(s, 0, LinkMatch(0, 6, "a", "u"));
  }

  /** A bracket without its URL stays literal text. */
  lemma UnmatchedExample()
    ensures ParseLinks("(a)") == [Text("(a)")]
  {
    var s := "(a)";
    assert CharFrom(s, ')', 1) == Some(2);
    forall i | 0 <= i <= |s|
      ensures LinkHere(s[i..]).None?
    {
      if i > 0 {
        assert i == |s| || s[i..][0] != '(';
      }
    }
    ParseLinksPlain(s);
  }

  /** `</b>` is written nowhere in `<b>x</i>`: each place it could start
      has a character that differs. */
  lemma NoBoldClose(q: int)
    ensures !OccursIgnoreCase("<b>x</i>", "</b>", q)
  {
    var s, close := "<b>x</i>", "</b>";
    if 0 <= q && q + |close| <= |s| {
      if q == 0 {
        assert LowerChar(s[1]) != LowerChar(close[1]);
      } else if q == 1 {
        assert LowerChar(s[1]) != LowerChar(close[0]);
      } else if q == 2 {
        assert LowerChar(s[2]) != LowerChar(close[0]);
      } else if q == 3 {
        assert LowerChar(s[3]) != LowerChar(close[0]);
      } else {
        assert LowerChar(s[6]) != LowerChar(close[2]);
      }
    }
  }

  lemma MismatchAtStart()
    ensures TagHere("<b>x</i>").None?
  {
    var s := "<b>x</i>";
    var close := CloseTag("b");
    assert close == "</b>";
    forall q | 0 <= q
      ensures !OccursIgnoreCase(s, close, q)
    {
      NoBoldClose(q);
    }
    if TagHere(s).Some? {
      TagHereSound(s);
      OpenNameUnique(s, TagHere(s).value.tag, "b");
      assert false;
    }
  }

  /** No position of `<b>x</i>` starts a tag pair. */
  lemma MismatchTagFree()
    ensures TagFree("<b>x</i>")
  {
    var s := "<b>x</i>";
    MismatchAtStart();
    forall i | 0 <= i <= |s|
      ensures TagHere(s[i..]).None?
    {
      if i == 0 {
        assert s[0..] == s;
      } else if i == 4 {
        assert s[4..] == "</i>";
        forall n | n in TagNames
          ensures !OccursIgnoreCase(s[4..], OpenTag(n), 0)
        {
          assert LowerChar(s[4..][1]) != LowerChar(OpenTag(n)[1]);
        }
      } else {
        NoTagAt(s[i..]);
      }
    }
  }

  /** No position of `<b>x</i>` starts a link. */
  lemma MismatchLinkFree()
    ensures LinkFree("<b>x</i>")
  {
    var s := "<b>x</i>";
    forall i | 0 <= i <= |s|
      ensures LinkHere(s[i..]).None?
    {
      assert i == |s| || s[i..][0] != '(';
    }
  }

  /** A closing tag must repeat the opening tag's name. */
  lemma MismatchExample()
    ensures ParseTags("<b>x</i>") == [Text("<b>x</i>")]
  {
    MismatchTagFree();
    MismatchLinkFree();
    ParseTagsPlain("<b>x</i>");
  }
}
