/** The achievements section (`src/app/components/sections/AchievementsSection.tsx`):
    which certification cards are links, which show their own icon, and
    which card spans the whole row. The URL parser is a parameter: it gives
    the protocol of a string it accepts and nothing for one it rejects. */
module Achievements {
  import opened Wrappers
  import opened JsText
  import TextParser

  datatype Certification = Certification(name: string, issuer: string, icon: Option<string>, url: Option<string>)

  datatype AchievementsData = AchievementsData(
    enabled: bool, title: string, highlight: string, description: seq<string>,
    certifications: seq<Certification>)

  /** `isValidUrl`: the string parses, and its protocol is `http:` or
      `https:`; a string the parser rejects is not valid. */
  function IsValidUrl(protocolOf: string -> Option<string>, s: string): (ok: bool)
    ensures protocolOf(s).None? ==> !ok
    ensures ok <==> protocolOf(s) in {Some("http:"), Some("https:")}
  {
    match protocolOf(s)
    case None => false
    case Some(protocol) => protocol == "http:" || protocol == "https:"
  }

  /** Set, and not blank after trimming. */
  predicate Filled(v: Option<string>) {
    v.Some? && Trim(v.value) != ""
  }

  /** `hasValidUrl`: the card links out only to a filled, valid address. */
  predicate HasValidUrl(protocolOf: string -> Option<string>, cert: Certification) {
    Filled(cert.url) && IsValidUrl(protocolOf, cert.url.value)
  }

  /** The card is a link exactly when its address is set, not blank, and
      parses with a web protocol; a blank address is never a link even if
      the parser would take it. */
  lemma LinkRule(protocolOf: string -> Option<string>, cert: Certification)
    ensures HasValidUrl(protocolOf, cert) <==>
              cert.url.Some? && !AllWhitespace(cert.url.value) &&
              protocolOf(cert.url.value) in {Some("http:"), Some("https:")}
  {
    if cert.url.Some? {
      TrimEmpty(cert.url.value);
    }
  }

  /** `CertificationCard`: its own icon until that fails to load. */
  class CertificationCard {
    const cert: Certification
    const isFullWidth: bool
    var imageError: bool

    constructor(cert: Certification, isFullWidth: bool)
      ensures this.cert == cert && this.isFullWidth == isFullWidth && !imageError
    {
      this.cert := cert;
      this.isFullWidth := isFullWidth;
      imageError := false;
    }

    /** `onError` on the icon image. */
    method OnError()
      modifies this
      ensures imageError
    {
      imageError := true;
    }

    /** `hasValidIcon` */
    predicate HasValidIcon() {
      Filled(cert.icon)
    }

    /** `showDefaultIcon` */
    predicate ShowDefaultIcon()
      reads this
    {
      !HasValidIcon() || imageError
    }
  }

  /** The configured icon shows exactly while it is set, not blank, and has
      not failed; once it fails, the default icon stays. */
  lemma IconRule(card: CertificationCard)
    ensures !card.ShowDefaultIcon() <==>
              card.cert.icon.Some? && !AllWhitespace(card.cert.icon.value) && !card.imageError
  {
    if card.cert.icon.Some? {
      TrimEmpty(card.cert.icon.value);
    }
  }

  // ---------------------------------------------------------------------------
  // Layout

  /** The last card of an odd number of cards spans both columns. */
  predicate IsFullWidth(index: int, count: int) {
    index == count - 1 && count % 2 != 0
  }

  /** Exactly one card is full width when the count is odd, none when it
      is even. */
  lemma FullWidthCount(count: nat)
    ensures |set i | 0 <= i < count && IsFullWidth(i, count)| == if count % 2 == 1 then 1 else 0
  {
    var wide := set i | 0 <= i < count && IsFullWidth(i, count);
    if count % 2 == 1 {
      assert wide == {count - 1};
    } else {
      assert wide == {};
    }
  }

  datatype CardView = CardView(cert: Certification, fullWidth: bool, link: Option<string>)

  datatype SectionView = SectionView(highlight: string, items: seq<seq<TextParser.Node>>, cards: seq<CardView>)

  function CardOf(protocolOf: string -> Option<string>, cert: Certification, index: nat, count: nat): (v: CardView)
    ensures v.link.Some? <==> HasValidUrl(protocolOf, cert)
    ensures v.link.Some? ==> v.link == cert.url
  {
    CardView(cert, IsFullWidth(index, count), if HasValidUrl(protocolOf, cert) then cert.url else None)
  }

  function Render(protocolOf: string -> Option<string>, a: AchievementsData): (v: Option<SectionView>)
    ensures v.None? <==> !a.enabled
  {
    if !a.enabled then None
    else
      var certs := a.certifications;
      Some(SectionView(
        a.highlight,
        seq(|a.description|, i requires 0 <= i < |a.description| => TextParser.ParseText(a.description[i])),
        seq(|certs|, i requires 0 <= i < |certs| => CardOf(protocolOf, certs[i], i, |certs|))))
  }

  /** An enabled section parses each achievement line in order and keeps one
      card per certification, in order, with the full-width mark on the
      last card of an odd count only. */
  lemma RenderRule(protocolOf: string -> Option<string>, a: AchievementsData)
    requires a.enabled
    ensures var v := Render(protocolOf, a).value;
            |v.items| == |a.description| &&
            (forall i :: 0 <= i < |a.description| ==> v.items[i] == TextParser.ParseText(a.description[i])) &&
            |v.cards| == |a.certifications| &&
            (forall i :: 0 <= i < |v.cards| ==> v.cards[i].cert == a.certifications[i]) &&
            (forall i :: 0 <= i < |v.cards| ==>
               (v.cards[i].fullWidth <==> i == |v.cards| - 1 && |v.cards| % 2 == 1))
  {
  }
}
