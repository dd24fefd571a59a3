/** The typewriter of `src/app/functions/TypewriterEffect.tsx`: one
    character per tick until the text is out, then a blinking cursor. Each
    timer firing is one call of `Tick`; the delays are not modelled. */
module Typewriter {
  class Typewriter {
    const text: string
    var displayedText: string
    var currentIndex: nat
    var showCursor: bool

    /** What is on screen is always the first `currentIndex` characters. */
    predicate Valid()
      reads this
    {
      currentIndex <= |text| && displayedText == text[..currentIndex]
    }

    predicate Typing()
      reads this
    {
      currentIndex < |text|
    }

    constructor(text: string)
      ensures Valid()
      ensures this.text == text && displayedText == "" && currentIndex == 0 && showCursor
    {
      this.text := text;
      displayedText := "";
      currentIndex := 0;
      showCursor := true;
    }

    /** One timer firing: while typing, append the next character and move
        on; afterwards flip the cursor. */
    method Tick()
      requires Valid()
      modifies this
      ensures Valid()
      ensures old(currentIndex) < |text| ==>
                displayedText == old(displayedText) + [text[old(currentIndex)]] &&
                currentIndex == old(currentIndex) + 1 && showCursor == old(showCursor)
      ensures old(currentIndex) >= |text| ==>
                displayedText == old(displayedText) && currentIndex == old(currentIndex) &&
                showCursor == !old(showCursor)
    {
      if currentIndex < |text| {
        displayedText := displayedText + [text[currentIndex]];
        currentIndex := currentIndex + 1;
      } else {
        showCursor := !showCursor;
      }
    }
  }

  /** Ticking until typing stops shows the whole text, with the cursor as
      it was: it only starts blinking afterwards. */
  method TypeAll(t: Typewriter)
    requires t.Valid()
    modifies t
    ensures t.Valid() && t.displayedText == t.text && t.currentIndex == |t.text|
    ensures t.showCursor == old(t.showCursor)
  {
    while t.Typing()
      invariant t.Valid() && t.showCursor == old(t.showCursor)
      decreases |t.text| - t.currentIndex
    {
      t.Tick();
    }
  }

  /** Once typing is over, two ticks bring the cursor back, and the text no
      longer changes. */
  method BlinkTwice(t: Typewriter)
    requires t.Valid() && !t.Typing()
    modifies t
    ensures t.Valid() && t.displayedText == t.text && t.showCursor == old(t.showCursor)
  {
    t.Tick();
    t.Tick();
  }

  /** The cursor shows exactly when `showCursor` is set. */
  function CursorOpacity(showCursor: bool): (percent: int)
    ensures percent == 100 <==> showCursor
    ensures percent == 0 <==> !showCursor
  {
    if showCursor then 100 else 0
  }
}
