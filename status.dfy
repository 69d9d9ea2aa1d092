/** `normalize_status`: free-text status from the lookup page's result
    table, classified as not blocked, blocked or unknown, with a display
    glyph and a label. */
module Status {
  import opened Text

  /** The three display glyphs: U+26AA MEDIUM WHITE CIRCLE, U+1F7E2 LARGE
      GREEN CIRCLE and U+1F534 LARGE RED CIRCLE. */
  datatype Glyph = White | Green | Red

  /** Each glyph is written as one character. */
  function GlyphText(g: Glyph): (s: string)
    ensures |s| == 1 && '\n' !in s
  {
    match g
    case White => "\U{26AA}"
    case Green => "\U{1F7E2}"
    case Red => "\U{1F534}"
  }

  /** Different glyphs are written differently, so the report line tells
      the three outcomes apart. */
  lemma GlyphsDistinct(g: Glyph, h: Glyph)
    ensures GlyphText(g) == GlyphText(h) <==> g == h
  {
  }

  /** The pair `(emoji, label)` that `normalize_status` returns. */
  datatype Verdict = Verdict(glyph: Glyph, caption: string)

  /** The not-blocked phrases, tested on lower-cased text. */
  predicate SaysNotBlocked(t: string) {
    Contains(t, "aman") || Contains(t, "tidak terblokir") || Contains(t, "not blocked")
  }

  /** The blocked phrases, tested on lower-cased text. */
  predicate SaysBlocked(t: string) {
    Contains(t, "nawala") || Contains(t, "terblokir") || Contains(t, "blocked")
  }

  /** `normalize_status`: strip and lower-case the text, then test, in this
      order, for nothing left, for a not-blocked phrase and for a blocked
      phrase; anything else is shown as its own stripped text. */
  function NormalizeStatus(statusText: string): (v: Verdict)
    ensures v.caption != []
    ensures v.caption == "Unknown" || v.caption == "Not Blocked" || v.caption == "Blocked" || v.caption == Strip(statusText)
  {
    var t := Lower(Strip(statusText));
    if t == [] then Verdict(White, "Unknown")
    else if SaysNotBlocked(t) then Verdict(Green, "Not Blocked")
    else if SaysBlocked(t) then Verdict(Red, "Blocked")
    else
      var shown := Strip(statusText);
      Verdict(White, if shown != [] then shown else "Unknown")
  }

  /** A character that is in neither the text nor the fixed labels is not
      in the label either. */
  lemma CaptionKeepsOut(statusText: string, c: char)
    requires c !in statusText && c !in "Unknown" && c !in "Not Blocked" && c !in "Blocked"
    ensures c !in NormalizeStatus(statusText).caption
  {
    StripKeepsOut(statusText, c);
  }

  /** The label holds a newline only when the text holds no phrase of
      either family and keeps a newline after stripping. */
  lemma CaptionNewline(statusText: string)
    requires '\n' in NormalizeStatus(statusText).caption
    ensures !NotBlockedText(statusText) && !BlockedText(statusText)
    ensures '\n' in Strip(statusText)
  {
    TestsIgnoreStrip(statusText);
  }

  /** A not-blocked phrase appears in the text, ignoring case. */
  predicate NotBlockedText(text: string) {
    SaysNotBlocked(Lower(text))
  }

  /** A blocked phrase appears in the text, ignoring case. */
  predicate BlockedText(text: string) {
    SaysBlocked(Lower(text))
  }

  /** Stripping before the phrase tests changes none of their answers, and
      nothing is left to test exactly when the text is whitespace only. */
  lemma TestsIgnoreStrip(text: string)
    ensures SaysNotBlocked(Lower(Strip(text))) <==> NotBlockedText(text)
    ensures SaysBlocked(Lower(Strip(text))) <==> BlockedText(text)
    ensures Lower(Strip(text)) == [] <==> AllSpace(text)
  {
    ContainsLowerStrip(text, "aman");
    ContainsLowerStrip(text, "tidak terblokir");
    ContainsLowerStrip(text, "not blocked");
    ContainsLowerStrip(text, "nawala");
    ContainsLowerStrip(text, "terblokir");
    ContainsLowerStrip(text, "blocked");
    StripEmpty(text);
  }

  /** Empty or whitespace-only text is Unknown. */
  lemma BlankIsUnknown(text: string)
    requires AllSpace(text)
    ensures NormalizeStatus(text) == Verdict(White, "Unknown")
  {
    TestsIgnoreStrip(text);
  }

  /** Text with a not-blocked phrase in it, in any case, is Not Blocked,
      whatever blocked phrase it also holds. */
  lemma NotBlockedWins(text: string)
    requires NotBlockedText(text)
    ensures NormalizeStatus(text) == Verdict(Green, "Not Blocked")
  {
    TestsIgnoreStrip(text);
  }

  /** Text with a blocked phrase and no not-blocked phrase, in any case, is
      Blocked. */
  lemma BlockedOtherwise(text: string)
    requires !NotBlockedText(text) && BlockedText(text)
    ensures NormalizeStatus(text) == Verdict(Red, "Blocked")
  {
    TestsIgnoreStrip(text);
  }

  /** Text that is not blank and holds no phrase of either family keeps
      the white glyph and is shown as itself, stripped, case preserved;
      that label is never empty. */
  lemma UnrecognisedShownVerbatim(text: string)
    requires !AllSpace(text) && !NotBlockedText(text) && !BlockedText(text)
    ensures NormalizeStatus(text) == Verdict(White, Strip(text))
    ensures Strip(text) != []
  {
    TestsIgnoreStrip(text);
  }

  /** The glyph alone tells which family of phrases the text holds. */
  lemma GlyphIff(text: string)
    ensures NormalizeStatus(text).glyph == Green <==> NotBlockedText(text)
    ensures NormalizeStatus(text).glyph == Red <==> !NotBlockedText(text) && BlockedText(text)
    ensures NormalizeStatus(text).glyph == White <==> !NotBlockedText(text) && !BlockedText(text)
  {
    TestsIgnoreStrip(text);
    if AllSpace(text) {
      ContainsLowerStrip(text, "aman");
    }
  }

  /** The order of the tests matters: "not blocked" holds "blocked" and
      "tidak terblokir" holds "terblokir", so such text also matches the
      blocked family, yet it is classified Not Blocked. */
  lemma PhrasesOverlap(text: string)
    requires Contains(Lower(text), "not blocked") || Contains(Lower(text), "tidak terblokir")
    ensures BlockedText(text)
    ensures NormalizeStatus(text).glyph == Green
  {
    var t := Lower(text);
    if Contains(t, "not blocked") {
      ContainsInner(t, "not blocked", "blocked", 4);
    } else {
      ContainsInner(t, "tidak terblokir", "terblokir", 6);
    }
    NotBlockedWins(text);
  }

  /** "Unknown" holds no phrase of either family, in any case. */
  lemma UnknownHasNoPhrase()
    ensures !NotBlockedText("Unknown") && !BlockedText("Unknown")
  {
    var t := Lower("Unknown");
    assert t == "unknown";
    MissingChar(t, "aman", 'a');
    MissingChar(t, "tidak terblokir", 't');
    MissingChar(t, "not blocked", 'b');
    MissingChar(t, "nawala", 'a');
    MissingChar(t, "terblokir", 't');
    MissingChar(t, "blocked", 'b');
  }

  /** The status a domain gets when the result table has no row for it,
      "Unknown", is shown with the white glyph and the label "Unknown". */
  lemma DefaultIsUnknown()
    ensures NormalizeStatus("Unknown") == Verdict(White, "Unknown")
  {
    assert Stripped("Unknown");
    StripStripped("Unknown");
    UnknownHasNoPhrase();
  }
}
