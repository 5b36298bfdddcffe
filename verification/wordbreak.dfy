/**
 * The word-boundary scanner of text/segment/word.go.
 *
 * A WordBreaker remembers the word-break property of the last rune it saw and,
 * for each new rune, answers whether a boundary may come before it. Only two
 * rules of the Unicode word-boundary algorithm (Unicode Standard Annex #29,
 * section 4.1.1) are implemented by the code: WB3 (CR x LF) and WB3a (break
 * after Newline, CR or LF). Every other pair gets the Go zero value `false`.
 */
module WordBreak {

  /** The word-break properties named in the generated property table. The
      table's zero value (the property of an unclassified rune, and the state of
      a fresh breaker) is Other. */
  datatype WbProp =
    | Other | CR | LF | Newline | ZWJ | WSegSpace | Extend | Format
    | ALetter | HebrewLetter | MidLetter | MidNum | SingleQuote
    | DoubleQuote | Numeric | Katakana | ExtendNumLet | RegionalIndicator

  /** True for the three line-ending properties that rule WB3a breaks after. */
  predicate IsLineEnd(p: WbProp) {
    p == Newline || p == CR || p == LF
  }

  /** The decision ProcessRune makes for a rune of property `prop` when the
      previous rune had property `last`: WB3 first, then WB3a, else no break. */
  function BreakBefore(last: WbProp, prop: WbProp): bool {
    if prop == LF && last == CR then false      // WB3
    else if IsLineEnd(last) then true           // WB3a
    else false                                  // rules WB3b..WB999 are not implemented
  }

  /** WB3: no break between CR and LF. */
  lemma CrLfNeverBreaks(last: WbProp, prop: WbProp)
    requires last == CR && prop == LF
    ensures !BreakBefore(last, prop)
  {
  }

  /** WB3a: a break after every line ending, except inside CR LF. */
  lemma BreakAfterLineEnd(last: WbProp, prop: WbProp)
    requires IsLineEnd(last) && !(last == CR && prop == LF)
    ensures BreakBefore(last, prop)
  {
  }

  /** Both directions: a break is reported exactly when the previous rune was a
      line ending and the pair is not CR LF; nothing else ever breaks. */
  lemma BreakIffAfterLineEnd(last: WbProp, prop: WbProp)
    ensures BreakBefore(last, prop) <==> IsLineEnd(last) && !(last == CR && prop == LF)
  {
  }

  /** A fresh breaker (state Other) never reports a break for its first rune. */
  lemma FirstRuneNeverBreaks(prop: WbProp)
    ensures !BreakBefore(Other, prop)
  {
  }

  /** For "\r\n" followed by any rune: no break between CR and LF, and a break
      before the rune that follows. */
  lemma CrLfThenAny(next: WbProp)
    ensures !BreakBefore(CR, LF)
    ensures BreakBefore(LF, next)
  {
  }

  /** The scanner. `classify` stands for the generated lookup wbPropForRune,
      which is not part of this model: any total function will do. */
  class WordBreaker {
    var lastProp: WbProp
    const classify: char -> WbProp

    /** The zero-valued breaker `var wb WordBreaker`. */
    constructor (classify: char -> WbProp)
      ensures lastProp == Other && this.classify == classify
    {
      this.classify := classify;
      lastProp := Other;
    }

    /** Classifies `r`, decides whether a boundary may come before it, and
        remembers its property (no Extend/Format/ZWJ skipping). */
    method ProcessRune(r: char) returns (canBreakBefore: bool)
      modifies this
      ensures lastProp == classify(r)
      ensures canBreakBefore == BreakBefore(old(lastProp), classify(r))
      ensures canBreakBefore <==> IsLineEnd(old(lastProp)) && !(old(lastProp) == CR && classify(r) == LF)
    {
      var prop := classify(r);
      canBreakBefore := false;
      if prop == LF && lastProp == CR {
        canBreakBefore := false;
      } else if lastProp == Newline || lastProp == CR || lastProp == LF {
        canBreakBefore := true;
      }
      lastProp := prop;
    }
  }

  /** Two breakers in the same state, fed the same rune, give the same answer
      and end in the same state. */
  method ProcessRuneIsDeterministic(a: WordBreaker, b: WordBreaker, r: char)
      returns (x: bool, y: bool)
    requires a != b && a.classify == b.classify && a.lastProp == b.lastProp
    modifies a, b
    ensures x == y && a.lastProp == b.lastProp
  {
    x := a.ProcessRune(r);
    y := b.ProcessRune(r);
  }

  /** Feeding "\r\n" and then any rune to a breaker in any state: no break
      before the LF, a break before the rune after it. */
  method CrLfThenAnyRune(wb: WordBreaker, next: char) returns (beforeLf: bool, beforeNext: bool)
    requires wb.classify('\r') == CR && wb.classify('\n') == LF
    modifies wb
    ensures !beforeLf && beforeNext
    ensures wb.lastProp == wb.classify(next)
  {
    var _ := wb.ProcessRune('\r');
    beforeLf := wb.ProcessRune('\n');
    beforeNext := wb.ProcessRune(next);
  }
}
