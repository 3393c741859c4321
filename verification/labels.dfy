/** The text the component renders from its state (src/App.tsx, lines
    136-189): the submit button, the error banner and one card per caption. */
module Labels {

  import opened Wrappers
  import opened JsText
  import opened Captions
  import opened AppState

  predicate IsDigit(c: char)
  {
    '0' <= c <= '9'
  }

  predicate AllDigits(s: string)
  {
    forall k :: 0 <= k < |s| ==> IsDigit(s[k])
  }

  function DigitChar(d: nat): (c: char)
    requires d < 10
    ensures IsDigit(c) && c as int - '0' as int == d
  {
    (d + '0' as int) as char
  }

  /** A non-negative integer as a template literal prints it: decimal,
      without leading zeros. */
  function Decimal(n: nat): (r: string)
    ensures |r| >= 1 && AllDigits(r)
    ensures r[0] == '0' ==> n == 0 && r == "0"
    decreases n
  {
    if n < 10 then [DigitChar(n)] else Decimal(n / 10) + [DigitChar(n % 10)]
  }

  /** The number a string of decimal digits denotes. */
  function DecimalValue(s: string): nat
    requires AllDigits(s)
    decreases |s|
  {
    if |s| == 0 then 0
    else DecimalValue(s[..|s| - 1]) * 10 + (s[|s| - 1] as int - '0' as int)
  }

  /** Reading back the printed number gives the number. */
  lemma {:induction false} DecimalRoundTrip(n: nat)
    ensures DecimalValue(Decimal(n)) == n
    decreases n
  {
    if n >= 10 {
      var r := Decimal(n);
      assert r[..|r| - 1] == Decimal(n / 10);
      DecimalRoundTrip(n / 10);
    }
  }

  /** The sparkle emoji that opens every card heading. */
  const Sparkle: char := '\U{2728}'

  /** The heading text common to every card, trailing space included. */
  const HeadingStem: string := [Sparkle] + " Caption "

  /** Line 168: `✨ Caption ` followed by `#k` (1-based) when there is more
      than one caption. */
  function CardHeading(total: nat, index: nat): (h: string)
    ensures |h| >= |HeadingStem| && h[..|HeadingStem|] == HeadingStem
    ensures h == HeadingStem <==> total <= 1
  {
    HeadingStem + (if total > 1 then "#" + Decimal(index + 1) else "")
  }

  /** A lone caption is unnumbered; among several, the number after the `#`
      reads back as the card's 1-based position. */
  lemma CardHeadingNumbers(total: nat, index: nat)
    ensures total <= 1 ==> CardHeading(total, index) == HeadingStem
    ensures total > 1 ==>
      var h := CardHeading(total, index);
      && |h| > |HeadingStem| + 1
      && h[..|HeadingStem|] == HeadingStem && h[|HeadingStem|] == '#'
      && AllDigits(h[|HeadingStem| + 1..])
      && DecimalValue(h[|HeadingStem| + 1..]) == index + 1
  {
    if total > 1 {
      var h := CardHeading(total, index);
      assert h[|HeadingStem| + 1..] == Decimal(index + 1);
      DecimalRoundTrip(index + 1);
    }
  }

  /** Among several captions no two cards share a heading. */
  lemma CardHeadingsDistinct(total: nat, i: nat, j: nat)
    requires total > 1 && i != j
    ensures CardHeading(total, i) != CardHeading(total, j)
  {
    CardHeadingNumbers(total, i);
    CardHeadingNumbers(total, j);
  }

  /** Line 146: plural exactly when more than one caption was asked for. */
  function SubmitLabel(count: int): (r: string)
    ensures r == "Generate Captions" <==> count > 1
    ensures r == "Generate Caption" <==> count <= 1
  {
    "Generate Caption" + (if count > 1 then "s" else "")
  }

  /** The submit button shows a spinner while loading, else its label. */
  datatype ButtonFace = Spinner | Label(text: string)

  datatype Card = Card(heading: string, text: string, copied: bool)

  datatype View = View(button: ButtonFace, disabled: bool, alert: Option<string>, cards: seq<Card>)

  function CardsOf(s: UiState): (cards: seq<Card>)
    ensures |cards| == |s.captions|
    ensures forall k :: 0 <= k < |cards| ==>
      cards[k].text == s.captions[k] && (cards[k].copied <==> s.copiedIndex == Some(k))
  {
    var n := |s.captions|;
    seq(n, k requires 0 <= k < n => Card(CardHeading(n, k), s.captions[k], s.copiedIndex == Some(k)))
  }

  /** Lines 136-189 reduced to their text: the button, the banner shown when
      `error` is non-empty, and the cards shown when there are captions. */
  function Render(s: UiState, count: int): (v: View)
    ensures v.disabled == s.isLoading && (v.button == Spinner <==> s.isLoading)
    ensures v.alert.Some? <==> s.error != []
    ensures |v.cards| == |s.captions|
  {
    View(
      if s.isLoading then Spinner else Label(SubmitLabel(count)),
      s.isLoading,
      if s.error != [] then Some(s.error) else None,
      if |s.captions| > 0 then CardsOf(s) else [])
  }

  /** What the page shows for a consistent state: one card per caption, in
      order and verbatim; at most one card marked copied; never both a banner
      and cards; nothing but the spinner while loading. */
  lemma RenderShows(s: UiState, count: int)
    requires Consistent(s)
    ensures var v := Render(s, count);
      && |v.cards| == |s.captions|
      && (forall k :: 0 <= k < |v.cards| ==> v.cards[k].text == s.captions[k] && IsCaption(v.cards[k].text))
      && (forall k, m :: 0 <= k < m < |v.cards| ==> !(v.cards[k].copied && v.cards[m].copied))
      && (forall k :: 0 <= k < |v.cards| ==> (v.cards[k].copied <==> s.copiedIndex == Some(k)))
      && !(v.alert.Some? && |v.cards| > 0)
      && (v.alert.Some? ==> v.alert.value == FailureMessage)
      && (s.isLoading ==> v.button == Spinner && v.disabled && v.alert == None && v.cards == [])
  {
  }

  /** The button label follows the requested count, not the number of
      captions that came back. */
  lemma LabelIgnoresResults(s: UiState, t: UiState, count: int)
    requires !s.isLoading && !t.isLoading
    ensures Render(s, count).button == Render(t, count).button == Label(SubmitLabel(count))
  {
  }

  /** An ok reply whose selected text is not blank shows one card per
      caption of that text, in order, headed as line 168 says, none marked
      copied, and no banner. */
  lemma SuccessRenders(s: UiState, r: Response, count: int)
    requires r.Received? && r.ok && !IsBlank(SourceText(r.contentType, r.jsonText, r.bodyText))
    ensures var caps := CaptionsOf(SourceText(r.contentType, r.jsonText, r.bodyText));
      var v := Render(HandleSubmit(s, r), count);
      && v.alert == None && v.button == Label(SubmitLabel(count)) && !v.disabled
      && |v.cards| == |caps| > 0
      && forall k :: 0 <= k < |caps| ==> v.cards[k] == Card(CardHeading(|caps|, k), caps[k], false)
  {
  }

  /** A failed reply shows the fixed message and no card. */
  lemma FailureRenders(s: UiState, r: Response, count: int)
    requires Generate(r).Failure?
    ensures var v := Render(HandleSubmit(s, r), count);
      && v.alert == Some(FailureMessage) && v.cards == [] && !v.disabled
  {
  }
}
