/** Turning the webhook's reply into the list of captions `handleSubmit`
    shows (src/App.tsx, lines 37-58). The network call itself is not
    modelled: a reply is an abstract value carrying what the body reads
    would return. */
module Captions {

  import opened Wrappers
  import opened JsText
  import opened BlankLineSplit

  /** The callback of `filter`: `text.trim()` is a truthy (non-empty) string. */
  predicate Kept(text: string)
  {
    Trim(text) != []
  }

  /** `fragments.filter(text => text.trim())`: the fragments the callback
      keeps, in their original order. */
  function KeepVisible(fs: seq<string>): (r: seq<string>)
    ensures |r| <= |fs|
    ensures forall c :: c in r ==> !IsBlank(c)
  {
    if |fs| == 0 then []
    else if Kept(fs[0]) then [fs[0]] + KeepVisible(fs[1..])
    else KeepVisible(fs[1..])
  }

  /** The filter keeps exactly the fragments that are not blank. */
  lemma {:induction false} KeepVisibleMembers(fs: seq<string>)
    ensures forall c :: c in KeepVisible(fs) <==> c in fs && !IsBlank(c)
    decreases |fs|
  {
    if |fs| > 0 {
      KeepVisibleMembers(fs[1..]);
      assert fs == [fs[0]] + fs[1..];
    }
  }

  /** Filtering commutes with concatenation, so kept fragments stay in input order. */
  lemma {:induction false} KeepVisibleAppend(a: seq<string>, b: seq<string>)
    ensures KeepVisible(a + b) == KeepVisible(a) + KeepVisible(b)
    decreases |a|
  {
    if |a| > 0 {
      var ab := a + b;
      assert ab[0] == a[0] && ab[1..] == a[1..] + b;
      KeepVisibleAppend(a[1..], b);
      var tail := KeepVisible(a[1..]) + KeepVisible(b);
      if Kept(a[0]) {
        assert KeepVisible(ab) == [a[0]] + tail;
        assert KeepVisible(a) == [a[0]] + KeepVisible(a[1..]);
      } else {
        assert KeepVisible(ab) == tail;
      }
    } else {
      assert a + b == b;
    }
  }

  /** A caption as displayed: some character that is not white space, and no
      two consecutive line feeds. */
  predicate IsCaption(c: string)
  {
    !IsBlank(c) && NoBlankLine(c)
  }

  /** `text.split(/\n\n+/).filter(text => text.trim())`. */
  function CaptionsOf(text: string): (r: seq<string>)
    ensures |r| <= |Fragments(text)|
    ensures forall c :: c in r <==> c in Fragments(text) && !IsBlank(c)
  {
    KeepVisibleMembers(Fragments(text));
    KeepVisible(Fragments(text))
  }

  /** The captions of a text without separator: the text itself unless blank. */
  lemma CaptionsOfUnsplit(text: string)
    requires FirstSeparatorFrom(text, 0) == |text|
    ensures CaptionsOf(text) == if IsBlank(text) then [] else [text]
  {
    assert Fragments(text) == [text];
    KeepVisibleSingle(text);
  }

  /** The captions of a text whose leftmost separator spans `i` to `j`: those
      of the text before it, then those of the text after it. */
  lemma CaptionsStep(text: string, i: nat, j: nat)
    requires i == FirstSeparatorFrom(text, 0) < |text| && j == RunEnd(text, i)
    ensures i + 2 <= j
    ensures text == text[..i] + text[i..j] + text[j..] && IsSeparator(text[i..j])
    ensures CaptionsOf(text)
            == (if IsBlank(text[..i]) then [] else [text[..i]]) + CaptionsOf(text[j..])
  {
    SplitStep(text, i, j);
    KeepVisibleAppend([text[..i]], Fragments(text[j..]));
    KeepVisibleSingle(text[..i]);
  }

  /** Every extracted caption is visible text holding no blank line. */
  lemma {:induction false} CaptionsAreWellShaped(text: string)
    ensures forall c :: c in CaptionsOf(text) ==> IsCaption(c)
    decreases |text|
  {
    var i := FirstSeparatorFrom(text, 0);
    if i == |text| {
      CaptionsOfUnsplit(text);
      assert NoBlankLine(text);
    } else {
      var j := RunEnd(text, i);
      CaptionsStep(text, i, j);
      var head, tail := text[..i], CaptionsOf(text[j..]);
      CaptionsAreWellShaped(text[j..]);
      TextBeforeSeparator(text, i);
      var front := if IsBlank(head) then [] else [head];
      assert forall c :: c in front ==> IsCaption(c);
      assert CaptionsOf(text) == front + tail;
    }
  }

  /** The captions are the fragments of the split that are not blank, kept
      verbatim (not trimmed) and in order; with `SplitRebuildsInput`, the
      fragments are the input's pieces between maximal runs of line feeds. */
  lemma CaptionsAreVisibleFragments(text: string)
    ensures |Fragments(text)| == |Separators(text)| + 1
    ensures Weave(Fragments(text), Separators(text)) == text
    ensures forall c :: c in CaptionsOf(text) <==> c in Fragments(text) && !IsBlank(c)
  {
    SplitRebuildsInput(text);
    KeepVisibleMembers(Fragments(text));
  }

  /** One fragment is kept exactly when it is not blank. */
  lemma KeepVisibleSingle(c: string)
    ensures KeepVisible([c]) == if IsBlank(c) then [] else [c]
  {
    assert [c][1..] == [];
  }

  /** No caption comes out exactly when the text is white space only (the
      empty text included). */
  lemma {:induction false} CaptionsEmptyIffBlank(text: string)
    ensures CaptionsOf(text) == [] <==> IsBlank(text)
    decreases |text|
  {
    var i := FirstSeparatorFrom(text, 0);
    if i == |text| {
      CaptionsOfUnsplit(text);
    } else {
      var j := RunEnd(text, i);
      CaptionsStep(text, i, j);
      CaptionsEmptyIffBlank(text[j..]);
      BlankConcat(text[..i], text[i..j], text[j..]);
    }
  }

  /** A text cut around a separator is blank exactly when both sides are. */
  lemma BlankConcat(a: string, sep: string, b: string)
    requires IsSeparator(sep)
    ensures IsBlank(a + sep + b) <==> IsBlank(a) && IsBlank(b)
  {
    var s := a + sep + b;
    if IsBlank(s) {
      assert forall k :: 0 <= k < |a| ==> a[k] == s[k];
      assert forall k :: 0 <= k < |b| ==> b[k] == s[|a| + |sep| + k];
    }
  }

  /** The worked example: one blank line separates two captions. */
  lemma TwoCaptionExample()
    ensures CaptionsOf("Great morning coffee." + "\n\n" + "Start your day right.")
            == ["Great morning coffee.", "Start your day right."]
  {
    var a, b := "Great morning coffee.", "Start your day right.";
    var s := a + "\n\n" + b;
    assert Weave([a, b], ["\n\n"]) == s;
    assert NoBlankLine(a) by {
      forall k | 0 <= k < |a| ensures !SeparatorAt(a, k) { assert a[k] != '\n'; }
    }
    assert NoBlankLine(b) by {
      forall k | 0 <= k < |b| ensures !SeparatorAt(b, k) { assert b[k] != '\n'; }
    }
    assert WellFormedSplit([a, b], ["\n\n"]);
    SplitIsUnique(s, [a, b], ["\n\n"]);
    assert !IsJsWhitespace(a[0]) && !IsJsWhitespace(b[0]);
    KeepVisibleSingle(a);
    KeepVisibleSingle(b);
    KeepVisibleAppend([a], [b]);
    assert [a, b] == [a] + [b];
    assert CaptionsOf(s) == [a, b];
  }

  /** A line that holds spaces does not separate captions, and the kept
      caption is not trimmed. */
  lemma SpacedLineExample()
    ensures CaptionsOf(" a\n \nb") == [" a\n \nb"]
  {
    var s := " a\n \nb";
    assert NoBlankLine(s) by {
      forall k | 0 <= k < |s| ensures !SeparatorAt(s, k) {
        assert s[k] != '\n' || s[k + 1] != '\n';
      }
    }
    FirstSeparatorUnique(s, |s|);
    assert !IsBlank(s) by { assert !IsJsWhitespace(s[1]); }
    CaptionsOfUnsplit(s);
  }

  /** Windows line endings do not separate captions: between the two line
      feeds of `"\r\n\r\n"` stands a carriage return. */
  lemma CrLfExample()
    ensures CaptionsOf("a\r\n\r\nb") == ["a\r\n\r\nb"]
  {
    var s := "a\r\n\r\nb";
    assert NoBlankLine(s) by {
      forall k | 0 <= k < |s| ensures !SeparatorAt(s, k) {
        assert s[k] != '\n' || s[k + 1] != '\n';
      }
    }
    FirstSeparatorUnique(s, |s|);
    assert !IsBlank(s) by { assert !IsJsWhitespace(s[0]); }
    CaptionsOfUnsplit(s);
  }

  /** The response as the component sees it. `Thrown` is a rejected `fetch`
      or body read; otherwise `ok` is `response.ok`, `contentType` the
      `content-type` header, `jsonText` the `text` field `response.json()`
      yields and `bodyText` what `response.text()` yields. Only the reading
      the content type selects is used. */
  datatype Response =
    | Thrown
    | Received(ok: bool, contentType: Option<string>, jsonText: Option<string>, bodyText: string)

  /** Why a submission failed. The user sees one message for all of them;
      the kind reaches only the `console.error` log. */
  datatype GenerationError =
    | RequestFailed   // 'Failed to generate caption': the status was not ok
    | NoCaptions      // 'No captions generated': nothing survived the filter
    | Threw           // the request or a body read rejected

  /** `contentType && contentType.includes('application/json')`. */
  predicate IsJsonContentType(contentType: Option<string>)
    ensures IsJsonContentType(contentType) <==>
      contentType.Some? && exists i :: OccursAt(contentType.value, "application/json", i)
  {
    contentType.Some? && Includes(contentType.value, "application/json")
  }

  /** A JSON header with parameters still selects the `text` field; a plain
      text header or no header selects the body. */
  lemma JsonContentTypeExamples()
    ensures IsJsonContentType(Some("application/json; charset=utf-8"))
    ensures !IsJsonContentType(Some("text/plain")) && !IsJsonContentType(None)
  {
    assert OccursAt("application/json; charset=utf-8", "application/json", 0);
  }

  /** The captions of an ok reply: the JSON `text` field when the content
      type says JSON (no captions when it is absent or empty), else the
      whole body text. */
  function ExtractCaptions(contentType: Option<string>, jsonText: Option<string>, bodyText: string): (r: seq<string>)
    ensures r == CaptionsOf(SourceText(contentType, jsonText, bodyText))
    ensures r == [] <==> IsBlank(SourceText(contentType, jsonText, bodyText))
  {
    CaptionsEmptyIffBlank(SourceText(contentType, jsonText, bodyText));
    CaptionsOfUnsplit([]);
    if IsJsonContentType(contentType) then
      if jsonText.Some? && jsonText.value != [] then CaptionsOf(jsonText.value) else []
    else CaptionsOf(bodyText)
  }

  /** The text an ok reply's captions are cut from: `data.text` or the body. */
  function SourceText(contentType: Option<string>, jsonText: Option<string>, bodyText: string): string
  {
    if IsJsonContentType(contentType) then
      if jsonText.Some? then jsonText.value else []
    else bodyText
  }

  /** The outcome of the try block of `handleSubmit`: the caption list, or
      the error it throws. */
  function Generate(r: Response): (res: Result<seq<string>, GenerationError>)
    ensures res.Success? ==> |res.value| > 0
    ensures res.Success? ==> forall k :: 0 <= k < |res.value| ==> IsCaption(res.value[k])
    ensures r.Thrown? ==> res == Failure(Threw)
    ensures r.Received? && !r.ok ==> res == Failure(RequestFailed)
    ensures r.Received? && r.ok ==>
      (res.Success? <==> !IsBlank(SourceText(r.contentType, r.jsonText, r.bodyText)))
    ensures r.Received? && r.ok && IsBlank(SourceText(r.contentType, r.jsonText, r.bodyText)) ==>
      res == Failure(NoCaptions)
    ensures res.Success? ==> res.value == CaptionsOf(SourceText(r.contentType, r.jsonText, r.bodyText))
  {
    match r
    case Thrown => Failure(Threw)
    case Received(ok, contentType, jsonText, bodyText) =>
      if !ok then Failure(RequestFailed)
      else
        var caps := ExtractCaptions(contentType, jsonText, bodyText);
        var text := SourceText(contentType, jsonText, bodyText);
        CaptionsEmptyIffBlank(text);
        CaptionsAreWellShaped(text);
        if |caps| == 0 then Failure(NoCaptions) else Success(caps)
  }

  /** A JSON reply whose `text` is absent or empty yields no captions. */
  lemma EmptyJsonTextFails(contentType: Option<string>, jsonText: Option<string>, bodyText: string)
    requires IsJsonContentType(contentType)
    requires jsonText == None || jsonText == Some([])
    ensures Generate(Received(true, contentType, jsonText, bodyText)) == Failure(NoCaptions)
  {
  }

  /** A whitespace-only reply body fails the submission. */
  lemma BlankBodyExample()
    ensures Generate(Received(true, None, None, "   \n\n\n")) == Failure(NoCaptions)
  {
    var s := "   \n\n\n";
    assert IsBlank(s);
    CaptionsEmptyIffBlank(s);
  }

  /** The worked example end to end: a plain-text reply holding two captions
      separated by one blank line. */
  lemma TwoCaptionReply()
    ensures Generate(Received(true, None, None, "Great morning coffee." + "\n\n" + "Start your day right."))
            == Success(["Great morning coffee.", "Start your day right."])
  {
    var a, b := "Great morning coffee.", "Start your day right.";
    var text := a + "\n\n" + b;
    assert SourceText(None, None, text) == text;
    assert !IsBlank(text) by { assert !IsJsWhitespace(text[0]); }
    TwoCaptionExample();
  }
}
