/** The JavaScript string primitives the component relies on:
    `String.prototype.trim` (section 22.1.3.32 of ECMA-262, 2024 edition) and
    `String.prototype.includes`. Strings are sequences of Unicode scalar values. */
module JsText {

  /** The characters `trim` removes: the WhiteSpace and LineTerminator code
      points of sections 12.2 and 12.3 of ECMA-262, 2024 edition (every `Zs` space included). */
  predicate IsJsWhitespace(c: char)
  {
    || c == '\t' || c == '\U{000B}' || c == '\U{000C}' || c == ' '
    || c == '\U{00A0}' || c == '\U{FEFF}'
    || c == '\n' || c == '\r' || c == '\U{2028}' || c == '\U{2029}'
    || c == '\U{1680}' || ('\U{2000}' <= c <= '\U{200A}')
    || c == '\U{202F}' || c == '\U{205F}' || c == '\U{3000}'
  }

  /** Every character of `s` is white space (the empty string included). */
  predicate IsBlank(s: string)
  {
    forall k :: 0 <= k < |s| ==> IsJsWhitespace(s[k])
  }

  /** `s.trimStart()`: the longest suffix of `s` that does not start with white space. */
  function TrimStart(s: string): (r: string)
    ensures |r| <= |s| && r == s[|s| - |r|..]
    ensures forall k :: 0 <= k < |s| - |r| ==> IsJsWhitespace(s[k])
    ensures r == [] || !IsJsWhitespace(r[0])
  {
    if |s| > 0 && IsJsWhitespace(s[0]) then TrimStart(s[1..]) else s
  }

  /** `s.trimEnd()`: the longest prefix of `s` that does not end with white space. */
  function TrimEnd(s: string): (r: string)
    ensures |r| <= |s| && r == s[..|r|]
    ensures forall k :: |r| <= k < |s| ==> IsJsWhitespace(s[k])
    ensures r == [] || !IsJsWhitespace(r[|r| - 1])
  {
    if |s| > 0 && IsJsWhitespace(s[|s| - 1]) then TrimEnd(s[..|s| - 1]) else s
  }

  /** `s.trim()`: white space removed from both ends. It is truthy (non-empty)
      exactly when `s` holds a character that is not white space. */
  function Trim(s: string): (r: string)
    ensures r == [] <==> IsBlank(s)
  {
    var t := TrimStart(s);
    var r := TrimEnd(t);
    if r == [] then r
    else
      assert s[|s| - |t|] == r[0];
      r
  }

  /** `r` is `s` with a blank prefix of length `a` and a blank suffix removed. */
  predicate TrimmedAt(s: string, r: string, a: int)
  {
    0 <= a <= a + |r| <= |s| && r == s[a..a + |r|] && IsBlank(s[..a]) && IsBlank(s[a + |r|..])
  }

  /** What `trim` removes is white space at the two ends, and what it keeps
      is the middle of `s`, unchanged, starting and ending with something else. */
  lemma TrimKeepsMiddle(s: string)
    ensures exists a :: TrimmedAt(s, Trim(s), a)
    ensures Trim(s) == [] || (!IsJsWhitespace(Trim(s)[0]) && !IsJsWhitespace(Trim(s)[|Trim(s)| - 1]))
  {
    var t := TrimStart(s);
    var r := TrimEnd(t);
    var a := |s| - |t|;
    assert Trim(s) == r;
    assert s[a..a + |r|] == r;
    var tail := s[a + |r|..];
    assert tail == t[|r|..];
    forall k | 0 <= k < |tail| ensures IsJsWhitespace(tail[k]) {
      assert tail[k] == t[|r| + k];
    }
    assert TrimmedAt(s, r, a);
  }

  /** `needle` occurs in `hay` starting at position `i`. */
  predicate OccursAt(hay: string, needle: string, i: int)
  {
    0 <= i <= |hay| - |needle| && hay[i..i + |needle|] == needle
  }

  /** An occurrence past the first position is an occurrence in the tail. */
  lemma OccursShift(hay: string, needle: string, i: int)
    requires |hay| > 0 && i != 0
    ensures OccursAt(hay, needle, i) <==> OccursAt(hay[1..], needle, i - 1)
  {
    if 1 <= i <= |hay| - |needle| {
      var w := hay[1..][i - 1..i - 1 + |needle|];
      assert forall k :: 0 <= k < |needle| ==> w[k] == hay[i + k];
      assert hay[i..i + |needle|] == w;
    }
  }

  /** `hay.includes(needle)`: `needle` occurs in `hay` at some position. */
  function Includes(hay: string, needle: string): (b: bool)
    ensures b <==> exists i :: OccursAt(hay, needle, i)
    decreases |hay|
  {
    if |needle| > |hay| then false
    else if hay[..|needle|] == needle then assert OccursAt(hay, needle, 0); true
    else
      var b := Includes(hay[1..], needle);
      if b then
        var j :| OccursAt(hay[1..], needle, j);
        OccursShift(hay, needle, j + 1);
        b
      else
        assert forall i :: !OccursAt(hay, needle, i) by {
          forall i ensures !OccursAt(hay, needle, i) {
            if i != 0 { OccursShift(hay, needle, i); }
          }
        }
        b
  }
}
