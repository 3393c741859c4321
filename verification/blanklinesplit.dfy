/** `text.split(/\n\n+/)`: a string cut at every run of two or more line
    feeds, the runs found leftmost-first and matched greedily, the runs
    themselves dropped. Only U+000A counts: a line holding spaces, or a
    carriage return, does not separate anything. */
module BlankLineSplit {

  import opened Wrappers

  /** A match of `\n\n+` can start at position `i` of `s`. */
  predicate SeparatorAt(s: string, i: int)
  {
    0 <= i && i + 1 < |s| && s[i] == '\n' && s[i + 1] == '\n'
  }

  /** `s` never holds two consecutive line feeds. */
  predicate NoBlankLine(s: string)
  {
    forall i :: 0 <= i < |s| ==> !SeparatorAt(s, i)
  }

  /** A separator as the pattern matches it: two or more line feeds. */
  predicate IsSeparator(sep: string)
  {
    |sep| >= 2 && forall k :: 0 <= k < |sep| ==> sep[k] == '\n'
  }

  /** The leftmost position at or after `k` where a separator starts, or `|s|`. */
  function FirstSeparatorFrom(s: string, k: nat): (r: nat)
    requires k <= |s|
    ensures k <= r <= |s|
    ensures r < |s| ==> SeparatorAt(s, r)
    ensures forall i :: k <= i < r ==> !SeparatorAt(s, i)
    decreases |s| - k
  {
    if k == |s| || SeparatorAt(s, k) then k else FirstSeparatorFrom(s, k + 1)
  }

  /** Where a greedy run of line feeds starting at `k` ends. */
  function RunEnd(s: string, k: nat): (r: nat)
    requires k <= |s|
    ensures k <= r <= |s|
    ensures forall i :: k <= i < r ==> s[i] == '\n'
    ensures r < |s| ==> s[r] != '\n'
    decreases |s| - k
  {
    if k < |s| && s[k] == '\n' then RunEnd(s, k + 1) else k
  }

  /** The pieces `s.split(/\n\n+/)` returns: the text before the leftmost
      separator, then the pieces of what follows the greedy run. */
  function Fragments(s: string): (r: seq<string>)
    ensures |r| >= 1
    decreases |s|
  {
    var i := FirstSeparatorFrom(s, 0);
    if i == |s| then [s]
    else
      var j := RunEnd(s, i);
      assert s[i] == '\n' && s[i + 1] == '\n';
      [s[..i]] + Fragments(s[j..])
  }

  /** The text comes back whole, as a single piece, exactly when it holds no
      two consecutive line feeds. */
  lemma FragmentsWhole(s: string)
    ensures Fragments(s) == [s] <==> NoBlankLine(s)
  {
    var i := FirstSeparatorFrom(s, 0);
    if i < |s| {
      assert SeparatorAt(s, i);
      var j := RunEnd(s, i);
      assert |Fragments(s)| == 1 + |Fragments(s[j..])|;
    }
  }

  /** The separator runs the split consumes, in order. */
  function Separators(s: string): (r: seq<string>)
    decreases |s|
  {
    var i := FirstSeparatorFrom(s, 0);
    if i == |s| then []
    else
      var j := RunEnd(s, i);
      assert s[i] == '\n' && s[i + 1] == '\n';
      [s[i..j]] + Separators(s[j..])
  }

  /** Fragments and separators put back together, alternately. */
  function Weave(frags: seq<string>, seps: seq<string>): string
    requires |frags| == |seps| + 1
    decreases |seps|
  {
    if |seps| == 0 then frags[0] else frags[0] + seps[0] + Weave(frags[1..], seps[1..])
  }

  predicate EndsWithNewline(s: string)
  {
    |s| > 0 && s[|s| - 1] == '\n'
  }

  predicate StartsWithNewline(s: string)
  {
    |s| > 0 && s[0] == '\n'
  }

  /** What makes `frags`/`seps` the leftmost-greedy split of their weave:
      every separator is a maximal line-feed run (nothing before it or after
      it is a line feed, and two separators never touch), and no fragment
      still holds a separator. */
  ghost predicate WellFormedSplit(frags: seq<string>, seps: seq<string>)
  {
    && |frags| == |seps| + 1
    && (forall j :: 0 <= j < |seps| ==> IsSeparator(seps[j]))
    && (forall j :: 0 <= j < |frags| ==> NoBlankLine(frags[j]))
    && (forall j :: 0 <= j < |seps| ==> !EndsWithNewline(frags[j]))
    && (forall j :: 1 <= j < |frags| ==> !StartsWithNewline(frags[j]))
    && (forall j :: 1 <= j < |seps| ==> frags[j] != [])
  }

  /** The leftmost separator is unique: any `r` with no separator before it
      and one at it (or at the end) is the one `FirstSeparatorFrom` finds. */
  lemma FirstSeparatorUnique(s: string, r: nat)
    requires r <= |s|
    requires forall i :: 0 <= i < r ==> !SeparatorAt(s, i)
    requires r < |s| ==> SeparatorAt(s, r)
    ensures FirstSeparatorFrom(s, 0) == r
  {
  }

  /** Likewise the end of a greedy line-feed run is unique. */
  lemma RunEndUnique(s: string, k: nat, r: nat)
    requires k <= r <= |s|
    requires forall i :: k <= i < r ==> s[i] == '\n'
    requires r < |s| ==> s[r] != '\n'
    ensures RunEnd(s, k) == r
  {
  }

  /** Splitting the text that follows position `p` in `s`, when the leftmost
      separator there starts at `q` (or there is none and `q == |s|`). */
  lemma {:induction false} FragmentsOfSuffix(s: string, p: nat, q: nat)
    requires p <= q <= |s|
    requires forall k :: p <= k < q ==> !SeparatorAt(s, k)
    requires q < |s| ==> SeparatorAt(s, q)
    ensures q == |s| ==> Fragments(s[p..]) == [s[p..]]
    ensures q < |s| ==> Fragments(s[p..]) == [s[p..q]] + Fragments(s[RunEnd(s, q)..])
  {
    var t := s[p..];
    forall i | 0 <= i < q - p ensures !SeparatorAt(t, i) {
      assert !SeparatorAt(s, p + i);
    }
    if q < |s| {
      assert SeparatorAt(t, q - p);
    }
    FirstSeparatorUnique(t, q - p);
    if q < |s| {
      var e := RunEnd(s, q);
      RunEndUnique(t, q - p, e - p);
      assert t[..q - p] == s[p..q];
      assert t[e - p..] == s[e..];
    }
  }

  /** The split as the @@split method of `RegExp.prototype` (section 22.2.6.14
      of ECMA-262, 2024 edition) runs it: a sticky match is tried at every
      position `q`; a failed match moves on by one, a match at `q` ending at
      `e` emits `s[p..q]` and resumes at `e`; the tail is emitted last. */
  method Split(s: string) returns (parts: seq<string>)
    ensures parts == Fragments(s)
  {
    if |s| == 0 {
      return [s];
    }
    parts := [];
    var p := 0;
    var q := 0;
    while q < |s|
      invariant 0 <= p <= q <= |s|
      invariant parts + Fragments(s[p..]) == Fragments(s)
      invariant forall k :: p <= k < q ==> !SeparatorAt(s, k)
      decreases |s| - q
    {
      match MatchAt(s, q)
      case None =>
        q := q + 1;
      case Some(e) =>
        FragmentsOfSuffix(s, p, q);
        RunEndUnique(s, q, e);
        assert (parts + [s[p..q]]) + Fragments(s[e..]) == parts + Fragments(s[p..]);
        parts := parts + [s[p..q]];
        p := e;
        q := p;
    }
    FragmentsOfSuffix(s, p, q);
    parts := parts + [s[p..]];
  }

  /** A sticky match of `\n\n+` at position `q`: the end of the greedy run
      when at least two line feeds start there. */
  function MatchAt(s: string, q: nat): (m: Option<nat>)
    requires q <= |s|
    ensures m.Some? <==> SeparatorAt(s, q)
    ensures m.Some? ==> q + 2 <= m.value <= |s| && IsSeparator(s[q..m.value])
    ensures m.Some? ==> m.value == |s| || s[m.value] != '\n'
  {
    if SeparatorAt(s, q) then
      var e := RunEnd(s, q);
      assert s[q + 1] == '\n';
      Some(e)
    else None
  }

  /** Putting a fragment and a separator in front of a well-formed split keeps
      it well-formed when the new pieces meet the maximal-run conditions. */
  lemma WellFormedCons(f0: string, sep: string, frags: seq<string>, seps: seq<string>)
    requires WellFormedSplit(frags, seps)
    requires IsSeparator(sep) && NoBlankLine(f0) && !EndsWithNewline(f0)
    requires !StartsWithNewline(frags[0])
    requires frags[0] == [] ==> |seps| == 0
    ensures WellFormedSplit([f0] + frags, [sep] + seps)
  {
    var f, p := [f0] + frags, [sep] + seps;
    assert forall j :: 1 <= j < |f| ==> f[j] == frags[j - 1];
    assert forall j :: 1 <= j < |p| ==> p[j] == seps[j - 1];
  }

  /** The text before the leftmost separator holds none and does not end in '\n'. */
  lemma TextBeforeSeparator(s: string, i: nat)
    requires i < |s| && forall k :: 0 <= k < i ==> !SeparatorAt(s, k)
    requires SeparatorAt(s, i)
    ensures NoBlankLine(s[..i]) && !EndsWithNewline(s[..i])
  {
    forall k | 0 <= k < i ensures !SeparatorAt(s[..i], k) {
      assert !SeparatorAt(s, k);
    }
    if 0 < i {
      assert !SeparatorAt(s, i - 1);
    }
  }

  /** Text that does not start with '\n' splits into a first fragment that
      does not either, and that is empty only when the text is. */
  lemma FirstFragmentAfterRun(t: string)
    requires !StartsWithNewline(t)
    ensures !StartsWithNewline(Fragments(t)[0])
    ensures Fragments(t)[0] == [] ==> t == [] && Separators(t) == []
  {
    if t != [] {
      assert !SeparatorAt(t, 0);
    }
  }

  /** One step of the split: the leftmost separator of `s` starts at `i` and
      its greedy run ends at `j`. */
  lemma SplitStep(s: string, i: nat, j: nat)
    requires i == FirstSeparatorFrom(s, 0) < |s| && j == RunEnd(s, i)
    ensures i + 2 <= j
    ensures Fragments(s) == [s[..i]] + Fragments(s[j..])
    ensures Separators(s) == [s[i..j]] + Separators(s[j..])
    ensures s == s[..i] + s[i..j] + s[j..]
    ensures IsSeparator(s[i..j])
  {
    assert s[i] == '\n' && s[i + 1] == '\n';
  }

  /** The split loses nothing: fragments and separators weave back into the
      input, and they have the leftmost-greedy shape. */
  lemma {:induction false} SplitRebuildsInput(s: string)
    ensures |Fragments(s)| == |Separators(s)| + 1
    ensures Weave(Fragments(s), Separators(s)) == s
    ensures WellFormedSplit(Fragments(s), Separators(s))
    decreases |s|
  {
    var i := FirstSeparatorFrom(s, 0);
    if i == |s| {
      assert NoBlankLine(s);
    } else {
      var j := RunEnd(s, i);
      SplitStep(s, i, j);
      var rest := s[j..];
      SplitRebuildsInput(rest);
      var f', p' := Fragments(rest), Separators(rest);
      TextBeforeSeparator(s, i);
      assert IsSeparator(s[i..j]);
      assert !StartsWithNewline(rest) by {
        if j < |s| { assert rest[0] == s[j]; }
      }
      FirstFragmentAfterRun(rest);
      WellFormedCons(s[..i], s[i..j], f', p');
    }
  }

  /** In `f0 + sep + rest`, with the separator a maximal run and no
      separator in `f0`, the leftmost separator is `sep` itself. */
  lemma SeparatorOfJoin(f0: string, sep: string, rest: string)
    requires NoBlankLine(f0) && !EndsWithNewline(f0) && IsSeparator(sep)
    requires !StartsWithNewline(rest)
    ensures var s, i := f0 + sep + rest, |f0|;
      && FirstSeparatorFrom(s, 0) == i
      && RunEnd(s, i) == i + |sep|
      && s[..i] == f0 && s[i..i + |sep|] == sep && s[i + |sep|..] == rest
  {
    var s, i, j := f0 + sep + rest, |f0|, |f0| + |sep|;
    forall k | 0 <= k < i ensures !SeparatorAt(s, k) {
      if k + 1 < i {
        assert !SeparatorAt(f0, k);
      } else {
        assert s[k] == f0[k];
      }
    }
    assert s[i] == sep[0] && s[i + 1] == sep[1];
    FirstSeparatorUnique(s, i);
    forall k | i <= k < j ensures s[k] == '\n' {
      assert s[k] == sep[k - i];
    }
    if j < |s| {
      assert s[j] == rest[0];
    }
    RunEndUnique(s, i, j);
    assert s[..i] == f0 && s[i..j] == sep && s[j..] == rest;
  }

  /** Dropping the first fragment and separator of a well-formed split leaves
      a well-formed split, whose weave does not start with a line feed. */
  lemma WellFormedTail(frags: seq<string>, seps: seq<string>)
    requires WellFormedSplit(frags, seps) && |seps| > 0
    ensures WellFormedSplit(frags[1..], seps[1..])
    ensures !StartsWithNewline(Weave(frags[1..], seps[1..]))
  {
    var f, p := frags[1..], seps[1..];
    assert forall k :: 0 <= k < |p| ==> p[k] == seps[k + 1];
    assert forall k :: 0 <= k < |f| ==> f[k] == frags[k + 1];
    assert !StartsWithNewline(f[0]);
    if |p| > 0 {
      assert f[0] != [];
      assert Weave(f, p) == f[0] + (p[0] + Weave(f[1..], p[1..]));
    }
  }

  /** Conversely, any well-formed split of `s` is the one the pattern produces:
      together with `SplitRebuildsInput` this pins `Fragments` down exactly. */
  lemma {:induction false} SplitIsUnique(s: string, frags: seq<string>, seps: seq<string>)
    requires WellFormedSplit(frags, seps)
    requires Weave(frags, seps) == s
    ensures frags == Fragments(s) && seps == Separators(s)
    decreases |seps|
  {
    if |seps| == 0 {
      assert NoBlankLine(frags[0]);
      FirstSeparatorUnique(s, |s|);
    } else {
      var f0, sep, rest := frags[0], seps[0], Weave(frags[1..], seps[1..]);
      assert s == f0 + sep + rest;
      WellFormedTail(frags, seps);
      SeparatorOfJoin(f0, sep, rest);
      var i, j := |f0|, |f0| + |sep|;
      SplitStep(s, i, j);
      SplitIsUnique(rest, frags[1..], seps[1..]);
      assert frags == [f0] + frags[1..];
      assert seps == [sep] + seps[1..];
    }
  }
}
