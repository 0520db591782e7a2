/** `_sanitize_docstring`: docstrings are scrubbed of prompt-injection
    phrases before they are sent to the language model, then cut to 1000
    characters. Each phrase is replaced by `re.sub` with the escaped phrase
    as pattern and IGNORECASE: a left-to-right scan that replaces every
    non-overlapping match and never rescans a replacement. */
module Sanitize {
  import opened Common

  const Marker: string := "[REDACTED]"
  const MaxDocLength: nat := 1000

  /** The phrases removed, in the order they are applied. */
  const Keywords: seq<string> := [
    "ignore previous instructions",
    "ignore the above",
    "system prompt",
    "you are now",
    "instead of"
  ]

  /** Case folding of the ASCII letters. */
  function AsciiLower(c: char): char {
    if 'A' <= c <= 'Z' then (c as int + 32) as char else c
  }

  /** `kw` matches `s` at index `i`, ignoring case. */
  predicate MatchesAt(s: string, i: int, kw: string) {
    0 <= i && i + |kw| <= |s| && forall k :: 0 <= k < |kw| ==> AsciiLower(s[i + k]) == AsciiLower(kw[k])
  }

  /** `kw` matches nowhere in `s`. */
  ghost predicate Clean(s: string, kw: string) {
    forall p :: !MatchesAt(s, p, kw)
  }

  /** `re.sub(re.escape(kw), "[REDACTED]", text, flags=re.IGNORECASE)`. */
  function Redact(text: string, kw: string): string
    requires |kw| > 0
    decreases |text|
  {
    if MatchesAt(text, 0, kw) then Marker + Redact(text[|kw|..], kw)
    else if text == [] then []
    else [text[0]] + Redact(text[1..], kw)
  }

  /** The loop over the phrases: each `re.sub` works on the result of the
      previous one. */
  function RedactAll(text: string, kws: seq<string>): string
    requires forall k :: 0 <= k < |kws| ==> |kws[k]| > 0
    decreases |kws|
  {
    if kws == [] then text else RedactAll(Redact(text, kws[0]), kws[1..])
  }

  lemma KeywordsNonEmpty()
    ensures forall k :: 0 <= k < |Keywords| ==> |Keywords[k]| >= 10
  {
  }

  /** The result `_sanitize_docstring(text)` should have. */
  function Sanitized(text: string): string {
    KeywordsNonEmpty();
    if text == "" then "" else Take(RedactAll(text, Keywords), MaxDocLength)
  }

  /** `_sanitize_docstring(text)`. */
  method SanitizeDocstring(text: string) returns (r: string)
    ensures r == Sanitized(text)
    ensures |r| <= MaxDocLength
    ensures text == "" ==> r == ""
  {
    if text == "" {
      return "";
    }
    KeywordsNonEmpty();
    var sanitized := text;
    for i := 0 to |Keywords|
      invariant RedactAll(sanitized, Keywords[i..]) == RedactAll(text, Keywords)
    {
      assert Keywords[i..][1..] == Keywords[i + 1..];
      sanitized := Redact(sanitized, Keywords[i]);
    }
    assert Keywords[|Keywords|..] == [];
    r := Take(sanitized, MaxDocLength);
  }

  // ---------------------------------------------------------------------
  // No phrase survives sanitising

  /** A phrase the marker cannot take part in a match of: it has no square
      bracket, and it is longer than the marker's inner word. */
  predicate Safe(kw: string) {
    |kw| >= 10 && '[' !in kw && ']' !in kw
  }

  lemma KeywordsSafe()
    ensures forall k :: 0 <= k < |Keywords| ==> Safe(Keywords[k])
  {
    assert Safe("ignore previous instructions");
    assert Safe("ignore the above");
    assert Safe("system prompt");
    assert Safe("you are now");
    assert Safe("instead of");
  }

  /** Whether a phrase matches depends only on the window it covers. */
  lemma SameWindow(s: string, i: int, t: string, j: int, kw: string)
    requires 0 <= i && i + |kw| <= |s| && 0 <= j && j + |kw| <= |t|
    requires s[i..i + |kw|] == t[j..j + |kw|]
    ensures MatchesAt(s, i, kw) <==> MatchesAt(t, j, kw)
  {
    var w, v := s[i..i + |kw|], t[j..j + |kw|];
    forall k | 0 <= k < |kw|
      ensures w[k] == s[i + k] && v[k] == t[j + k]
    {
    }
  }

  lemma MatchShift(t: string, p: int, kw: string)
    requires |t| > 0 && p >= 0
    ensures MatchesAt(t[1..], p, kw) <==> MatchesAt(t, p + 1, kw)
  {
    if 0 <= p && p + 1 + |kw| <= |t| {
      assert t[1..][p..p + |kw|] == t[p + 1..p + 1 + |kw|];
    }
  }

  /** No match of `kw` starts before index `n` of `t`. */
  ghost predicate NoMatchBefore(t: string, kw: string, n: int) {
    forall p :: 0 <= p < n ==> !MatchesAt(t, p, kw)
  }

  lemma NoMatchBeforeShift(t: string, kw: string, n: int)
    requires |t| > 0 && NoMatchBefore(t[1..], kw, n) && !MatchesAt(t, 0, kw)
    ensures NoMatchBefore(t, kw, n + 1)
  {
    forall p | 1 <= p < n + 1
      ensures !MatchesAt(t, p, kw)
    {
      MatchShift(t, p - 1, kw);
    }
  }

  lemma RedactStep(t: string, kw: string)
    requires |kw| > 0 && |t| > 0 && !MatchesAt(t, 0, kw)
    ensures Redact(t, kw) == [t[0]] + Redact(t[1..], kw)
  {
  }

  lemma RedactMatchStep(t: string, kw: string)
    requires |kw| > 0 && MatchesAt(t, 0, kw)
    ensures Redact(t, kw) == Marker + Redact(t[|kw|..], kw)
  {
  }

  /** Putting back the first character in front of a redacted rest. */
  lemma ShiftedSplit(t: string, q': nat, whole: string, rest: string, r: string)
    requires 0 < |t| && q' <= |t| - 1
    requires whole == [t[0]] + rest && rest == t[1..][..q'] + Marker + r
    ensures whole == t[..q' + 1] + Marker + r
  {
    assert [t[0]] + t[1..][..q'] == t[..q' + 1];
  }

  /** Where the scan of `re.sub` finds its first match (-1: nowhere). */
  function FirstMatch(t: string, kw: string): (q: int)
    requires |kw| > 0
    ensures -1 <= q <= |t|
    decreases |t|
  {
    if MatchesAt(t, 0, kw) then 0
    else if t == [] then -1
    else
      var q' := FirstMatch(t[1..], kw);
      if q' < 0 then -1 else q' + 1
  }

  lemma FirstMatchStep(t: string, kw: string)
    requires |kw| > 0 && |t| > 0 && !MatchesAt(t, 0, kw)
    ensures FirstMatch(t, kw) == if FirstMatch(t[1..], kw) < 0 then -1 else FirstMatch(t[1..], kw) + 1
  {
  }

  lemma {:induction false} FirstMatchIsFirst(t: string, kw: string)
    requires |kw| > 0
    ensures var q := FirstMatch(t, kw);
      && (q < 0 ==> NoMatchBefore(t, kw, |t| + 1))
      && (q >= 0 ==> NoMatchBefore(t, kw, q) && MatchesAt(t, q, kw))
    decreases |t|
  {
    if !MatchesAt(t, 0, kw) && t != [] {
      FirstMatchIsFirst(t[1..], kw);
      var q' := FirstMatch(t[1..], kw);
      if q' < 0 {
        NoMatchBeforeShift(t, kw, |t|);
      } else {
        NoMatchBeforeShift(t, kw, q');
        MatchShift(t, q', kw);
      }
    }
  }

  lemma {:induction false} RedactAtFirstMatch(t: string, kw: string)
    requires |kw| > 0
    ensures FirstMatch(t, kw) < 0 ==> Redact(t, kw) == t
    ensures FirstMatch(t, kw) >= 0 ==> FirstMatch(t, kw) + |kw| <= |t|
    ensures FirstMatch(t, kw) >= 0 ==>
      Redact(t, kw) == t[..FirstMatch(t, kw)] + Marker + Redact(t[FirstMatch(t, kw) + |kw|..], kw)
    decreases |t|
  {
    if MatchesAt(t, 0, kw) {
      assert FirstMatch(t, kw) == 0;
      RedactMatchStep(t, kw);
      assert t[..0] + Marker == Marker;
    } else if t == [] {
      assert FirstMatch(t, kw) == -1 && Redact(t, kw) == [];
    } else {
      RedactAtFirstMatch(t[1..], kw);
      RedactStep(t, kw);
      FirstMatchStep(t, kw);
      var q' := FirstMatch(t[1..], kw);
      if q' < 0 {
        assert [t[0]] + t[1..] == t;
        assert FirstMatch(t, kw) < 0 && Redact(t, kw) == t;
      } else {
        var q := q' + 1;
        var rest, r := Redact(t[1..], kw), Redact(t[q + |kw|..], kw);
        assert rest == t[1..][..q'] + Marker + Redact(t[1..][q' + |kw|..], kw);
        assert t[1..][q' + |kw|..] == t[q + |kw|..];
        ShiftedSplit(t, q', Redact(t, kw), rest, r);
        assert FirstMatch(t, kw) == q && t[..q' + 1] == t[..q];
        assert Redact(t, kw) == t[..q] + Marker + Redact(t[q + |kw|..], kw);
      }
    }
  }

  /** Where the scan stops first: either nowhere, and the text is returned
      unchanged, or at the leftmost match `q`, which the marker replaces. */
  lemma RedactSplit(t: string, kw: string) returns (q: int)
    requires |kw| > 0
    ensures -1 <= q <= |t|
    ensures q < 0 ==> NoMatchBefore(t, kw, |t| + 1) && Redact(t, kw) == t
    ensures q >= 0 ==> NoMatchBefore(t, kw, q) && MatchesAt(t, q, kw)
    ensures q >= 0 ==> Redact(t, kw) == t[..q] + Marker + Redact(t[q + |kw|..], kw)
  {
    q := FirstMatch(t, kw);
    FirstMatchIsFirst(t, kw);
    RedactAtFirstMatch(t, kw);
  }

  lemma CleanPrefix(s: string, n: nat, kw: string)
    requires n <= |s| && forall p :: 0 <= p && p + |kw| <= n ==> !MatchesAt(s, p, kw)
    ensures Clean(s[..n], kw)
  {
    forall p | 0 <= p && p + |kw| <= n
      ensures !MatchesAt(s[..n], p, kw)
    {
      SameWindow(s[..n], p, s, p, kw);
    }
  }

  lemma CleanSuffix(s: string, n: nat, kw: string)
    requires n <= |s| && Clean(s, kw)
    ensures Clean(s[n..], kw)
  {
    forall p | 0 <= p && p + |kw| <= |s| - n
      ensures !MatchesAt(s[n..], p, kw)
    {
      SameWindow(s[n..], p, s, n + p, kw);
    }
  }

  lemma LowerBracket(c: char)
    ensures AsciiLower(c) == '[' ==> c == '['
    ensures AsciiLower(c) == ']' ==> c == ']'
  {
  }

  /** A window holding the bracket at offset `k` cannot match a safe phrase. */
  lemma BracketBlocks(s: string, p: int, k: int, kw: string)
    requires Safe(kw) && 0 <= p && 0 <= k < |kw| && p + |kw| <= |s|
    requires s[p + k] == '[' || s[p + k] == ']'
    ensures !MatchesAt(s, p, kw)
  {
    assert kw[k] in kw;
    LowerBracket(kw[k]);
    assert AsciiLower(s[p + k]) != AsciiLower(kw[k]);
  }

  /** A marker splits matches: no match of a safe phrase can overlap it. */
  lemma MarkerBreaks(a: string, r: string, kw: string)
    requires Safe(kw) && Clean(a, kw) && Clean(r, kw)
    ensures Clean(a + Marker + r, kw)
  {
    var o := a + Marker + r;
    forall p | 0 <= p && p + |kw| <= |o|
      ensures !MatchesAt(o, p, kw)
    {
      if p + |kw| <= |a| {
        assert o[p..p + |kw|] == a[p..p + |kw|];
        SameWindow(o, p, a, p, kw);
      } else if p < |a| {
        assert o[|a|] == '[';
        BracketBlocks(o, p, |a| - p, kw);
      } else if p <= |a| + 9 {
        assert o[|a| + 9] == ']';
        BracketBlocks(o, p, |a| + 9 - p, kw);
      } else {
        var p' := p - |a| - 10;
        assert o[p..p + |kw|] == r[p'..p' + |kw|];
        SameWindow(o, p, r, p', kw);
      }
    }
  }

  /** After `re.sub` on a safe phrase, the phrase matches nowhere. */
  lemma {:induction false} RedactCleans(t: string, kw: string)
    requires Safe(kw)
    ensures Clean(Redact(t, kw), kw)
    decreases |t|
  {
    var q := RedactSplit(t, kw);
    if q < 0 {
      assert Clean(t, kw);
    } else {
      RedactCleans(t[q + |kw|..], kw);
      CleanPrefix(t, q, kw);
      MarkerBreaks(t[..q], Redact(t[q + |kw|..], kw), kw);
    }
  }

  /** `re.sub` on one phrase does not bring back another safe phrase. */
  lemma {:induction false} RedactKeepsClean(t: string, kw: string, other: string)
    requires |kw| > 0 && Safe(other) && Clean(t, other)
    ensures Clean(Redact(t, kw), other)
    decreases |t|
  {
    var q := RedactSplit(t, kw);
    if q >= 0 {
      CleanSuffix(t, q + |kw|, other);
      RedactKeepsClean(t[q + |kw|..], kw, other);
      CleanPrefix(t, q, other);
      MarkerBreaks(t[..q], Redact(t[q + |kw|..], kw), other);
    }
  }

  lemma {:induction false} RedactAllKeepsClean(t: string, kws: seq<string>, other: string)
    requires forall k :: 0 <= k < |kws| ==> |kws[k]| > 0
    requires Safe(other) && Clean(t, other)
    ensures Clean(RedactAll(t, kws), other)
    decreases |kws|
  {
    if kws != [] {
      RedactKeepsClean(t, kws[0], other);
      RedactAllKeepsClean(Redact(t, kws[0]), kws[1..], other);
    }
  }

  lemma {:induction false} RedactAllCleans(t: string, kws: seq<string>)
    requires forall k :: 0 <= k < |kws| ==> |kws[k]| > 0 && Safe(kws[k])
    ensures forall k :: 0 <= k < |kws| ==> Clean(RedactAll(t, kws), kws[k])
    decreases |kws|
  {
    if kws != [] {
      var t' := Redact(t, kws[0]);
      RedactCleans(t, kws[0]);
      RedactAllKeepsClean(t', kws[1..], kws[0]);
      RedactAllCleans(t', kws[1..]);
      forall k | 1 <= k < |kws|
        ensures Clean(RedactAll(t, kws), kws[k])
      {
        assert kws[1..][k - 1] == kws[k];
      }
    }
  }

  /** No phrase of the list matches anywhere in a sanitised docstring, in
      any ASCII letter case. */
  lemma NoKeywordSurvives(text: string, kw: string)
    requires kw in Keywords
    ensures forall p :: !MatchesAt(Sanitized(text), p, kw)
  {
    if text != "" {
      KeywordsSafe();
      RedactAllCleans(text, Keywords);
      var full := RedactAll(text, Keywords);
      CleanPrefix(full, |Sanitized(text)|, kw);
      assert Sanitized(text) == full[..|Sanitized(text)|];
    }
  }

  lemma {:induction false} RedactAllIdentity(t: string, kws: seq<string>)
    requires forall k :: 0 <= k < |kws| ==> |kws[k]| > 0 && Clean(t, kws[k])
    ensures RedactAll(t, kws) == t
    decreases |kws|
  {
    if kws != [] {
      var q := RedactSplit(t, kws[0]);
      assert q < 0;
      RedactAllIdentity(t, kws[1..]);
    }
  }

  /** A docstring of at most 1000 characters that contains none of the
      phrases passes through unchanged. */
  lemma HarmlessDocUnchanged(text: string)
    requires |text| <= MaxDocLength
    requires forall k :: 0 <= k < |Keywords| ==> Clean(text, Keywords[k])
    ensures Sanitized(text) == text
  {
    KeywordsNonEmpty();
    RedactAllIdentity(text, Keywords);
  }

  /** A text that spells the phrase in any ASCII letter case is replaced
      by the marker as a whole. */
  lemma RedactIgnoresCase(t: string, kw: string)
    requires |kw| > 0 && |t| == |kw|
    requires forall k :: 0 <= k < |kw| ==> AsciiLower(t[k]) == AsciiLower(kw[k])
    ensures Redact(t, kw) == Marker
  {
    RedactMatchStep(t, kw);
    assert t[|kw|..] == [];
    assert Marker + [] == Marker;
  }

  /** The phrase "you are now" matches in "(You Are Now)" at index 1, and
      not at index 0. */
  lemma MatchExample()
    ensures MatchesAt("(You Are Now)", 1, "you are now")
    ensures !MatchesAt("(You Are Now)", 0, "you are now")
  {
    var t, kw := "(You Are Now)", "you are now";
    assert AsciiLower(t[0]) != AsciiLower(kw[0]);
  }
}
