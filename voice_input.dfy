/**
 * Transcript correction (`correctText` in components/VoiceInput.tsx): two
 * global, case-insensitive regular-expression replacements applied one after
 * the other, `/\bsimply\s+q\b/gi` by "simply cue" and then
 * `/\bgraphic\b/gi` by "graphy".
 */
module VoiceInput {
  import opened Wrappers
  import opened Text

  /** The two rewrite rules, in the order they are applied. */
  datatype Rule = SimplyQ | Graphic

  /** `\w` without the `u` flag: ASCII letters, digits and '_'. */
  predicate IsWordChar(c: char) {
    ('a' <= c <= 'z') || ('A' <= c <= 'Z') || ('0' <= c <= '9') || c == '_'
  }

  /** The character before position `p` is a word character. */
  predicate WordBefore(s: string, p: int) {
    0 < p <= |s| && IsWordChar(s[p - 1])
  }

  /** The character at position `p` is a word character. */
  predicate WordAt(s: string, p: int) {
    0 <= p < |s| && IsWordChar(s[p])
  }

  /** `\b` at position `p`: a word character on exactly one side. */
  predicate IsBoundary(s: string, p: int) {
    WordBefore(s, p) != WordAt(s, p)
  }

  /** The letters of `word` stand at index `i`, in any case. */
  predicate WordAtIgnoringCase(s: string, word: string, i: int) {
    && 0 <= i && i + |word| <= |s|
    && forall k :: i <= k < i + |word| ==> LowerChar(s[k]) == word[k - i]
  }

  /** The pattern text each rule replaces, lower-cased. */
  function Word(rule: Rule): string {
    match rule
    case SimplyQ => "simply"
    case Graphic => "graphic"
  }

  /** The replacement text of each rule. */
  function Replacement(rule: Rule): string {
    match rule
    case SimplyQ => "simply cue"
    case Graphic => "graphy"
  }

  /** The length of the rule's match starting at index `i`, if one starts there.
      `\s+` is greedy, and backing off cannot help because what `q` must match
      is not whitespace. */
  function MatchAt(rule: Rule, s: string, i: nat): (m: Option<nat>)
    ensures m.Some? ==> 0 < m.value && i + m.value <= |s|
  {
    if !(IsBoundary(s, i) && WordAtIgnoringCase(s, Word(rule), i)) then None
    else
      match rule
      case Graphic =>
        if IsBoundary(s, i + 7) then Some(7) else None
      case SimplyQ =>
        var n := WhitespaceRun(s, i + 6);
        var q := i + 6 + n;
        if n > 0 && q < |s| && LowerChar(s[q]) == 'q' && IsBoundary(s, q + 1) then Some(n + 7)
        else None
  }

  /** `s.replace(pattern, replacement)` with the `g` flag, scanning from index
      `i`: at each index either a match is replaced and the scan resumes after
      it, or the character is kept and the scan moves one on. */
  function ReplaceFrom(rule: Rule, s: string, i: nat): string
    requires i <= |s|
    decreases |s| - i
  {
    if i == |s| then ""
    else
      match MatchAt(rule, s, i)
      case Some(n) => Replacement(rule) + ReplaceFrom(rule, s, i + n)
      case None => [s[i]] + ReplaceFrom(rule, s, i + 1)
  }

  function ReplaceAll(rule: Rule, s: string): string {
    ReplaceFrom(rule, s, 0)
  }

  /** `correctText`. */
  function CorrectText(text: string): string {
    ReplaceAll(Graphic, ReplaceAll(SimplyQ, text))
  }

  /** The rule matches nowhere in `s`. */
  predicate NoMatch(rule: Rule, s: string) {
    forall i: nat :: i <= |s| ==> MatchAt(rule, s, i).None?
  }

  lemma {:induction false} NoMatchFromUnchanged(rule: Rule, s: string, i: nat)
    requires i <= |s| && NoMatch(rule, s)
    ensures ReplaceFrom(rule, s, i) == s[i..]
    decreases |s| - i
  {
    if i < |s| {
      NoMatchFromUnchanged(rule, s, i + 1);
    }
  }

  /** Where a rule matches nowhere, its replacement returns the text unchanged. */
  lemma NoMatchUnchanged(rule: Rule, s: string)
    requires NoMatch(rule, s)
    ensures ReplaceAll(rule, s) == s
  {
    NoMatchFromUnchanged(rule, s, 0);
  }

  /** Text in which neither pattern matches is returned unchanged. */
  lemma NeitherPatternUnchanged(text: string)
    requires NoMatch(SimplyQ, text) && NoMatch(Graphic, text)
    ensures CorrectText(text) == text
  {
    NoMatchUnchanged(SimplyQ, text);
    NoMatchUnchanged(Graphic, text);
  }

  /** A rule cannot match where the character is not the first letter of its
      word, in either case. */
  lemma NoMatchAtOtherLetter(rule: Rule, s: string, i: nat)
    requires i < |s| ==> LowerChar(s[i]) != Word(rule)[0]
    ensures MatchAt(rule, s, i).None?
  {
  }

  /** A rule matches nowhere in a text that lacks the first letter of its word. */
  lemma NoMatchWithoutFirstLetter(rule: Rule, s: string)
    requires forall k :: 0 <= k < |s| ==> LowerChar(s[k]) != Word(rule)[0]
    ensures NoMatch(rule, s)
  {
    forall i: nat | i <= |s| ensures MatchAt(rule, s, i).None? {
      NoMatchAtOtherLetter(rule, s, i);
    }
  }

  /** "graphics" is left alone: no word boundary follows its "graphic". */
  lemma GraphicsUnchanged()
    ensures CorrectText("graphics") == "graphics"
  {
    var s := "graphics";
    forall i: nat | i <= |s| ensures MatchAt(SimplyQ, s, i).None? {
      if i != 7 {
        NoMatchAtOtherLetter(SimplyQ, s, i);
      }
    }
    forall i: nat | i <= |s| ensures MatchAt(Graphic, s, i).None? {
      if i != 0 {
        NoMatchAtOtherLetter(Graphic, s, i);
      } else {
        assert !IsBoundary(s, 7);
      }
    }
    NeitherPatternUnchanged(s);
  }

  /** "photographic" is left alone: no word boundary precedes its "graphic". */
  lemma PhotographicUnchanged()
    ensures CorrectText("photographic") == "photographic"
  {
    var s := "photographic";
    NoMatchWithoutFirstLetter(SimplyQ, s);
    forall i: nat | i <= |s| ensures MatchAt(Graphic, s, i).None? {
      if i != 5 {
        NoMatchAtOtherLetter(Graphic, s, i);
      } else {
        assert !IsBoundary(s, 5);
      }
    }
    NeitherPatternUnchanged(s);
  }

  /** "simply", any run of whitespace and "q", in any case, becomes "simply cue". */
  lemma SimplyQBecomesCue()
    ensures CorrectText("Simply \t Q") == "simply cue"
  {
    var s := "Simply \t Q";
    assert WordAtIgnoringCase(s, "simply", 0);
    assert WhitespaceRun(s, 6) == 3;
    assert MatchAt(SimplyQ, s, 0) == Some(10);
    assert ReplaceAll(SimplyQ, s) == "simply cue";
    NoMatchWithoutFirstLetter(Graphic, "simply cue");
    NoMatchUnchanged(Graphic, "simply cue");
  }

  /** A whole-word "graphic" in any case becomes "graphy". */
  lemma GraphicBecomesGraphy()
    ensures CorrectText("GRAPHIC") == "graphy"
  {
    var s := "GRAPHIC";
    NoMatchWithoutFirstLetter(SimplyQ, s);
    NoMatchUnchanged(SimplyQ, s);
    assert WordAtIgnoringCase(s, "graphic", 0);
    assert MatchAt(Graphic, s, 0) == Some(7);
  }

  // ---- Idempotence: neither rule's output creates a match for either rule ----

  /** What every match looks like at its ends: it begins with the first
      letter of the rule's word, and begins and ends with a word character. */
  lemma MatchEnds(rule: Rule, x: string, a: nat)
    requires MatchAt(rule, x, a).Some?
    ensures var L := MatchAt(rule, x, a).value;
      && L >= 7
      && LowerChar(x[a]) == Word(rule)[0]
      && IsWordChar(x[a]) && IsWordChar(x[a + L - 1])
  {
    match rule
    case Graphic =>
    case SimplyQ =>
      var n := WhitespaceRun(x, a + 6);
      assert LowerChar(x[a + 6 + n]) == 'q';
  }

  /** Inside a match, after its first character, there is no 's' and no
      'g', in either case. */
  lemma MatchInner(rule: Rule, x: string, a: nat)
    requires MatchAt(rule, x, a).Some?
    ensures var L := MatchAt(rule, x, a).value;
      forall k :: a < k < a + L ==> LowerChar(x[k]) != 's' && LowerChar(x[k]) != 'g'
  {
  }

  /** A match depends only on its own characters and on whether word
      characters stand just before and just after it. */
  lemma MatchWindow(rule: Rule, x: string, a: nat, y: string, b: nat, L: nat)
    requires MatchAt(rule, x, a) == Some(L)
    requires b + L <= |y| && x[a..a + L] == y[b..b + L]
    requires WordBefore(x, a) == WordBefore(y, b) && WordAt(x, a + L) == WordAt(y, b + L)
    ensures MatchAt(rule, y, b) == Some(L)
  {
    forall k | b <= k < b + L ensures y[k] == x[k - b + a] {
      assert x[a..a + L][k - b] == y[b..b + L][k - b];
    }
    match rule
    case Graphic => GraphicWindow(x, a, y, b);
    case SimplyQ => SimplyQWindow(x, a, y, b, L);
  }

  /** `MatchWindow` for the "graphic" rule. */
  lemma GraphicWindow(x: string, a: nat, y: string, b: nat)
    requires MatchAt(Graphic, x, a).Some? && b + 7 <= |y|
    requires forall k :: b <= k < b + 7 ==> y[k] == x[k - b + a]
    requires WordBefore(x, a) == WordBefore(y, b) && WordAt(x, a + 7) == WordAt(y, b + 7)
    ensures MatchAt(Graphic, y, b) == Some(7)
  {
    assert WordAtIgnoringCase(y, "graphic", b);
    assert IsBoundary(y, b);
    assert IsBoundary(y, b + 7);
  }

  /** `MatchWindow` for the "simply q" rule: the whitespace run has the same
      length, because the 'q' that ends it is kept too. */
  lemma SimplyQWindow(x: string, a: nat, y: string, b: nat, L: nat)
    requires MatchAt(SimplyQ, x, a) == Some(L) && b + L <= |y|
    requires forall k :: b <= k < b + L ==> y[k] == x[k - b + a]
    requires WordBefore(x, a) == WordBefore(y, b) && WordAt(x, a + L) == WordAt(y, b + L)
    ensures MatchAt(SimplyQ, y, b) == Some(L)
  {
    SimplyQMatchShape(x, a, L);
    forall k | b + 6 <= k < b + L - 1 ensures IsWhitespace(y[k]) {
      assert y[k] == x[k - b + a];
    }
    assert WordAtIgnoringCase(y, "simply", b);
    assert IsBoundary(y, b);
    assert y[b + L - 1] == x[a + L - 1];
    assert IsBoundary(y, b + L);
    SimplyQMatchShape(y, b, L);
  }

  /** A "simply q" match of length `L` at `i`, spelled out: a boundary,
      "simply", whitespace up to a 'q', and a boundary. */
  predicate SimplyQShape(s: string, i: nat, L: nat) {
    && 8 <= L && i + L <= |s|
    && IsBoundary(s, i) && WordAtIgnoringCase(s, "simply", i)
    && (forall k :: i + 6 <= k < i + L - 1 ==> IsWhitespace(s[k]))
    && LowerChar(s[i + L - 1]) == 'q' && IsBoundary(s, i + L)
  }

  lemma SimplyQMatchShape(s: string, i: nat, L: nat)
    ensures MatchAt(SimplyQ, s, i) == Some(L) <==> SimplyQShape(s, i, L)
  {
    if MatchAt(SimplyQ, s, i) == Some(L) {
      var n := WhitespaceRun(s, i + 6);
      assert L == n + 7;
    }
    if SimplyQShape(s, i, L) {
      WhitespaceRunExact(s, i + 6, L - 7);
    }
  }

  /** The scan's output from `j` starts with the input's character at `j`, or
      with the replacement, whose first letter is an 's' or a 'g'. */
  lemma HeadChar(rule: Rule, s: string, j: nat)
    requires j < |s|
    ensures var t := ReplaceFrom(rule, s, j);
      && |t| > 0
      && t[0] == (if MatchAt(rule, s, j).Some? then Replacement(rule)[0] else s[j])
      && (MatchAt(rule, s, j).Some? ==> LowerChar(t[0]) == 's' || LowerChar(t[0]) == 'g')
  {
  }

  /** Where the scan keeps characters, its output repeats the input: if no
      character after the first of the output's first `m` is an 's' or a 'g',
      and the first is kept, the first `m` are all kept. */
  lemma {:induction false} KeptWindow(rule: Rule, s: string, i: nat, m: nat)
    requires i <= |s| && m <= |ReplaceFrom(rule, s, i)|
    requires m == 0 || MatchAt(rule, s, i).None?
    requires var t := ReplaceFrom(rule, s, i);
      forall k :: 0 < k < m ==> LowerChar(t[k]) != 's' && LowerChar(t[k]) != 'g'
    ensures i + m <= |s|
    ensures var t := ReplaceFrom(rule, s, i);
      t[..m] == s[i..i + m] && t[m..] == ReplaceFrom(rule, s, i + m)
    decreases m
  {
    if m > 0 {
      KeptStep(rule, s, i, m);
      KeptWindow(rule, s, i + 1, m - 1);
      ConsWindow(ReplaceFrom(rule, s, i), ReplaceFrom(rule, s, i + 1), s, i, m);
    } else {
      assert ReplaceFrom(rule, s, i)[0..] == ReplaceFrom(rule, s, i);
    }
  }

  /** The sequence reasoning of `KeptWindow`'s step: a window after a kept
      first character extends by that character. */
  lemma ConsWindow(t: string, t': string, s: string, i: nat, m: nat)
    requires 0 < m && i + m <= |s| && t == [s[i]] + t' && m - 1 <= |t'|
    requires t'[..m - 1] == s[i + 1..i + m]
    ensures t[..m] == s[i..i + m] && t[m..] == t'[m - 1..]
  {
    assert t[..m] == [s[i]] + t'[..m - 1];
    assert s[i..i + m] == [s[i]] + s[i + 1..i + m];
  }

  /** The step of `KeptWindow`: the first character is kept, and the rest of
      the output meets the same conditions for one character less. */
  lemma KeptStep(rule: Rule, s: string, i: nat, m: nat)
    requires i <= |s| && 0 < m <= |ReplaceFrom(rule, s, i)|
    requires MatchAt(rule, s, i).None?
    requires var t := ReplaceFrom(rule, s, i);
      forall k :: 0 < k < m ==> LowerChar(t[k]) != 's' && LowerChar(t[k]) != 'g'
    ensures i < |s| && ReplaceFrom(rule, s, i) == [s[i]] + ReplaceFrom(rule, s, i + 1)
    ensures m - 1 <= |ReplaceFrom(rule, s, i + 1)|
    ensures m - 1 == 0 || MatchAt(rule, s, i + 1).None?
    ensures var t' := ReplaceFrom(rule, s, i + 1);
      forall k :: 0 < k < m - 1 ==> LowerChar(t'[k]) != 's' && LowerChar(t'[k]) != 'g'
  {
    var t := ReplaceFrom(rule, s, i);
    assert i < |s|;
    var t' := ReplaceFrom(rule, s, i + 1);
    assert t == [s[i]] + t';
    if m > 1 {
      HeadChar(rule, s, i + 1);
      assert t[1] == t'[0];
    }
    forall k | 0 < k < m - 1 ensures LowerChar(t'[k]) != 's' && LowerChar(t'[k]) != 'g' {
      assert t'[k] == t[k + 1];
    }
  }

  /** The first character of the scan's output from `j` is a word character
      exactly when the input's character at `j` is. */
  lemma HeadWordness(rule: Rule, s: string, j: nat)
    requires j <= |s|
    ensures WordAt(ReplaceFrom(rule, s, j), 0) == WordAt(s, j)
  {
    if j < |s| && MatchAt(rule, s, j).Some? {
      MatchEnds(rule, s, j);
    }
  }

  /** No rule matches after the first character of an inserted replacement:
      the rest of each replacement holds no 's' and no 'g'. */
  lemma NoMatchInsideReplacement(probe: Rule, rule: Rule, x: string, a: nat, p: nat)
    requires a + |Replacement(rule)| <= |x| && x[a..a + |Replacement(rule)|] == Replacement(rule)
    requires a < p < a + |Replacement(rule)|
    ensures MatchAt(probe, x, p).None?
  {
    var rep := Replacement(rule);
    assert x[p] == rep[p - a];
    if MatchAt(probe, x, p).Some? {
      MatchEnds(probe, x, p);
    }
  }

  /** No rule matches at the first character of an inserted replacement:
      another rule's word starts with another letter, "graphy" is not
      "graphic", and in "simply cue" the whitespace is followed by 'c'. */
  lemma NoMatchAtReplacement(probe: Rule, rule: Rule, x: string, a: nat)
    requires a + |Replacement(rule)| <= |x| && x[a..a + |Replacement(rule)|] == Replacement(rule)
    ensures MatchAt(probe, x, a).None?
  {
    var rep := Replacement(rule);
    assert x[a] == rep[0];
    if probe != rule {
      if MatchAt(probe, x, a).Some? {
        MatchEnds(probe, x, a);
      }
    } else {
      match rule
      case Graphic =>
        assert x[a + 5] == rep[5];
        if a + 7 <= |x| {
          assert LowerChar(x[a + 5]) == 'y';
        }
      case SimplyQ =>
        assert x[a + 6] == rep[6] && x[a + 7] == rep[7];
        WhitespaceRunExact(x, a + 6, 1);
    }
  }

  /** A stretch of the output that starts at a kept character and holds no
      's' or 'g' after its first character is a stretch of the input, with
      the same kind of character after it. */
  lemma KeptSpan(rule: Rule, s: string, i: nat, x: string, a: nat, L: nat)
    requires i < |s| && MatchAt(rule, s, i).None?
    requires a + L <= |x| && x[a..] == ReplaceFrom(rule, s, i)
    requires forall k :: a < k < a + L ==> LowerChar(x[k]) != 's' && LowerChar(x[k]) != 'g'
    ensures i + L <= |s| && x[a..a + L] == s[i..i + L] && WordAt(x, a + L) == WordAt(s, i + L)
  {
    var t := x[a..];
    forall k | 0 < k < L ensures LowerChar(t[k]) != 's' && LowerChar(t[k]) != 'g' {
      assert t[k] == x[a + k];
    }
    KeptWindow(rule, s, i, L);
    HeadWordness(rule, s, i + L);
    assert x[a..a + L] == t[..L];
    assert WordAt(x, a + L) == WordAt(t[L..], 0);
  }

  /** A character the scan keeps does not start a `probe` match in the output:
      such a match would lie on kept characters only and so would already be
      a match in the input, there where the scan found none. */
  lemma NoMatchAtKept(probe: Rule, rule: Rule, s: string, i: nat, x: string, a: nat)
    requires i < |s| && MatchAt(rule, s, i).None?
    requires probe == rule || NoMatch(probe, s)
    requires a <= |x| && x[a..] == ReplaceFrom(rule, s, i)
    requires WordBefore(x, a) == WordBefore(s, i)
    ensures MatchAt(probe, x, a).None?
  {
    if MatchAt(probe, x, a).Some? {
      var L := MatchAt(probe, x, a).value;
      MatchInner(probe, x, a);
      KeptSpan(rule, s, i, x, a, L);
      MatchWindow(probe, x, a, s, i, L);
    }
  }

  /** The heart of idempotence: where the output from index `a` on is what
      the scan emits from index `i` of `s` on, no `probe` match starts at or
      after `a`. The probe is the rule itself, or one that matches nowhere in
      `s`. */
  lemma {:induction false} NoMatchInOutput(probe: Rule, rule: Rule, s: string, i: nat, x: string, a: nat)
    requires i <= |s| && a <= |x| && x[a..] == ReplaceFrom(rule, s, i)
    requires probe == rule || NoMatch(probe, s)
    requires WordBefore(x, a) == WordBefore(s, i)
    ensures forall p: nat :: a <= p <= |x| ==> MatchAt(probe, x, p).None?
    decreases |s| - i, 1
  {
    if i == |s| {
      assert a == |x|;
    } else if MatchAt(rule, s, i).None? {
      NoMatchAfterKept(probe, rule, s, i, x, a);
    } else {
      NoMatchAfterReplacement(probe, rule, s, i, x, a);
    }
  }

  /** The step of `NoMatchInOutput` where the scan keeps the character at `i`. */
  lemma {:induction false} NoMatchAfterKept(probe: Rule, rule: Rule, s: string, i: nat, x: string, a: nat)
    requires i < |s| && MatchAt(rule, s, i).None?
    requires a <= |x| && x[a..] == ReplaceFrom(rule, s, i)
    requires probe == rule || NoMatch(probe, s)
    requires WordBefore(x, a) == WordBefore(s, i)
    ensures forall p: nat :: a <= p <= |x| ==> MatchAt(probe, x, p).None?
    decreases |s| - i, 0
  {
    assert x[a + 1..] == x[a..][1..];
    NoMatchInOutput(probe, rule, s, i + 1, x, a + 1);
    NoMatchAtKept(probe, rule, s, i, x, a);
  }

  /** The step of `NoMatchInOutput` where the scan replaces a match at `i`. */
  lemma {:induction false} NoMatchAfterReplacement(probe: Rule, rule: Rule, s: string, i: nat, x: string, a: nat)
    requires i < |s| && MatchAt(rule, s, i).Some?
    requires a <= |x| && x[a..] == ReplaceFrom(rule, s, i)
    requires probe == rule || NoMatch(probe, s)
    requires WordBefore(x, a) == WordBefore(s, i)
    ensures forall p: nat :: a <= p <= |x| ==> MatchAt(probe, x, p).None?
    decreases |s| - i, 0
  {
    var n := MatchAt(rule, s, i).value;
    var rep := Replacement(rule);
    ReplacedPrefix(rule, s, i, x, a);
    NoMatchInOutput(probe, rule, s, i + n, x, a + |rep|);
    NoMatchInReplacement(probe, rule, x, a);
  }

  /** Where the scan replaces a match, the output holds the replacement and
      then the scan's output after the match, with a word character on both
      sides of the seam. */
  lemma ReplacedPrefix(rule: Rule, s: string, i: nat, x: string, a: nat)
    requires i < |s| && MatchAt(rule, s, i).Some?
    requires a <= |x| && x[a..] == ReplaceFrom(rule, s, i)
    ensures var n := MatchAt(rule, s, i).value; var rep := Replacement(rule);
      && a + |rep| <= |x| && x[a..a + |rep|] == rep
      && x[a + |rep|..] == ReplaceFrom(rule, s, i + n)
      && WordBefore(x, a + |rep|) == WordBefore(s, i + n)
  {
    var n := MatchAt(rule, s, i).value;
    var rep := Replacement(rule);
    assert x[a..] == rep + ReplaceFrom(rule, s, i + n);
    assert x[a..a + |rep|] == rep;
    assert x[a + |rep|..] == x[a..][|rep|..];
    assert x[a + |rep| - 1] == rep[|rep| - 1];
    MatchEnds(rule, s, i);
  }

  /** No rule matches anywhere inside an inserted replacement. */
  lemma NoMatchInReplacement(probe: Rule, rule: Rule, x: string, a: nat)
    requires a + |Replacement(rule)| <= |x| && x[a..a + |Replacement(rule)|] == Replacement(rule)
    ensures forall p: nat :: a <= p < a + |Replacement(rule)| ==> MatchAt(probe, x, p).None?
  {
    NoMatchAtReplacement(probe, rule, x, a);
    forall p: nat | a < p < a + |Replacement(rule)| ensures MatchAt(probe, x, p).None? {
      NoMatchInsideReplacement(probe, rule, x, a, p);
    }
  }

  /** No rule's replacement creates a match for that rule, and a rule that
      matches nowhere still matches nowhere once the other rule has run. */
  lemma NoMatchAfterReplace(probe: Rule, rule: Rule, s: string)
    requires probe == rule || NoMatch(probe, s)
    ensures NoMatch(probe, ReplaceAll(rule, s))
  {
    var x := ReplaceAll(rule, s);
    assert x[0..] == x;
    NoMatchInOutput(probe, rule, s, 0, x, 0);
  }

  /** Correcting a corrected transcript changes nothing. */
  lemma CorrectTextIdempotent(text: string)
    ensures CorrectText(CorrectText(text)) == CorrectText(text)
  {
    var t := ReplaceAll(SimplyQ, text);
    var u := ReplaceAll(Graphic, t);
    NoMatchAfterReplace(SimplyQ, SimplyQ, text);
    NoMatchAfterReplace(SimplyQ, Graphic, t);
    NoMatchAfterReplace(Graphic, Graphic, t);
    NeitherPatternUnchanged(u);
  }
}
