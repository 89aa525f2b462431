/**
 * Vagueness detection and the fallback rule of query expansion
 * (app/agents/QueryExpanderAgent.ts). The language model's reply to the
 * rewrite prompt is a parameter: `None` when the reply has no content.
 */
module QueryExpander {
  import opened Wrappers
  import opened Text

  /** `vagueWords`. */
  const VagueWords: seq<string> := ["his", "her", "their", "them", "he", "she"]

  /** The pattern searched for: the word with one space on either side. */
  function Padded(word: string): string {
    " " + word + " "
  }

  /** `needsExpansion`: the lower-cased query contains some vague word with a
      space on either side. */
  predicate NeedsExpansion(query: string) {
    exists k :: 0 <= k < |VagueWords| && Contains(Lower(query), Padded(VagueWords[k]))
  }

  /** The detector reads as "some vague word stands, space-delimited, at some
      index of the lower-cased query". */
  lemma NeedsExpansionIff(query: string)
    ensures NeedsExpansion(query) <==>
      exists k, i :: 0 <= k < |VagueWords| && OccursAt(Lower(query), Padded(VagueWords[k]), i)
  {
    forall k | 0 <= k < |VagueWords| {
      ContainsIff(Lower(query), Padded(VagueWords[k]));
    }
  }

  /** A match is delimited by real space characters of the query itself: the
      character before the word and the one after it are both ' '. So a
      pronoun at the very start or end, or one followed directly by
      punctuation, is never a match at that place. */
  lemma {:induction false} MatchIsSpaceDelimited(query: string) returns (k: int, i: int)
    requires NeedsExpansion(query)
    ensures 0 <= k < |VagueWords| && 0 <= i && i + |VagueWords[k]| + 2 <= |query|
    ensures query[i] == ' ' && query[i + |VagueWords[k]| + 1] == ' '
    ensures Lower(query[i + 1..i + 1 + |VagueWords[k]|]) == VagueWords[k]
  {
    NeedsExpansionIff(query);
    k, i :| 0 <= k < |VagueWords| && OccursAt(Lower(query), Padded(VagueWords[k]), i);
    var w := VagueWords[k];
    var low := Lower(query);
    var m := Padded(w);
    assert low[i..i + |w| + 2] == m;
    forall j | 0 <= j < |w| + 2 ensures low[i + j] == m[j] {
      assert low[i..i + |w| + 2][j] == low[i + j];
    }
    assert m[0] == ' ' && m[|w| + 1] == ' ';
    assert low[i] == m[0] && low[i + |w| + 1] == m[|w| + 1];
    LowerSpace(query[i]);
    LowerSpace(query[i + |w| + 1]);
    var sub := Lower(query[i + 1..i + 1 + |w|]);
    forall j | 0 <= j < |w| ensures sub[j] == w[j] {
      assert sub[j] == low[i + 1 + j];
      assert m[j + 1] == w[j];
    }
    assert sub == w;
  }

  /** Conversely, a vague word (in any case) with a real space on either side
      makes the query vague. */
  lemma SpaceDelimitedPronounIsVague(query: string, k: int, i: int)
    requires 0 <= k < |VagueWords| && 0 <= i && i + |VagueWords[k]| + 2 <= |query|
    requires query[i] == ' ' && query[i + |VagueWords[k]| + 1] == ' '
    requires Lower(query[i + 1..i + 1 + |VagueWords[k]|]) == VagueWords[k]
    ensures NeedsExpansion(query)
  {
    var w := VagueWords[k];
    var low := Lower(query);
    LowerSlice(query, i + 1, i + 1 + |w|);
    assert low[i..i + |w| + 2] == [low[i]] + low[i + 1..i + 1 + |w|] + [low[i + |w| + 1]];
    assert OccursAt(low, Padded(w), i);
    ContainsIff(low, Padded(w));
  }

  /** A vague query is never empty: it holds at least a word and two spaces. */
  lemma VagueIsNonEmpty(query: string)
    requires NeedsExpansion(query)
    ensures |query| >= 4
  {
    var k, i := MatchIsSpaceDelimited(query);
  }

  /** A query with no space character is never vague. */
  lemma NoSpaceNeverVague(query: string)
    requires forall i :: 0 <= i < |query| ==> query[i] != ' '
    ensures !NeedsExpansion(query)
  {
    if NeedsExpansion(query) {
      var k, i := MatchIsSpaceDelimited(query);
    }
  }

  /** Detection ignores case: upper-case letters match their lower-case forms. */
  lemma CaseInsensitive(query: string)
    ensures NeedsExpansion(query) == NeedsExpansion(Lower(query))
  {
    assert Lower(Lower(query)) == Lower(query);
  }

  lemma UpperCasePronounIsVague()
    ensures NeedsExpansion("What did HE say")
  {
    var low := Lower("What did HE say");
    assert low[8] == ' ' && low[9] == 'h' && low[10] == 'e' && low[11] == ' ';
    assert OccursAt(low, Padded(VagueWords[4]), 8);
    ContainsIff(low, Padded(VagueWords[4]));
  }

  /** The number of space characters in `s`. */
  function SpaceCount(s: string): nat
    decreases |s|
  {
    if |s| == 0 then 0 else (if s[0] == ' ' then 1 else 0) + SpaceCount(s[1..])
  }

  lemma {:induction false} TwoSpacesCounted(s: string, i: int, j: int)
    requires 0 <= i < j < |s| && s[i] == ' ' && s[j] == ' '
    ensures SpaceCount(s) >= 2
    decreases |s|
  {
    if i > 0 {
      TwoSpacesCounted(s[1..], i - 1, j - 1);
    } else {
      OneSpaceCounted(s[1..], j - 1);
    }
  }

  lemma {:induction false} OneSpaceCounted(s: string, j: int)
    requires 0 <= j < |s| && s[j] == ' '
    ensures SpaceCount(s) >= 1
    decreases |s|
  {
    if j > 0 {
      OneSpaceCounted(s[1..], j - 1);
    }
  }

  /** A match needs two spaces, so a query with at most one space is never
      vague: a pronoun that starts or ends the query, or that is followed by
      punctuation, or that sits inside a longer word, has no second space. */
  lemma AtMostOneSpaceNeverVague(query: string)
    requires SpaceCount(query) <= 1
    ensures !NeedsExpansion(query)
  {
    if NeedsExpansion(query) {
      var k, i := MatchIsSpaceDelimited(query);
      TwoSpacesCounted(query, i, i + |VagueWords[k]| + 1);
    }
  }

  /** A pronoun directly followed by punctuation is not matched. */
  lemma PronounBeforePunctuationIsNotVague()
    ensures !NeedsExpansion("about her?")
  {
    AtMostOneSpaceNeverVague("about her?");
  }

  /** A pronoun at the start or at the end of the query is not matched. */
  lemma PronounAtEitherEndIsNotVague()
    ensures !NeedsExpansion("she left")
    ensures !NeedsExpansion("ask them")
  {
    AtMostOneSpaceNeverVague("she left");
    AtMostOneSpaceNeverVague("ask them");
  }

  /** "they" is not one of the vague words, although the rewrite prompt names it. */
  lemma TheyIsNotVague()
    ensures "they" !in VagueWords
  {
  }

  /** `expandQuery`'s answer: the trimmed reply, unless there is no content or
      it trims to the empty string, in which case `currentQuery`. */
  function ExpandResult(currentQuery: string, reply: Option<string>): (r: string)
    ensures reply.Some? && Trim(reply.value) != "" ==> r == Trim(reply.value)
    ensures reply.None? || Trim(reply.value) == "" ==> r == currentQuery
  {
    if reply.Some? && Trim(reply.value) != "" then Trim(reply.value) else currentQuery
  }

  /** Expansion never empties a non-empty query, and its answer is never
      padded with whitespace unless the query itself was. */
  lemma ExpandNeverEmpty(currentQuery: string, reply: Option<string>)
    requires currentQuery != ""
    ensures ExpandResult(currentQuery, reply) != ""
    ensures ExpandResult(currentQuery, reply) == currentQuery
         || Trim(ExpandResult(currentQuery, reply)) == ExpandResult(currentQuery, reply)
  {
    if reply.Some? {
      TrimIdempotent(reply.value);
    }
  }
}
