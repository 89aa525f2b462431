/**
 * Filler sentences the avatar says while an answer is being prepared
 * (app/utils/fillerSentences.ts). Each `Math.random()` result is a parameter:
 * a real number in [0, 1).
 */
module FillerSentences {

  /** `fillerSentences`. */
  const Sentences: seq<string> := [
    "Let me think about that for a moment.",
    "I'm processing your question.",
    "That's an interesting question.",
    "I'm analyzing the information.",
    "Let me find the best answer for you.",
    "I'm searching through my knowledge base.",
    "I'm formulating a response.",
    "That's a good question.",
    "I'm gathering the relevant information.",
    "Let me check my sources.",
    "I'm thinking about the best way to answer.",
    "I'm preparing a comprehensive response.",
    "I'm organizing my thoughts.",
    "I'm considering different perspectives.",
    "I'm evaluating the information.",
    "I'm synthesizing the data.",
    "I'm formulating a detailed answer.",
    "I'm processing the context.",
    "I'm preparing to respond.",
    "I'm thinking about how to best explain this."
  ]

  /** A value `Math.random()` can return. */
  predicate IsRandom(r: real) {
    0.0 <= r < 1.0
  }

  /** No element occurs twice. */
  predicate Distinct(s: seq<string>) {
    forall i, j :: 0 <= i < j < |s| ==> s[i] != s[j]
  }

  /** `Math.floor(random * length)`: an index of a list of that length. */
  function RandomIndex(random: real, length: nat): (k: nat)
    requires IsRandom(random) && length > 0
    ensures k < length
  {
    var x := random * length as real;
    assert 0.0 <= x < length as real by {
      assert random * length as real <= 1.0 * length as real;
      assert random * length as real != length as real;
    }
    x.Floor
  }

  /** `getRandomFillerSentence`. */
  function GetRandomFillerSentence(random: real): (s: string)
    requires IsRandom(random)
    ensures s in Sentences
  {
    Sentences[RandomIndex(random, |Sentences|)]
  }

  /** Where a sentence stands in the list, told apart by its length and its
      fifth character. This is a proof device, not part of the program: it is
      a left inverse of indexing into the list, which shows that the twenty
      sentences are different without comparing them pairwise. */
  function SentenceIndex(s: string): int {
    if |s| < 5 then -1
    else
      var n, c := |s|, s[4];
      if n == 37 then 0
      else if n == 29 then 1
      else if n == 31 then (if c == '\'' then 2 else 14)
      else if n == 30 then 3
      else if n == 36 then 4
      else if n == 40 then 5
      else if n == 27 then (if c == 'f' then 6 else if c == 'o' then 12 else 17)
      else if n == 23 then 7
      else if n == 39 then (if c == 'g' then 8 else if c == 'p' then 11 else 13)
      else if n == 24 then 9
      else if n == 42 then 10
      else if n == 26 then 15
      else if n == 34 then 16
      else if n == 25 then 18
      else 19
  }

  /** The list holds twenty different sentences. */
  lemma SentencesDistinct()
    ensures |Sentences| == 20 && Distinct(Sentences)
  {
    forall i | 0 <= i < 20
      ensures SentenceIndex(Sentences[i]) == i
    {
    }
  }

  /** An element-wise distinct list counts every value at most once. */
  lemma {:induction false} DistinctCountsOnce(s: seq<string>)
    requires Distinct(s)
    ensures forall x :: multiset(s)[x] <= 1
    decreases |s|
  {
    if |s| > 0 {
      assert s == [s[0]] + s[1..];
      DistinctCountsOnce(s[1..]);
      assert s[0] !in s[1..];
    }
  }

  /** A list that counts every value at most once is element-wise distinct. */
  lemma CountsOnceDistinct(s: seq<string>)
    requires forall x :: multiset(s)[x] <= 1
    ensures Distinct(s)
  {
    forall i, j | 0 <= i < j < |s| ensures s[i] != s[j] {
      assert s == s[..j] + s[j..];
      assert s[i] in multiset(s[..j]) && s[j] in multiset(s[j..]);
      assert multiset(s)[s[j]] == multiset(s[..j])[s[j]] + multiset(s[j..])[s[j]];
    }
  }

  /** Pushing `available[k]` onto `drawn` and splicing it out of `available`
      moves one element between the two lists and loses nothing. */
  lemma MoveKeepsElements(drawn: seq<string>, available: seq<string>, k: nat)
    requires k < |available|
    ensures multiset(drawn + [available[k]]) + multiset(available[..k] + available[k + 1..])
         == multiset(drawn) + multiset(available)
  {
    assert available == available[..k] + [available[k]] + available[k + 1..];
  }

  /** Whatever is taken from the list without replacement is distinct and
      consists of list members. */
  lemma DrawnFromList(drawn: seq<string>)
    requires multiset(drawn) <= multiset(Sentences)
    ensures Distinct(drawn)
    ensures forall k :: 0 <= k < |drawn| ==> drawn[k] in Sentences
  {
    SentencesDistinct();
    DistinctCountsOnce(Sentences);
    CountsOnceDistinct(drawn);
    forall k | 0 <= k < |drawn| ensures drawn[k] in Sentences {
      assert drawn[k] in multiset(drawn);
      assert drawn[k] in multiset(Sentences);
    }
  }

  /** How many sentences a draw of `count` from a pool of `size` takes:
      `count`, but none for a count below one and no more than the pool holds. */
  function Draws(count: int, size: nat): (n: nat)
    ensures n <= size
    ensures count <= 0 ==> n == 0
    ensures 0 < count <= size ==> n == count
    ensures size <= count ==> n == size
  {
    if count <= 0 then 0
    else if count < size then count
    else size
  }

  /** The loop of `getRandomFillerSentences` over the copy `pool` of the list:
      each round draws an index with the next `Math.random()` result, pushes
      that sentence and splices it out of the pool, until `count` rounds have
      run or the pool is empty. */
  method DrawWithoutReplacement(pool: seq<string>, count: int, randoms: seq<real>) returns (sentences: seq<string>)
    requires |randoms| >= Draws(count, |pool|)
    requires forall k :: 0 <= k < |randoms| ==> IsRandom(randoms[k])
    ensures |sentences| == Draws(count, |pool|)
    ensures multiset(sentences) <= multiset(pool)
  {
    sentences := [];
    var available := pool;
    var i := 0;
    while i < count && |available| > 0
      invariant 0 <= i <= |pool|
      invariant i <= count || i == 0
      invariant |sentences| == i && |available| == |pool| - i
      invariant multiset(sentences) + multiset(available) == multiset(pool)
    {
      var randomIndex := RandomIndex(randoms[i], |available|);
      MoveKeepsElements(sentences, available, randomIndex);
      sentences := sentences + [available[randomIndex]];
      available := available[..randomIndex] + available[randomIndex + 1..];
      i := i + 1;
    }
  }

  /** `getRandomFillerSentences`: `count` different sentences of the list (all
      twenty when `count` is larger), drawn from a copy so that the list
      itself is left as it is. */
  method GetRandomFillerSentences(count: int, randoms: seq<real>) returns (sentences: seq<string>)
    requires |randoms| >= Draws(count, |Sentences|)
    requires forall k :: 0 <= k < |randoms| ==> IsRandom(randoms[k])
    ensures |sentences| == Draws(count, 20)
    ensures Distinct(sentences)
    ensures forall k :: 0 <= k < |sentences| ==> sentences[k] in Sentences
  {
    sentences := DrawWithoutReplacement(Sentences, count, randoms);
    DrawnFromList(sentences);
  }
}
