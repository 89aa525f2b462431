/**
 * The document upload endpoint (app/api/upload_doc/route.ts): the clean-up of
 * the language model's reply before it is parsed as JSON, the check that the
 * parse gave an array, the chunk ids, the metadata stored with each chunk and
 * the count the endpoint reports.
 *
 * The PDF loader, the text splitter, the language model, `JSON.parse`, the
 * embedding service and the MD5 hash are outside the model: their results
 * are parameters. The vector index is an object whose list of stored records
 * the endpoint extends.
 */
module UploadDoc {
  import opened Wrappers
  import opened Text

  // ---- Clean-up of the reply (lines 86-100) ----

  /** `message?.content?.trim() || ""`. */
  function TrimmedReply(content: Option<string>): string {
    if content.Some? then Trim(content.value) else ""
  }

  const Fence := "```"

  /** The text opens with "```json", the tag in any case. */
  predicate HasJsonTag(s: string) {
    StartsWith(s, Fence) && |s| >= 7 && Lower(s[3..7]) == "json"
  }

  /** `replace(/^```json\s*\/i, "")`: the tagged opening fence and the
      whitespace after it are dropped. */
  function DropOpeningFence(s: string): string {
    if HasJsonTag(s) then s[7 + WhitespaceRun(s, 7)..] else s
  }

  /** `replace(/```$/, "")`: a fence that ends the text is dropped. */
  function DropClosingFence(s: string): string {
    if EndsWith(s, Fence) then s[..|s| - 3] else s
  }

  /** Lines 89-91: the fences are stripped only from text that starts with
      "```" (the test for "```json" is subsumed by the test for "```"). */
  function StripFences(s: string): (r: string)
    ensures |r| <= |s|
    ensures !StartsWith(s, Fence) ==> r == s
  {
    if StartsWith(s, "```json") || StartsWith(s, Fence) then DropClosingFence(DropOpeningFence(s))
    else s
  }

  /** A reply fenced as "```json", the tag in any case, returns its body,
      with the whitespace after the tag dropped. */
  lemma {:induction false} StripJsonFence(tag: string, ws: string, body: string)
    requires |tag| == 4 && Lower(tag) == "json"
    requires AllWhitespace(ws)
    requires body == [] || !IsWhitespace(body[0])
    ensures StripFences(Fence + tag + ws + body + Fence) == body
  {
    var s := Fence + tag + ws + body + Fence;
    assert s[..3] == Fence;
    assert s[3..7] == tag;
    assert HasJsonTag(s);
    var rest := body + Fence;
    assert s[7..] == ws + rest;
    assert rest[0] == (if body == [] then '`' else body[0]);
    WhitespaceRunExact(s, 7, |ws|);
    assert s[7 + |ws|..] == rest;
    assert rest[|rest| - 3..] == Fence;
    assert rest[..|rest| - 3] == body;
  }

  /** A bare opening fence, not followed by "json", is kept; only a closing
      fence, when there is one, is dropped. */
  lemma BareFenceKept(s: string)
    requires StartsWith(s, Fence) && !HasJsonTag(s) && |s| >= 6
    ensures StartsWith(StripFences(s), Fence)
    ensures StripFences(s) == s || StripFences(s) + Fence == s
  {
    var r := StripFences(s);
    assert r == s || r == s[..|s| - 3];
    assert r[..3] == s[..3];
    if r != s {
      assert s[|s| - 3..] == Fence;
      assert r + Fence == s[..|s| - 3] + s[|s| - 3..];
    }
  }

  /** Lines 93-95: a lone object is wrapped into an array. The first test,
      that the text does not start with "[", never decides anything: text
      that starts with "{" does not start with "[". */
  function WrapLoneObject(s: string): (r: string)
    ensures StartsWith(s, "{") && EndsWith(s, "}") ==> r == "[" + s + "]"
    ensures !(StartsWith(s, "{") && EndsWith(s, "}")) ==> r == s
  {
    if !StartsWith(s, "[") && StartsWith(s, "{") && EndsWith(s, "}") then "[" + s + "]" else s
  }

  /** The character at `k` is a line feed that no backslash precedes. */
  predicate IsUnescapedNewline(s: string, k: int)
    requires 0 <= k < |s|
  {
    s[k] == '\n' && !(k > 0 && s[k - 1] == '\\')
  }

  /** `replace(/(?<!\\)\n/g, " ")`, scanning from index `i`. The look-behind
      reads the original text, so each character is decided on its own. */
  function NewlinesFrom(s: string, i: nat): (r: string)
    requires i <= |s|
    ensures |r| == |s| - i
    ensures forall k :: i <= k < |s| ==>
      r[k - i] == if IsUnescapedNewline(s, k) then ' ' else s[k]
    decreases |s| - i
  {
    if i == |s| then ""
    else [if IsUnescapedNewline(s, i) then ' ' else s[i]] + NewlinesFrom(s, i + 1)
  }

  function NewlinesToSpaces(s: string): (r: string)
    ensures |r| == |s|
    ensures forall k :: 0 <= k < |s| ==> r[k] == if IsUnescapedNewline(s, k) then ' ' else s[k]
  {
    NewlinesFrom(s, 0)
  }

  /** After the step no line feed is left that lacks a backslash before it,
      so the step changes nothing a second time. */
  lemma NewlinesIdempotent(s: string)
    ensures forall k :: 0 <= k < |s| ==> !IsUnescapedNewline(NewlinesToSpaces(s), k)
    ensures NewlinesToSpaces(NewlinesToSpaces(s)) == NewlinesToSpaces(s)
  {
    var r := NewlinesToSpaces(s);
    forall k | 0 <= k < |s| ensures !IsUnescapedNewline(r, k) {
      if k > 0 && r[k] == '\n' {
        assert s[k] == '\n';
        assert s[k - 1] == '\\';
        assert r[k - 1] == '\\';
      }
    }
  }

  /** The length of a trailing-comma match `,\s*` + `close` at index `i`. The
      greedy `\s*` cannot give back a character that helps, because `close`
      is not whitespace. */
  function CommaMatchAt(s: string, close: char, i: nat): Option<nat> {
    if i < |s| && s[i] == ',' then
      var n := WhitespaceRun(s, i + 1);
      if i + 1 + n < |s| && s[i + 1 + n] == close then Some(n + 2) else None
    else None
  }

  /** The text with commas and whitespace left out: what the trailing-comma
      steps cannot change. */
  function Skeleton(s: string): string
    decreases |s|
  {
    if s == [] then []
    else (if s[0] == ',' || IsWhitespace(s[0]) then [] else [s[0]]) + Skeleton(s[1..])
  }

  lemma {:induction false} SkeletonAppend(a: string, b: string)
    ensures Skeleton(a + b) == Skeleton(a) + Skeleton(b)
    decreases |a|
  {
    if a == [] {
      assert a + b == b;
    } else {
      assert (a + b)[0] == a[0];
      assert (a + b)[1..] == a[1..] + b;
      SkeletonAppend(a[1..], b);
    }
  }

  /** `replace(/,\s*` + `close` + `/g, close)`, scanning from index `i`. The
      output never grows, and only commas and whitespace are removed: the
      output has the input's skeleton. */
  function DropCommasFrom(s: string, close: char, i: nat): (r: string)
    requires i <= |s|
    requires close != ',' && !IsWhitespace(close)
    ensures |r| <= |s| - i
    ensures Skeleton(r) == Skeleton(s[i..])
    decreases |s| - i
  {
    if i == |s| then ""
    else
      match CommaMatchAt(s, close, i)
      case Some(n) =>
        var rest := DropCommasFrom(s, close, i + n);
        CommaMatchSkeleton(s, close, i, n);
        SkeletonAppend([close], rest);
        [close] + rest
      case None =>
        var rest := DropCommasFrom(s, close, i + 1);
        SkeletonStep(s, i, rest);
        [s[i]] + rest
  }

  /** A trailing-comma match has the skeleton of its closing character. */
  lemma CommaMatchSkeleton(s: string, close: char, i: nat, n: nat)
    requires close != ',' && !IsWhitespace(close)
    requires CommaMatchAt(s, close, i) == Some(n)
    ensures 2 <= n && i + n <= |s|
    ensures Skeleton(s[i..]) == [close] + Skeleton(s[i + n..])
  {
    assert s[i..] == s[i..i + n - 1] + ([close] + s[i + n..]) by {
      assert s[i + n - 1] == close;
    }
    SkeletonAppend(s[i..i + n - 1], [close] + s[i + n..]);
    WhitespaceSkeleton(s[i..i + n - 1]);
    SkeletonAppend([close], s[i + n..]);
  }

  /** Keeping the first character keeps its part of the skeleton. */
  lemma SkeletonStep(s: string, i: nat, rest: string)
    requires i < |s|
    requires Skeleton(rest) == Skeleton(s[i + 1..])
    ensures Skeleton([s[i]] + rest) == Skeleton(s[i..])
  {
    assert s[i..] == [s[i]] + s[i + 1..];
    SkeletonAppend([s[i]], s[i + 1..]);
    SkeletonAppend([s[i]], rest);
  }

  /** A comma followed by whitespace only has an empty skeleton. */
  lemma {:induction false} WhitespaceSkeleton(s: string)
    requires forall k :: 0 < k < |s| ==> IsWhitespace(s[k])
    requires s == [] || s[0] == ','
    ensures Skeleton(s) == []
    decreases |s|
  {
    if s != [] {
      assert AllWhitespace(s[1..]) by {
        forall k | 0 <= k < |s[1..]| ensures IsWhitespace(s[1..][k]) {
          assert s[1..][k] == s[k + 1];
        }
      }
      WhitespaceOnlySkeleton(s[1..]);
    }
  }

  lemma {:induction false} WhitespaceOnlySkeleton(s: string)
    requires AllWhitespace(s)
    ensures Skeleton(s) == []
    decreases |s|
  {
    if s != [] {
      assert AllWhitespace(s[1..]) by {
        forall k | 0 <= k < |s[1..]| ensures IsWhitespace(s[1..][k]) {
          assert s[1..][k] == s[k + 1];
        }
      }
      WhitespaceOnlySkeleton(s[1..]);
    }
  }

  function DropTrailingCommas(s: string, close: char): (r: string)
    requires close != ',' && !IsWhitespace(close)
    ensures |r| <= |s|
    ensures Skeleton(r) == Skeleton(s)
  {
    assert s[0..] == s;
    DropCommasFrom(s, close, 0)
  }

  /** A text whose characters differ only where both are whitespace has the
      same skeleton. */
  lemma {:induction false} SkeletonUpToWhitespace(a: string, b: string)
    requires |a| == |b|
    requires forall k :: 0 <= k < |a| ==> a[k] == b[k] || (IsWhitespace(a[k]) && IsWhitespace(b[k]))
    ensures Skeleton(a) == Skeleton(b)
    decreases |a|
  {
    if a != [] {
      forall k | 0 <= k < |a| - 1
        ensures a[1..][k] == b[1..][k] || (IsWhitespace(a[1..][k]) && IsWhitespace(b[1..][k]))
      {
        assert a[1..][k] == a[k + 1] && b[1..][k] == b[k + 1];
      }
      SkeletonUpToWhitespace(a[1..], b[1..]);
    }
  }

  /** Lines 86-100 in order. */
  function CleanReply(content: Option<string>): string {
    var text := NewlinesToSpaces(WrapLoneObject(StripFences(TrimmedReply(content))));
    DropTrailingCommas(DropTrailingCommas(text, '}'), ']')
  }

  /** Once the fences are stripped and a lone object wrapped, the rest of the
      clean-up changes only commas and whitespace: every other character
      survives, in order. */
  lemma CleanReplySkeleton(content: Option<string>)
    ensures Skeleton(CleanReply(content)) ==
      Skeleton(WrapLoneObject(StripFences(TrimmedReply(content))))
    ensures |CleanReply(content)| <= |WrapLoneObject(StripFences(TrimmedReply(content)))|
  {
    var w := WrapLoneObject(StripFences(TrimmedReply(content)));
    SkeletonUpToWhitespace(w, NewlinesToSpaces(w));
  }

  /** A fenced lone object is not wrapped: the line feed before the closing
      fence is still there when the text is tested for a final "}". */
  lemma FencedObjectNotWrapped(reply: string)
    requires reply == "```json\n{}\n```"
    ensures CleanReply(Some(reply)) == "{} "
  {
    FencedReplyTrimmed(reply);
    FencedObjectStripped();
    FencedObjectSpaced();
    SpacedObjectKept();
    CleanReplyThrough(Some(reply), reply, "{}\n", "{} ");
  }

  lemma FencedReplyTrimmed(reply: string)
    requires reply == "```json\n{}\n```"
    ensures TrimmedReply(Some(reply)) == reply
  {
    TrimOfTrimmed(reply);
  }

  lemma SpacedObjectKept()
    ensures DropTrailingCommas(DropTrailingCommas("{} ", '}'), ']') == "{} "
  {
    NoCommaUnchanged("{} ", '}');
    NoCommaUnchanged("{} ", ']');
  }

  /** The clean-up, through given texts for its first steps. */
  lemma CleanReplyThrough(content: Option<string>, trimmed: string, stripped: string, spaced: string)
    requires TrimmedReply(content) == trimmed
    requires StripFences(trimmed) == stripped
    requires NewlinesToSpaces(WrapLoneObject(stripped)) == spaced
    ensures CleanReply(content) == DropTrailingCommas(DropTrailingCommas(spaced, '}'), ']')
  {
  }

  lemma FencedObjectStripped()
    ensures StripFences("```json\n{}\n```") == "{}\n"
  {
    var s := "```json\n{}\n```";
    assert s[3..7] == "json";
    WhitespaceRunExact(s, 7, 1);
    assert DropOpeningFence(s) == s[8..];
  }

  lemma FencedObjectSpaced()
    ensures NewlinesToSpaces(WrapLoneObject("{}\n")) == "{} "
  {
    var s := "{}\n";
    assert WrapLoneObject(s) == s;
    assert !IsUnescapedNewline(s, 0) && !IsUnescapedNewline(s, 1);
    assert IsUnescapedNewline(s, 2);
  }

  /** A trailing-comma step leaves a text without commas as it is. */
  lemma NoCommaUnchanged(s: string, close: char)
    requires close != ',' && !IsWhitespace(close)
    requires forall k :: 0 <= k < |s| ==> s[k] != ','
    ensures DropTrailingCommas(s, close) == s
  {
    NoCommaUnchangedFrom(s, close, 0);
  }

  lemma {:induction false} NoCommaUnchangedFrom(s: string, close: char, i: nat)
    requires i <= |s| && close != ',' && !IsWhitespace(close)
    requires forall k :: 0 <= k < |s| ==> s[k] != ','
    ensures DropCommasFrom(s, close, i) == s[i..]
    decreases |s| - i
  {
    if i < |s| {
      NoCommaUnchangedFrom(s, close, i + 1);
    }
  }

  /** A comma before a closing bracket goes, with the whitespace between them. */
  lemma TrailingCommaDropped()
    ensures DropTrailingCommas("[1, \n]", ']') == "[1]"
  {
    var s := "[1, \n]";
    assert CommaMatchAt(s, ']', 0).None? && CommaMatchAt(s, ']', 1).None?;
    assert WhitespaceRun(s, 3) == 2;
    assert CommaMatchAt(s, ']', 2) == Some(4);
    assert DropCommasFrom(s, ']', 2) == "]" + DropCommasFrom(s, ']', 6);
  }
  /** A trailing-comma step shortens the text exactly when a comma, optional
      whitespace and the closing character stand somewhere in it: every match
      loses its comma, and where there is none nothing changes. */
  lemma DropShrinksIff(s: string, close: char)
    requires close != ',' && !IsWhitespace(close)
    ensures |DropTrailingCommas(s, close)| < |s| <==>
      exists i :: 0 <= i < |s| && CommaMatchAt(s, close, i).Some?
  {
    if exists i :: 0 <= i < |s| && CommaMatchAt(s, close, i).Some? {
      var j :| 0 <= j < |s| && CommaMatchAt(s, close, j).Some?;
      MatchShrinks(s, close, 0, j);
    } else {
      NoMatchUnchangedFrom(s, close, 0);
    }
  }

  /** A match at `j` or after shortens the scan from `i`. */
  lemma {:induction false} MatchShrinks(s: string, close: char, i: nat, j: nat)
    requires close != ',' && !IsWhitespace(close)
    requires i <= j < |s| && CommaMatchAt(s, close, j).Some?
    ensures |DropCommasFrom(s, close, i)| < |s| - i
    decreases j - i
  {
    if CommaMatchAt(s, close, i).None? {
      MatchShrinks(s, close, i + 1, j);
    }
  }

  /** With no match from `i` on, the scan copies the rest of the text. */
  lemma {:induction false} NoMatchUnchangedFrom(s: string, close: char, i: nat)
    requires close != ',' && !IsWhitespace(close) && i <= |s|
    requires forall k :: i <= k < |s| ==> CommaMatchAt(s, close, k).None?
    ensures DropCommasFrom(s, close, i) == s[i..]
    decreases |s| - i
  {
    if i < |s| {
      NoMatchUnchangedFrom(s, close, i + 1);
      assert s[i..] == [s[i]] + s[i + 1..];
    }
  }

  /** Up to the first comma the text is copied; a comma that starts a match
      goes, with the whitespace after it, and the scan goes on after the
      closing character. */
  lemma FirstMatchDropped(s: string, close: char, j: nat)
    requires close != ',' && !IsWhitespace(close)
    requires j < |s| && CommaMatchAt(s, close, j).Some?
    requires forall k :: 0 <= k < j ==> s[k] != ','
    ensures var n := CommaMatchAt(s, close, j).value;
      DropTrailingCommas(s, close) == s[..j] + [close] + DropCommasFrom(s, close, j + n)
  {
    CopiedUpTo(s, close, 0, j);
  }

  /** Characters other than commas are copied as they are. */
  lemma {:induction false} CopiedUpTo(s: string, close: char, i: nat, j: nat)
    requires close != ',' && !IsWhitespace(close)
    requires i <= j <= |s|
    requires forall k :: 0 <= k < j ==> s[k] != ','
    ensures DropCommasFrom(s, close, i) == s[i..j] + DropCommasFrom(s, close, j)
    decreases j - i
  {
    if i < j {
      CopyStep(s, close, i);
      CopiedUpTo(s, close, i + 1, j);
      ConsSlice(s, i, j, DropCommasFrom(s, close, j));
    }
  }

  lemma ConsSlice(s: string, i: nat, j: nat, rest: string)
    requires i < j <= |s|
    ensures [s[i]] + (s[i + 1..j] + rest) == s[i..j] + rest
  {
    assert s[i..j] == [s[i]] + s[i + 1..j];
    AppendAssociative([s[i]], s[i + 1..j], rest);
  }

  lemma CopyStep(s: string, close: char, i: nat)
    requires close != ',' && !IsWhitespace(close)
    requires i < |s| && s[i] != ','
    ensures DropCommasFrom(s, close, i) == [s[i]] + DropCommasFrom(s, close, i + 1)
  {
  }

  /** The replacement is one pass: of two commas before a closing brace only
      the second goes, so a trailing comma can remain. */
  lemma SinglePass(s: string)
    requires s == ",,}"
    ensures DropTrailingCommas(s, '}') == ",}"
  {
    assert CommaMatchAt(s, '}', 0).None?;
    assert CommaMatchAt(s, '}', 1) == Some(2);
    assert DropCommasFrom(s, '}', 1) == "}" + DropCommasFrom(s, '}', 3);
  }


  // ---- Chunk ids (lines 27, 113) ----

  predicate IsDigit(c: char) {
    '0' <= c <= '9'
  }

  /** The decimal rendering of `n`, as a template literal writes a number. */
  function NatToString(n: nat): (r: string)
    ensures |r| >= 1
    ensures forall k :: 0 <= k < |r| ==> IsDigit(r[k])
  {
    if n < 10 then [('0' as int + n) as char]
    else NatToString(n / 10) + [('0' as int + n % 10) as char]
  }

  /** The number a string of decimal digits denotes. */
  function DecimalValue(s: string): nat
    requires forall k :: 0 <= k < |s| ==> IsDigit(s[k])
  {
    if s == [] then 0
    else
      assert IsDigit(s[|s| - 1]);
      DecimalValue(s[..|s| - 1]) * 10 + (s[|s| - 1] as int - '0' as int)
  }

  /** Reading the rendering back gives the number. */
  lemma {:induction false} DecimalRoundTrip(n: nat)
    ensures DecimalValue(NatToString(n)) == n
  {
    if n >= 10 {
      var r := NatToString(n);
      assert r[..|r| - 1] == NatToString(n / 10);
      DecimalRoundTrip(n / 10);
    }
  }

  /** Different numbers render differently. */
  lemma NatToStringInjective(m: nat, n: nat)
    ensures NatToString(m) == NatToString(n) <==> m == n
  {
    if NatToString(m) == NatToString(n) {
      DecimalRoundTrip(m);
      DecimalRoundTrip(n);
    }
  }

  /** `chunk_${fileHash}_${i}_${j}`. */
  function ChunkId(hash: string, i: nat, j: nat): string {
    "chunk_" + hash + "_" + NatToString(i) + "_" + NatToString(j)
  }

  /** The index of the first "_" in `s`, or `|s|` when there is none. */
  function FirstUnderscore(s: string): (n: nat)
    ensures n <= |s|
  {
    if s == [] then 0 else if s[0] == '_' then 0 else 1 + FirstUnderscore(s[1..])
  }

  lemma {:induction false} FirstUnderscoreAfterDigits(a: string, b: string)
    requires forall k :: 0 <= k < |a| ==> IsDigit(a[k])
    ensures FirstUnderscore(a + "_" + b) == |a|
    decreases |a|
  {
    var x := a + "_" + b;
    if a != [] {
      assert x[0] == a[0];
      assert x[1..] == a[1..] + "_" + b;
      FirstUnderscoreAfterDigits(a[1..], b);
    }
  }

  /** Splitting at the first "_": two digit strings joined by "_" are equal
      only when both parts are. */
  lemma SplitAtUnderscore(a: string, b: string, c: string, d: string)
    requires forall k :: 0 <= k < |a| ==> IsDigit(a[k])
    requires forall k :: 0 <= k < |c| ==> IsDigit(c[k])
    requires a + "_" + b == c + "_" + d
    ensures a == c && b == d
  {
    var x := a + "_" + b;
    FirstUnderscoreAfterDigits(a, b);
    FirstUnderscoreAfterDigits(c, d);
    assert a == x[..|a|] == c;
    assert b == x[|a| + 1..] == d;
  }

  /** Chunk ids of hashes of one length are equal exactly when the hashes,
      the split indices and the item indices are. With one file's hash,
      distinct (i, j) pairs give distinct ids. */
  lemma ChunkIdInjective(hash: string, i: nat, j: nat, hash': string, i': nat, j': nat)
    requires |hash| == |hash'|
    ensures ChunkId(hash, i, j) == ChunkId(hash', i', j') <==> hash == hash' && i == i' && j == j'
  {
    var x := ChunkId(hash, i, j);
    var y := ChunkId(hash', i', j');
    if x == y {
      var p := 7 + |hash|;
      assert x[6..p - 1] == hash && y[6..p - 1] == hash';
      assert x[p..] == NatToString(i) + "_" + NatToString(j);
      assert y[p..] == NatToString(i') + "_" + NatToString(j');
      SplitAtUnderscore(NatToString(i), NatToString(j), NatToString(i'), NatToString(j'));
      NatToStringInjective(i, i');
      NatToStringInjective(j, j');
    }
  }

  // ---- Parsed chunks and their metadata (lines 102-109, 131-135) ----

  /** A value of JavaScript as `JSON.parse` produces it, plus `undefined`, the
      value of a missing property. Numbers are kept as integers. */
  datatype Value =
    | Undefined
    | Null
    | Bool(b: bool)
    | Number(n: int)
    | Str(s: string)
    | Arr(items: seq<Value>)
    | Obj(fields: map<string, Value>)

  /** What `JSON.parse` did with the cleaned reply: threw, or gave a value. */
  datatype Parsed = Unparsable | Parsed(value: Value)

  /** `v[name]` for a value that is not `null` or `undefined`. */
  function Property(v: Value, name: string): Value {
    if v.Obj? && name in v.fields then v.fields[name] else Undefined
  }

  /** The properties `...v` copies in an object literal, for an object or a
      value without properties. */
  function SpreadProperties(v: Value): map<string, Value> {
    if v.Obj? then v.fields else map[]
  }

  /** `file.name || "uploaded_pdf"`. */
  function SourceName(fileName: string): (r: string)
    ensures r != []
    ensures fileName != [] ==> r == fileName
  {
    if fileName == [] then "uploaded_pdf" else fileName
  }

  /** `{ ...chunk.metadata, text: chunk.text, source: file.name || "uploaded_pdf" }`:
      the chunk's own metadata, where "text" and "source" always win. */
  function MergeMetadata(metadata: Value, text: Value, fileName: string): (m: map<string, Value>)
    ensures m.Keys == SpreadProperties(metadata).Keys + {"text", "source"}
    ensures m["text"] == text && m["source"] == Str(SourceName(fileName))
    ensures forall k :: k in SpreadProperties(metadata) && k != "text" && k != "source" ==>
      m[k] == SpreadProperties(metadata)[k]
  {
    SpreadProperties(metadata)["text" := text]["source" := Str(SourceName(fileName))]
  }

  /** The metadata stored with one parsed chunk. */
  function ChunkMetadata(chunk: Value, fileName: string): map<string, Value> {
    MergeMetadata(Property(chunk, "metadata"), Property(chunk, "text"), fileName)
  }

  // ---- The vector index ----

  /** One stored record: its id and its metadata. The embedding is the
      embedding service's and is not modelled. */
  datatype Record = Record(id: string, metadata: map<string, Value>)

  /** The vector index "knowledge-base", as the list of records upserted into it. */
  class VectorIndex {
    var records: seq<Record>

    constructor ()
      ensures records == []
    {
      records := [];
    }

    /** `pineconeIndex.upsert([record])`. */
    method Upsert(record: Record)
      modifies this
      ensures records == old(records) + [record]
    {
      records := records + [record];
    }
  }

  // ---- The endpoint (lines 15-175) ----

  datatype UploadedFile = UploadedFile(name: string, mimeType: string)

  datatype UploadResponse =
    | Uploaded(chunksUploaded: nat)
    | Failed(status: nat, error: string)

  const InvalidFileError := "Invalid or missing PDF file"
  const NoTextError := "No text content extracted from PDF."
  const ParseError := "Failed to parse JSON from GPT."
  /** What reading `.text` of a `null` chunk throws. */
  const NullChunkError := "Cannot read properties of null (reading 'text')"

  /** The catch-all handler: status 500 with the error's message, or with a
      default text for an error without one. */
  function Caught(message: string): (r: UploadResponse)
    ensures r.Failed? && r.status == 500 && r.error != []
    ensures message != [] ==> r.error == message
  {
    Failed(500, if message == [] then "Failed to upload and parse document." else message)
  }

  /** The number of leading items that are not `null`. */
  function NonNullPrefix(items: seq<Value>): (n: nat)
    ensures n <= |items|
    ensures forall j :: 0 <= j < n ==> !items[j].Null?
    ensures n < |items| ==> items[n].Null?
  {
    if items == [] || items[0].Null? then 0 else 1 + NonNullPrefix(items[1..])
  }

  /** The records stored for the first `n` items of the `i`-th reply. */
  function ItemRecords(hash: string, fileName: string, i: nat, items: seq<Value>, n: nat): (recs: seq<Record>)
    requires n <= |items|
    ensures |recs| == n
  {
    seq(n, (j: int) requires 0 <= j < n => Record(ChunkId(hash, i, j), ChunkMetadata(items[j], fileName)))
  }

  /** The j-th record is the j-th item's, under its id. */
  lemma ItemRecordsAt(hash: string, fileName: string, i: nat, items: seq<Value>, n: nat)
    requires n <= |items|
    ensures forall j :: 0 <= j < n ==>
      ItemRecords(hash, fileName, i, items, n)[j] == Record(ChunkId(hash, i, j), ChunkMetadata(items[j], fileName))
  {
  }

  /** Storing one more item appends its record. */
  lemma ItemRecordsNext(hash: string, fileName: string, i: nat, items: seq<Value>, n: nat)
    requires n < |items|
    ensures ItemRecords(hash, fileName, i, items, n + 1) ==
      ItemRecords(hash, fileName, i, items, n) + [Record(ChunkId(hash, i, n), ChunkMetadata(items[n], fileName))]
  {
    var longer := ItemRecords(hash, fileName, i, items, n + 1);
    var shorter := ItemRecords(hash, fileName, i, items, n);
    assert forall j :: 0 <= j < n ==> longer[j] == shorter[j];
  }

  /** Where the chunk loop stands after some replies: running, with the
      records stored so far and the number of items collected, or stopped
      by an exception, with the records stored before it and the response. */
  datatype LoopState =
    | Running(records: seq<Record>, count: nat)
    | Stopped(records: seq<Record>, response: UploadResponse)

  /** The turn of the `i`-th reply (lines 102-142): a reply that is not an
      array stops the loop; otherwise its items are stored up to the first
      `null` one, which stops the loop too. */
  function Turn(hash: string, fileName: string, i: nat, st: LoopState, result: Parsed): LoopState {
    if st.Stopped? then st
    else if !(result.Parsed? && result.value.Arr?) then Stopped(st.records, Caught(ParseError))
    else
      var items := result.value.items;
      var n := NonNullPrefix(items);
      var records := st.records + ItemRecords(hash, fileName, i, items, n);
      if n < |items| then Stopped(records, Caught(NullChunkError))
      else Running(records, st.count + |items|)
  }

  /** The state after the turns of the first `i` replies. */
  function StateAfter(hash: string, fileName: string, results: seq<Parsed>, i: nat): LoopState
    requires i <= |results|
  {
    if i == 0 then Running([], 0)
    else Turn(hash, fileName, i - 1, StateAfter(hash, fileName, results, i - 1), results[i - 1])
  }

  /** The records stored and the response, once every reply has had its
      turn: a loop still running reports the items collected plus one
      (line 170). */
  datatype Run = Run(records: seq<Record>, response: UploadResponse)

  function Finish(st: LoopState): Run {
    match st
    case Running(records, count) => Run(records, Uploaded(count + 1))
    case Stopped(records, response) => Run(records, response)
  }

  /** The reply to the `i`-th chunk's prompt, cleaned (lines 86-100) and
      parsed (line 103). */
  function ReplyParser(reply: nat -> Option<string>, parse: string -> Parsed): nat -> Parsed {
    (i: nat) => parse(CleanReply(reply(i)))
  }

  /** The parse results of the replies to the first `chunks` prompts. */
  function ParseResults(chunks: nat, parsed: nat -> Parsed): (results: seq<Parsed>)
    ensures |results| == chunks
    ensures forall i :: 0 <= i < chunks ==> results[i] == parsed(i)
  {
    seq(chunks, (i: int) requires 0 <= i => parsed(i))
  }

  /** The whole endpoint: the records it stores and its response. */
  function UploadOutcome(file: Option<UploadedFile>, hash: string, pages: seq<string>,
                         chunks: nat, reply: nat -> Option<string>, parse: string -> Parsed): Run
  {
    if file.None? || file.value.mimeType != "application/pdf" then Run([], Failed(400, InvalidFileError))
    else if Trim(Join(pages, "\n")) == "" then Run([], Caught(NoTextError))
    else Finish(StateAfter(hash, file.value.name, ParseResults(chunks, ReplyParser(reply, parse)), chunks))
  }

  /** A stopped loop stays as it stopped: no later reply stores anything. */
  lemma {:induction false} StoppedStays(hash: string, fileName: string, results: seq<Parsed>, i: nat, k: nat)
    requires i <= k <= |results|
    requires StateAfter(hash, fileName, results, i).Stopped?
    ensures StateAfter(hash, fileName, results, k) == StateAfter(hash, fileName, results, i)
    decreases k - i
  {
    if k > i {
      StoppedStays(hash, fileName, results, i, k - 1);
    }
  }

  /** A loop stopped after `i` replies ends with what it had stored then. */
  lemma StoppedFinish(hash: string, fileName: string, results: seq<Parsed>, i: nat)
    requires i <= |results|
    requires StateAfter(hash, fileName, results, i).Stopped?
    ensures var st := StateAfter(hash, fileName, results, i);
      Finish(StateAfter(hash, fileName, results, |results|)) == Run(st.records, st.response)
  {
    StoppedStays(hash, fileName, results, i, |results|);
  }

  /** Every one of the first `i` replies parsed to an array without `null`
      items. */
  predicate AllArraysBefore(results: seq<Parsed>, i: nat)
    requires i <= |results|
  {
    forall k :: 0 <= k < i ==>
      results[k].Parsed? && results[k].value.Arr? && NonNullPrefix(results[k].value.items) == |results[k].value.items|
  }

  /** The loop is still running exactly when every reply so far was an array
      without `null` items; a running loop has stored one record per item
      collected, and a stopped one has failed with status 500. */
  lemma {:induction false} StateAfterShape(hash: string, fileName: string, results: seq<Parsed>, i: nat)
    requires i <= |results|
    ensures var st := StateAfter(hash, fileName, results, i);
      && (st.Running? <==> AllArraysBefore(results, i))
      && (st.Running? ==> |st.records| == st.count)
      && (st.Stopped? ==> st.response.Failed? && st.response.status == 500)
  {
    if i > 0 {
      StateAfterShape(hash, fileName, results, i - 1);
    }
  }

  /** The reported count is one more than the number of records stored: the
      extra one is the people summary, which is never stored because the set
      of people is never filled. */
  lemma ReportedCount(file: Option<UploadedFile>, hash: string, pages: seq<string>,
                      chunks: nat, reply: nat -> Option<string>, parse: string -> Parsed)
    ensures var run := UploadOutcome(file, hash, pages, chunks, reply, parse);
      run.response.Uploaded? ==> run.response.chunksUploaded == |run.records| + 1
  {
    if file.Some? {
      StateAfterShape(hash, file.value.name, ParseResults(chunks, ReplyParser(reply, parse)), chunks);
    }
  }

  /** The chunk loop succeeds exactly when every reply parsed to an array
      with no `null` item; otherwise it fails with status 500. */
  lemma ChunkLoopSucceedsIff(hash: string, fileName: string, results: seq<Parsed>)
    ensures var run := Finish(StateAfter(hash, fileName, results, |results|));
      && (run.response.Uploaded? <==> AllArraysBefore(results, |results|))
      && (run.response.Failed? ==> run.response.status == 500)
  {
    StateAfterShape(hash, fileName, results, |results|);
  }

  /** Every record has the id of some item of a reply before the `i`-th. */
  ghost predicate IdsBefore(recs: seq<Record>, hash: string, i: nat) {
    forall a :: 0 <= a < |recs| ==> IsIdBefore(recs[a].id, hash, i)
  }

  /** `id` is the id of some item of a reply before the `i`-th. */
  ghost predicate IsIdBefore(id: string, hash: string, i: nat) {
    exists i': nat, j: nat :: i' < i && id == ChunkId(hash, i', j)
  }

  predicate DistinctIds(recs: seq<Record>) {
    forall a, b :: 0 <= a < b < |recs| ==> recs[a].id != recs[b].id
  }

  /** The records of one reply have distinct ids, each naming its item. */
  lemma ItemRecordIds(hash: string, fileName: string, i: nat, items: seq<Value>, n: nat)
    requires n <= |items|
    ensures DistinctIds(ItemRecords(hash, fileName, i, items, n))
    ensures forall a :: 0 <= a < n ==> ItemRecords(hash, fileName, i, items, n)[a].id == ChunkId(hash, i, a)
  {
    var recs := ItemRecords(hash, fileName, i, items, n);
    ItemRecordsAt(hash, fileName, i, items, n);
    forall a, b | 0 <= a < b < |recs| ensures recs[a].id != recs[b].id {
      ChunkIdInjective(hash, i, a, hash, i, b);
    }
  }

  /** The records of the `i`-th reply, after records of earlier replies,
      keep the ids distinct. */
  lemma AppendReplyIds(hash: string, i: nat, before: seq<Record>, recs: seq<Record>)
    requires DistinctIds(before) && IdsBefore(before, hash, i)
    requires DistinctIds(recs)
    requires forall a :: 0 <= a < |recs| ==> recs[a].id == ChunkId(hash, i, a)
    ensures DistinctIds(before + recs) && IdsBefore(before + recs, hash, i + 1)
  {
    var all := before + recs;
    forall a, b | 0 <= a < |before| <= b < |all| ensures all[a].id != all[b].id {
      assert all[a] == before[a] && all[b] == recs[b - |before|];
      var i': nat, j': nat :| i' < i && before[a].id == ChunkId(hash, i', j');
      ChunkIdInjective(hash, i', j', hash, i, b - |before|);
    }
    forall a | 0 <= a < |all| ensures IsIdBefore(all[a].id, hash, i + 1) {
      if a < |before| {
        assert all[a] == before[a];
        var i': nat, j': nat :| i' < i && before[a].id == ChunkId(hash, i', j');
        assert i' < i + 1;
      } else {
        assert all[a] == recs[a - |before|];
        assert all[a].id == ChunkId(hash, i, a - |before|);
      }
    }
  }

  /** An id of a reply before the `i`-th is one before the `i + 1`-th. */
  lemma IdsBeforeLater(recs: seq<Record>, hash: string, i: nat)
    requires IdsBefore(recs, hash, i)
    ensures IdsBefore(recs, hash, i + 1)
  {
    forall a | 0 <= a < |recs| ensures IsIdBefore(recs[a].id, hash, i + 1) {
      var i': nat, j': nat :| i' < i && recs[a].id == ChunkId(hash, i', j');
      assert i' < i + 1;
    }
  }

  /** No two records stored by the first `i` turns share an id. */
  lemma {:induction false} StoredIdsDistinct(hash: string, fileName: string, results: seq<Parsed>, i: nat)
    requires i <= |results|
    ensures DistinctIds(StateAfter(hash, fileName, results, i).records)
    ensures IdsBefore(StateAfter(hash, fileName, results, i).records, hash, i)
  {
    if i > 0 {
      StoredIdsDistinct(hash, fileName, results, i - 1);
      var st := StateAfter(hash, fileName, results, i - 1);
      var result := results[i - 1];
      if st.Running? && result.Parsed? && result.value.Arr? {
        var items := result.value.items;
        var n := NonNullPrefix(items);
        ItemRecordIds(hash, fileName, i - 1, items, n);
        AppendReplyIds(hash, i - 1, st.records, ItemRecords(hash, fileName, i - 1, items, n));
      } else {
        IdsBeforeLater(st.records, hash, i - 1);
      }
    }
  }

  /** No two records the endpoint stores share an id. */
  lemma UploadIdsDistinct(file: Option<UploadedFile>, hash: string, pages: seq<string>,
                          chunks: nat, reply: nat -> Option<string>, parse: string -> Parsed)
    ensures DistinctIds(UploadOutcome(file, hash, pages, chunks, reply, parse).records)
  {
    if file.Some? {
      StoredIdsDistinct(hash, file.value.name, ParseResults(chunks, ReplyParser(reply, parse)), chunks);
    }
  }

  /** The inner loop of lines 111-140: one record per item, stopping at the
      first `null` item, where reading its text throws. */
  method StoreItems(index: VectorIndex, hash: string, name: string, i: nat, items: seq<Value>)
    returns (complete: bool)
    modifies index
    ensures complete <==> NonNullPrefix(items) == |items|
    ensures index.records == old(index.records) + ItemRecords(hash, name, i, items, NonNullPrefix(items))
  {
    var j := 0;
    while j < |items|
      invariant 0 <= j <= |items|
      invariant forall k :: 0 <= k < j ==> !items[k].Null?
      invariant index.records == old(index.records) + ItemRecords(hash, name, i, items, j)
    {
      var chunk := items[j];
      var id := ChunkId(hash, i, j);
      if chunk.Null? {
        assert NonNullPrefix(items) == j;
        return false;
      }
      index.Upsert(Record(id, ChunkMetadata(chunk, name)));
      ItemRecordsNext(hash, name, i, items, j);
      j := j + 1;
    }
    assert NonNullPrefix(items) == |items|;
    return true;
  }

  lemma AppendAssociative<T>(a: seq<T>, b: seq<T>, c: seq<T>)
    ensures a + (b + c) == (a + b) + c
  {
  }

  /** One turn of the outer loop (lines 102-142) on the parsed reply: it
      stores the reply's items and hands them back to be collected, or stops
      the loop with the response of the exception thrown. */
  method ProcessReply(index: VectorIndex, hash: string, name: string, i: nat, parsed: Parsed,
                      ghost base: seq<Record>, ghost stored: seq<Record>, ghost count: nat)
    returns (stop: Option<UploadResponse>, items: seq<Value>)
    requires index.records == base + stored
    modifies index
    ensures var st := Turn(hash, name, i, Running(stored, count), parsed);
      && index.records == base + st.records
      && (st.Running? <==> stop.None?)
      && (st.Stopped? ==> stop == Some(st.response))
      && (st.Running? ==> st.count == count + |items|)
  {
    if !(parsed.Parsed? && parsed.value.Arr?) {
      return Some(Caught(ParseError)), [];
    }
    items := parsed.value.items;
    ghost var recs := ItemRecords(hash, name, i, items, NonNullPrefix(items));
    var complete := StoreItems(index, hash, name, i, items);
    AppendAssociative(base, stored, recs);
    if !complete {
      return Some(Caught(NullChunkError)), items;
    }
    return None, items;
  }

  /** The outer loop of lines 44-143: each reply is cleaned and parsed, its
      items stored, and the items collected to be counted. */
  method ProcessChunks(index: VectorIndex, hash: string, name: string,
                       chunks: nat, parsedReply: nat -> Parsed)
    returns (response: UploadResponse)
    modifies index
    ensures var run := Finish(StateAfter(hash, name, ParseResults(chunks, parsedReply), chunks));
      response == run.response && index.records == old(index.records) + run.records
  {
    ghost var results := ParseResults(chunks, parsedReply);
    ghost var stored: seq<Record> := [];
    var allChunks: seq<Value> := [];
    var i := 0;
    while i < chunks
      invariant 0 <= i <= chunks
      invariant index.records == old(index.records) + stored
      invariant StateAfter(hash, name, results, i) == Running(stored, |allChunks|)
    {
      var parsed := parsedReply(i);
      assert parsed == results[i];
      ghost var st := Turn(hash, name, i, Running(stored, |allChunks|), parsed);
      assert StateAfter(hash, name, results, i + 1) == st;
      var stop, items := ProcessReply(index, hash, name, i, parsed, old(index.records), stored, |allChunks|);
      if stop.Some? {
        StoppedFinish(hash, name, results, i + 1);
        return stop.value;
      }
      stored := st.records;
      allChunks := allChunks + items;
      i := i + 1;
    }
    return Uploaded(|allChunks| + 1);
  }

  /** `POST`: the records upserted and the response are those of
      `UploadOutcome`. */
  method Post(index: VectorIndex, file: Option<UploadedFile>, hash: string, pages: seq<string>,
              chunks: seq<string>, reply: nat -> Option<string>, parse: string -> Parsed)
    returns (response: UploadResponse)
    modifies index
    ensures var run := UploadOutcome(file, hash, pages, |chunks|, reply, parse);
      response == run.response && index.records == old(index.records) + run.records
  {
    if file.None? || file.value.mimeType != "application/pdf" {
      return Failed(400, InvalidFileError);
    }
    var fullText := Join(pages, "\n");
    if Trim(fullText) == "" {
      return Caught(NoTextError);
    }
    response := ProcessChunks(index, hash, file.value.name, |chunks|, ReplyParser(reply, parse));
  }
}
