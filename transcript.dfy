/** The transcript formatter `formatMessageText` of the chat client: one raw
    message text becomes a query label followed by bold, highlighted, bullet
    and plain pieces, or, when the text is not a query/response pair, the
    whole text unchanged.  The rendered tree mirrors the JSX the formatter
    returns, without its styling. */
module Transcript {
  import opened JsString

  /** The separator between the query and the response of an exchange. */
  const ResponseSeparator: string := "\nResponse: "
  /** The label in front of a query. */
  const QueryPrefix: string := "Query: "

  /** One line of an unmarked chunk: a bullet (the `Flex` with a dot) or a
      plain line, followed by a line break unless it is the chunk's last. */
  datatype Line = Bullet(text: string) | PlainLine(text: string, breakAfter: bool)

  /** One piece of the response body, classified by its index. */
  datatype Chunk =
    | BoldSpan(text: string)
    | HighlightSpan(text: string)
    | LineBlock(lines: seq<Line>)

  /** The formatter's output: a query/response exchange, or the whole text
      in a single `Text` when the text is not one. */
  datatype Rendered =
    | Whole(text: string)
    | Exchange(queryLabel: string, body: seq<Chunk>)

  lemma ResponseSeparatorUnique()
    ensures FirstCharUnique(ResponseSeparator)
  {
  }

  // ---------------------------------------------------------------------
  // The markup split: response.split on the regular expression that
  // matches `***` or `**`, the three-asterisk alternative tried first.

  /** A match of the regular expression starts at `i` exactly when two
      asterisks do there. */
  predicate DelimiterAt(s: string, i: nat)
  {
    i + 1 < |s| && s[i] == '*' && s[i + 1] == '*'
  }

  /** Length of the match at `i`, `***` being tried before `**`; 0 when
      no match starts at `i`. */
  function DelimiterLength(s: string, i: nat): nat
  {
    if !DelimiterAt(s, i) then 0
    else if i + 2 < |s| && s[i + 2] == '*' then 3
    else 2
  }

  /** The matches are the occurrences of `***` and, elsewhere, of `**`;
      a single `*` is never matched. */
  lemma DelimiterMatch(s: string, i: nat)
    ensures DelimiterAt(s, i) <==> OccursAt(s, "**", i)
    ensures DelimiterLength(s, i) == 3 <==> OccursAt(s, "***", i)
    ensures DelimiterLength(s, i) == 2 <==> OccursAt(s, "**", i) && !OccursAt(s, "***", i)
    ensures DelimiterLength(s, i) != 0 ==> s[i..i + DelimiterLength(s, i)] in {"**", "***"}
  {
    if i + 2 <= |s| {
      assert s[i..i + 2] == [s[i], s[i + 1]];
    }
    if i + 3 <= |s| {
      assert s[i..i + 3] == [s[i], s[i + 1], s[i + 2]];
    }
  }

  /** The leftmost match at or after `from`. */
  function NextDelimiter(s: string, from: nat): (r: Option<nat>)
    decreases |s| - from
    ensures r.Some? ==> from <= r.value && DelimiterAt(s, r.value)
    ensures r.Some? ==> forall j :: from <= j < r.value ==> !DelimiterAt(s, j)
    ensures r.None? ==> forall j :: from <= j ==> !DelimiterAt(s, j)
  {
    if from + 1 >= |s| then None
    else if DelimiterAt(s, from) then Some(from)
    else NextDelimiter(s, from + 1)
  }

  /** The scan finds what `indexOf("**")` finds: the leftmost `**`. */
  lemma NextDelimiterIsIndexOf(s: string)
    ensures NextDelimiter(s, 0) == IndexOf(s, "**", 0)
  {
    forall j: nat ensures DelimiterAt(s, j) <==> OccursAt(s, "**", j) {
      DelimiterMatch(s, j);
    }
  }

  /** A match with none before it is the one the scan finds. */
  lemma {:induction false} NextDelimiterFirst(s: string, from: nat, k: nat)
    requires from <= k && DelimiterAt(s, k)
    requires forall j :: from <= j < k ==> !DelimiterAt(s, j)
    ensures NextDelimiter(s, from) == Some(k)
    decreases k - from
  {
    if from < k {
      NextDelimiterFirst(s, from + 1, k);
    }
  }

  /** The chunks of `s.split(/\*\*\*|\*\*\/)`: the scan takes the leftmost
      match, prefers `***` to `**` there, and drops the delimiter. */
  function MarkupChunks(s: string): (chunks: seq<string>)
    decreases |s|
    ensures |chunks| >= 1
    ensures StartsWith(s, chunks[0])
  {
    match NextDelimiter(s, 0)
    case None =>
      assert s[..|s|] == s;
      [s]
    case Some(k) =>
      assert s[..k] == s[..k][..k];
      [s[..k]] + MarkupChunks(s[k + DelimiterLength(s, k)..])
  }

  /** The delimiters that split discards, in the order they were matched. */
  function MarkupDelimiters(s: string): (delims: seq<string>)
    decreases |s|
    ensures |delims| + 1 == |MarkupChunks(s)|
  {
    match NextDelimiter(s, 0)
    case None => []
    case Some(k) =>
      var n := DelimiterLength(s, k);
      [s[k..k + n]] + MarkupDelimiters(s[k + n..])
  }

  /** A split with a delimiter takes one chunk and one delimiter at the
      leftmost match, at `k`, and goes on after it. */
  lemma MarkupUnfold(s: string) returns (k: nat)
    requires |MarkupDelimiters(s)| > 0
    ensures NextDelimiter(s, 0) == Some(k) && k + DelimiterLength(s, k) <= |s|
    ensures DelimiterLength(s, k) != 0
    ensures MarkupDelimiters(s) == [s[k..k + DelimiterLength(s, k)]] + MarkupDelimiters(s[k + DelimiterLength(s, k)..])
    ensures MarkupChunks(s) == [s[..k]] + MarkupChunks(s[k + DelimiterLength(s, k)..])
  {
    k := NextDelimiter(s, 0).value;
  }

  /** Every discarded delimiter is `**` or `***`. */
  lemma {:induction false} MarkupDelimitersAreStars(s: string, i: nat)
    requires i < |MarkupDelimiters(s)|
    ensures MarkupDelimiters(s)[i] == "**" || MarkupDelimiters(s)[i] == "***"
    decreases |s|
  {
    if i == 0 {
      var k := MarkupUnfold(s);
      DelimiterMatch(s, k);
    } else {
      var rest := MarkupShift(s, i);
      MarkupDelimitersAreStars(rest, i - 1);
    }
  }

  /** Text before which the scan finds no match holds no `**`. */
  lemma DelimiterFreePrefix(s: string, k: nat)
    requires k <= |s| && forall j :: 0 <= j < k ==> !DelimiterAt(s, j)
    ensures !Contains(s[..k], "**")
  {
    var c := s[..k];
    forall j: nat ensures !OccursAt(c, "**", j) {
      DelimiterMatch(c, j);
      if j + 1 < k {
        assert !DelimiterAt(s, j);
        assert c[j] == s[j] && c[j + 1] == s[j + 1];
      }
    }
  }

  /** No chunk contains `**`: every match was taken out. */
  lemma {:induction false} MarkupChunksFree(s: string, i: nat)
    requires i < |MarkupChunks(s)|
    ensures !Contains(MarkupChunks(s)[i], "**")
    decreases |s|
  {
    match NextDelimiter(s, 0)
    case None =>
      DelimiterFreePrefix(s, |s|);
      assert s[..|s|] == s;
    case Some(k) =>
      var rest := s[k + DelimiterLength(s, k)..];
      assert MarkupChunks(s) == [s[..k]] + MarkupChunks(rest);
      if i == 0 {
        DelimiterFreePrefix(s, k);
      } else {
        MarkupChunksFree(rest, i - 1);
      }
  }

  /** The chunks with the delimiters put back between them. */
  function Interleave(chunks: seq<string>, delims: seq<string>): string
    requires |chunks| == |delims| + 1
  {
    if |delims| == 0 then chunks[0]
    else chunks[0] + delims[0] + Interleave(chunks[1..], delims[1..])
  }

  /** The split loses nothing: re-inserting the discarded delimiters in
      order reproduces the response exactly. */
  lemma {:induction false} MarkupSplitRejoins(s: string)
    ensures Interleave(MarkupChunks(s), MarkupDelimiters(s)) == s
    decreases |s|
  {
    match NextDelimiter(s, 0)
    case None =>
    case Some(k) =>
      var n := DelimiterLength(s, k);
      var rest := s[k + n..];
      MarkupSplitRejoins(rest);
      InterleaveCons(s[..k], s[k..k + n], MarkupChunks(rest), MarkupDelimiters(rest));
      ThreeSlices(s, k, k + n);
  }

  /** Interleaving after one more chunk and delimiter. */
  lemma InterleaveCons(c: string, d: string, chunks: seq<string>, delims: seq<string>)
    requires |chunks| == |delims| + 1
    ensures Interleave([c] + chunks, [d] + delims) == c + d + Interleave(chunks, delims)
  {
    assert ([c] + chunks)[1..] == chunks;
    assert ([d] + delims)[1..] == delims;
  }

  /** A string is the concatenation of its slices at two cut points. */
  lemma ThreeSlices(s: string, j: nat, k: nat)
    requires j <= k <= |s|
    ensures s == s[..j] + s[j..k] + s[k..]
  {
  }

  /** `c` is empty or its last character is not `*`. */
  predicate NoTrailingStar(c: string)
  {
    c == [] || c[|c| - 1] != '*'
  }

  /** The scan takes the leftmost match: the chunk before a delimiter is
      empty or does not end with `*`, for otherwise a match would have
      started one position earlier. */
  lemma {:induction false} ChunkBeforeDelimiter(s: string, i: nat)
    requires i < |MarkupDelimiters(s)|
    ensures NoTrailingStar(MarkupChunks(s)[i])
    decreases |s|
  {
    if i == 0 {
      ChunkBeforeFirst(s);
    } else {
      var rest := MarkupShift(s, i);
      ChunkBeforeDelimiter(rest, i - 1);
    }
  }

  /** The first chunk, before the leftmost match, does not end with `*`. */
  lemma ChunkBeforeFirst(s: string)
    requires |MarkupDelimiters(s)| > 0
    ensures NoTrailingStar(MarkupChunks(s)[0])
  {
    var k := MarkupUnfold(s);
    if k > 0 {
      assert !DelimiterAt(s, k - 1);
      assert s[..k][k - 1] == s[k - 1];
    }
  }

  /** `***` is tried before `**`: a discarded `**` is never followed by a
      further asterisk, so the chunk after it does not start with `*`. */
  lemma {:induction false} TwoStarDelimiterNotFollowedByStar(s: string, i: nat)
    requires i < |MarkupDelimiters(s)| && MarkupDelimiters(s)[i] == "**"
    ensures MarkupChunks(s)[i + 1] == [] || MarkupChunks(s)[i + 1][0] != '*'
    decreases |s|
  {
    if i == 0 {
      TwoStarFirst(s);
    } else {
      var rest := MarkupShift(s, i);
      TwoStarDelimiterNotFollowedByStar(rest, i - 1);
    }
  }

  /** A `**` with another delimiter after it is followed by a non-empty
      chunk: two `**` in a row would have been matched as `***` first. */
  lemma {:induction false} TwoStarDelimiterThenChunk(s: string, i: nat)
    requires i + 1 < |MarkupDelimiters(s)| && MarkupDelimiters(s)[i] == "**"
    ensures MarkupChunks(s)[i + 1] != []
    decreases |s|
  {
    if i == 0 {
      TwoStarThenChunkFirst(s);
    } else {
      var rest := MarkupShift(s, i);
      TwoStarDelimiterThenChunk(rest, i - 1);
    }
  }

  /** The first delimiter: a `**` followed by another delimiter is
      followed by a non-empty second chunk. */
  lemma TwoStarThenChunkFirst(s: string)
    requires 1 < |MarkupDelimiters(s)| && MarkupDelimiters(s)[0] == "**"
    ensures MarkupChunks(s)[1] != []
  {
    var k := MarkupUnfold(s);
    var n := DelimiterLength(s, k);
    assert |s[k..k + n]| == 2;
    var rest := s[k + n..];
    assert |MarkupDelimiters(rest)| > 0;
    var k2 := MarkupUnfold(rest);
    if k2 == 0 {
      assert false;
    }
    assert MarkupChunks(rest)[0] == rest[..k2];
  }

  /** The first delimiter: a `**` is followed by the second chunk. */
  lemma TwoStarFirst(s: string)
    requires |MarkupDelimiters(s)| > 0 && MarkupDelimiters(s)[0] == "**"
    ensures MarkupChunks(s)[1] == [] || MarkupChunks(s)[1][0] != '*'
  {
    var k := MarkupUnfold(s);
    var rest := s[k + DelimiterLength(s, k)..];
    assert |s[k..k + DelimiterLength(s, k)]| == 2;
    var c := MarkupChunks(rest)[0];
    if c != [] {
      assert c[0] == rest[..|c|][0];
    }
  }

  /** Past the first delimiter, the split goes on in the rest of the text:
      delimiter `i` and chunks `i` and `i + 1` are delimiter `i - 1` and
      chunks `i - 1` and `i` there. */
  lemma MarkupShift(s: string, i: nat) returns (rest: string)
    requires 0 < i < |MarkupDelimiters(s)|
    ensures |rest| < |s|
    ensures |MarkupDelimiters(rest)| + 1 == |MarkupDelimiters(s)|
    ensures i - 1 < |MarkupDelimiters(rest)| && MarkupDelimiters(rest)[i - 1] == MarkupDelimiters(s)[i]
    ensures MarkupChunks(rest)[i] == MarkupChunks(s)[i + 1]
    ensures MarkupChunks(rest)[i - 1] == MarkupChunks(s)[i]
  {
    var k := MarkupUnfold(s);
    rest := s[k + DelimiterLength(s, k)..];
    ConsAt(s[k..k + DelimiterLength(s, k)], MarkupDelimiters(rest), i);
    ConsAt(s[..k], MarkupChunks(rest), i + 1);
    ConsAt(s[..k], MarkupChunks(rest), i);
  }

  /** Indexing past the head of a sequence. */
  lemma ConsAt<T>(x: T, ys: seq<T>, i: nat)
    requires 0 < i <= |ys|
    ensures ([x] + ys)[i] == ys[i - 1]
  {
  }

  /** A response without `**` (single asterisks included) is one chunk. */
  lemma SingleStarIsNotDelimiter(s: string)
    requires !Contains(s, "**")
    ensures MarkupChunks(s) == [s] && MarkupDelimiters(s) == []
  {
    forall j: nat ensures !DelimiterAt(s, j) {
      DelimiterMatch(s, j);
    }
  }

  // ---------------------------------------------------------------------
  // Classification of chunks and lines.

  /** One line of an unmarked chunk: a line whose trimmed text starts with
      `*` is a bullet holding the rest of that trimmed text, trimmed again;
      any other line is kept verbatim. */
  function RenderLine(line: string, hasBreak: bool): Line
  {
    var t := Trim(line);
    if StartsWith(t, "*") then Bullet(Trim(t[1..])) else PlainLine(line, hasBreak)
  }

  /** One item per line, in order; the line at index `j` is followed by a
      break exactly when `j` is not the last index. */
  function RenderLineList(lines: seq<string>): (items: seq<Line>)
    ensures |items| == |lines|
    ensures forall j :: 0 <= j < |lines| ==> items[j] == RenderLine(lines[j], j < |lines| - 1)
  {
    if |lines| == 0 then []
    else [RenderLine(lines[0], |lines| > 1)] + RenderLineList(lines[1..])
  }

  /** An unmarked chunk, split on "\n". */
  function RenderLines(part: string): seq<Line>
  {
    RenderLineList(Split(part, "\n"))
  }

  /** The chunk at `index`: odd indices are bold; of the even ones, those
      with `index % 3 == 2` are highlighted; the rest are split into lines. */
  function RenderChunk(part: string, index: nat): Chunk
  {
    if index % 2 == 1 then BoldSpan(part)
    else if index % 3 == 2 then HighlightSpan(part)
    else LineBlock(RenderLines(part))
  }

  /** The chunks from index `first` on, each classified by its own index. */
  function RenderChunks(chunks: seq<string>, first: nat): (body: seq<Chunk>)
    ensures |body| == |chunks|
    ensures forall i :: 0 <= i < |chunks| ==> body[i] == RenderChunk(chunks[i], first + i)
  {
    MapIndexed(RenderChunk, chunks, first)
  }

  /** `xs.map((x, i) => f(x, i))`, with indices counted from `first`. */
  function MapIndexed<T, U>(f: (T, nat) -> U, xs: seq<T>, first: nat): (ys: seq<U>)
    ensures |ys| == |xs|
    ensures forall i :: 0 <= i < |xs| ==> ys[i] == f(xs[i], first + i)
  {
    if |xs| == 0 then []
    else [f(xs[0], first)] + MapIndexed(f, xs[1..], first + 1)
  }

  /** The response body, chunk by chunk. */
  function RenderBody(response: string): seq<Chunk>
  {
    RenderChunks(MarkupChunks(response), 0)
  }

  /** `query.replace("Query: ", "")` */
  function StripQueryLabel(query: string): (stripped: string)
    ensures StartsWith(query, QueryPrefix) ==> stripped == query[|QueryPrefix|..]
    ensures !Contains(query, QueryPrefix) ==> stripped == query
  {
    if StartsWith(query, QueryPrefix) then
      ReplaceFirstAt(query, QueryPrefix, "", 0);
      ReplaceFirst(query, QueryPrefix, "")
    else
      ReplaceFirst(query, QueryPrefix, "")
  }

  /** `formatMessageText(text)` */
  function FormatMessageText(text: string): (r: Rendered)
    ensures r.Whole? ==> r.text == text
    ensures r.Exchange? ==> |r.body| >= 1
  {
    var parts := Split(text, ResponseSeparator);
    if |parts| == 2 then Exchange(StripQueryLabel(parts[0]), RenderBody(parts[1]))
    else Whole(text)
  }

  // ---------------------------------------------------------------------
  // Properties of the formatter.

  /** The text is an exchange exactly when the separator occurs once;
      when it occurs zero times or more than once, the output is the whole
      text unchanged. */
  lemma FormatFallback(text: string)
    ensures FormatMessageText(text).Whole? <==> CountOcc(text, ResponseSeparator) != 1
    ensures FormatMessageText(text).Whole? ==> FormatMessageText(text) == Whole(text)
  {
    ResponseSeparatorUnique();
    SplitCount(text, ResponseSeparator);
  }

  /** A query and a response that do not contain the separator format as
      their exchange. */
  lemma FormatPair(q: string, r: string)
    requires !Contains(q, ResponseSeparator) && !Contains(r, ResponseSeparator)
    ensures FormatMessageText(q + ResponseSeparator + r) == Exchange(StripQueryLabel(q), RenderBody(r))
  {
    ResponseSeparatorUnique();
    SplitJoinFree(q, ResponseSeparator, r);
  }

  /** With exactly one separator, at `k`, the label comes from the text
      before it and the body from the text after it. */
  lemma FormatSingleSeparator(text: string, k: nat)
    requires CountOcc(text, ResponseSeparator) == 1 && OccursAt(text, ResponseSeparator, k)
    ensures FormatMessageText(text) ==
            Exchange(StripQueryLabel(text[..k]), RenderBody(text[k + |ResponseSeparator|..]))
  {
    var sep := ResponseSeparator;
    ResponseSeparatorUnique();
    forall j: nat | j < k ensures !OccursAt(text, sep, j) {
      if OccursAt(text, sep, j) { CountOccTwo(text, sep, j, k); }
    }
    var rest := text[k + |sep|..];
    CountOccFirst(text, sep, k);
    SplitCount(rest, sep);
    var p := Split(rest, sep);
    assert p == [rest] by { assert |p| == 1 && Join(p, sep) == p[0]; }
    assert IndexOf(text, sep, 0) == Some(k);
  }

  /** Only the first "Query: " is removed; later ones stay in the label. */
  lemma QueryLabelStripsOnce(q: string)
    ensures StripQueryLabel(QueryPrefix + q) == q
  {
    var s := QueryPrefix + q;
    assert s[..|QueryPrefix|] == QueryPrefix;
    ReplaceFirstAt(s, QueryPrefix, "", 0);
    assert s[|QueryPrefix|..] == q;
  }

  /** Residues modulo 2 and 3 are determined by the residue modulo 6. */
  lemma ModSix(i: nat)
    ensures i % 2 == (i % 6) % 2 && i % 3 == (i % 6) % 3
  {
    var q, m := i / 6, i % 6;
    assert i == 6 * q + m;
    if m == 0 {
      ModBy(i, 2, 3 * q, 0); ModBy(i, 3, 2 * q, 0);
    } else if m == 1 {
      ModBy(i, 2, 3 * q, 1); ModBy(i, 3, 2 * q, 1);
    } else if m == 2 {
      ModBy(i, 2, 3 * q + 1, 0); ModBy(i, 3, 2 * q, 2);
    } else if m == 3 {
      ModBy(i, 2, 3 * q + 1, 1); ModBy(i, 3, 2 * q + 1, 0);
    } else if m == 4 {
      ModBy(i, 2, 3 * q + 2, 0); ModBy(i, 3, 2 * q + 1, 1);
    } else {
      ModBy(i, 2, 3 * q + 2, 1); ModBy(i, 3, 2 * q + 1, 2);
    }
  }

  /** The remainder of `d * t + r` by `d`, for a remainder `r` in range. */
  lemma ModBy(i: int, d: int, t: int, r: int)
    requires d == 2 || d == 3
    requires i == d * t + r && 0 <= r < d
    ensures i % d == r
  {
    if d == 2 {
      assert i == 2 * t + r;
    } else {
      assert i == 3 * t + r;
    }
  }

  /** Chunks are classified by index alone, in three exclusive classes:
      odd indices are bold, indices 2, 8, 14, ... are highlighted, and the
      others (0, 4, 6, 10, ...) are split into lines. */
  lemma ChunkKinds(part: string, i: nat)
    ensures RenderChunk(part, i).BoldSpan? <==> i % 2 == 1
    ensures RenderChunk(part, i).HighlightSpan? <==> i % 6 == 2
    ensures RenderChunk(part, i).LineBlock? <==> i % 6 == 0 || i % 6 == 4
    ensures !RenderChunk(part, i).LineBlock? ==> RenderChunk(part, i).text == part
    ensures RenderChunk(part, i).LineBlock? ==> RenderChunk(part, i).lines == RenderLines(part)
  {
    ModSix(i);
    var m := i % 6;
    if m == 0 || m == 4 {
      assert i % 2 == 0 && i % 3 != 2;
    } else if m == 2 {
      assert i % 2 == 0 && i % 3 == 2;
    } else {
      assert i % 2 == 1;
    }
  }

  /** The body has one entry per chunk of the markup split, and the entry at
      index `i` is that chunk classified by `i`. */
  lemma BodyChunkKinds(response: string, i: nat)
    requires i < |MarkupChunks(response)|
    ensures |RenderBody(response)| == |MarkupChunks(response)|
    ensures RenderBody(response)[i].BoldSpan? <==> i % 2 == 1
    ensures RenderBody(response)[i].HighlightSpan? <==> i % 6 == 2
    ensures RenderBody(response)[i].LineBlock? <==> i % 6 == 0 || i % 6 == 4
    ensures !RenderBody(response)[i].LineBlock? ==>
              RenderBody(response)[i].text == MarkupChunks(response)[i]
    ensures RenderBody(response)[i].LineBlock? ==>
              RenderBody(response)[i].lines == RenderLines(MarkupChunks(response)[i])
  {
    ChunkKinds(MarkupChunks(response)[i], i);
  }

  /** One item per "\n"-separated line, and one line more than the chunk
      has newlines. */
  lemma LineCount(part: string)
    ensures |RenderLines(part)| == |Split(part, "\n")| == CountOcc(part, "\n") + 1
  {
    SplitCount(part, "\n");
  }

  /** The items follow the lines in order: a bullet when the trimmed line
      starts with `*`, holding that text without the `*` and trimmed, and
      otherwise the line itself, followed by a break unless it is last. */
  lemma LineItemAt(part: string, j: nat)
    requires j < |Split(part, "\n")|
    ensures var lines := Split(part, "\n");
            var item := RenderLines(part)[j];
            !Contains(lines[j], "\n") &&
            (item.Bullet? <==> StartsWith(Trim(lines[j]), "*")) &&
            (item.Bullet? ==> item.text == Trim(Trim(lines[j])[1..])) &&
            (item.PlainLine? ==> item.text == lines[j] && (item.breakAfter <==> j < |lines| - 1))
  {
  }

  /** The texts of a chunk's line items. */
  function LineTexts(items: seq<Line>): (texts: seq<string>)
    ensures |texts| == |items|
    ensures forall j :: 0 <= j < |items| ==> texts[j] == items[j].text
  {
    seq(|items|, j requires 0 <= j < |items| => items[j].text)
  }

  /** When no line is a bullet, the plain lines joined by "\n" give back
      the chunk. */
  lemma PlainLinesRejoin(part: string)
    requires forall j :: 0 <= j < |RenderLines(part)| ==> RenderLines(part)[j].PlainLine?
    ensures Join(LineTexts(RenderLines(part)), "\n") == part
  {
    var lines := Split(part, "\n");
    assert RenderLines(part) == RenderLineList(lines);
    PlainTexts(lines);
    assert Join(lines, "\n") == part;
  }

  /** The texts of lines that all render as plain lines are the lines. */
  lemma PlainTexts(lines: seq<string>)
    requires forall j :: 0 <= j < |RenderLineList(lines)| ==> RenderLineList(lines)[j].PlainLine?
    ensures LineTexts(RenderLineList(lines)) == lines
  {
    var items := RenderLineList(lines);
    forall j | 0 <= j < |lines| ensures items[j].text == lines[j] {
      PlainItemText(lines[j], j < |lines| - 1);
    }
  }

  /** A line rendered as a plain line keeps its text. */
  lemma PlainItemText(line: string, hasBreak: bool)
    requires RenderLine(line, hasBreak).PlainLine?
    ensures RenderLine(line, hasBreak).text == line
  {
  }

  /** Bullets carry their text trimmed on both sides. */
  lemma BulletTextTrimmed(line: string, hasBreak: bool)
    requires RenderLine(line, hasBreak).Bullet?
    ensures var b := RenderLine(line, hasBreak).text;
            b != [] ==> !IsWhiteSpace(b[0]) && !IsWhiteSpace(b[|b| - 1])
  {
    TrimSpec(Trim(line)[1..]);
  }

  /** A chunk without "\n" is one line. */
  lemma SingleLine(part: string)
    requires '\n' !in part
    ensures Split(part, "\n") == [part]
  {
    FirstCharAbsent(part, "\n");
    assert IndexOf(part, "\n", 0).None?;
  }

  /** Trimming a line without `*` cannot expose one. */
  lemma StarlessTrim(line: string)
    requires '*' !in line
    ensures !StartsWith(Trim(line), "*")
  {
    var t := Trim(line);
    TrimSpec(line);
    var a: nat :| WhiteSpaceAround(line, t, a);
    if |t| > 0 {
      assert t[0] == line[a] && line[a] in line;
      assert t[..1] == [t[0]];
    }
  }

  /** A line without `*` is never a bullet. */
  lemma StarlessLineIsPlain(line: string, hasBreak: bool)
    requires '*' !in line
    ensures RenderLine(line, hasBreak) == PlainLine(line, hasBreak)
  {
    StarlessTrim(line);
  }

  /** Text with no white space at its ends, after one space, trims to itself. */
  lemma TrimAfterSpace(x: string)
    requires x != [] && !IsWhiteSpace(x[0]) && !IsWhiteSpace(x[|x| - 1])
    ensures Trim(" " + x) == x
  {
    TrimStartSkip(' ', x);
    assert " " + x == [' '] + x;
    assert TrimStart(x) == x;
    TrimUnchanged(x);
  }

  /** A line "* x", with `x` not blank at either end, is its own trim. */
  lemma StarLineTrimmed(x: string)
    requires x != [] && !IsWhiteSpace(x[0]) && !IsWhiteSpace(x[|x| - 1])
    ensures Trim("* " + x) == "* " + x
  {
    var line := "* " + x;
    assert line[0] == '*';
    assert line[|line| - 1] == x[|x| - 1];
    TrimUnchanged(line);
  }

  lemma StarLineShape(x: string)
    ensures StartsWith("* " + x, "*") && ("* " + x)[1..] == " " + x
  {
    assert ("* " + x)[..1] == "*";
  }

  /** A line "* x", with `x` not blank at either end, is the bullet `x`. */
  lemma StarLineIsBullet(x: string, hasBreak: bool)
    requires x != [] && !IsWhiteSpace(x[0]) && !IsWhiteSpace(x[|x| - 1])
    ensures RenderLine("* " + x, hasBreak) == Bullet(x)
  {
    StarLineTrimmed(x);
    StarLineShape(x);
    TrimAfterSpace(x);
  }

  /** A one-line chunk without `*` renders as that line without a break. */
  lemma PlainOneLine(part: string)
    requires '\n' !in part && '*' !in part
    ensures RenderLines(part) == [PlainLine(part, false)]
  {
    SingleLine(part);
    StarlessLineIsPlain(part, false);
  }

  /** Text without `*` has no markup delimiter. */
  lemma StarFree(s: string)
    requires '*' !in s
    ensures !Contains(s, "**")
  {
    FirstCharAbsent(s, "**");
  }

  /** Joining two pieces without `**` creates none unless the first ends
      and the second starts with `*`. */
  lemma NoDoubleStarConcat(u: string, v: string)
    requires !Contains(u, "**") && !Contains(v, "**")
    requires u == [] || v == [] || u[|u| - 1] != '*' || v[0] != '*'
    ensures !Contains(u + v, "**")
  {
    var t := u + v;
    forall j: nat ensures !OccursAt(t, "**", j) {
      if j + 2 <= |t| {
        if j + 2 <= |u| {
          assert t[j..j + 2] == u[j..j + 2];
          assert !OccursAt(u, "**", j);
        } else if j >= |u| {
          assert t[j..j + 2] == v[j - |u|..j - |u| + 2];
          assert !OccursAt(v, "**", j - |u|);
        } else {
          assert t[j..j + 2] == [u[|u| - 1], v[0]];
        }
      }
    }
  }

  /** A `**` after star-free text, not followed by another `*`, is the first
      delimiter, and it is matched as `**`. */
  lemma MarkupStepTwoStars(x: string, rest: string)
    requires '*' !in x && (rest == [] || rest[0] != '*')
    ensures MarkupChunks(x + "**" + rest) == [x] + MarkupChunks(rest)
    ensures MarkupDelimiters(x + "**" + rest) == ["**"] + MarkupDelimiters(rest)
  {
    var s := x + "**" + rest;
    var k := |x|;
    assert s[k] == '*' && s[k + 1] == '*';
    forall j | 0 <= j < k ensures !DelimiterAt(s, j) {
      assert s[j] == x[j];
    }
    NextDelimiterFirst(s, 0, k);
    if k + 2 < |s| {
      assert s[k + 2] == rest[0];
    }
    assert s[..k] == x && s[k..k + 2] == "**" && s[k + 2..] == rest;
  }

  /** "a**b**c" splits into the chunks `a`, `b` and `c`. */
  lemma TwoDelimiterChunks(a: string, b: string, c: string)
    requires '*' !in a + b + c && b != []
    ensures MarkupChunks(a + "**" + b + "**" + c) == [a, b, c]
  {
    assert a + "**" + b + "**" + c == a + "**" + (b + "**" + c);
    MarkupStepTwoStars(a, b + "**" + c);
    MarkupStepTwoStars(b, c);
    StarFree(c);
    SingleStarIsNotDelimiter(c);
  }

  /** "a**b**c" renders as the plain line `a`, bold `b` and highlighted `c`:
      the chunk at index 2 is highlighted, not plain. */
  lemma BoldThenHighlightBody(a: string, b: string, c: string)
    requires '*' !in a + b + c && '\n' !in a && b != []
    ensures RenderBody(a + "**" + b + "**" + c) ==
            [LineBlock([PlainLine(a, false)]), BoldSpan(b), HighlightSpan(c)]
  {
    TwoDelimiterChunks(a, b, c);
    ThreeChunkBody(a + "**" + b + "**" + c, a, b, c);
  }

  /** A response split into three chunks, the first a single plain line. */
  lemma ThreeChunkBody(response: string, a: string, b: string, c: string)
    requires MarkupChunks(response) == [a, b, c]
    requires '*' !in a && '\n' !in a
    ensures RenderBody(response) == [LineBlock([PlainLine(a, false)]), BoldSpan(b), HighlightSpan(c)]
  {
    ThreeChunkKinds(a, b, c);
    PlainOneLine(a);
  }

  /** Three chunks are a plain block, a bold span and a highlighted span. */
  lemma ThreeChunkKinds(a: string, b: string, c: string)
    ensures RenderChunks([a, b, c], 0) == [LineBlock(RenderLines(a)), BoldSpan(b), HighlightSpan(c)]
  {
    ThreeChunks(a, b, c);
  }

  /** Three chunks are classified by the indices 0, 1 and 2. */
  lemma ThreeChunks(a: string, b: string, c: string)
    ensures RenderChunks([a, b, c], 0) == [RenderChunk(a, 0), RenderChunk(b, 1), RenderChunk(c, 2)]
  {
    assert [a, b, c][1..] == [b, c];
    ChunksCons(a, [b, c], 0);
    assert [b, c][1..] == [c];
    ChunksCons(b, [c], 1);
    ChunksCons(c, [], 2);
  }

  /** A chunk followed by others is classified by `first`, the rest from `first + 1`. */
  lemma ChunksCons(part: string, rest: seq<string>, first: nat)
    ensures RenderChunks([part] + rest, first) ==
            [RenderChunk(part, first)] + RenderChunks(rest, first + 1)
  {
    assert ([part] + rest)[1..] == rest;
  }

  /** The same inside a whole message with a query. */
  lemma BoldThenHighlight(query: string, a: string, b: string, c: string)
    requires !Contains(query, ResponseSeparator)
    requires '*' !in a + b + c && '\n' !in a + b + c && b != []
    ensures FormatMessageText(QueryPrefix + query + ResponseSeparator + a + "**" + b + "**" + c) ==
            Exchange(query, [LineBlock([PlainLine(a, false)]), BoldSpan(b), HighlightSpan(c)])
  {
    var q := QueryPrefix + query;
    var r := a + "**" + b + "**" + c;
    assert QueryPrefix + query + ResponseSeparator + a + "**" + b + "**" + c == q + ResponseSeparator + r;
    PrefixKeepsFree(QueryPrefix, query, ResponseSeparator);
    assert '\n' !in r;
    FirstCharAbsent(r, ResponseSeparator);
    FormatPair(q, r);
    QueryLabelStripsOnce(query);
    BoldThenHighlightBody(a, b, c);
  }

  /** The bullet marker line start "\n* " holds no `**`. */
  lemma MarkerHasNoDelimiter()
    ensures !Contains("\n* ", "**")
  {
    var marker := "\n* ";
    forall j: nat ensures !OccursAt(marker, "**", j) {
      if j + 2 <= 3 { assert marker[j..j + 2] == [marker[j], marker[j + 1]]; }
    }
  }

  /** "intro\n* x\n* y" holds no markup delimiter. */
  lemma IntroThenBulletsOneChunk(intro: string, x: string, y: string)
    requires '*' !in intro + x + y && x != [] && y != []
    ensures MarkupChunks(intro + "\n* " + x + "\n* " + y) == [intro + "\n* " + x + "\n* " + y]
  {
    var marker := "\n* ";
    MarkerHasNoDelimiter();
    StarFree(intro);
    StarFree(x);
    StarFree(y);
    NoDoubleStarConcat(intro, marker);
    NoDoubleStarConcat(intro + marker, x);
    NoDoubleStarConcat(intro + marker + x, marker);
    NoDoubleStarConcat(intro + marker + x + marker, y);
    SingleStarIsNotDelimiter(intro + marker + x + marker + y);
  }

  /** "intro\n* x\n* y" has the three lines `intro`, "* x" and "* y". */
  lemma IntroThenBulletsLines(intro: string, x: string, y: string)
    requires '\n' !in intro + x + y
    ensures Split(intro + "\n* " + x + "\n* " + y, "\n") == [intro, "* " + x, "* " + y]
  {
    var l1, l2 := "* " + x, "* " + y;
    assert intro + "\n* " + x + "\n* " + y == intro + "\n" + (l1 + "\n" + l2);
    FirstCharAbsent(intro, "\n");
    SplitFirstFree(intro, "\n", l1 + "\n" + l2);
    FirstCharAbsent(l1, "\n");
    FirstCharAbsent(l2, "\n");
    SplitJoinFree(l1, "\n", l2);
  }

  /** The lines of "intro\n* x\n* y" render as a plain line and two bullets. */
  lemma IntroThenBulletsItems(intro: string, x: string, y: string)
    requires '*' !in intro && '\n' !in intro + x + y
    requires x != [] && !IsWhiteSpace(x[0]) && !IsWhiteSpace(x[|x| - 1])
    requires y != [] && !IsWhiteSpace(y[0]) && !IsWhiteSpace(y[|y| - 1])
    ensures RenderLines(intro + "\n* " + x + "\n* " + y) ==
            [PlainLine(intro, true), Bullet(x), Bullet(y)]
  {
    var body := intro + "\n* " + x + "\n* " + y;
    IntroThenBulletsLines(intro, x, y);
    ThreeLines(body, intro, "* " + x, "* " + y);
    StarlessLineIsPlain(intro, true);
    StarLineIsBullet(x, true);
    StarLineIsBullet(y, false);
  }

  /** A chunk of three lines renders line by line. */
  lemma ThreeLines(part: string, l0: string, l1: string, l2: string)
    requires Split(part, "\n") == [l0, l1, l2]
    ensures RenderLines(part) == [RenderLine(l0, true), RenderLine(l1, true), RenderLine(l2, false)]
  {
    ThreeItems(l0, l1, l2);
  }

  /** Three lines render as two broken lines and a final one. */
  lemma ThreeItems(l0: string, l1: string, l2: string)
    ensures RenderLineList([l0, l1, l2]) ==
            [RenderLine(l0, true), RenderLine(l1, true), RenderLine(l2, false)]
  {
    var lines := [l0, l1, l2];
    var items := RenderLineList(lines);
    SeqOfThree(items);
    assert lines[0] == l0 && lines[1] == l1 && lines[2] == l2;
  }

  /** A sequence of three elements is the display of its elements. */
  lemma SeqOfThree<T>(s: seq<T>)
    requires |s| == 3
    ensures s == [s[0], s[1], s[2]]
  {
  }

  /** A response "intro\n* x\n* y" is one chunk: the plain line `intro`
      with a break, then the bullets `x` and `y`. */
  lemma IntroThenBullets(intro: string, x: string, y: string)
    requires '*' !in intro + x + y && '\n' !in intro + x + y
    requires x != [] && !IsWhiteSpace(x[0]) && !IsWhiteSpace(x[|x| - 1])
    requires y != [] && !IsWhiteSpace(y[0]) && !IsWhiteSpace(y[|y| - 1])
    ensures RenderBody(intro + "\n* " + x + "\n* " + y) ==
            [LineBlock([PlainLine(intro, true), Bullet(x), Bullet(y)])]
  {
    var body := intro + "\n* " + x + "\n* " + y;
    IntroThenBulletsOneChunk(intro, x, y);
    IntroThenBulletsItems(intro, x, y);
    assert RenderChunk(body, 0) == LineBlock(RenderLines(body));
  }
}
