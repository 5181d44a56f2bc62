/** The JavaScript string built-ins that the chat client calls: `split`
    with a string separator, `replace` with a string pattern, `trim` and
    `startsWith`.  `IndexOf` is the leftmost search that `split` and
    `replace` perform; `Contains`, `Join` and `CountOcc` are helpers for
    stating properties.  Strings are sequences of Unicode scalar values. */
module JsString {

  datatype Option<T> = None | Some(value: T)

  /** `pat` occurs in `s` starting at index `i`. */
  predicate OccursAt(s: string, pat: string, i: nat)
  {
    i + |pat| <= |s| && s[i..i + |pat|] == pat
  }

  /** `s.includes(pat)` */
  predicate Contains(s: string, pat: string)
  {
    exists i: nat :: i <= |s| && OccursAt(s, pat, i)
  }

  /** `k` is the position of the first occurrence of `pat` in `s`. */
  predicate FirstOccurrence(s: string, pat: string, k: nat)
  {
    OccursAt(s, pat, k) && forall j: nat :: j < k ==> !OccursAt(s, pat, j)
  }

  /** `s.startsWith(p)` */
  predicate StartsWith(s: string, p: string)
  {
    OccursAt(s, p, 0)
  }

  /** Every character of `p` after the first differs from the first, so two
      occurrences of `p` can never overlap. */
  predicate FirstCharUnique(p: string)
  {
    |p| > 0 && forall i :: 0 < i < |p| ==> p[i] != p[0]
  }

  /** `s.indexOf(pat, from)`, with `None` for JavaScript's -1. */
  function IndexOf(s: string, pat: string, from: nat): (r: Option<nat>)
    decreases |s| - from
    ensures r.Some? ==> from <= r.value && OccursAt(s, pat, r.value)
    ensures r.Some? ==> forall j: nat :: from <= j < r.value ==> !OccursAt(s, pat, j)
    ensures r.None? ==> forall j: nat :: from <= j ==> !OccursAt(s, pat, j)
  {
    if from + |pat| > |s| then None
    else if s[from..from + |pat|] == pat then Some(from)
    else IndexOf(s, pat, from + 1)
  }

  /** Occurrences inside a prefix are the occurrences of the whole string
      that end within the prefix. */
  lemma PrefixOccurs(s: string, pat: string, k: nat, j: nat)
    requires k <= |s|
    ensures OccursAt(s[..k], pat, j) <==> j + |pat| <= k && OccursAt(s, pat, j)
  {
    if j + |pat| <= k { assert s[..k][j..j + |pat|] == s[j..j + |pat|]; }
  }

  /** Occurrences inside a suffix are the shifted occurrences of the whole
      string. */
  lemma SuffixOccurs(s: string, pat: string, k: nat, j: nat)
    requires k <= |s|
    ensures OccursAt(s[k..], pat, j) <==> OccursAt(s, pat, k + j)
  {
    if k + j + |pat| <= |s| { assert s[k..][j..j + |pat|] == s[k + j..k + j + |pat|]; }
  }

  /** The text before the first occurrence of `pat` does not contain `pat`. */
  lemma NoneBeforeFirst(s: string, pat: string, k: nat)
    requires |pat| > 0 && k <= |s|
    requires forall j: nat :: j < k ==> !OccursAt(s, pat, j)
    ensures !Contains(s[..k], pat)
  {
    forall j: nat ensures !OccursAt(s[..k], pat, j) {
      PrefixOccurs(s, pat, k, j);
    }
  }

  /** No occurrence at or after 0 means `pat` is not contained. */
  lemma NoneFromStart(s: string, pat: string)
    requires IndexOf(s, pat, 0).None?
    ensures !Contains(s, pat)
  {
  }

  /** `parts.join(sep)` */
  function Join(parts: seq<string>, sep: string): string
  {
    if |parts| == 0 then ""
    else if |parts| == 1 then parts[0]
    else parts[0] + sep + Join(parts[1..], sep)
  }

  /** `s.split(sep)` for a non-empty string separator: every occurrence,
      scanning left to right, ends one part; the separators are dropped. */
  function Split(s: string, sep: string): (parts: seq<string>)
    requires |sep| > 0
    decreases |s|
    ensures |parts| >= 1
    ensures forall i :: 0 <= i < |parts| ==> !Contains(parts[i], sep)
    ensures Join(parts, sep) == s
  {
    match IndexOf(s, sep, 0)
    case None =>
      NoneFromStart(s, sep);
      [s]
    case Some(k) =>
      var rest := Split(s[k + |sep|..], sep);
      NoneBeforeFirst(s, sep, k);
      assert s == s[..k] + sep + s[k + |sep|..];
      [s[..k]] + rest
  }

  /** Number of positions at which `pat` occurs in `s` (overlapping
      occurrences each count). */
  function CountOcc(s: string, pat: string): nat
    requires |pat| > 0
    decreases |s|
  {
    if |s| < |pat| then 0
    else (if s[..|pat|] == pat then 1 else 0) + CountOcc(s[1..], pat)
  }

  lemma {:induction false} CountOccZero(s: string, pat: string)
    requires |pat| > 0
    requires forall j: nat :: !OccursAt(s, pat, j)
    ensures CountOcc(s, pat) == 0
    decreases |s|
  {
    if |s| >= |pat| {
      assert !OccursAt(s, pat, 0);
      forall j: nat ensures !OccursAt(s[1..], pat, j) {
        SuffixOccurs(s, pat, 1, j);
      }
      CountOccZero(s[1..], pat);
    }
  }

  /** Positions before the first occurrence contribute nothing. */
  lemma {:induction false} CountOccSkip(s: string, pat: string, m: nat)
    requires |pat| > 0 && m <= |s|
    requires forall j: nat :: j < m ==> !OccursAt(s, pat, j)
    ensures CountOcc(s, pat) == CountOcc(s[m..], pat)
    decreases m
  {
    if m > 0 {
      if |s| >= |pat| {
        assert !OccursAt(s, pat, 0);
        forall j: nat | j < m - 1 ensures !OccursAt(s[1..], pat, j) {
          SuffixOccurs(s, pat, 1, j);
        }
        CountOccSkip(s[1..], pat, m - 1);
        assert s[1..][m - 1..] == s[m..];
      } else {
        CountOccZero(s, pat);
        forall j: nat ensures !OccursAt(s[m..], pat, j) {
          SuffixOccurs(s, pat, m, j);
        }
        CountOccZero(s[m..], pat);
      }
    }
  }

  /** Dropping a prefix never adds occurrences. */
  lemma {:induction false} CountOccSuffix(s: string, pat: string, m: nat)
    requires |pat| > 0 && m <= |s|
    ensures CountOcc(s, pat) >= CountOcc(s[m..], pat)
    decreases m
  {
    if m > 0 {
      if |s| >= |pat| {
        CountOccSuffix(s[1..], pat, m - 1);
        assert s[1..][m - 1..] == s[m..];
      } else {
        forall j: nat ensures !OccursAt(s[m..], pat, j) {
          SuffixOccurs(s, pat, m, j);
        }
        CountOccZero(s[m..], pat);
      }
    }
  }

  /** An occurrence is counted. */
  lemma CountOccAt(s: string, pat: string, k: nat)
    requires |pat| > 0 && OccursAt(s, pat, k)
    ensures CountOcc(s, pat) >= 1 + CountOcc(s[k + 1..], pat)
  {
    CountOccSuffix(s, pat, k);
    assert s[k..][..|pat|] == pat;
    assert s[k..][1..] == s[k + 1..];
  }

  /** The first occurrence of a separator that cannot overlap itself is
      followed by exactly the occurrences of the rest. */
  lemma CountOccFirst(s: string, pat: string, k: nat)
    requires FirstCharUnique(pat) && FirstOccurrence(s, pat, k)
    ensures CountOcc(s, pat) == 1 + CountOcc(s[k + |pat|..], pat)
  {
    CountOccSkip(s, pat, k);
    var t := s[k..];
    assert t[..|pat|] == pat;
    NoOverlap(t, pat);
    var u := t[1..];
    CountOccSkip(u, pat, |pat| - 1);
    assert u[|pat| - 1..] == s[k + |pat|..];
  }

  /** An occurrence at the start of `t` of a pattern that cannot overlap
      itself leaves no occurrence starting inside it. */
  lemma NoOverlap(t: string, pat: string)
    requires FirstCharUnique(pat) && OccursAt(t, pat, 0)
    ensures forall j: nat :: j < |pat| - 1 ==> !OccursAt(t[1..], pat, j)
  {
    var u := t[1..];
    forall j: nat | j < |pat| - 1 ensures !OccursAt(u, pat, j) {
      assert u[j] == t[j + 1] == t[..|pat|][j + 1] == pat[j + 1];
      if j + |pat| <= |u| {
        assert u[j..j + |pat|][0] == u[j] != pat[0];
      }
    }
  }

  /** `s.split(sep)` has one more part than `sep` has occurrences, for a
      separator that cannot overlap itself. */
  lemma {:induction false} SplitCount(s: string, sep: string)
    requires FirstCharUnique(sep)
    ensures |Split(s, sep)| == CountOcc(s, sep) + 1
    decreases |s|
  {
    match IndexOf(s, sep, 0)
    case None =>
      CountOccZero(s, sep);
    case Some(k) =>
      CountOccFirst(s, sep, k);
      SplitCount(s[k + |sep|..], sep);
  }

  /** A prefix without the first character of `pat` adds no occurrence. */
  lemma {:induction false} CountOccPrefixFree(pre: string, s: string, pat: string)
    requires |pat| > 0 && pat[0] !in pre
    ensures CountOcc(pre + s, pat) == CountOcc(s, pat)
    decreases |pre|
  {
    if pre != [] {
      var t := pre + s;
      if |t| >= |pat| {
        assert t[..|pat|][0] == pre[0];
        assert t[1..] == pre[1..] + s;
        CountOccPrefixFree(pre[1..], s, pat);
      } else {
        CountOccZeroShort(s, pat);
        CountOccZeroShort(t, pat);
      }
    } else {
      assert pre + s == s;
    }
  }

  /** Text shorter than `pat` holds none of it. */
  lemma CountOccZeroShort(s: string, pat: string)
    requires 0 < |pat| && |s| < |pat|
    ensures CountOcc(s, pat) == 0
  {
  }

  /** Two occurrences are counted twice. */
  lemma CountOccTwo(s: string, pat: string, j: nat, k: nat)
    requires |pat| > 0 && j < k && OccursAt(s, pat, j) && OccursAt(s, pat, k)
    ensures CountOcc(s, pat) >= 2
  {
    CountOccAt(s, pat, j);
    SuffixOccurs(s, pat, j + 1, k - (j + 1));
    CountOccAt(s[j + 1..], pat, k - (j + 1));
  }

  /** When the text left of a separator occurrence does not contain the
      separator, and the separator cannot overlap itself, the scan stops
      exactly there. */
  lemma IndexOfAfterFree(q: string, sep: string, r: string)
    requires FirstCharUnique(sep) && !Contains(q, sep)
    ensures FirstOccurrence(q + sep + r, sep, |q|)
    ensures IndexOf(q + sep + r, sep, 0) == Some(|q|)
  {
    var t := q + sep + r;
    assert t[|q|..|q| + |sep|] == sep;
    forall j: nat | j < |q| ensures !OccursAt(t, sep, j) {
      if j + |sep| <= |q| {
        assert t[j..j + |sep|] == q[j..j + |sep|];
        assert !OccursAt(q, sep, j);
      } else if j + |sep| <= |t| {
        assert t[j..j + |sep|][|q| - j] == t[|q|] == sep[0] != sep[|q| - j];
      }
    }
    IndexOfFirst(t, sep, |q|);
  }

  /** Splitting stops at the first separator when the text before it is
      separator-free. */
  lemma SplitFirstFree(q: string, sep: string, r: string)
    requires FirstCharUnique(sep) && !Contains(q, sep)
    ensures Split(q + sep + r, sep) == [q] + Split(r, sep)
  {
    var t := q + sep + r;
    IndexOfAfterFree(q, sep, r);
    assert t[..|q|] == q;
    assert t[|q| + |sep|..] == r;
  }

  /** Splitting text built from separator-free pieces gives back the pieces. */
  lemma SplitJoinFree(q: string, sep: string, r: string)
    requires FirstCharUnique(sep) && !Contains(q, sep) && !Contains(r, sep)
    ensures Split(q + sep + r, sep) == [q, r]
  {
    SplitFirstFree(q, sep, r);
    assert IndexOf(r, sep, 0).None?;
  }

  /** The first two parts of a split, with the separator between them, are
      the whole text when there are exactly two parts, and otherwise the
      text up to the second separator, which follows at once. */
  lemma SplitFirstTwo(s: string, sep: string)
    requires FirstCharUnique(sep)
    ensures |Split(s, sep)| == 1 ==> Split(s, sep)[0] == s
    ensures |Split(s, sep)| == 2 ==> Split(s, sep)[0] + sep + Split(s, sep)[1] == s
    ensures |Split(s, sep)| > 2 ==>
              var kept := Split(s, sep)[0] + sep + Split(s, sep)[1];
              StartsWith(s, kept) && OccursAt(s, sep, |kept|) && CountOcc(kept, sep) == 1
  {
    var parts := Split(s, sep);
    if |parts| == 2 {
      JoinTwo(parts, sep);
    } else if |parts| > 2 {
      JoinMore(parts, sep);
      var kept := parts[0] + sep + parts[1];
      JoinedPieces(kept, sep, Join(parts[2..], sep));
      SplitJoinFree(parts[0], sep, parts[1]);
      SplitCount(kept, sep);
    }
  }

  /** A join of two parts. */
  lemma JoinTwo(parts: seq<string>, sep: string)
    requires |parts| == 2
    ensures Join(parts, sep) == parts[0] + sep + parts[1]
  {
    assert parts[1..] == [parts[1]];
  }

  /** A join of more than two parts: the first two, then the rest. */
  lemma JoinMore(parts: seq<string>, sep: string)
    requires |parts| > 2
    ensures Join(parts, sep) == (parts[0] + sep + parts[1]) + sep + Join(parts[2..], sep)
  {
    var rest := parts[1..];
    assert rest[1..] == parts[2..];
    assert Join(rest, sep) == parts[1] + sep + Join(parts[2..], sep);
    Regroup(parts[0], sep, parts[1], Join(parts[2..], sep));
  }

  /** Concatenation regrouped. */
  lemma Regroup(a: string, sep: string, b: string, c: string)
    ensures a + sep + (b + sep + c) == (a + sep + b) + sep + c
  {
  }

  /** `a + sep + b` starts with `a`, and `sep` follows it. */
  lemma JoinedPieces(a: string, sep: string, b: string)
    ensures StartsWith(a + sep + b, a) && OccursAt(a + sep + b, sep, |a|)
  {
    var t := a + sep + b;
    assert t[..|a|] == a;
    assert t[|a|..|a| + |sep|] == sep;
  }

  /** A string without the first character of `pat` does not contain `pat`. */
  lemma FirstCharAbsent(s: string, pat: string)
    requires |pat| > 0 && pat[0] !in s
    ensures !Contains(s, pat)
  {
    forall j: nat ensures !OccursAt(s, pat, j) {
      if j + |pat| <= |s| { assert s[j..j + |pat|][0] == s[j]; }
    }
  }

  /** A prefix without the separator's first character cannot create an
      occurrence of the separator. */
  lemma PrefixKeepsFree(pre: string, p: string, sep: string)
    requires |sep| > 0 && sep[0] !in pre && !Contains(p, sep)
    ensures !Contains(pre + p, sep)
  {
    var t := pre + p;
    forall j: nat ensures !OccursAt(t, sep, j) {
      if j + |sep| <= |t| {
        if j < |pre| {
          assert t[j..j + |sep|][0] == pre[j] != sep[0];
        } else {
          assert t[j..j + |sep|] == p[j - |pre|..j - |pre| + |sep|];
          assert !OccursAt(p, sep, j - |pre|);
        }
      }
    }
  }

  /** `indexOf` finds the first occurrence. */
  lemma IndexOfFirst(s: string, pat: string, k: nat)
    requires FirstOccurrence(s, pat, k)
    ensures IndexOf(s, pat, 0) == Some(k)
  {
    var r := IndexOf(s, pat, 0);
    assert r.Some? && r.value == k;
  }

  /** `s.replace(pat, rep)` for a string pattern: only the first occurrence
      is replaced. */
  function ReplaceFirst(s: string, pat: string, rep: string): (r: string)
    ensures !Contains(s, pat) ==> r == s
    ensures Contains(s, pat) ==> |r| == |s| - |pat| + |rep|
  {
    match IndexOf(s, pat, 0)
    case None => s
    case Some(k) => s[..k] + rep + s[k + |pat|..]
  }

  /** `replace` rewrites the first occurrence and keeps everything after it,
      later occurrences included. */
  lemma ReplaceFirstAt(s: string, pat: string, rep: string, k: nat)
    requires FirstOccurrence(s, pat, k)
    ensures ReplaceFirst(s, pat, rep) == s[..k] + rep + s[k + |pat|..]
    ensures forall j: nat :: k + |pat| <= j && OccursAt(s, pat, j) ==>
              OccursAt(ReplaceFirst(s, pat, rep), pat, j - |pat| + |rep|)
  {
    IndexOfFirst(s, pat, k);
    var out := s[..k] + rep + s[k + |pat|..];
    forall j: nat | k + |pat| <= j && OccursAt(s, pat, j)
      ensures OccursAt(out, pat, j - |pat| + |rep|)
    {
      var i := j - |pat| + |rep|;
      assert out[i..i + |pat|] == s[j..j + |pat|];
    }
  }

  /** JavaScript's WhiteSpace and LineTerminator characters, the set that
      `String.prototype.trim` removes: TAB, VT, FF, SPACE, NBSP, ZWNBSP, the
      Unicode space separators (category Zs), LF, CR, LS and PS. */
  predicate IsWhiteSpace(c: char)
  {
    c == '\t' || c == '\n' || c == '\U{000B}' || c == '\U{000C}' || c == '\r'
    || c == ' ' || c == '\U{00A0}' || c == '\U{1680}'
    || ('\U{2000}' <= c <= '\U{200A}')
    || c == '\U{2028}' || c == '\U{2029}' || c == '\U{202F}' || c == '\U{205F}'
    || c == '\U{3000}' || c == '\U{FEFF}'
  }

  predicate AllWhiteSpace(s: string)
  {
    forall i :: 0 <= i < |s| ==> IsWhiteSpace(s[i])
  }

  /** `s.trimStart()`: the longest suffix of `s` not starting with white space. */
  function TrimStart(s: string): (r: string)
    decreases |s|
    ensures |r| <= |s| && r == s[|s| - |r|..]
    ensures AllWhiteSpace(s[..|s| - |r|])
    ensures r != [] ==> !IsWhiteSpace(r[0])
  {
    if s != [] && IsWhiteSpace(s[0]) then
      var t := TrimStart(s[1..]);
      assert s[..|s| - |t|] == [s[0]] + s[1..][..|s| - 1 - |t|];
      t
    else s
  }

  /** `s.trimEnd()`: the longest prefix of `s` not ending with white space. */
  function TrimEnd(s: string): (r: string)
    decreases |s|
    ensures |r| <= |s| && r == s[..|r|]
    ensures AllWhiteSpace(s[|r|..])
    ensures r != [] ==> !IsWhiteSpace(r[|r| - 1])
  {
    if s != [] && IsWhiteSpace(s[|s| - 1]) then
      var t := TrimEnd(s[..|s| - 1]);
      assert s[|t|..] == s[..|s| - 1][|t|..] + [s[|s| - 1]];
      t
    else s
  }

  /** `s.trim()`: `s` without its leading and trailing white space. */
  function Trim(s: string): (r: string)
    ensures |r| <= |s|
    ensures r != [] ==> !IsWhiteSpace(r[0]) && !IsWhiteSpace(r[|r| - 1])
  {
    TrimEnd(TrimStart(s))
  }

  /** What `trim` removes is white space at both ends and nothing else:
      the result is blank exactly for blank text, starts and ends with a
      character that is not white space, and sits in `s` between runs of
      white space. */
  lemma TrimSpec(s: string)
    ensures Trim(s) == [] <==> AllWhiteSpace(s)
    ensures Trim(s) != [] ==> !IsWhiteSpace(Trim(s)[0]) && !IsWhiteSpace(Trim(s)[|Trim(s)| - 1])
    ensures exists a: nat :: WhiteSpaceAround(s, Trim(s), a)
  {
    TrimInfixFacts(s);
    TrimBlankFacts(s);
  }

  /** `r` occurs in `s` at `a` with only white space before and after it. */
  predicate WhiteSpaceAround(s: string, r: string, a: nat)
  {
    OccursAt(s, r, a) && AllWhiteSpace(s[..a]) && AllWhiteSpace(s[a + |r|..])
  }

  /** Text with no white space at either end is its own trim. */
  lemma TrimUnchanged(s: string)
    requires s == [] || (!IsWhiteSpace(s[0]) && !IsWhiteSpace(s[|s| - 1]))
    ensures Trim(s) == s
  {
  }

  /** Leading white space is skipped one character at a time. */
  lemma TrimStartSkip(c: char, s: string)
    requires IsWhiteSpace(c)
    ensures TrimStart([c] + s) == TrimStart(s)
  {
    assert ([c] + s)[1..] == s;
  }

  lemma TrimInfixFacts(s: string)
    ensures WhiteSpaceAround(s, TrimEnd(TrimStart(s)), |s| - |TrimStart(s)|)
  {
    var t := TrimStart(s);
    InfixAround(s, t, TrimEnd(t), |s| - |t|);
  }

  /** A prefix `r` of the suffix `t` of `s` that starts at `a`, with white
      space before `a` and after `r` in `t`, sits in `s` between white space. */
  lemma InfixAround(s: string, t: string, r: string, a: nat)
    requires a <= |s| && t == s[a..] && |r| <= |t| && r == t[..|r|]
    requires AllWhiteSpace(s[..a]) && AllWhiteSpace(t[|r|..])
    ensures WhiteSpaceAround(s, r, a)
  {
    assert s[a..a + |r|] == t[..|r|];
    assert s[a + |r|..] == t[|r|..];
  }

  lemma TrimBlankFacts(s: string)
    ensures var r := TrimEnd(TrimStart(s));
      (r == [] <==> AllWhiteSpace(s))
  {
    var t := TrimStart(s);
    var r := TrimEnd(t);
    var a := |s| - |t|;
    if r != [] {
      assert s[a] == t[0] == r[0];
      assert !IsWhiteSpace(s[a]);
    } else {
      assert t[|r|..] == t;
      assert t == s[a..];
      AllWhiteSpaceJoin(s, a);
    }
  }
  /** A string whose prefix and suffix at `a` are both white space is white space. */
  lemma AllWhiteSpaceJoin(s: string, a: nat)
    requires a <= |s| && AllWhiteSpace(s[..a]) && AllWhiteSpace(s[a..])
    ensures AllWhiteSpace(s)
  {
    forall i | 0 <= i < |s| ensures IsWhiteSpace(s[i]) {
      if i < a { assert s[i] == s[..a][i]; } else { assert s[i] == s[a..][i - a]; }
    }
  }
}
