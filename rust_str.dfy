/** The handful of Rust `str` operations the crate relies on, with the
    semantics of the Rust standard library spelled out on `seq<char>`. */
module RustStr {
  import opened Outcomes

  /** `char::is_whitespace`: the characters with the Unicode White_Space property. */
  predicate IsWhitespace(c: char) {
    || c == ' '
    || ('\t' <= c <= '\r')
    || c == '\U{0085}' || c == '\U{00A0}' || c == '\U{1680}'
    || ('\U{2000}' <= c <= '\U{200A}')
    || c == '\U{2028}' || c == '\U{2029}' || c == '\U{202F}' || c == '\U{205F}' || c == '\U{3000}'
  }

  /** `char::is_ascii_whitespace`: space, tab, line feed, form feed and carriage return. */
  predicate IsAsciiWhitespace(c: char) {
    c == ' ' || c == '\t' || c == '\n' || c == '\U{000C}' || c == '\r'
  }

  /** `char::is_ascii` */
  predicate IsAscii(c: char) {
    c as int < 128
  }

  /** No character of `s` satisfies `p`. */
  predicate NoneSatisfy(s: string, p: char -> bool) {
    forall i :: 0 <= i < |s| ==> !p(s[i])
  }

  /** Every character of `s` satisfies `p`. */
  predicate AllSatisfy(s: string, p: char -> bool) {
    forall i :: 0 <= i < |s| ==> p(s[i])
  }

  lemma NoneSatisfyJoined(a: string, b: string, p: char -> bool)
    requires NoneSatisfy(a, p) && NoneSatisfy(b, p)
    ensures NoneSatisfy(a + b, p)
  {
    forall k | 0 <= k < |a + b| ensures !p((a + b)[k]) {
      if k < |a| { assert (a + b)[k] == a[k]; } else { assert (a + b)[k] == b[k - |a|]; }
    }
  }

  /** `s.trim().is_empty()` holds exactly of these strings. */
  predicate IsBlank(s: string) {
    AllSatisfy(s, IsWhitespace)
  }

  predicate StartsWith(s: string, prefix: string) {
    prefix <= s
  }

  /** `p` occurs in `s` starting at index `i`. */
  predicate OccursAt(s: string, p: string, i: nat) {
    i + |p| <= |s| && s[i..i + |p|] == p
  }

  predicate Contains(s: string, p: string) {
    exists i: nat | i <= |s| :: OccursAt(s, p, i)
  }

  // ------------------------------------------------------------------
  // Trimming (`trim_start_matches` / `trim_end_matches` with a char predicate)

  /** Drops the longest prefix whose characters all satisfy `p`. */
  function TrimStartWhile(s: string, p: char -> bool): (r: string)
    ensures |r| <= |s| && r == s[|s| - |r|..]
    ensures AllSatisfy(s[..|s| - |r|], p)
    ensures r == [] || !p(r[0])
    decreases |s|
  {
    if s != [] && p(s[0]) then TrimStartWhile(s[1..], p) else s
  }

  /** Drops the longest suffix whose characters all satisfy `p`. */
  function TrimEndWhile(s: string, p: char -> bool): (r: string)
    ensures r <= s
    ensures AllSatisfy(s[|r|..], p)
    ensures r == [] || !p(r[|r| - 1])
    decreases |s|
  {
    if s != [] && p(s[|s| - 1]) then TrimEndWhile(s[..|s| - 1], p) else s
  }

  /** The longest prefix none of whose characters satisfies `p`. */
  function TakeUntil(s: string, p: char -> bool): (r: string)
    ensures r <= s
    ensures NoneSatisfy(r, p)
    ensures |r| == |s| || p(s[|r|])
    decreases |s|
  {
    if s != [] && !p(s[0]) then [s[0]] + TakeUntil(s[1..], p) else []
  }

  /** The position of the first `c` in `s`, or `|s|` when there is none. */
  function CharIndex(s: string, c: char): (r: nat)
    ensures r <= |s|
    ensures c !in s[..r]
    ensures r < |s| ==> s[r] == c
    decreases |s|
  {
    if s == [] then 0
    else if s[0] == c then 0
    else
      var k := CharIndex(s[1..], c);
      assert s[..k + 1] == [s[0]] + s[1..][..k];
      k + 1
  }

  /** `str::trim_end` */
  function TrimEnd(s: string): (r: string)
    ensures r <= s
    ensures IsBlank(s[|r|..])
    ensures r == [] || !IsWhitespace(r[|r| - 1])
  {
    TrimEndWhile(s, IsWhitespace)
  }

  /** `str::trim`: the slice left once leading and trailing whitespace is gone. */
  function Trim(s: string): (r: string)
    ensures r == [] <==> IsBlank(s)
    ensures r == [] || (!IsWhitespace(r[0]) && !IsWhitespace(r[|r| - 1]))
  {
    var t := TrimStartWhile(s, IsWhitespace);
    var r := TrimEndWhile(t, IsWhitespace);
    if r == [] then
      assert t[|r|..] == t;
      AllSatisfyPieces(s, t, IsWhitespace);
      r
    else
      r
  }

  /** A run that was skipped followed by a rest that all satisfies `p`. */
  lemma AllSatisfyPieces(s: string, t: string, p: char -> bool)
    requires |t| <= |s| && t == s[|s| - |t|..]
    requires AllSatisfy(s[..|s| - |t|], p) && AllSatisfy(t, p)
    ensures AllSatisfy(s, p)
  {
    var i := |s| - |t|;
    forall k | 0 <= k < |s| ensures p(s[k]) {
      if k < i { assert s[..i][k] == s[k]; } else { assert t[k - i] == s[k]; }
    }
  }

  /** `str::trim` returns a slice of its argument with only whitespace around it. */
  lemma TrimIsSlice(s: string)
    ensures exists i: nat :: i + |Trim(s)| <= |s| && Trim(s) == s[i..i + |Trim(s)|]
                             && IsBlank(s[..i]) && IsBlank(s[i + |Trim(s)|..])
  {
    var i := TrimOffset(s);
  }

  /** Where the slice `str::trim` returns starts. */
  lemma TrimOffset(s: string) returns (i: nat)
    ensures i + |Trim(s)| <= |s| && Trim(s) == s[i..i + |Trim(s)|]
    ensures IsBlank(s[..i]) && IsBlank(s[i + |Trim(s)|..])
  {
    i := TrimWhileOffset(Trim(s), s, IsWhitespace);
  }

  /** Trimming both ends with `p` leaves a slice `r` with only `p`-characters around it. */
  lemma TrimWhileOffset(r: string, s: string, p: char -> bool) returns (i: nat)
    requires r == TrimEndWhile(TrimStartWhile(s, p), p)
    ensures i + |r| <= |s| && r == s[i..i + |r|]
    ensures AllSatisfy(s[..i], p) && AllSatisfy(s[i + |r|..], p)
  {
    var t := TrimStartWhile(s, p);
    assert r <= t && AllSatisfy(t[|r|..], p);
    i := |s| - |t|;
    SlicePieces(s, t, r, i);
  }

  /** A prefix `r` of the suffix `t == s[i..]` is the slice `s[i..i + |r|]`. */
  lemma SlicePieces(s: string, t: string, r: string, i: nat)
    requires i <= |s| && t == s[i..] && r <= t
    ensures i + |r| <= |s| && r == s[i..i + |r|] && s[i + |r|..] == t[|r|..]
  {
    assert r == t[..|r|];
  }

  predicate IsQuote(c: char) {
    c == '"'
  }

  /** Trimming whitespace keeps every other character. */
  lemma TrimKeepsNonWhitespace(s: string, c: char)
    requires !IsWhitespace(c)
    ensures c in Trim(s) <==> c in s
  {
    var t1 := TrimStartWhile(s, IsWhitespace);
    var t := TrimEndWhile(t1, IsWhitespace);
    var d := |s| - |t1|;
    assert Trim(s) == t;
    if c in s {
      var k :| 0 <= k < |s| && s[k] == c;
      KeptCharacter(s, t1, t, d, k);
    }
    if c in t {
      var k :| 0 <= k < |t| && t[k] == c;
      InnerCharacter(s, t, d, k);
    }
  }

  /** A character of a slice of `s` is a character of `s`. */
  lemma InnerCharacter(s: string, t: string, d: nat, k: nat)
    requires d <= |s| && t <= s[d..] && k < |t|
    ensures t[k] in s
  {
    assert s[d + k] == t[k];
  }

  lemma KeptCharacter(s: string, t1: string, t: string, d: nat, k: nat)
    requires d <= |s| && t1 == s[d..] && AllSatisfy(s[..d], IsWhitespace)
    requires t <= t1 && AllSatisfy(t1[|t|..], IsWhitespace)
    requires k < |s| && !IsWhitespace(s[k])
    ensures s[k] in t
  {
    assert t[k - d] == s[k];
  }

  /** `str::trim_matches('"')` */
  function TrimQuotes(s: string): (r: string)
    ensures r == [] || (r[0] != '"' && r[|r| - 1] != '"')
  {
    TrimEndWhile(TrimStartWhile(s, IsQuote), IsQuote)
  }

  /** `trim_matches('"')` returns a slice of its argument with only quotes around it. */
  lemma TrimQuotesIsSlice(s: string)
    ensures exists i: nat :: i + |TrimQuotes(s)| <= |s| && TrimQuotes(s) == s[i..i + |TrimQuotes(s)|]
                             && AllSatisfy(s[..i], IsQuote) && AllSatisfy(s[i + |TrimQuotes(s)|..], IsQuote)
  {
    var i := TrimWhileOffset(TrimQuotes(s), s, IsQuote);
  }

  // ------------------------------------------------------------------
  // Searching and splitting on a string pattern (`str::find`, `str::split`)

  /** Leftmost occurrence of `p` in `s` at or after `k`. */
  function IndexFrom(s: string, p: string, k: nat): (r: Option<nat>)
    ensures r.Some? ==> k <= r.value && OccursAt(s, p, r.value)
                        && forall j :: k <= j < r.value ==> !OccursAt(s, p, j)
    ensures r.None? ==> forall j :: k <= j ==> !OccursAt(s, p, j)
    decreases |s| - k
  {
    if k + |p| > |s| then None
    else if s[k..k + |p|] == p then Some(k)
    else IndexFrom(s, p, k + 1)
  }

  /** `str::find` */
  function IndexOf(s: string, p: string): (r: Option<nat>)
    ensures r.Some? ==> OccursAt(s, p, r.value) && forall j: nat :: j < r.value ==> !OccursAt(s, p, j)
    ensures r.None? <==> !Contains(s, p)
  {
    IndexFrom(s, p, 0)
  }

  /** The pieces joined back with `sep` between consecutive pieces. */
  function Join(parts: seq<string>, sep: string): string
    decreases |parts|
  {
    if |parts| == 0 then []
    else if |parts| == 1 then parts[0]
    else parts[0] + sep + Join(parts[1..], sep)
  }

  /** `s.split(p).collect::<Vec<_>>()` for a non-empty pattern: the text
      between consecutive leftmost, non-overlapping occurrences of `p`. */
  function Split(s: string, p: string): (r: seq<string>)
    requires |p| > 0
    ensures |r| >= 1
    ensures Join(r, p) == s
    ensures forall i :: 0 <= i < |r| ==> !Contains(r[i], p)
    ensures forall i :: 0 <= i < |r| - 1 ==> IndexOf(r[i] + p, p) == Some(|r[i]|)
    decreases |s|
  {
    match IndexOf(s, p)
    case None => [s]
    case Some(i) =>
      var rest := Split(s[i + |p|..], p);
      NoEarlierOccurrence(s, p, i);
      assert Join([s[..i]] + rest, p) == s[..i] + p + Join(rest, p) by {
        assert ([s[..i]] + rest)[1..] == rest;
      }
      AroundOccurrence(s, p, i);
      [s[..i]] + rest
  }

  /** A text is what comes before an occurrence, the occurrence, and what follows. */
  lemma AroundOccurrence(s: string, p: string, i: nat)
    requires OccursAt(s, p, i)
    ensures s == s[..i] + p + s[i + |p|..]
  {
    assert s == s[..i] + s[i..i + |p|] + s[i + |p|..];
  }

  /** The prefix before the leftmost occurrence contains no occurrence, and
      that occurrence is the leftmost one of prefix + pattern. */
  lemma NoEarlierOccurrence(s: string, p: string, i: nat)
    requires |p| > 0
    requires OccursAt(s, p, i)
    requires forall j: nat :: j < i ==> !OccursAt(s, p, j)
    ensures !Contains(s[..i], p)
    ensures IndexOf(s[..i] + p, p) == Some(i)
  {
    var t := s[..i] + p;
    assert t == s[..i + |p|];
    forall j: nat | OccursAt(s[..i], p, j) ensures false {
      assert s[..i][j..j + |p|] == s[j..j + |p|];
      assert OccursAt(s, p, j);
    }
    forall j: nat | j < i ensures !OccursAt(t, p, j) {
      assert !OccursAt(s, p, j);
      if j + |p| <= |t| {
        assert t[j..j + |p|] == s[j..j + |p|];
      }
    }
    assert OccursAt(t, p, i);
  }

  /** `s.splitn(2, c)`: the text before the first `c` and, when there is
      one, the text after it. */
  function SplitOnce(s: string, c: char): (r: seq<string>)
    ensures 1 <= |r| <= 2
    ensures c !in r[0]
    ensures |r| == 1 <==> c !in s
    ensures |r| == 1 ==> r[0] == s
  {
    var i := CharIndex(s, c);
    if i == |s| then
      assert s[..i] == s;
      [s]
    else
      assert s == s[..i] + [c] + s[i + 1..];
      [s[..i], s[i + 1..]]
  }

  /** Splitting at a leftmost occurrence of the pattern. */
  lemma SplitAtFirst(a: string, b: string, p: string)
    requires |p| > 0
    requires IndexOf(a + p, p) == Some(|a|)
    ensures Split(a + p + b, p) == [a] + Split(b, p)
  {
    var s := a + p + b;
    assert OccursAt(s, p, |a|) by {
      assert s[|a|..|a| + |p|] == p;
    }
    forall j: nat | j < |a| ensures !OccursAt(s, p, j) {
      assert !OccursAt(a + p, p, j);
      assert s[j..j + |p|] == (a + p)[j..j + |p|];
    }
    assert IndexOf(s, p) == Some(|a|);
    assert s[..|a|] == a && s[|a| + |p|..] == b;
  }

  /** A text without the pattern is one piece. */
  lemma SplitWithout(s: string, p: string)
    requires |p| > 0 && !Contains(s, p)
    ensures Split(s, p) == [s]
  {
    assert IndexOf(s, p).None?;
  }

  /** `split` yields one piece exactly when the pattern does not occur. */
  lemma SplitSingle(s: string, p: string)
    requires |p| > 0
    ensures |Split(s, p)| == 1 <==> !Contains(s, p)
  {
  }

  /** A text ending in `c`, with no other `c`, has its first `c` at the end. */
  lemma FirstAtEnd(a: string, c: char)
    requires c !in a
    ensures IndexOf(a + [c], [c]) == Some(|a|)
  {
    var t := a + [c];
    assert OccursAt(t, [c], |a|) by {
      assert t[|a|..|a| + 1] == [c];
    }
    forall j: nat | j < |a| ensures !OccursAt(t, [c], j) {
      assert t[j] == a[j];
      assert t[j..j + 1] == [t[j]];
    }
  }

  /** A text without the character `c` is one piece when split on `[c]`. */
  lemma SplitWithoutChar(s: string, c: char)
    requires c !in s
    ensures Split(s, [c]) == [s]
  {
    forall j: nat | j <= |s| ensures !OccursAt(s, [c], j) {
      if j + 1 <= |s| {
        assert s[j..j + 1] == [s[j]];
      }
    }
    SplitWithout(s, [c]);
  }

  // ------------------------------------------------------------------
  // Splitting on a character predicate

  /** `s.split(|c| p(c)).collect::<Vec<_>>()`: the maximal runs between
      characters that satisfy `p`. */
  function SplitWhere(s: string, p: char -> bool): (r: seq<string>)
    ensures |r| >= 1
    ensures forall i :: 0 <= i < |r| ==> NoneSatisfy(r[i], p)
    ensures r[0] == TakeUntil(s, p)
    ensures |r| == 1 <==> NoneSatisfy(s, p)
    decreases |s|
  {
    var head := TakeUntil(s, p);
    if |head| == |s| then
      [s]
    else
      assert p(s[|head|]);
      [head] + SplitWhere(s[|head| + 1..], p)
  }

  /** The first whitespace-separated token: `s.split_ascii_whitespace().collect()[0]`,
      or `None` when the vector would be empty. */
  function FirstToken(s: string): (r: Option<string>)
    ensures r.None? <==> AllSatisfy(s, IsAsciiWhitespace)
    ensures r.Some? ==> r.value != [] && NoneSatisfy(r.value, IsAsciiWhitespace)
    ensures r.Some? ==> exists i: nat :: OccursAt(s, r.value, i)
                                        && AllSatisfy(s[..i], IsAsciiWhitespace)
                                        && (i + |r.value| == |s| || IsAsciiWhitespace(s[i + |r.value|]))
  {
    var t := TrimStartWhile(s, IsAsciiWhitespace);
    if t == [] then None
    else
      var tok := TakeUntil(t, IsAsciiWhitespace);
      TokenAfterSkip(s, t, tok, IsAsciiWhitespace);
      Some(tok)
  }

  /** A prefix of what is left after skipping a run occurs where the run ends. */
  lemma TokenAfterSkip(s: string, t: string, tok: string, p: char -> bool)
    requires |t| <= |s| && t == s[|s| - |t|..]
    requires tok <= t && (|tok| == |t| || p(t[|tok|]))
    ensures OccursAt(s, tok, |s| - |t|)
    ensures |s| - |t| + |tok| == |s| || p(s[|s| - |t| + |tok|])
  {
    var i := |s| - |t|;
    assert s[i..i + |tok|] == t[..|tok|];
  }

  // ------------------------------------------------------------------
  // `str::lines`

  function StripCarriageReturn(line: string): string {
    if line != [] && line[|line| - 1] == '\r' then line[..|line| - 1] else line
  }

  /** `str::lines`: split after every `\n`; each `\n` and a `\r` just before
      it are dropped; a final `\n` does not start an empty line. */
  function Lines(s: string): (r: seq<string>)
    ensures r == [] <==> s == []
    ensures forall i :: 0 <= i < |r| ==> '\n' !in r[i]
    ensures s != [] && '\n' !in s ==> r == [s]
    decreases |s|
  {
    if s == [] then []
    else
      var i := CharIndex(s, '\n');
      if i == |s| then
        assert s[..i] == s;
        [s]
      else [StripCarriageReturn(s[..i])] + Lines(s[i + 1..])
  }

  /** Each piece with a `\r` at its end dropped. */
  function StripEach(pieces: seq<string>): (r: seq<string>)
    ensures |r| == |pieces|
    decreases |pieces|
  {
    if pieces == [] then [] else [StripCarriageReturn(pieces[0])] + StripEach(pieces[1..])
  }

  /** The lines `str::lines` makes of the pieces of a split on `\n`: every
      piece a `\n` ended loses a final `\r`; the last piece, which no `\n`
      ended, is kept as it is unless it is empty. */
  function LinesOfPieces(pieces: seq<string>): seq<string>
    requires |pieces| >= 1
  {
    var last := pieces[|pieces| - 1];
    StripEach(pieces[..|pieces| - 1]) + (if last == [] then [] else [last])
  }

  /** `Lines` is the split on line feeds, read as `LinesOfPieces` does. */
  lemma {:induction false} LinesAreSplit(s: string)
    ensures Lines(s) == LinesOfPieces(Split(s, "\n"))
    decreases |s|
  {
    var i := CharIndex(s, '\n');
    if i == |s| {
      SplitWithoutChar(s, '\n');
    } else {
      var a, b := s[..i], s[i + 1..];
      assert s == a + "\n" + b;
      FirstAtEnd(a, '\n');
      SplitAtFirst(a, b, "\n");
      LinesAreSplit(b);
      PiecesCons(a, Split(b, "\n"));
    }
  }

  lemma PiecesCons(a: string, rest: seq<string>)
    requires |rest| >= 1
    ensures LinesOfPieces([a] + rest) == [StripCarriageReturn(a)] + LinesOfPieces(rest)
  {
    var ps := [a] + rest;
    assert ps[..|ps| - 1] == [a] + rest[..|rest| - 1];
    assert ps[..|ps| - 1][1..] == rest[..|rest| - 1];
    assert ps[|ps| - 1] == rest[|rest| - 1];
  }

  // ------------------------------------------------------------------
  // `str::replace`

  /** `str::replace` with an empty pattern: `rep` at every character boundary. */
  function Interleave(s: string, rep: string): string
    decreases |s|
  {
    if s == [] then rep else rep + [s[0]] + Interleave(s[1..], rep)
  }

  /** `str::replace`: every leftmost, non-overlapping occurrence of `pat`,
      scanning from the left, is replaced by `rep`. */
  function Replace(s: string, pat: string, rep: string): string
    decreases |s|
  {
    if pat == [] then Interleave(s, rep)
    else if |s| < |pat| then s
    else if s[..|pat|] == pat then rep + Replace(s[|pat|..], pat, rep)
    else [s[0]] + Replace(s[1..], pat, rep)
  }

  // ------------------------------------------------------------------
  // Properties of `Replace`

  /** An occurrence in a suffix is an occurrence in the whole. */
  lemma OccursInSuffix(s: string, p: string, k: nat, j: nat)
    requires k <= |s| && OccursAt(s[k..], p, j)
    ensures OccursAt(s, p, k + j)
  {
    assert s[k..][j..j + |p|] == s[k + j..k + j + |p|];
  }

  /** A text without the pattern comes back unchanged. */
  lemma {:induction false} ReplaceNoMatch(s: string, pat: string, rep: string)
    requires |pat| > 0 && !Contains(s, pat)
    ensures Replace(s, pat, rep) == s
    decreases |s|
  {
    if |s| >= |pat| {
      assert !OccursAt(s, pat, 0);
      forall j: nat | j <= |s[1..]| ensures !OccursAt(s[1..], pat, j) {
        if OccursAt(s[1..], pat, j) { OccursInSuffix(s, pat, 1, j); }
      }
      ReplaceNoMatch(s[1..], pat, rep);
      assert [s[0]] + s[1..] == s;
    }
  }

  /** Scanning past positions where `pat` does not start copies them unchanged. */
  lemma {:induction false} ReplaceCopiesNonMatches(s: string, pat: string, rep: string, k: nat)
    requires |pat| > 0 && k <= |s|
    requires forall j: nat :: j < k ==> !OccursAt(s, pat, j)
    ensures Replace(s, pat, rep) == s[..k] + Replace(s[k..], pat, rep)
    decreases k
  {
    if k > 0 {
      if |s| < |pat| {
        assert Replace(s[k..], pat, rep) == s[k..];
        assert s == s[..k] + s[k..];
      } else {
        assert !OccursAt(s, pat, 0);
        assert Replace(s, pat, rep) == [s[0]] + Replace(s[1..], pat, rep);
        forall j: nat | j < k - 1 ensures !OccursAt(s[1..], pat, j) {
          if OccursAt(s[1..], pat, j) { OccursInSuffix(s, pat, 1, j); }
        }
        ReplaceCopiesNonMatches(s[1..], pat, rep, k - 1);
        assert s[1..][k - 1..] == s[k..];
        CopiedPrefix(s, k, Replace(s[k..], pat, rep));
      }
    }
  }

  lemma CopiedPrefix(s: string, k: nat, tail: string)
    requires 0 < k <= |s|
    ensures [s[0]] + (s[1..][..k - 1] + tail) == s[..k] + tail
  {
    assert [s[0]] + s[1..][..k - 1] == s[..k];
  }

  /** `str::replace` is `split` followed by a join with the replacement, as the
      Rust documentation describes it. */
  lemma {:induction false} ReplaceIsJoinOfSplit(s: string, pat: string, rep: string)
    requires |pat| > 0
    ensures Replace(s, pat, rep) == Join(Split(s, pat), rep)
    decreases |s|
  {
    match IndexOf(s, pat)
    case None =>
      ReplaceNoMatch(s, pat, rep);
    case Some(i) =>
      var rest := s[i + |pat|..];
      var t := s[i..];
      ReplaceCopiesNonMatches(s, pat, rep, i);
      assert t[..|pat|] == pat && t[|pat|..] == rest;
      assert Replace(t, pat, rep) == rep + Replace(rest, pat, rep);
      ReplaceIsJoinOfSplit(rest, pat, rep);
      var parts := Split(s, pat);
      assert parts == [s[..i]] + Split(rest, pat);
      assert parts[1..] == Split(rest, pat);
      assert Join(parts, rep) == s[..i] + rep + Join(Split(rest, pat), rep);
  }

  /** The number of leftmost, non-overlapping occurrences of `pat` in `s`,
      counted by the same scan `Replace` makes. */
  function Occurrences(s: string, pat: string): nat
    requires |pat| > 0
    decreases |s|
  {
    if |s| < |pat| then 0
    else if s[..|pat|] == pat then 1 + Occurrences(s[|pat|..], pat)
    else Occurrences(s[1..], pat)
  }

  /** Each of the replaced occurrences changes the length by `|rep| - |pat|`. */
  lemma {:induction false} ReplaceLength(s: string, pat: string, rep: string)
    requires |pat| > 0
    ensures |Replace(s, pat, rep)| == |s| + Occurrences(s, pat) * (|rep| - |pat|)
    decreases |s|
  {
    if |s| < |pat| {
    } else if s[..|pat|] == pat {
      var rest := s[|pat|..];
      assert Replace(s, pat, rep) == rep + Replace(rest, pat, rep);
      ReplaceLength(rest, pat, rep);
      SuccTimes(Occurrences(rest, pat), |rep| - |pat|);
    } else {
      assert Replace(s, pat, rep) == [s[0]] + Replace(s[1..], pat, rep);
      ReplaceLength(s[1..], pat, rep);
    }
  }

  lemma SuccTimes(n: int, d: int)
    ensures (n + 1) * d == n * d + d
  {
  }

  /** A text without the pattern has no occurrence of it. */
  lemma {:induction false} NoOccurrences(s: string, pat: string)
    requires |pat| > 0 && !Contains(s, pat)
    ensures Occurrences(s, pat) == 0
    decreases |s|
  {
    if |s| >= |pat| {
      assert !OccursAt(s, pat, 0);
      forall j: nat | j <= |s[1..]| ensures !OccursAt(s[1..], pat, j) {
        if OccursAt(s[1..], pat, j) { OccursInSuffix(s, pat, 1, j); }
      }
      NoOccurrences(s[1..], pat);
    }
  }

  /** `Occurrences` agrees with `split`: there is one occurrence fewer than
      there are pieces. */
  lemma {:induction false} OccurrencesCountSplit(s: string, pat: string)
    requires |pat| > 0
    ensures Occurrences(s, pat) == |Split(s, pat)| - 1
    decreases |s|
  {
    match IndexOf(s, pat)
    case None =>
      NoOccurrences(s, pat);
    case Some(i) =>
      var rest := s[i + |pat|..];
      OccurrencesSkip(s, pat, i);
      var t := s[i..];
      assert |t| >= |pat| && t[..|pat|] == pat && t[|pat|..] == rest;
      assert Occurrences(t, pat) == 1 + Occurrences(rest, pat);
      OccurrencesCountSplit(rest, pat);
      assert Split(s, pat) == [s[..i]] + Split(rest, pat);
  }

  /** Positions where `pat` does not start contribute nothing to the count. */
  lemma {:induction false} OccurrencesSkip(s: string, pat: string, k: nat)
    requires |pat| > 0 && k <= |s|
    requires forall j: nat :: j < k ==> !OccursAt(s, pat, j)
    ensures Occurrences(s, pat) == Occurrences(s[k..], pat)
    decreases k
  {
    if k > 0 && |s| >= |pat| {
      assert !OccursAt(s, pat, 0);
      forall j: nat | j < k - 1 ensures !OccursAt(s[1..], pat, j) {
        if OccursAt(s[1..], pat, j) { OccursInSuffix(s, pat, 1, j); }
      }
      OccurrencesSkip(s[1..], pat, k - 1);
      assert s[1..][k - 1..] == s[k..];
    } else if k > 0 {
      assert Occurrences(s[k..], pat) == 0;
    }
  }

  /** One of `a`, `b` is a prefix of the other. */
  predicate Compatible(a: string, b: string) {
    a <= b || b <= a
  }

  /** `Replace` copies a prefix that lacks the first character of the pattern. */
  lemma {:induction false} ReplaceSkipsPrefix(a: string, b: string, pat: string, rep: string)
    requires |pat| > 0 && pat[0] !in a
    ensures Replace(a + b, pat, rep) == a + Replace(b, pat, rep)
    decreases |a|
  {
    var s := a + b;
    if a == [] {
      assert s == b;
    } else if |s| < |pat| {
      assert Replace(b, pat, rep) == b;
    } else {
      assert s[..|pat|][0] == a[0];
      assert Replace(s, pat, rep) == [s[0]] + Replace(s[1..], pat, rep);
      assert s[1..] == a[1..] + b;
      ReplaceSkipsPrefix(a[1..], b, pat, rep);
      PrependFirst(a, Replace(b, pat, rep));
    }
  }

  lemma PrependFirst(a: string, t: string)
    requires a != []
    ensures [a[0]] + (a[1..] + t) == a + t
  {
    assert [a[0]] + a[1..] == a;
  }

  /** `Replace` substitutes a leading occurrence of the pattern. */
  lemma ReplaceLeading(b: string, pat: string, rep: string)
    requires |pat| > 0
    ensures Replace(pat + b, pat, rep) == rep + Replace(b, pat, rep)
  {
    assert (pat + b)[..|pat|] == pat;
    assert (pat + b)[|pat|..] == b;
  }

  /** Deleting the one occurrence of `pat` in `a + pat + b` joins `a` and `b`,
      when `a` lacks the first character of `pat` and `b` lacks `pat`. */
  lemma DeleteJoins(a: string, b: string, pat: string)
    requires |pat| > 0 && pat[0] !in a && !Contains(b, pat)
    ensures Replace(a + pat + b, pat, "") == a + b
  {
    assert a + pat + b == a + (pat + b);
    ReplaceSkipsPrefix(a, pat + b, pat, "");
    ReplaceLeading(b, pat, "");
    ReplaceNoMatch(b, pat, "");
  }

  /** Strings that differ at a common index are not compatible. */
  lemma DiffersAt(a: string, b: string, k: nat)
    requires k < |a| && k < |b| && a[k] != b[k]
    ensures !Compatible(a, b)
  {
  }

  /** No suffix of `rep` is compatible with `q` when `rep` parts from `q`
      at its second character and never repeats `q`'s first one. */
  lemma SuffixesIncompatible(rep: string, q: string)
    requires 1 < |rep| && 1 < |q| && rep[1] != q[1] && q[0] !in rep[1..]
    ensures forall j :: 0 <= j < |rep| ==> !Compatible(rep[j..], q)
  {
    forall j | 0 <= j < |rep| ensures !Compatible(rep[j..], q) {
      if j == 0 {
        DiffersAt(rep, q, 1);
      } else {
        assert rep[j..][0] == rep[1..][j - 1];
        DiffersAt(rep[j..], q, 0);
      }
    }
  }

  /** Replacing `c + patRest` by `c + repRest` leaves no `c + patRest`
      when `c` occurs only at the head of each and the two part right after. */
  lemma ReplaceClearsPattern(s: string, c: char, patRest: string, repRest: string)
    requires patRest != [] && repRest != [] && repRest[0] != patRest[0]
    requires c !in patRest && c !in repRest
    ensures !Contains(Replace(s, [c] + patRest, [c] + repRest), [c] + patRest)
  {
    var pat, rep := [c] + patRest, [c] + repRest;
    assert pat[1..] == patRest && rep[1..] == repRest;
    SuffixesIncompatible(rep, pat);
    ReplaceLeavesNoOccurrence(s, pat, rep, pat);
  }

  /** A string lacking a character of `p` does not contain `p`. */
  lemma MissingChar(s: string, p: string, c: char)
    requires c in p && c !in s
    ensures !Contains(s, p)
  {
    var k :| 0 <= k < |p| && p[k] == c;
    forall i: nat | i <= |s| ensures !OccursAt(s, p, i) {
      if i + |p| <= |s| {
        assert s[i..i + |p|][k] == s[i + k];
      }
    }
  }

  /** When `rep` starts like `pat` and `w` avoids that first character, the
      output of `Replace` can only start with `w` if the input does. */
  lemma {:induction false} ReplaceKeepsPrefix(t: string, pat: string, rep: string, w: string)
    requires |pat| > 0 && |rep| > 0 && rep[0] == pat[0] && pat[0] !in w
    ensures StartsWith(Replace(t, pat, rep), w) ==> StartsWith(t, w)
    decreases |t|
  {
    var o := Replace(t, pat, rep);
    if w == [] || |t| < |pat| {
    } else if t[..|pat|] == pat {
      assert o[0] == pat[0];
    } else {
      var r := Replace(t[1..], pat, rep);
      assert o == [t[0]] + r;
      if StartsWith(o, w) {
        assert r[..|w| - 1] == w[1..];
        assert pat[0] !in w[1..] by {
          assert forall k :: 0 <= k < |w| - 1 ==> w[1..][k] == w[k + 1];
        }
        ReplaceKeepsPrefix(t[1..], pat, rep, w[1..]);
        assert t == [t[0]] + t[1..];
      }
    }
  }

  /** No occurrence of `q` straddles or follows a replacement text that no
      suffix of which is compatible with `q`. */
  lemma {:induction false} NoOccurrenceAfterReplacement(rep: string, r: string, q: string)
    requires |q| > 0 && !Contains(r, q)
    requires forall j :: 0 <= j < |rep| ==> !Compatible(rep[j..], q)
    ensures !Contains(rep + r, q)
  {
    var o := rep + r;
    forall k: nat | k <= |o| ensures !OccursAt(o, q, k) {
      if k < |rep| {
        assert !Compatible(rep[k..], q);
        if |rep| - k >= |q| {
          assert rep[k..][..|q|] == o[k..k + |q|];
        } else {
          assert rep[k..] == o[k..][..|rep| - k];
        }
      } else if k + |q| <= |o| {
        assert o[k..k + |q|] == r[k - |rep|..k - |rep| + |q|];
        assert !OccursAt(r, q, k - |rep|);
      }
    }
  }

  /** `Replace(s, pat, rep)` contains no occurrence of `q` when `q` starts
      with the first character of `pat` and `rep` and nowhere else, no suffix
      of `rep` is compatible with `q`, and `q` is `pat` itself or absent from `s`. */
  lemma {:induction false} ReplaceLeavesNoOccurrence(s: string, pat: string, rep: string, q: string)
    requires |pat| > 0 && |rep| > 0 && |q| > 0
    requires rep[0] == pat[0] && q[0] == pat[0] && pat[0] !in q[1..]
    requires forall j :: 0 <= j < |rep| ==> !Compatible(rep[j..], q)
    requires q == pat || !Contains(s, q)
    ensures !Contains(Replace(s, pat, rep), q)
    decreases |s|
  {
    if |s| < |pat| {
      if q == pat {
        assert forall k: nat :: !OccursAt(s, q, k);
      }
    } else {
      var n := if s[..|pat|] == pat then |pat| else 1;
      var tail := s[n..];
      if q != pat && Contains(tail, q) {
        var j: nat :| j <= |tail| && OccursAt(tail, q, j);
        OccursInSuffix(s, q, n, j);
      }
      ReplaceLeavesNoOccurrence(tail, pat, rep, q);
      if n == |pat| && s[..|pat|] == pat {
        NoOccurrenceAfterReplacement(rep, Replace(tail, pat, rep), q);
      } else {
        NoOccurrenceAfterCopy(s, pat, rep, q);
      }
    }
  }

  /** The step of `ReplaceLeavesNoOccurrence` where the first character is copied. */
  lemma {:induction false} NoOccurrenceAfterCopy(s: string, pat: string, rep: string, q: string)
    requires |pat| > 0 && |rep| > 0 && |q| > 0 && |s| >= |pat| && s[..|pat|] != pat
    requires rep[0] == pat[0] && q[0] == pat[0] && pat[0] !in q[1..]
    requires q == pat || !Contains(s, q)
    requires !Contains(Replace(s[1..], pat, rep), q)
    ensures !Contains(Replace(s, pat, rep), q)
  {
    var tail := s[1..];
    var r := Replace(tail, pat, rep);
    assert Replace(s, pat, rep) == [s[0]] + r;
    assert !OccursAt(s, q, 0);
    NoOccurrenceAtStart(s[0], tail, r, pat, rep, q);
    NoOccurrenceAfterFirst(s[0], r, q);
  }

  lemma {:induction false} NoOccurrenceAtStart(c: char, tail: string, r: string, pat: string, rep: string, q: string)
    requires |pat| > 0 && |rep| > 0 && |q| > 0 && rep[0] == pat[0] && pat[0] !in q[1..]
    requires r == Replace(tail, pat, rep) && !OccursAt([c] + tail, q, 0)
    ensures !OccursAt([c] + r, q, 0)
  {
    ReplaceKeepsPrefix(tail, pat, rep, q[1..]);
    if |q| <= 1 + |r| && c == q[0] {
      assert ([c] + r)[..|q|] == [c] + r[..|q| - 1];
      if |q| <= 1 + |tail| {
        assert ([c] + tail)[..|q|] == [c] + tail[..|q| - 1];
      }
    }
  }

  lemma {:induction false} NoOccurrenceAfterFirst(c: char, r: string, q: string)
    requires !Contains(r, q)
    ensures forall k: nat :: 1 <= k ==> !OccursAt([c] + r, q, k)
  {
    var o := [c] + r;
    forall k: nat | 1 <= k && k + |q| <= |o| ensures !OccursAt(o, q, k) {
      assert o[k..k + |q|] == r[k - 1..k - 1 + |q|];
      assert !OccursAt(r, q, k - 1);
    }
  }

  // ------------------------------------------------------------------
  // How the operations act on text of a known shape

  /** Trimming the start skips a prefix all of whose characters satisfy `p`. */
  lemma {:induction false} TrimStartSkips(w: string, m: string, p: char -> bool)
    requires AllSatisfy(w, p)
    ensures TrimStartWhile(w + m, p) == TrimStartWhile(m, p)
    decreases |w|
  {
    if w != [] {
      assert (w + m)[1..] == w[1..] + m;
      TrimStartSkips(w[1..], m, p);
    } else {
      assert w + m == m;
    }
  }

  /** Trimming the end skips a suffix all of whose characters satisfy `p`. */
  lemma {:induction false} TrimEndSkips(m: string, w: string, p: char -> bool)
    requires AllSatisfy(w, p)
    ensures TrimEndWhile(m + w, p) == TrimEndWhile(m, p)
    decreases |w|
  {
    if w != [] {
      var n := |w| - 1;
      assert (m + w)[..|m + w| - 1] == m + w[..n];
      assert AllSatisfy(w[..n], p) by {
        forall k | 0 <= k < n ensures p(w[..n][k]) { assert w[..n][k] == w[k]; }
      }
      TrimEndSkips(m, w[..n], p);
    } else {
      assert m + w == m;
    }
  }

  /** Text between blank padding, with no whitespace at its ends, is what `trim` returns. */
  lemma TrimPadded(w: string, m: string)
    requires IsBlank(w)
    requires m != [] && !IsWhitespace(m[0]) && !IsWhitespace(m[|m| - 1])
    ensures Trim(w + m) == m
  {
    TrimStartSkips(w, m, IsWhitespace);
  }

  /** `s.trim_matches('"')` of a quoted text whose own ends are not quotes. */
  lemma TrimQuotesQuoted(m: string)
    requires m != [] && m[0] != '"' && m[|m| - 1] != '"'
    ensures TrimQuotes("\"" + m + "\"") == m
  {
    TrimBothSkips("\"", m, "\"", IsQuote);
  }

  /** Trimming both ends with `p` drops padding of `p`-characters around a
      text whose own ends do not satisfy `p`. */
  lemma TrimBothSkips(w1: string, m: string, w2: string, p: char -> bool)
    requires AllSatisfy(w1, p) && AllSatisfy(w2, p)
    requires m != [] && !p(m[0]) && !p(m[|m| - 1])
    ensures TrimEndWhile(TrimStartWhile(w1 + m + w2, p), p) == m
  {
    assert w1 + m + w2 == w1 + (m + w2);
    TrimStartSkips(w1, m + w2, p);
    assert (m + w2)[0] == m[0];
    assert TrimStartWhile(m + w2, p) == m + w2;
    TrimEndSkips(m, w2, p);
    assert TrimEndWhile(m, p) == m;
  }

  /** Trimming quotes keeps only characters of the original. */
  lemma TrimQuotesKeeps(s: string, c: char)
    ensures c in TrimQuotes(s) ==> c in s
  {
    var t1 := TrimStartWhile(s, IsQuote);
    var t := TrimEndWhile(t1, IsQuote);
    if c in t {
      var k :| 0 <= k < |t| && t[k] == c;
      InnerCharacter(s, t, |s| - |t1|, k);
    }
  }

  lemma SplitOnceJoins(s: string, c: char)
    ensures |SplitOnce(s, c)| == 2 ==> s == SplitOnce(s, c)[0] + [c] + SplitOnce(s, c)[1]
  {
    var i := CharIndex(s, c);
    if i < |s| {
      assert s == s[..i] + [c] + s[i + 1..];
    }
  }

  /** The first `c` of a text is found where it is. */
  lemma SplitOnceAt(a: string, c: char, b: string)
    requires c !in a
    ensures SplitOnce(a + [c] + b, c) == [a, b]
  {
    var s := a + [c] + b;
    var i := CharIndex(s, c);
    assert s[|a|] == c;
    assert s[..|a|] == a && s[|a| + 1..] == b;
  }

  /** The run before a character satisfying `p` ends exactly there. */
  lemma TakeUntilAt(a: string, b: string, p: char -> bool)
    requires NoneSatisfy(a, p) && b != [] && p(b[0])
    ensures TakeUntil(a + b, p) == a
  {
    var s := a + b;
    var r := TakeUntil(s, p);
    assert s[|a|] == b[0];
    assert forall k :: 0 <= k < |a| ==> s[k] == a[k];
    assert forall k :: 0 <= k < |r| ==> r[k] == s[k];
  }

  /** The second piece of `split` on a character predicate. */
  lemma SplitWhereSecond(a: string, c: char, b: string, p: char -> bool)
    requires NoneSatisfy(a, p) && p(c)
    ensures |SplitWhere(a + [c] + b, p)| >= 2
    ensures SplitWhere(a + [c] + b, p)[1] == TakeUntil(b, p)
  {
    var s := a + [c] + b;
    assert s == a + ([c] + b);
    TakeUntilAt(a, [c] + b, p);
    assert s[|a| + 1..] == b;
  }

  /** An occurrence of `q` in `a + b`, where `a` lacks the first character of
      `q`, lies inside `b`. */
  lemma ContainsAfterPrefix(a: string, b: string, q: string)
    requires q != [] && q[0] !in a
    ensures Contains(a + b, q) ==> Contains(b, q)
  {
    if Contains(a + b, q) {
      var i: nat :| i <= |a + b| && OccursAt(a + b, q, i);
      assert (a + b)[i] == q[0];
      assert (a + b)[i..i + |q|] == b[i - |a|..i - |a| + |q|];
      assert OccursAt(b, q, i - |a|);
    }
  }
}
