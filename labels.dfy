/** Turning buffered help text into key bindings: `make_label`,
    `label_identifier`, `clean_viewed`, `bind_idents_labels` and
    `label_by_position` of src/lib.rs. */
module Labels {
  import opened Outcomes
  import opened RustStr
  import opened Json

  // ------------------------------------------------------------------
  // Type annotations

  /** The three base types a field can be annotated with. */
  datatype BaseType = Decimal | Text | Boolean

  /** A base type, possibly wrapped as optional. */
  datatype Annotation = Annotation(base: BaseType, optional: bool)

  /** The name a base type is written as in the schema. */
  function BaseName(b: BaseType): string {
    match b
    case Decimal => "Decimal"
    case Text => "String"
    case Boolean => "bool"
  }

  /** How an annotation is written in the schema: `Decimal`, `Option<bool>`, ... */
  function Render(a: Annotation): string {
    if a.optional then "Option<" + BaseName(a.base) + ">" else BaseName(a.base)
  }

  /** The help-text keyword that introduces a base type. */
  function TypeWord(b: BaseType): string {
    match b
    case Decimal => "numeric"
    case Text => "string"
    case Boolean => "boolean"
  }

  const OptionalMarker := ", optional"

  /** `make_label`: the base type comes from the leading keyword of the
      parenthesised label, and the `Option<...>` wrapper from the presence of
      ", optional" anywhere in it. */
  function MakeLabel(raw: string): (r: Result<string>)
    ensures StartsWith(raw, "numeric") ==> r == Ok(Render(Annotation(Decimal, Contains(raw, OptionalMarker))))
    ensures StartsWith(raw, "string") ==> r == Ok(Render(Annotation(Text, Contains(raw, OptionalMarker))))
    ensures StartsWith(raw, "boolean") ==> r == Ok(Render(Annotation(Boolean, Contains(raw, OptionalMarker))))
    ensures !StartsWith(raw, "numeric") && !StartsWith(raw, "string") && !StartsWith(raw, "boolean")
            ==> r == Err(UnknownTypeAnnotation)
  {
    assert StartsWith(raw, "string") ==> !StartsWith(raw, "numeric") by {
      if StartsWith(raw, "string") { assert raw[0] == 's'; }
    }
    assert StartsWith(raw, "boolean") ==> !StartsWith(raw, "numeric") && !StartsWith(raw, "string") by {
      if StartsWith(raw, "boolean") { assert raw[0] == 'b'; }
    }
    var annotation :=
      if StartsWith(raw, "numeric") then "Decimal"
      else if StartsWith(raw, "string") then "String"
      else if StartsWith(raw, "boolean") then "bool"
      else "";
    if annotation == "" then Err(UnknownTypeAnnotation)
    else if Contains(raw, OptionalMarker) then Ok("Option<" + annotation + ">")
    else Ok(annotation)
  }

  /** The text that marks an annotation as optional, or nothing. */
  function OptionalSuffix(optional: bool): string {
    if optional then OptionalMarker else ""
  }

  /** `make_label` reads back what the help text writes: a type keyword,
      ", optional" when the field is optional, then any further words. */
  lemma MakeLabelReadsTypeWord(a: Annotation, rest: string)
    requires !Contains(rest, OptionalMarker)
    ensures MakeLabel(TypeWord(a.base) + OptionalSuffix(a.optional) + rest) == Ok(Render(a))
  {
    var w := TypeWord(a.base);
    var text := w + OptionalSuffix(a.optional) + rest;
    assert text[..|w|] == w;
    if a.optional {
      assert text[|w|..|w| + |OptionalMarker|] == OptionalMarker;
      assert OccursAt(text, OptionalMarker, |w|);
    } else {
      assert text == w + rest;
      assert ',' !in w;
      ContainsAfterPrefix(w, rest, OptionalMarker);
    }
  }

  // ------------------------------------------------------------------
  // One field line

  predicate IsParen(c: char) {
    c == '(' || c == ')'
  }

  /** The identifier of a field line: the trimmed line up to its first `:`,
      with surrounding quotes removed. `bind_idents_labels` computes the key
      of a nested value the same way. */
  function Identifier(line: string): (r: string)
    ensures ':' !in r
  {
    var head := SplitOnce(Trim(line), ':')[0];
    TrimQuotesKeeps(head, ':');
    TrimQuotes(head)
  }

  /** The annotation of a field's metadata: `make_label` of the piece after
      the first `(` or `)`. */
  function AnnotationOf(metaData: string): (r: Result<string>)
    ensures r.Err? ==> r.failure in {MissingParenthesis, UnknownTypeAnnotation}
    ensures r.Ok? ==> !NoneSatisfy(metaData, IsParen)
    ensures r.Ok? ==> exists a :: r.value == Render(a)
  {
    var segments := SplitWhere(metaData, IsParen);
    if |segments| < 2 then Err(MissingParenthesis)
    else
      var raw := segments[1];
      var annotation :- MakeLabel(raw);
      assert exists a :: annotation == Render(a) by {
        var optional := Contains(raw, OptionalMarker);
        if StartsWith(raw, "numeric") {
          assert annotation == Render(Annotation(Decimal, optional));
        } else if StartsWith(raw, "string") {
          assert annotation == Render(Annotation(Text, optional));
        } else {
          assert annotation == Render(Annotation(Boolean, optional));
        }
      }
      Ok(annotation)
  }

  /** `label_identifier`: the identifier, and the annotation of the trimmed
      text after the first `:`. A line without `:`, without parenthesis or
      with an unknown type keyword is a failure (an index out of bounds or a
      panic in the crate). */
  function LabelIdentifier(line: string): (r: Result<(string, string)>)
    ensures r.Err? ==> r.failure in {MissingMetadata, MissingParenthesis, UnknownTypeAnnotation}
  {
    var pieces := SplitOnce(Trim(line), ':');
    if |pieces| < 2 then Err(MissingMetadata) else LabelWithMetadata(line, pieces[1])
  }

  /** The identifier of `line` paired with the annotation of the text after
      its colon. */
  function LabelWithMetadata(line: string, afterColon: string): (r: Result<(string, string)>)
    ensures r.Err? ==> r.failure in {MissingParenthesis, UnknownTypeAnnotation}
  {
    var annotation :- AnnotationOf(Trim(afterColon));
    Ok((Identifier(line), annotation))
  }

  /** Labelling fails with missing metadata exactly when the line has no colon. */
  lemma LabelIdentifierNeedsColon(line: string)
    ensures LabelIdentifier(line) == Err(MissingMetadata) <==> ':' !in line
  {
    if ':' in line {
      ColonGivesMetadata(line);
    } else {
      NoColonNoMetadata(line);
    }
  }

  lemma NoColonNoMetadata(line: string)
    requires ':' !in line
    ensures LabelIdentifier(line) == Err(MissingMetadata)
  {
    TrimKeepsNonWhitespace(line, ':');
  }

  lemma ColonGivesMetadata(line: string)
    requires ':' in line
    ensures LabelIdentifier(line) != Err(MissingMetadata)
  {
    TrimKeepsNonWhitespace(line, ':');
    LabelIdentifierWithColon(line);
  }

  lemma LabelIdentifierWithColon(line: string)
    requires |SplitOnce(Trim(line), ':')| == 2
    ensures LabelIdentifier(line) == LabelWithMetadata(line, SplitOnce(Trim(line), ':')[1])
  {
  }

  /** A labelled line had a parenthesis; its identifier has no colon and its
      label renders an annotation. */
  lemma LabelIdentifierSucceeds(line: string)
    requires LabelIdentifier(line).Ok?
    ensures ':' !in LabelIdentifier(line).value.0 && !NoneSatisfy(line, IsParen)
    ensures exists a :: LabelIdentifier(line).value.1 == Render(a)
  {
    var metaData := Trim(SplitOnce(Trim(line), ':')[1]);
    assert AnnotationOf(metaData).Ok?;
    ParenthesisThroughColon(line);
  }

  /** A visible character of the metadata (the trimmed text after the first
      `:` of the trimmed line) is a character of the line. */
  lemma KeptThroughColon(line: string, c: char)
    requires !IsWhitespace(c)
    requires |SplitOnce(Trim(line), ':')| == 2
    requires c in Trim(SplitOnce(Trim(line), ':')[1])
    ensures c in line
  {
    var trimmed := Trim(line);
    var pieces := SplitOnce(trimmed, ':');
    TrimKeepsNonWhitespace(pieces[1], c);
    SplitOnceJoins(trimmed, ':');
    assert c in trimmed;
    TrimKeepsNonWhitespace(line, c);
  }

  /** A parenthesis of the metadata is a parenthesis of the line. */
  lemma ParenthesisThroughColon(line: string)
    requires |SplitOnce(Trim(line), ':')| == 2
    requires !NoneSatisfy(Trim(SplitOnce(Trim(line), ':')[1]), IsParen)
    ensures !NoneSatisfy(line, IsParen)
  {
    var metaData := Trim(SplitOnce(Trim(line), ':')[1]);
    var k :| 0 <= k < |metaData| && IsParen(metaData[k]);
    ParenthesisKept(line, metaData[k]);
  }

  lemma ParenthesisKept(line: string, c: char)
    requires |SplitOnce(Trim(line), ':')| == 2
    requires IsParen(c) && c in Trim(SplitOnce(Trim(line), ':')[1])
    ensures !NoneSatisfy(line, IsParen)
  {
    ParenIsNotWhitespace(c);
    KeptThroughColon(line, c);
    ParenthesisIn(line, c);
  }

  lemma ParenIsNotWhitespace(c: char)
    requires IsParen(c)
    ensures !IsWhitespace(c)
  {
  }

  lemma ParenthesisIn(s: string, c: char)
    requires IsParen(c) && c in s
    ensures !NoneSatisfy(s, IsParen)
  {
    var j :| 0 <= j < |s| && s[j] == c;
    assert IsParen(s[j]);
  }

  // ------------------------------------------------------------------
  // The buffered block

  /** The lines `clean_viewed` starts from: the buffer without trailing
      whitespace, split by `str::lines`. */
  function BufferLines(raw: string): (r: seq<string>)
    ensures r == [] <==> IsBlank(raw)
  {
    TrimEndEmpty(raw);
    Lines(TrimEnd(raw))
  }

  lemma TrimEndEmpty(s: string)
    ensures TrimEnd(s) == [] <==> IsBlank(s)
  {
    var t := TrimEnd(s);
    if t != [] {
      assert s[|t| - 1] == t[|t| - 1];
    }
  }

  /** `clean_viewed`: the first line is always removed (`Vec::remove(0)`,
      which panics on an empty buffer); when it reads "..." once trimmed,
      the result is exactly ["..."]. The "(object)" case of the crate's
      match never reads "...", so it falls in with the default. */
  function CleanViewed(raw: string): (r: Result<seq<string>>)
    ensures r.Err? <==> IsBlank(raw)
    ensures r.Err? ==> r.failure == RemoveFromEmpty
    ensures r.Ok? ==> r.value == (if Trim(BufferLines(raw)[0]) == "..." then ["..."] else BufferLines(raw)[1..])
  {
    var lines := BufferLines(raw);
    if lines == [] then Err(RemoveFromEmpty)
    else
      var first := Trim(lines[0]);
      var rest := lines[1..];
      if first == [] then Ok(rest)
      else if Contains(first, "(object)") then
        NotEllipsis(first);
        Ok(rest)
      else if first == "..." then Ok([first])
      else Ok(rest)
  }

  lemma NotEllipsis(s: string)
    requires Contains(s, "(object)")
    ensures s != "..."
  {
    var i: nat :| i <= |s| && OccursAt(s, "(object)", i);
  }

  /** `f` applied to every element in order, as `Iterator::map` does; the
      first element `f` fails on aborts the whole (a panic in the crate). */
  function MapAll<T, U>(xs: seq<T>, f: T -> Result<U>): (r: Result<seq<U>>)
    ensures r.Ok? ==> |r.value| == |xs|
    decreases |xs|
  {
    if xs == [] then Ok([])
    else
      var head :- f(xs[0]);
      var tail :- MapAll(xs[1..], f);
      Ok([head] + tail)
  }

  /** On success, every element's result is in place. */
  lemma {:induction false} MapAllOk<T, U>(xs: seq<T>, f: T -> Result<U>, i: nat)
    requires MapAll(xs, f).Ok? && i < |xs|
    ensures f(xs[i]) == Ok(MapAll(xs, f).value[i])
    decreases |xs|
  {
    if i > 0 {
      MapAllOk(xs[1..], f, i - 1);
      assert xs[1..][i - 1] == xs[i];
    }
  }

  /** Success exactly when `f` succeeds on every element. */
  lemma {:induction false} MapAllSucceeds<T, U>(xs: seq<T>, f: T -> Result<U>)
    ensures MapAll(xs, f).Ok? <==> forall i :: 0 <= i < |xs| ==> f(xs[i]).Ok?
    decreases |xs|
  {
    if xs != [] {
      MapAllSucceeds(xs[1..], f);
      assert forall i :: 0 < i < |xs| ==> xs[1..][i - 1] == xs[i];
    }
  }

  /** A failure is the failure of the first element `f` fails on. */
  lemma {:induction false} MapAllFails<T, U>(xs: seq<T>, f: T -> Result<U>)
    requires MapAll(xs, f).Err?
    ensures exists i :: 0 <= i < |xs| && f(xs[i]) == Err(MapAll(xs, f).failure)
                        && forall j :: 0 <= j < i ==> f(xs[j]).Ok?
    decreases |xs|
  {
    if f(xs[0]).Ok? {
      var tail := xs[1..];
      MapAllFails(tail, f);
      var i :| 0 <= i < |tail| && f(tail[i]) == Err(MapAll(tail, f).failure)
               && forall j :: 0 <= j < i ==> f(tail[j]).Ok?;
      assert f(xs[i + 1]) == Err(MapAll(xs, f).failure);
      assert forall j :: 0 < j < i + 1 ==> xs[j] == tail[j - 1];
    }
  }

  /** Labels every line in order. */
  function LabelAll(lines: seq<string>): Result<seq<(string, string)>> {
    MapAll(lines, LabelIdentifier)
  }

  /** `collect::<Map<String, Value>>()` of the labelled pairs, each label as a
      JSON string; a later pair with the same identifier overwrites an
      earlier one. */
  function Collect(pairs: seq<(string, string)>): map<string, Value>
    decreases |pairs|
  {
    if pairs == [] then map[]
    else
      var n := |pairs| - 1;
      Collect(pairs[..n])[pairs[n].0 := Str(pairs[n].1)]
  }

  predicate HasIdent(pairs: seq<(string, string)>, k: string) {
    exists i: nat | i < |pairs| :: pairs[i].0 == k
  }

  /** No later pair has the identifier of pair `i`. */
  predicate IsLastOccurrence(pairs: seq<(string, string)>, i: nat)
    requires i < |pairs|
  {
    forall j :: i < j < |pairs| ==> pairs[j].0 != pairs[i].0
  }

  /** The keys of the collected map are exactly the identifiers. */
  lemma {:induction false} CollectKeys(pairs: seq<(string, string)>, k: string)
    ensures k in Collect(pairs) <==> HasIdent(pairs, k)
    decreases |pairs|
  {
    if pairs != [] {
      var n := |pairs| - 1;
      var earlier := pairs[..n];
      CollectKeys(earlier, k);
      if k != pairs[n].0 {
        if HasIdent(earlier, k) {
          var i: nat :| i < n && earlier[i].0 == k;
          assert pairs[i].0 == k;
        }
        if HasIdent(pairs, k) {
          var i: nat :| i < |pairs| && pairs[i].0 == k;
          assert earlier[i].0 == k;
        }
      } else {
        assert pairs[n].0 == k;
      }
    }
  }

  /** The last pair with a given identifier decides its value. */
  lemma {:induction false} CollectLastWins(pairs: seq<(string, string)>, i: nat)
    requires i < |pairs| && IsLastOccurrence(pairs, i)
    ensures pairs[i].0 in Collect(pairs) && Collect(pairs)[pairs[i].0] == Str(pairs[i].1)
    decreases |pairs|
  {
    var n := |pairs| - 1;
    if i < n {
      var earlier := pairs[..n];
      assert earlier[i] == pairs[i];
      assert IsLastOccurrence(earlier, i);
      CollectLastWins(earlier, i);
      assert pairs[n].0 != pairs[i].0;
    }
  }

  /** The nested branch of `bind_idents_labels`: the last line names the
      key the nested value is bound under (`Vec::pop`, which panics when no
      line remains). The earlier lines are still labelled, and can still
      fail, but their bindings are discarded: the result is that single
      binding. */
  function BindNested(lines: seq<string>, value: Value): (r: Result<map<string, Value>>)
    ensures lines == [] ==> r == Err(PopFromEmpty)
    ensures r.Ok? <==> lines != [] && LabelAll(lines[..|lines| - 1]).Ok?
    ensures r.Err? && lines != [] ==> r.failure == LabelAll(lines[..|lines| - 1]).failure
    ensures r.Ok? ==> r.value.Keys == {Identifier(lines[|lines| - 1])}
                      && r.value[Identifier(lines[|lines| - 1])] == value
  {
    if lines == [] then Err(PopFromEmpty)
    else
      var key := Identifier(lines[|lines| - 1]);
      var siblings := LabelAll(lines[..|lines| - 1]);
      if siblings.Err? then Err(siblings.failure)
      else Ok(map[key := value])
  }

  /** The flat branch of `bind_idents_labels`: every line labelled and bound. */
  function BindFlat(lines: seq<string>): (r: Result<map<string, Value>>)
    ensures r.Ok? <==> forall i :: 0 <= i < |lines| ==> LabelIdentifier(lines[i]).Ok?
  {
    MapAllSucceeds(lines, LabelIdentifier);
    var pairs :- LabelAll(lines);
    Ok(Collect(pairs))
  }

  /** Every field line of a flat block is bound under its identifier, to the
      annotation of the last line with that identifier. */
  lemma BindFlatLastWins(lines: seq<string>, i: nat)
    requires BindFlat(lines).Ok? && i < |lines|
    requires forall j :: i < j < |lines| ==> LabelAll(lines).value[j].0 != LabelAll(lines).value[i].0
    ensures LabelIdentifier(lines[i]).Ok?
    ensures var (ident, annotation) := LabelIdentifier(lines[i]).value;
            ident in BindFlat(lines).value && BindFlat(lines).value[ident] == Str(annotation)
  {
    var pairs := LabelAll(lines).value;
    MapAllOk(lines, LabelIdentifier, i);
    assert IsLastOccurrence(pairs, i);
    CollectLastWins(pairs, i);
  }

  /** The keys of a flat block are exactly the identifiers of its lines. */
  lemma BindFlatKeys(lines: seq<string>, k: string)
    requires BindFlat(lines).Ok?
    ensures k in BindFlat(lines).value <==> exists i :: 0 <= i < |lines| && LabelIdentifier(lines[i]).value.0 == k
  {
    var pairs := LabelAll(lines).value;
    CollectKeys(pairs, k);
    if HasIdent(pairs, k) {
      var i: nat :| i < |pairs| && pairs[i].0 == k;
      MapAllOk(lines, LabelIdentifier, i);
    }
    if exists i :: 0 <= i < |lines| && LabelIdentifier(lines[i]).value.0 == k {
      var i :| 0 <= i < |lines| && LabelIdentifier(lines[i]).value.0 == k;
      MapAllOk(lines, LabelIdentifier, i);
      assert pairs[i].0 == k;
    }
  }

  lemma SingleBinding(m: map<string, Value>, k: string, v: Value)
    requires m.Keys == {k} && m[k] == v
    ensures |m| == 1 && m.Values == {v}
  {
    assert m == map[k := v];
  }

  /** `bind_idents_labels` on the raw buffer: `clean_viewed`, then the nested
      or the flat branch. */
  function BindIdentsLabels(viewed: string, inner: Option<Value>): (r: Result<map<string, Value>>)
    ensures IsBlank(viewed) ==> r == Err(RemoveFromEmpty)
    ensures inner.Some? && r.Ok? ==> |r.value| == 1 && r.value.Values == {inner.value}
    ensures inner.None? && r.Ok? ==> r == BindFlat(CleanViewed(viewed).value)
  {
    var cleaned :- CleanViewed(viewed);
    match inner
    case Some(value) =>
      var r := BindNested(cleaned, value);
      if r.Ok? then
        SingleBinding(r.value, Identifier(cleaned[|cleaned| - 1]), value);
        r
      else r
    case None => BindFlat(cleaned)
  }

  // ------------------------------------------------------------------
  // The array terminator

  predicate NotOpenBrace(c: char) {
    c != '{'
  }

  predicate NotCloseBrace(c: char) {
    c != '}'
  }

  /** The text `label_by_position` hands to the JSON parser: from the first
      `{` through the last `}` (`trim_end_matches` then `trim_start_matches`). */
  function EmbeddedObject(raw: string): (t: string)
    ensures t == [] || (t[0] == '{' && t[|t| - 1] == '}')
  {
    var upToClose := TrimEndWhile(raw, NotCloseBrace);
    TrimStartWhile(upToClose, NotOpenBrace)
  }

  /** Without a `{` there is no embedded object. */
  lemma NoBraceNoObject(raw: string)
    requires '{' !in raw
    ensures EmbeddedObject(raw) == []
  {
    var upToClose := TrimEndWhile(raw, NotCloseBrace);
    var t := TrimStartWhile(upToClose, NotOpenBrace);
    assert t == raw[|upToClose| - |t|..|upToClose|];
    SliceChars(raw, |upToClose| - |t|, |upToClose|);
  }

  /** The embedded object is exactly the text from the first `{` through the
      last `}`: with no `{` before the braces and no `}` after them, the
      parser sees the braces and what they enclose. */
  lemma EmbeddedIsBraced(a: string, m: string, b: string)
    requires '{' !in a && '}' !in b
    ensures EmbeddedObject(a + "{" + m + "}" + b) == "{" + m + "}"
  {
    var raw := a + "{" + m + "}" + b;
    var braced := a + "{" + m + "}";
    assert raw == braced + b;
    var upToClose := TrimEndWhile(raw, NotCloseBrace);
    UpToLastClose(braced, b, upToClose);
    var t := TrimStartWhile(braced, NotOpenBrace);
    assert braced == a + ("{" + m + "}");
    FromFirstOpen(a, "{" + m + "}", t);
  }

  /** The trailing trim stops at the `}` that ends `braced`. */
  lemma UpToLastClose(braced: string, b: string, u: string)
    requires braced != [] && braced[|braced| - 1] == '}' && '}' !in b
    requires u == TrimEndWhile(braced + b, NotCloseBrace)
    ensures u == braced
  {
    var raw := braced + b;
    forall pos | |u| <= pos < |raw| ensures raw[pos] != '}' {
      assert raw[pos] == raw[|u|..][pos - |u|];
    }
    assert raw[|braced| - 1] == '}';
    forall pos | |braced| <= pos < |raw| ensures raw[pos] != '}' {
      assert raw[pos] == b[pos - |braced|];
    }
    if u != [] {
      assert u[|u| - 1] == raw[|u| - 1];
    }
    assert u == raw[..|braced|];
  }

  /** The leading trim stops at the `{` that starts `rest`. */
  lemma FromFirstOpen(a: string, rest: string, t: string)
    requires '{' !in a && rest != [] && rest[0] == '{'
    requires t == TrimStartWhile(a + rest, NotOpenBrace)
    ensures t == rest
  {
    var s := a + rest;
    var cut := |s| - |t|;
    forall pos | 0 <= pos < cut ensures s[pos] != '{' {
      assert s[pos] == s[..cut][pos];
    }
    assert s[|a|] == '{';
    forall pos | 0 <= pos < |a| ensures s[pos] != '{' {
      assert s[pos] == a[pos];
    }
    if t != [] {
      assert t[0] == s[cut];
    }
    assert t == s[|a|..];
  }

  /** When no `{` comes before the last `}` (in particular when there is no
      `}` at all), the parser is handed the empty text. */
  lemma NoOpenBeforeCloseNoObject(a: string, b: string)
    requires '{' !in a && '}' !in b
    ensures EmbeddedObject(a + b) == []
  {
    var raw := a + b;
    var upToClose := TrimEndWhile(raw, NotCloseBrace);
    forall pos | |a| <= pos < |raw| ensures raw[pos] != '}' {
      assert raw[pos] == b[pos - |a|];
    }
    if upToClose != [] {
      assert upToClose[|upToClose| - 1] == raw[|upToClose| - 1];
    }
    var t := TrimStartWhile(upToClose, NotOpenBrace);
    forall pos | 0 <= pos < |upToClose| ensures upToClose[pos] != '{' {
      assert upToClose[pos] == a[pos];
    }
  }

  lemma SliceChars(s: string, i: nat, j: nat)
    requires i <= j <= |s|
    ensures forall c :: c in s[i..j] ==> c in s
  {
    assert forall k | 0 <= k < j - i :: s[i..j][k] == s[i + k];
  }

  /** `label_by_position`: the embedded object, parsed by the JSON library
      (`parse` stands for `serde_json::from_str`), is the array's one element;
      text the parser rejects is a failure (`expect` in the crate). */
  function LabelByPosition(raw: string, parse: string -> Option<map<string, Value>>): (r: Result<seq<Value>>)
    ensures r.Ok? <==> parse(EmbeddedObject(raw)).Some?
    ensures r.Ok? ==> r.value == [Obj(parse(EmbeddedObject(raw)).value)]
    ensures r.Err? ==> r.failure == JsonParseFailure
  {
    match parse(EmbeddedObject(raw))
    case None => Err(JsonParseFailure)
    case Some(m) => Ok([Obj(m)])
  }

  // ------------------------------------------------------------------
  // Reading back a well-formed field line

  function Quoted(ident: string): string {
    "\"" + ident + "\""
  }

  /** The metadata of a field line: free text, the parenthesised label, more text. */
  function Metadata(pre: string, labelText: string, post: string): string {
    pre + "(" + labelText + ")" + post
  }

  /** A field line as the help text writes it: indentation, the quoted
      identifier, a colon, one space and the metadata. */
  function FieldLine(indent: string, ident: string, meta: string): string {
    indent + Quoted(ident) + ": " + meta
  }

  /** The conditions under which a field line reads back as written. */
  predicate WellFormedField(indent: string, ident: string, pre: string, rest: string, post: string) {
    && IsBlank(indent)
    && ident != [] && ident[0] != '"' && ident[|ident| - 1] != '"' && ':' !in ident
    && NoneSatisfy(pre, IsParen) && (pre == [] || !IsWhitespace(pre[0]))
    && NoneSatisfy(rest, IsParen) && !Contains(rest, OptionalMarker)
    && (post == [] || !IsWhitespace(post[|post| - 1]))
  }

  /** The label text the help text writes for an annotation. */
  function LabelText(a: Annotation, rest: string): string {
    TypeWord(a.base) + OptionalSuffix(a.optional) + rest
  }

  /** `label_identifier` recovers the identifier and the annotation of every
      well-formed field line. */
  lemma LabelIdentifierReadsField(indent: string, ident: string, pre: string, a: Annotation, rest: string, post: string)
    requires WellFormedField(indent, ident, pre, rest, post)
    ensures LabelIdentifier(FieldLine(indent, ident, Metadata(pre, LabelText(a, rest), post)))
            == Ok((ident, Render(a)))
  {
    var meta := Metadata(pre, LabelText(a, rest), post);
    var line := FieldLine(indent, ident, meta);
    FieldLinePieces(indent, ident, meta);
    MetadataTrimmed(pre, LabelText(a, rest), post);
    AnnotationOfMetadata(pre, a, rest, post);
    TrimQuotesQuoted(ident);
  }

  /** Trimming a field line and splitting it at the first colon gives the
      quoted identifier and the text after the colon. */
  lemma FieldLinePieces(indent: string, ident: string, meta: string)
    requires IsBlank(indent) && ':' !in ident
    requires meta != [] && !IsWhitespace(meta[|meta| - 1])
    ensures SplitOnce(Trim(FieldLine(indent, ident, meta)), ':') == [Quoted(ident), " " + meta]
  {
    FieldLineTrimmed(indent, ident, meta);
    QuotedNoColon(ident);
    SplitAfterColon(Trim(FieldLine(indent, ident, meta)), Quoted(ident), meta);
  }

  lemma QuotedNoColon(ident: string)
    requires ':' !in ident
    ensures ':' !in Quoted(ident)
  {
    assert forall k :: 0 <= k < |Quoted(ident)| ==> Quoted(ident)[k] == '"' || Quoted(ident)[k] in ident;
  }

  /** Splitting `q: m` at its first colon, when `q` has none. */
  lemma SplitAfterColon(t: string, q: string, m: string)
    requires t == q + ": " + m && ':' !in q
    ensures SplitOnce(t, ':') == [q, " " + m]
  {
    assert t == q + [':'] + (" " + m);
    SplitOnceAt(q, ':', " " + m);
  }

  lemma FieldLineTrimmed(indent: string, ident: string, meta: string)
    requires IsBlank(indent)
    requires meta != [] && !IsWhitespace(meta[|meta| - 1])
    ensures Trim(FieldLine(indent, ident, meta)) == Quoted(ident) + ": " + meta
  {
    var body := Quoted(ident) + ": " + meta;
    assert FieldLine(indent, ident, meta) == indent + body;
    assert body[0] == '"';
    assert body[|body| - 1] == meta[|meta| - 1];
    TrimPadded(indent, body);
  }

  /** The metadata has no whitespace at its ends, so trimming after the colon
      gives it back. */
  lemma MetadataTrimmed(pre: string, labelText: string, post: string)
    requires pre == [] || !IsWhitespace(pre[0])
    requires post == [] || !IsWhitespace(post[|post| - 1])
    ensures Trim(" " + Metadata(pre, labelText, post)) == Metadata(pre, labelText, post)
  {
    var meta := Metadata(pre, labelText, post);
    assert meta[0] == (if pre == [] then '(' else pre[0]);
    assert meta[|meta| - 1] == (if post == [] then ')' else post[|post| - 1]);
    TrimPadded(" ", meta);
  }

  /** The annotation of well-formed metadata is the one its label text names. */
  lemma AnnotationOfMetadata(pre: string, a: Annotation, rest: string, post: string)
    requires NoneSatisfy(pre, IsParen)
    requires NoneSatisfy(rest, IsParen) && !Contains(rest, OptionalMarker)
    ensures AnnotationOf(Metadata(pre, LabelText(a, rest), post)) == Ok(Render(a))
  {
    var text := LabelText(a, rest);
    LabelTextSegment(pre, a, rest, post);
    AnnotationOfSegment(Metadata(pre, text, post), text);
    MakeLabelReadsTypeWord(a, rest);
  }

  /** The piece after the first parenthesis of well-formed metadata is its label text. */
  lemma LabelTextSegment(pre: string, a: Annotation, rest: string, post: string)
    requires NoneSatisfy(pre, IsParen) && NoneSatisfy(rest, IsParen)
    ensures |SplitWhere(Metadata(pre, LabelText(a, rest), post), IsParen)| >= 2
    ensures SplitWhere(Metadata(pre, LabelText(a, rest), post), IsParen)[1] == LabelText(a, rest)
  {
    LabelTextHasNoParenthesis(a, rest);
    SegmentIsText(pre, LabelText(a, rest), post);
  }

  lemma SegmentIsText(pre: string, text: string, post: string)
    requires NoneSatisfy(pre, IsParen) && NoneSatisfy(text, IsParen)
    ensures |SplitWhere(Metadata(pre, text, post), IsParen)| >= 2
    ensures SplitWhere(Metadata(pre, text, post), IsParen)[1] == text
  {
    SecondSegment(pre, text, post);
    TakeUntilAt(text, ")" + post, IsParen);
  }

  lemma AnnotationOfSegment(meta: string, segment: string)
    requires |SplitWhere(meta, IsParen)| >= 2 && SplitWhere(meta, IsParen)[1] == segment
    ensures MakeLabel(segment).Ok? ==> AnnotationOf(meta) == MakeLabel(segment)
  {
  }

  /** The piece after the first parenthesis of the metadata. */
  lemma SecondSegment(pre: string, text: string, post: string)
    requires NoneSatisfy(pre, IsParen)
    ensures |SplitWhere(Metadata(pre, text, post), IsParen)| >= 2
    ensures SplitWhere(Metadata(pre, text, post), IsParen)[1] == TakeUntil(text + (")" + post), IsParen)
  {
    assert Metadata(pre, text, post) == pre + ['('] + (text + (")" + post));
    SplitWhereSecond(pre, '(', text + (")" + post), IsParen);
  }

  lemma LabelTextHasNoParenthesis(a: Annotation, rest: string)
    requires NoneSatisfy(rest, IsParen)
    ensures NoneSatisfy(LabelText(a, rest), IsParen)
  {
    WordsHaveNoParenthesis(a);
    NoneSatisfyJoined(TypeWord(a.base), OptionalSuffix(a.optional), IsParen);
    NoneSatisfyJoined(TypeWord(a.base) + OptionalSuffix(a.optional), rest, IsParen);
  }

  lemma WordsHaveNoParenthesis(a: Annotation)
    ensures NoneSatisfy(TypeWord(a.base), IsParen) && NoneSatisfy(OptionalSuffix(a.optional), IsParen)
  {
  }

  /** The crate's own example, the unit test of `label_identifier`: the
      `version` line of `getinfo`, `"version": xxxxx,           (numeric) the
      server version`. */
  lemma VersionLineLabel()
    ensures LabelIdentifier(VersionLine) == Ok(("version", "Decimal"))
  {
    VersionLineIsField();
    LabelIdentifierReadsField("", "version", VersionPre, Annotation(Decimal, false), "", VersionPost);
  }

  const VersionPre := "xxxxx,           "
  const VersionPost := " the server version"
  const VersionLine := "\"version\": " + VersionPre + "(numeric)" + VersionPost

  lemma VersionLineIsField()
    ensures WellFormedField("", "version", VersionPre, "", VersionPost)
    ensures FieldLine("", "version", Metadata(VersionPre, LabelText(Annotation(Decimal, false), ""), VersionPost))
            == VersionLine
  {
    assert LabelText(Annotation(Decimal, false), "") == "numeric";
    assert !Contains("", OptionalMarker);
    var meta := Metadata(VersionPre, "numeric", VersionPost);
    assert meta == VersionPre + "(numeric)" + VersionPost;
    assert FieldLine("", "version", meta) == "\"version\": " + meta;
  }
}
