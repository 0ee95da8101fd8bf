/** The annotator proper: `interpret_raw_output`, `extract_name_and_result`,
    `annotate_result` and `recurse` (src/lib.rs).

    The character stream is read by one recursive walk.  `Annotate` and the
    two frame functions state what that walk computes; the class `Chars`
    stands for the shared `std::str::Chars` iterator, the class `Context` for
    the crate's `Context` struct, and the methods `AnnotateResult` and
    `Recurse` update both in place exactly as the crate does, proved against
    those functions. */
module Annotator {
  import opened Outcomes
  import opened RustStr
  import opened Json
  import opened Labels

  /** `serde_json::from_str::<Map<String, Value>>`, which is not part of this model. */
  type Parser = string -> Option<map<string, Value>>

  // ------------------------------------------------------------------
  // Splitting the help text

  const ResultMarker := "Result:\n"
  const ExamplesMarker := "Examples:\n"

  /** `extract_name_and_result`: the first word before "Result:\n" names the
      command; the text between "Result:\n" and "Examples:\n", trimmed, is
      what gets annotated.  Each marker must split the text into exactly two
      sections. */
  function ExtractNameAndResult(raw: string): (r: Result<(string, string)>)
    ensures r.Err? ==> r.failure in {WrongResultCount, MissingCommandName, WrongExamplesCount}
  {
    var sections := Split(raw, ResultMarker);
    if |sections| != 2 then Err(WrongResultCount)
    else
      match FirstToken(sections[0])
      case None => Err(MissingCommandName)
      case Some(name) =>
        var examples := Split(sections[1], ExamplesMarker);
        if |examples| != 2 then Err(WrongExamplesCount)
        else Ok((name, Trim(examples[0])))
  }

  /** The extraction fails with a wrong result count exactly when
      "Result:\n" does not split the help text in two. */
  lemma ExtractCountsResultSections(raw: string)
    ensures ExtractNameAndResult(raw) == Err(WrongResultCount) <==> |Split(raw, ResultMarker)| != 2
  {
  }

  /** The command name extracted is a non-empty word. */
  lemma ExtractedNameIsWord(raw: string)
    requires ExtractNameAndResult(raw).Ok?
    ensures ExtractNameAndResult(raw).value.0 != []
    ensures NoneSatisfy(ExtractNameAndResult(raw).value.0, IsAsciiWhitespace)
  {
  }

  /** The result section extracted has no whitespace at either end. */
  lemma ExtractedResultIsTrimmed(raw: string)
    requires ExtractNameAndResult(raw).Ok?
    ensures var data := ExtractNameAndResult(raw).value.1;
            data != [] ==> !IsWhitespace(data[0]) && !IsWhitespace(data[|data| - 1])
  {
  }

  /** A successful extraction read a help text of the shape
      head "Result:\n" body "Examples:\n" tail, with "Result:\n" occurring
      only where shown and "Examples:\n" only where shown after it: the
      conditions under which `ExtractReadsSections` gives the converse. */
  lemma ExtractFindsSections(raw: string)
    requires ExtractNameAndResult(raw).Ok?
    ensures exists head: string, body: string, tail: string ::
              && raw == head + ResultMarker + body + ExamplesMarker + tail
              && IndexOf(head + ResultMarker, ResultMarker) == Some(|head|)
              && !Contains(body + ExamplesMarker + tail, ResultMarker)
              && IndexOf(body + ExamplesMarker, ExamplesMarker) == Some(|body|)
              && !Contains(tail, ExamplesMarker)
              && FirstToken(head) == Some(ExtractNameAndResult(raw).value.0)
              && Trim(body) == ExtractNameAndResult(raw).value.1
  {
    var head, body, tail := Sections(raw);
  }

  lemma Sections(raw: string) returns (head: string, body: string, tail: string)
    requires ExtractNameAndResult(raw).Ok?
    ensures raw == head + ResultMarker + body + ExamplesMarker + tail
    ensures IndexOf(head + ResultMarker, ResultMarker) == Some(|head|)
    ensures !Contains(body + ExamplesMarker + tail, ResultMarker)
    ensures IndexOf(body + ExamplesMarker, ExamplesMarker) == Some(|body|)
    ensures !Contains(tail, ExamplesMarker)
    ensures FirstToken(head) == Some(ExtractNameAndResult(raw).value.0)
    ensures Trim(body) == ExtractNameAndResult(raw).value.1
  {
    var sections := Split(raw, ResultMarker);
    var examples := Split(sections[1], ExamplesMarker);
    head, body, tail := sections[0], examples[0], examples[1];
    JoinTwo(sections, ResultMarker);
    JoinTwo(examples, ExamplesMarker);
    Recompose(raw, head, sections[1], body, tail);
  }

  lemma Recompose(raw: string, head: string, rest: string, body: string, tail: string)
    requires raw == head + ResultMarker + rest && rest == body + ExamplesMarker + tail
    ensures raw == head + ResultMarker + body + ExamplesMarker + tail
  {
    assert head + ResultMarker + (body + ExamplesMarker + tail) == head + ResultMarker + body + ExamplesMarker + tail;
  }

  lemma JoinTwo(parts: seq<string>, sep: string)
    requires |parts| == 2
    ensures Join(parts, sep) == parts[0] + sep + parts[1]
  {
    assert parts[1..] == [parts[1]];
  }

  /** Conversely, a help text with one "Result:\n" followed by one
      "Examples:\n" yields its command name and its trimmed result section. */
  lemma ExtractReadsSections(head: string, body: string, tail: string)
    requires IndexOf(head + ResultMarker, ResultMarker) == Some(|head|)
    requires !Contains(body + ExamplesMarker + tail, ResultMarker)
    requires IndexOf(body + ExamplesMarker, ExamplesMarker) == Some(|body|)
    requires !Contains(tail, ExamplesMarker)
    requires FirstToken(head).Some?
    ensures ExtractNameAndResult(head + ResultMarker + body + ExamplesMarker + tail)
            == Ok((FirstToken(head).value, Trim(body)))
  {
    ResultSplit(head, body + ExamplesMarker + tail, body, tail);
    SplitInTwo(body, tail, ExamplesMarker);
    ExtractFromSplits(head + ResultMarker + body + ExamplesMarker + tail, head, body + ExamplesMarker + tail, body, tail);
  }

  lemma ResultSplit(head: string, rest: string, body: string, tail: string)
    requires rest == body + ExamplesMarker + tail
    requires IndexOf(head + ResultMarker, ResultMarker) == Some(|head|) && !Contains(rest, ResultMarker)
    ensures Split(head + ResultMarker + body + ExamplesMarker + tail, ResultMarker) == [head, rest]
  {
    assert head + ResultMarker + body + ExamplesMarker + tail == head + ResultMarker + rest;
    SplitInTwo(head, rest, ResultMarker);
  }

  /** `a + p + b` splits at `p` into `a` and `b` when `p` first occurs after `a`
      and not in `b`. */
  lemma SplitInTwo(a: string, b: string, p: string)
    requires |p| > 0 && IndexOf(a + p, p) == Some(|a|) && !Contains(b, p)
    ensures Split(a + p + b, p) == [a, b]
  {
    SplitAtFirst(a, b, p);
    SplitWithout(b, p);
  }

  lemma ExtractFromSplits(raw: string, head: string, rest: string, body: string, tail: string)
    requires Split(raw, ResultMarker) == [head, rest] && Split(rest, ExamplesMarker) == [body, tail]
    requires FirstToken(head).Some?
    ensures ExtractNameAndResult(raw) == Ok((FirstToken(head).value, Trim(body)))
  {
  }

  // ------------------------------------------------------------------
  // What the walk over the result characters computes

  /** The state a closed frame leaves behind: the value it built, the
      position just after its closing character, and the character
      `context.last_char` then holds. */
  datatype Step = Step(value: Value, pos: nat, lastChar: char)

  /** `annotate_result` entered with `context.last_char == open` and the
      stream at `pos`: an object frame for `{`, an array frame for `[`,
      `todo!()` for anything else. */
  function Annotate(text: string, pos: nat, open: char, parse: Parser): (r: Result<Step>)
    ensures r.Ok? ==> pos < r.value.pos <= |text|
    ensures open != '{' && open != '[' ==> r == Err(Unimplemented)
    decreases |text| - pos, 1
  {
    if open == '{' then ObjectFrame(text, pos, open, "", map[], parse)
    else if open == '[' then ArrayFrame(text, pos, open, "", parse)
    else Err(Unimplemented)
  }

  /** The `'}'` arm of the object loop: a blank buffer closes the object as
      it is; otherwise the buffered lines are bound and appended. */
  function CloseObject(viewed: string, acc: map<string, Value>, end: nat, last: char): (r: Result<Step>)
    ensures r.Ok? ==> r.value.pos == end && r.value.value.Obj? && r.value.lastChar == last
    ensures IsBlank(viewed) ==> r == Ok(Step(Obj(acc), end, last))
  {
    if IsBlank(viewed) then Ok(Step(Obj(acc), end, last))
    else
      var part :- BindIdentsLabels(viewed, None);
      Ok(Step(Obj(acc + part), end, last))
  }

  /** The object loop (`'{'` arm of `annotate_result`) with `viewed` buffered
      and `acc` bound so far.  A nested `{` or `[` is annotated recursively
      and bound to the last buffered identifier; the buffer is then cleared.
      Any other ASCII character is buffered. */
  function ObjectFrame(text: string, pos: nat, last: char, viewed: string,
                       acc: map<string, Value>, parse: Parser): (r: Result<Step>)
    ensures r.Ok? ==> pos < r.value.pos <= |text|
    decreases |text| - pos, 0
  {
    if pos >= |text| then Err(UnexpectedEnd)
    else
      var c := text[pos];
      if c == '}' then CloseObject(viewed, acc, pos + 1, last)
      else if c == '[' || c == '{' then
        var inner :- Annotate(text, pos + 1, c, parse);
        var part :- BindIdentsLabels(viewed, Some(inner.value));
        ObjectFrame(text, inner.pos, inner.lastChar, "", acc + part, parse)
      else if IsAscii(c) then ObjectFrame(text, pos + 1, last, viewed + [c], acc, parse)
      else Err(NonAscii)
  }

  /** The array loop (`'['` arm of `annotate_result`).  A nested value is
      annotated and bound, but the binding is dropped and the buffer is kept;
      at `]` the whole buffer goes to `label_by_position`. */
  function ArrayFrame(text: string, pos: nat, last: char, viewed: string, parse: Parser): (r: Result<Step>)
    ensures r.Ok? ==> pos < r.value.pos <= |text|
    decreases |text| - pos, 0
  {
    if pos >= |text| then Err(UnexpectedEnd)
    else
      var c := text[pos];
      if c == ']' then
        var items :- LabelByPosition(viewed, parse);
        Ok(Step(Arr(items), pos + 1, last))
      else if c == '[' || c == '{' then
        var inner :- Annotate(text, pos + 1, c, parse);
        var _ :- BindIdentsLabels(viewed, Some(inner.value));
        ArrayFrame(text, inner.pos, inner.lastChar, viewed, parse)
      else if IsAscii(c) then ArrayFrame(text, pos + 1, last, viewed + [c], parse)
      else Err(NonAscii)
  }

  /** `interpret_raw_output` up to the final `to_string`: the first character
      of the result section opens the outermost frame. */
  function Interpret(raw: string, parse: Parser): (r: Result<Value>)
    ensures ExtractNameAndResult(raw).Err? ==> r == Err(ExtractNameAndResult(raw).failure)
    ensures ExtractNameAndResult(raw).Ok? && ExtractNameAndResult(raw).value.1 == [] ==> r == Err(MissingFirstChar)
    ensures r.Ok? ==> && ExtractNameAndResult(raw).Ok? && ExtractNameAndResult(raw).value.1 != []
                      && (ExtractNameAndResult(raw).value.1[0] == '{' || ExtractNameAndResult(raw).value.1[0] == '[')
  {
    var extracted :- ExtractNameAndResult(raw);
    var data := extracted.1;
    if data == [] then Err(MissingFirstChar)
    else
      var step :- Annotate(data, 1, data[0], parse);
      Ok(step.value)
  }

  // ------------------------------------------------------------------
  // Properties of the walk

  /** Every character of `text` from `from` up to `to` is ASCII. */
  predicate AsciiBetween(text: string, from: nat, to: nat) {
    forall k :: from <= k < to && k < |text| ==> IsAscii(text[k])
  }

  /** An object read from `pos` up to `step.pos`: only ASCII was read, the
      last character read is the closing `}`, and the value is an object. */
  predicate ObjectRead(text: string, pos: nat, step: Step) {
    && pos < step.pos <= |text|
    && AsciiBetween(text, pos, step.pos)
    && text[step.pos - 1] == '}'
    && step.value.Obj?
  }

  /** An array read from `pos` up to `step.pos`: only ASCII was read, the
      last character read is the closing `]`, and the value is an array of
      exactly one element. */
  predicate ArrayRead(text: string, pos: nat, step: Step) {
    && pos < step.pos <= |text|
    && AsciiBetween(text, pos, step.pos)
    && text[step.pos - 1] == ']'
    && step.value.Arr? && |step.value.items| == 1
  }

  lemma AsciiJoin(text: string, a: nat, b: nat, c: nat)
    requires a < b <= c && b - 1 < |text| && IsAscii(text[b - 1])
    requires AsciiBetween(text, a, b - 1) && AsciiBetween(text, b, c)
    ensures AsciiBetween(text, a, c)
  {
  }

  lemma AsciiOne(text: string, pos: nat)
    requires pos < |text| && IsAscii(text[pos])
    ensures AsciiBetween(text, pos, pos + 1)
  {
  }

  /** A successful walk read nothing but ASCII and stopped just after the
      character that closes the frame `open` opened. */
  lemma {:induction false} AnnotateReads(text: string, pos: nat, open: char, parse: Parser)
    requires Annotate(text, pos, open, parse).Ok?
    ensures open == '{' ==> ObjectRead(text, pos, Annotate(text, pos, open, parse).value)
    ensures open == '[' ==> ArrayRead(text, pos, Annotate(text, pos, open, parse).value)
    ensures AsciiBetween(text, pos, Annotate(text, pos, open, parse).value.pos)
    decreases |text| - pos, 2
  {
    if open == '{' {
      ObjectFrameReads(text, pos, open, "", map[], parse);
    } else {
      ArrayFrameReads(text, pos, open, "", parse);
    }
  }

  lemma {:induction false} ObjectFrameReads(text: string, pos: nat, last: char, viewed: string,
                                            acc: map<string, Value>, parse: Parser)
    requires ObjectFrame(text, pos, last, viewed, acc, parse).Ok?
    ensures ObjectRead(text, pos, ObjectFrame(text, pos, last, viewed, acc, parse).value)
    decreases |text| - pos, 1
  {
    var c := text[pos];
    if c == '[' || c == '{' {
      ObjectNestedReads(text, pos, last, viewed, acc, parse);
    } else if c == '}' {
      ObjectCloseReads(text, pos, last, viewed, acc, parse);
    } else {
      ObjectBufferReads(text, pos, last, viewed, acc, parse);
    }
  }

  lemma ObjectCloseReads(text: string, pos: nat, last: char, viewed: string,
                         acc: map<string, Value>, parse: Parser)
    requires ObjectFrame(text, pos, last, viewed, acc, parse).Ok?
    requires pos < |text| && text[pos] == '}'
    ensures ObjectRead(text, pos, ObjectFrame(text, pos, last, viewed, acc, parse).value)
  {
    ObjectCloseStep(text, pos, last, viewed, acc, parse);
    ClosingRead(text, pos, CloseObject(viewed, acc, pos + 1, last), pos + 1);
  }

  lemma ObjectCloseStep(text: string, pos: nat, last: char, viewed: string,
                        acc: map<string, Value>, parse: Parser)
    requires pos < |text| && text[pos] == '}'
    ensures ObjectFrame(text, pos, last, viewed, acc, parse) == CloseObject(viewed, acc, pos + 1, last)
  {
  }

  /** A frame closed by the `}` at `pos` read just that character. */
  lemma ClosingRead(text: string, pos: nat, r: Result<Step>, end: nat)
    requires pos < |text| && text[pos] == '}' && end == pos + 1
    requires r.Ok? ==> r.value.pos == end && r.value.value.Obj?
    ensures r.Ok? ==> ObjectRead(text, pos, r.value)
  {
    AsciiOne(text, pos);
  }

  lemma {:induction false} ObjectNestedReads(text: string, pos: nat, last: char, viewed: string,
                                             acc: map<string, Value>, parse: Parser)
    requires ObjectFrame(text, pos, last, viewed, acc, parse).Ok?
    requires pos < |text| && (text[pos] == '[' || text[pos] == '{')
    ensures ObjectRead(text, pos, ObjectFrame(text, pos, last, viewed, acc, parse).value)
    decreases |text| - pos, 0
  {
    var c := text[pos];
    var inner := Annotate(text, pos + 1, c, parse).value;
    AnnotateReads(text, pos + 1, c, parse);
    var part := BindIdentsLabels(viewed, Some(inner.value)).value;
    var rest := ObjectFrame(text, inner.pos, inner.lastChar, "", acc + part, parse);
    assert ObjectFrame(text, pos, last, viewed, acc, parse) == rest;
    ObjectFrameReads(text, inner.pos, inner.lastChar, "", acc + part, parse);
    AsciiJoin(text, pos, pos + 1, inner.pos);
    AsciiJoin(text, pos, inner.pos, rest.value.pos);
  }

  lemma {:induction false} ObjectBufferReads(text: string, pos: nat, last: char, viewed: string,
                                             acc: map<string, Value>, parse: Parser)
    requires ObjectFrame(text, pos, last, viewed, acc, parse).Ok?
    requires pos < |text| && text[pos] != '[' && text[pos] != '{' && text[pos] != '}'
    ensures ObjectRead(text, pos, ObjectFrame(text, pos, last, viewed, acc, parse).value)
    decreases |text| - pos, 0
  {
    var c := text[pos];
    var rest := ObjectFrame(text, pos + 1, last, viewed + [c], acc, parse);
    assert ObjectFrame(text, pos, last, viewed, acc, parse) == rest;
    ObjectFrameReads(text, pos + 1, last, viewed + [c], acc, parse);
    AsciiJoin(text, pos, pos + 1, rest.value.pos);
  }

  lemma {:induction false} ArrayFrameReads(text: string, pos: nat, last: char, viewed: string, parse: Parser)
    requires ArrayFrame(text, pos, last, viewed, parse).Ok?
    ensures ArrayRead(text, pos, ArrayFrame(text, pos, last, viewed, parse).value)
    decreases |text| - pos, 1
  {
    var c := text[pos];
    if c == '[' || c == '{' {
      ArrayNestedReads(text, pos, last, viewed, parse);
    } else if c == ']' {
      ArrayCloseReads(text, pos, last, viewed, parse);
    } else {
      ArrayBufferReads(text, pos, last, viewed, parse);
    }
  }

  lemma ArrayCloseReads(text: string, pos: nat, last: char, viewed: string, parse: Parser)
    requires ArrayFrame(text, pos, last, viewed, parse).Ok?
    requires pos < |text| && text[pos] == ']'
    ensures ArrayRead(text, pos, ArrayFrame(text, pos, last, viewed, parse).value)
  {
    assert ArrayFrame(text, pos, last, viewed, parse).value.pos == pos + 1;
    AsciiOne(text, pos);
  }

  lemma {:induction false} ArrayNestedReads(text: string, pos: nat, last: char, viewed: string, parse: Parser)
    requires ArrayFrame(text, pos, last, viewed, parse).Ok?
    requires pos < |text| && (text[pos] == '[' || text[pos] == '{')
    ensures ArrayRead(text, pos, ArrayFrame(text, pos, last, viewed, parse).value)
    decreases |text| - pos, 0
  {
    var c := text[pos];
    var inner := Annotate(text, pos + 1, c, parse).value;
    AnnotateReads(text, pos + 1, c, parse);
    var rest := ArrayFrame(text, inner.pos, inner.lastChar, viewed, parse);
    assert ArrayFrame(text, pos, last, viewed, parse) == rest;
    ArrayFrameReads(text, inner.pos, inner.lastChar, viewed, parse);
    AsciiJoin(text, pos, pos + 1, inner.pos);
    AsciiJoin(text, pos, inner.pos, rest.value.pos);
  }

  lemma {:induction false} ArrayBufferReads(text: string, pos: nat, last: char, viewed: string, parse: Parser)
    requires ArrayFrame(text, pos, last, viewed, parse).Ok?
    requires pos < |text| && text[pos] != '[' && text[pos] != '{' && text[pos] != ']'
    ensures ArrayRead(text, pos, ArrayFrame(text, pos, last, viewed, parse).value)
    decreases |text| - pos, 0
  {
    var c := text[pos];
    var rest := ArrayFrame(text, pos + 1, last, viewed + [c], parse);
    assert ArrayFrame(text, pos, last, viewed, parse) == rest;
    ArrayFrameReads(text, pos + 1, last, viewed + [c], parse);
    AsciiJoin(text, pos, pos + 1, rest.value.pos);
  }

  /** The annotated result is an object or an array. */
  lemma InterpretShape(raw: string, parse: Parser)
    requires Interpret(raw, parse).Ok?
    ensures Interpret(raw, parse).value.Obj? || Interpret(raw, parse).value.Arr?
  {
    var data := ExtractNameAndResult(raw).value.1;
    AnnotateReads(data, 1, data[0], parse);
  }

  // ------------------------------------------------------------------
  // Where a frame ends

  /** The character that closes the frame `open` opens. */
  function Closer(open: char): char {
    if open == '{' then '}' else ']'
  }

  /** Bracket matching, independent of the walk: scanning from `pos` with the
      frames `stack` open (innermost last), only the innermost frame's own
      closer closes a frame, every `{` or `[` opens one, and anything else
      (a `]` inside an object, a `}` inside an array) is passed over.  The
      result is the position just after the close of the outermost frame,
      or `None` when the text ends first. */
  function CloseOf(text: string, pos: nat, stack: seq<char>): (r: Option<nat>)
    requires stack != []
    ensures r.Some? ==> pos < r.value <= |text|
    decreases |text| - pos
  {
    if pos >= |text| then None
    else
      var c := text[pos];
      if c == Closer(stack[|stack| - 1]) then
        if |stack| == 1 then Some(pos + 1) else CloseOf(text, pos + 1, stack[..|stack| - 1])
      else if c == '{' || c == '[' then CloseOf(text, pos + 1, stack + [c])
      else CloseOf(text, pos + 1, stack)
  }

  /** The frames `inner` opened on top of `outer` close first; the scan for
      `outer` then goes on from there. */
  lemma {:induction false} CloseOfNested(text: string, pos: nat, outer: seq<char>, inner: seq<char>)
    requires outer != [] && inner != []
    ensures CloseOf(text, pos, inner).None? ==> CloseOf(text, pos, outer + inner).None?
    ensures CloseOf(text, pos, inner).Some? ==>
              CloseOf(text, pos, outer + inner) == CloseOf(text, CloseOf(text, pos, inner).value, outer)
    decreases |text| - pos
  {
    if pos < |text| {
      var c := text[pos];
      var st := outer + inner;
      assert st[|st| - 1] == inner[|inner| - 1];
      if c == Closer(inner[|inner| - 1]) {
        if |inner| == 1 {
          assert st[..|st| - 1] == outer;
        } else {
          assert st[..|st| - 1] == outer + inner[..|inner| - 1];
          CloseOfNested(text, pos + 1, outer, inner[..|inner| - 1]);
        }
      } else if c == '{' || c == '[' {
        assert st + [c] == outer + (inner + [c]);
        CloseOfNested(text, pos + 1, outer, inner + [c]);
      } else {
        CloseOfNested(text, pos + 1, outer, inner);
      }
    }
  }

  /** A successful walk stops just after the closer that matches the frame
      it opened. */
  lemma {:induction false} AnnotateCloses(text: string, pos: nat, open: char, parse: Parser)
    requires Annotate(text, pos, open, parse).Ok?
    ensures CloseOf(text, pos, [open]) == Some(Annotate(text, pos, open, parse).value.pos)
    decreases |text| - pos, 2
  {
    if open == '{' {
      ObjectFrameMatches(text, pos, open, "", map[], parse);
    } else {
      ArrayFrameMatches(text, pos, open, "", parse);
    }
  }

  /** A frame whose closer never comes fails, however deeply the rest nests. */
  lemma AnnotateUnclosedFails(text: string, pos: nat, open: char, parse: Parser)
    requires CloseOf(text, pos, [open]) == None
    ensures Annotate(text, pos, open, parse).Err?
  {
    if Annotate(text, pos, open, parse).Ok? {
      AnnotateCloses(text, pos, open, parse);
    }
  }

  /** The same for an object frame in any state. */
  lemma ObjectUnclosedFails(text: string, pos: nat, last: char, viewed: string,
                            acc: map<string, Value>, parse: Parser)
    requires CloseOf(text, pos, ['{']) == None
    ensures ObjectFrame(text, pos, last, viewed, acc, parse).Err?
  {
    if ObjectFrame(text, pos, last, viewed, acc, parse).Ok? {
      ObjectFrameMatches(text, pos, last, viewed, acc, parse);
    }
  }

  /** The same for an array frame in any state. */
  lemma ArrayUnclosedFails(text: string, pos: nat, last: char, viewed: string, parse: Parser)
    requires CloseOf(text, pos, ['[']) == None
    ensures ArrayFrame(text, pos, last, viewed, parse).Err?
  {
    if ArrayFrame(text, pos, last, viewed, parse).Ok? {
      ArrayFrameMatches(text, pos, last, viewed, parse);
    }
  }

  lemma {:induction false} ObjectFrameMatches(text: string, pos: nat, last: char, viewed: string,
                                              acc: map<string, Value>, parse: Parser)
    requires ObjectFrame(text, pos, last, viewed, acc, parse).Ok?
    ensures CloseOf(text, pos, ['{']) == Some(ObjectFrame(text, pos, last, viewed, acc, parse).value.pos)
    decreases |text| - pos, 1
  {
    var c := text[pos];
    if c == '[' || c == '{' {
      ObjectNestedMatches(text, pos, last, viewed, acc, parse);
    } else if c == '}' {
      ObjectCloseStep(text, pos, last, viewed, acc, parse);
    } else {
      ObjectPlainMatches(text, pos, last, viewed, acc, parse);
    }
  }

  lemma {:induction false} ObjectPlainMatches(text: string, pos: nat, last: char, viewed: string,
                                              acc: map<string, Value>, parse: Parser)
    requires ObjectFrame(text, pos, last, viewed, acc, parse).Ok?
    requires pos < |text| && text[pos] != '[' && text[pos] != '{' && text[pos] != '}'
    ensures CloseOf(text, pos, ['{']) == Some(ObjectFrame(text, pos, last, viewed, acc, parse).value.pos)
    decreases |text| - pos, 0
  {
    var c := text[pos];
    assert ObjectFrame(text, pos, last, viewed, acc, parse) == ObjectFrame(text, pos + 1, last, viewed + [c], acc, parse);
    assert CloseOf(text, pos, ['{']) == CloseOf(text, pos + 1, ['{']);
    ObjectFrameMatches(text, pos + 1, last, viewed + [c], acc, parse);
  }

  lemma {:induction false} ObjectNestedMatches(text: string, pos: nat, last: char, viewed: string,
                                               acc: map<string, Value>, parse: Parser)
    requires ObjectFrame(text, pos, last, viewed, acc, parse).Ok?
    requires pos < |text| && (text[pos] == '[' || text[pos] == '{')
    ensures CloseOf(text, pos, ['{']) == Some(ObjectFrame(text, pos, last, viewed, acc, parse).value.pos)
    decreases |text| - pos, 0
  {
    var c := text[pos];
    var inner := Annotate(text, pos + 1, c, parse).value;
    AnnotateCloses(text, pos + 1, c, parse);
    var part := BindIdentsLabels(viewed, Some(inner.value)).value;
    assert ObjectFrame(text, pos, last, viewed, acc, parse)
        == ObjectFrame(text, inner.pos, inner.lastChar, "", acc + part, parse);
    ObjectFrameMatches(text, inner.pos, inner.lastChar, "", acc + part, parse);
    assert CloseOf(text, pos, ['{']) == CloseOf(text, pos + 1, ['{'] + [c]);
    CloseOfNested(text, pos + 1, ['{'], [c]);
  }

  lemma {:induction false} ArrayFrameMatches(text: string, pos: nat, last: char, viewed: string, parse: Parser)
    requires ArrayFrame(text, pos, last, viewed, parse).Ok?
    ensures CloseOf(text, pos, ['[']) == Some(ArrayFrame(text, pos, last, viewed, parse).value.pos)
    decreases |text| - pos, 1
  {
    var c := text[pos];
    if c == '[' || c == '{' {
      ArrayNestedMatches(text, pos, last, viewed, parse);
    } else if c == ']' {
      assert ArrayFrame(text, pos, last, viewed, parse).value.pos == pos + 1;
    } else {
      ArrayPlainMatches(text, pos, last, viewed, parse);
    }
  }

  lemma {:induction false} ArrayPlainMatches(text: string, pos: nat, last: char, viewed: string, parse: Parser)
    requires ArrayFrame(text, pos, last, viewed, parse).Ok?
    requires pos < |text| && text[pos] != '[' && text[pos] != '{' && text[pos] != ']'
    ensures CloseOf(text, pos, ['[']) == Some(ArrayFrame(text, pos, last, viewed, parse).value.pos)
    decreases |text| - pos, 0
  {
    var c := text[pos];
    assert ArrayFrame(text, pos, last, viewed, parse) == ArrayFrame(text, pos + 1, last, viewed + [c], parse);
    assert CloseOf(text, pos, ['[']) == CloseOf(text, pos + 1, ['[']);
    ArrayFrameMatches(text, pos + 1, last, viewed + [c], parse);
  }

  lemma {:induction false} ArrayNestedMatches(text: string, pos: nat, last: char, viewed: string, parse: Parser)
    requires ArrayFrame(text, pos, last, viewed, parse).Ok?
    requires pos < |text| && (text[pos] == '[' || text[pos] == '{')
    ensures CloseOf(text, pos, ['[']) == Some(ArrayFrame(text, pos, last, viewed, parse).value.pos)
    decreases |text| - pos, 0
  {
    var c := text[pos];
    var inner := Annotate(text, pos + 1, c, parse).value;
    AnnotateCloses(text, pos + 1, c, parse);
    assert ArrayFrame(text, pos, last, viewed, parse) == ArrayFrame(text, inner.pos, inner.lastChar, viewed, parse);
    ArrayFrameMatches(text, inner.pos, inner.lastChar, viewed, parse);
    assert CloseOf(text, pos, ['[']) == CloseOf(text, pos + 1, ['['] + [c]);
    CloseOfNested(text, pos + 1, ['['], [c]);
  }

  /** After a nested frame an object frame reads on, in object mode, from
      just past the nested frame's own closer, with its buffer cleared and
      the nested binding added to those made so far. */
  lemma ObjectResumes(text: string, pos: nat, last: char, viewed: string,
                      acc: map<string, Value>, parse: Parser)
    requires pos < |text| && (text[pos] == '[' || text[pos] == '{')
    requires Annotate(text, pos + 1, text[pos], parse).Ok?
    requires BindIdentsLabels(viewed, Some(Annotate(text, pos + 1, text[pos], parse).value.value)).Ok?
    ensures CloseOf(text, pos + 1, [text[pos]]) == Some(Annotate(text, pos + 1, text[pos], parse).value.pos)
    ensures ObjectFrame(text, pos, last, viewed, acc, parse)
            == ObjectFrame(text, Annotate(text, pos + 1, text[pos], parse).value.pos,
                           Annotate(text, pos + 1, text[pos], parse).value.lastChar, "",
                           acc + BindIdentsLabels(viewed, Some(Annotate(text, pos + 1, text[pos], parse).value.value)).value,
                           parse)
  {
    var inner := Annotate(text, pos + 1, text[pos], parse).value;
    ObjectNestedStep(text, pos, last, viewed, acc, parse, inner,
                     BindIdentsLabels(viewed, Some(inner.value)).value);
    AnnotateCloses(text, pos + 1, text[pos], parse);
  }

  lemma ObjectNestedStep(text: string, pos: nat, last: char, viewed: string,
                         acc: map<string, Value>, parse: Parser, inner: Step, part: map<string, Value>)
    requires pos < |text| && (text[pos] == '[' || text[pos] == '{')
    requires Annotate(text, pos + 1, text[pos], parse) == Ok(inner)
    requires BindIdentsLabels(viewed, Some(inner.value)) == Ok(part)
    ensures ObjectFrame(text, pos, last, viewed, acc, parse)
            == ObjectFrame(text, inner.pos, inner.lastChar, "", acc + part, parse)
  {
  }

  /** After a nested frame an array frame reads on, in array mode, from just
      past the nested frame's own closer, with its buffer kept. */
  lemma ArrayResumes(text: string, pos: nat, last: char, viewed: string, parse: Parser)
    requires pos < |text| && (text[pos] == '[' || text[pos] == '{')
    requires Annotate(text, pos + 1, text[pos], parse).Ok?
    requires BindIdentsLabels(viewed, Some(Annotate(text, pos + 1, text[pos], parse).value.value)).Ok?
    ensures CloseOf(text, pos + 1, [text[pos]]) == Some(Annotate(text, pos + 1, text[pos], parse).value.pos)
    ensures ArrayFrame(text, pos, last, viewed, parse)
            == ArrayFrame(text, Annotate(text, pos + 1, text[pos], parse).value.pos,
                          Annotate(text, pos + 1, text[pos], parse).value.lastChar, viewed, parse)
  {
    var inner := Annotate(text, pos + 1, text[pos], parse).value;
    ArrayNestedStep(text, pos, last, viewed, parse, inner, BindIdentsLabels(viewed, Some(inner.value)).value);
    AnnotateCloses(text, pos + 1, text[pos], parse);
  }

  lemma ArrayNestedStep(text: string, pos: nat, last: char, viewed: string, parse: Parser,
                        inner: Step, part: map<string, Value>)
    requires pos < |text| && (text[pos] == '[' || text[pos] == '{')
    requires Annotate(text, pos + 1, text[pos], parse) == Ok(inner)
    requires BindIdentsLabels(viewed, Some(inner.value)) == Ok(part)
    ensures ArrayFrame(text, pos, last, viewed, parse) == ArrayFrame(text, inner.pos, inner.lastChar, viewed, parse)
  {
  }

  // ------------------------------------------------------------------
  // An object with one nested object

  /** The text `{ b1 { b2 } b3 }` followed by `tail`. */
  function NestedText(b1: string, b2: string, b3: string, tail: string): string {
    "{" + b1 + "{" + b2 + "}" + b3 + "}" + tail
  }

  /** The three ways the nested text splits around `b1`, `b2` and `b3`. */
  lemma NestedGroupings(b1: string, b2: string, b3: string, tail: string)
    ensures NestedText(b1, b2, b3, tail) == "{" + b1 + ("{" + b2 + "}" + b3 + "}" + tail)
    ensures NestedText(b1, b2, b3, tail) == ("{" + b1 + "{") + b2 + ("}" + b3 + "}" + tail)
    ensures NestedText(b1, b2, b3, tail) == ("{" + b1 + "{" + b2 + "}") + b3 + ("}" + tail)
  {
  }

  /** The nested `{` follows `b1`. */
  lemma NestedOpener(b1: string, b2: string, b3: string, tail: string)
    ensures var t := NestedText(b1, b2, b3, tail);
            |b1| + 1 < |t| && t[|b1| + 1] == '{'
  {
    var t := NestedText(b1, b2, b3, tail);
    assert t == ("{" + b1) + ("{" + b2 + "}" + b3 + "}" + tail);
  }

  /** No character of `b` is special to an object frame. */
  predicate PlainObjectText(b: string) {
    forall k :: 0 <= k < |b| ==> PlainInObject(b[k])
  }

  /** `t[from..to]` is the plain text `b`. */
  predicate PlainSlice(t: string, from: nat, to: nat, b: string) {
    from <= to <= |t| && t[from..to] == b && PlainObjectText(b)
  }

  lemma PlainSliceChars(t: string, from: nat, to: nat, b: string)
    requires PlainSlice(t, from, to, b)
    ensures forall k :: from <= k < to ==> PlainInObject(t[k])
  {
    forall k | from <= k < to ensures PlainInObject(t[k]) {
      assert t[k] == b[k - from];
    }
  }

  /** A plain piece of a concatenation, and the character after it. */
  lemma PlainPiece(t: string, pre: string, b: string, post: string)
    requires t == pre + b + post && PlainObjectText(b)
    ensures PlainSlice(t, |pre|, |pre| + |b|, b)
    ensures post != [] ==> t[|pre| + |b|] == post[0]
  {
    assert t[|pre|..|pre| + |b|] == b;
  }

  /** The inner flat object `{ b2 }` of `{ b1 { b2 } b3 }`, found in `t`
      as `pre + b2 + post`. */
  lemma InnerObject(t: string, pre: string, b2: string, post: string, parse: Parser)
    requires t == pre + b2 + post && post != [] && post[0] == '}'
    requires PlainObjectText(b2) && !IsBlank(b2)
    ensures var inner := Annotate(t, |pre|, '{', parse);
            var flat := BindFlat(CleanViewed(b2).value);
            && (inner.Ok? <==> flat.Ok?)
            && (inner.Ok? ==> inner.value == Step(Obj(flat.value), |pre| + |b2| + 1, '{'))
  {
    PlainPiece(t, pre, b2, post);
    InnerObjectAt(t, |pre|, |pre| + |b2|, b2, parse);
  }

  lemma InnerObjectAt(t: string, start: nat, end: nat, b2: string, parse: Parser)
    requires start + |b2| == end < |t| && t[end] == '}'
    requires PlainSlice(t, start, end, b2)
    requires !IsBlank(b2)
    ensures var inner := Annotate(t, start, '{', parse);
            var flat := BindFlat(CleanViewed(b2).value);
            && (inner.Ok? <==> flat.Ok?)
            && (inner.Ok? ==> inner.value == Step(Obj(flat.value), end + 1, '{'))
  {
    PlainSliceChars(t, start, end, b2);
    ObjectFrameCloses(t, start, '{', "", map[], parse, end);
    assert "" + t[start..end] == b2;
    CloseObjectBinds(b2, map[], end + 1, '{');
    var flat := BindFlat(CleanViewed(b2).value);
    if flat.Ok? {
      MergeIntoEmpty(flat.value);
    }
  }

  /** An object holding one nested object: `{ b1 { b2 } b3 }`, with no
      bracket in `b1`, `b2`, `b3`.  The nested object is bound under the
      identifier of the last line of `b1` alone, since the sibling lines of
      `b1` are dropped; the buffer is then cleared, so `b1` is not bound
      again at the closing `}`; and the lines of `b3` are added after, so they
      win on a clash of identifiers. */
  lemma NestedObjectBindings(b1: string, b2: string, b3: string, tail: string, parse: Parser)
    requires PlainObjectText(b1) && PlainObjectText(b2) && PlainObjectText(b3)
    requires !IsBlank(b2) && !IsBlank(b3)
    ensures var r := Annotate(NestedText(b1, b2, b3, tail), 1, '{', parse);
            var inner := BindFlat(CleanViewed(b2).value);
            var outer := BindFlat(CleanViewed(b3).value);
            && (r.Ok? <==> inner.Ok? && BindIdentsLabels(b1, Some(Obj(inner.value))).Ok? && outer.Ok?)
            && (r.Ok? ==> r.value.value == Obj(BindIdentsLabels(b1, Some(Obj(inner.value))).value + outer.value))
  {
    var t := NestedText(b1, b2, b3, tail);
    NestedGroupings(b1, b2, b3, tail);
    NestedOpener(b1, b2, b3, tail);
    ObjectOpensWith(t, b1, "{" + b2 + "}" + b3 + "}" + tail, parse);
    InnerObject(t, "{" + b1 + "{", b2, "}" + b3 + "}" + tail, parse);
    NestedThenFlat(t, |b1| + 1, b1, BindFlat(CleanViewed(b2).value), "{" + b1 + "{" + b2 + "}", b3, "}" + tail, parse);
  }

  /** An object frame opened at 0 reads the plain `b1` into its buffer. */
  lemma ObjectOpensWith(t: string, b1: string, post: string, parse: Parser)
    requires t == "{" + b1 + post && PlainObjectText(b1)
    ensures Annotate(t, 1, '{', parse) == ObjectFrame(t, |b1| + 1, '{', b1, map[], parse)
  {
    PlainPiece(t, "{", b1, post);
    ObjectOpensAt(t, b1, |b1| + 1, parse);
  }

  lemma ObjectOpensAt(t: string, b1: string, p1: nat, parse: Parser)
    requires p1 == |b1| + 1 <= |t|
    requires PlainSlice(t, 1, p1, b1)
    ensures Annotate(t, 1, '{', parse) == ObjectFrame(t, p1, '{', b1, map[], parse)
  {
    PlainSliceChars(t, 1, p1, b1);
    ObjectPlainRun(t, 1, '{', "", map[], parse, p1);
    assert "" + t[1..p1] == b1;
  }

  /** The outer frame of `{ b1 { b2 } b3 }` from the nested `{` at `p1`,
      the nested object closing at `|pre|` with the flat bindings `flat2`,
      and `b3` found in `t` as `pre + b3 + post`. */
  lemma NestedThenFlat(t: string, p1: nat, b1: string, flat2: Result<map<string, Value>>,
                       pre: string, b3: string, post: string, parse: Parser)
    requires p1 < |t| && t[p1] == '{'
    requires t == pre + b3 + post && post != [] && post[0] == '}'
    requires PlainObjectText(b3) && !IsBlank(b3)
    requires Annotate(t, p1 + 1, '{', parse).Ok? <==> flat2.Ok?
    requires flat2.Ok? ==> Annotate(t, p1 + 1, '{', parse).value == Step(Obj(flat2.value), |pre|, '{')
    ensures var r := ObjectFrame(t, p1, '{', b1, map[], parse);
            var outer := BindFlat(CleanViewed(b3).value);
            && (r.Ok? <==> flat2.Ok? && BindIdentsLabels(b1, Some(Obj(flat2.value))).Ok? && outer.Ok?)
            && (r.Ok? ==> r.value.value == Obj(BindIdentsLabels(b1, Some(Obj(flat2.value))).value + outer.value))
  {
    PlainPiece(t, pre, b3, post);
    NestedThenFlatAt(t, p1, b1, flat2, |pre|, b3, |pre| + |b3|, parse);
  }

  lemma NestedThenFlatAt(t: string, p1: nat, b1: string, flat2: Result<map<string, Value>>,
                       start: nat, b3: string, p3: nat, parse: Parser)
    requires p1 < |t| && t[p1] == '{'
    requires start + |b3| == p3 < |t| && t[p3] == '}'
    requires PlainSlice(t, start, p3, b3)
    requires !IsBlank(b3)
    requires Annotate(t, p1 + 1, '{', parse).Ok? <==> flat2.Ok?
    requires flat2.Ok? ==> Annotate(t, p1 + 1, '{', parse).value == Step(Obj(flat2.value), start, '{')
    ensures var r := ObjectFrame(t, p1, '{', b1, map[], parse);
            var outer := BindFlat(CleanViewed(b3).value);
            && (r.Ok? <==> flat2.Ok? && BindIdentsLabels(b1, Some(Obj(flat2.value))).Ok? && outer.Ok?)
            && (r.Ok? ==> r.value.value == Obj(BindIdentsLabels(b1, Some(Obj(flat2.value))).value + outer.value))
  {
    if flat2.Err? {
      ObjectNestedErr(t, p1, '{', b1, map[], parse);
    } else {
      var step := Annotate(t, p1 + 1, '{', parse).value;
      var bound := BindIdentsLabels(b1, Some(Obj(flat2.value)));
      if bound.Err? {
        ObjectNestedErr(t, p1, '{', b1, map[], parse);
      } else {
        ObjectNestedStep(t, p1, '{', b1, map[], parse, step, bound.value);
        OuterClose(t, start, b3, p3, bound.value, parse);
      }
    }
  }

  /** A nested frame that fails, or whose binding fails, fails the object frame. */
  lemma ObjectNestedErr(text: string, pos: nat, last: char, viewed: string,
                        acc: map<string, Value>, parse: Parser)
    requires pos < |text| && (text[pos] == '[' || text[pos] == '{')
    requires || Annotate(text, pos + 1, text[pos], parse).Err?
             || BindIdentsLabels(viewed, Some(Annotate(text, pos + 1, text[pos], parse).value.value)).Err?
    ensures ObjectFrame(text, pos, last, viewed, acc, parse).Err?
  {
  }

  lemma OuterClose(t: string, start: nat, b3: string, p3: nat, acc: map<string, Value>, parse: Parser)
    requires start + |b3| == p3 < |t| && t[p3] == '}'
    requires PlainSlice(t, start, p3, b3)
    requires !IsBlank(b3)
    ensures var r := ObjectFrame(t, start, '{', "", map[] + acc, parse);
            var outer := BindFlat(CleanViewed(b3).value);
            && (r.Ok? <==> outer.Ok?)
            && (r.Ok? ==> r.value.value == Obj(acc + outer.value))
  {
    MergeIntoEmpty(acc);
    PlainSliceChars(t, start, p3, b3);
    ObjectFrameCloses(t, start, '{', "", acc, parse, p3);
    assert "" + t[start..p3] == b3;
    CloseObjectBinds(b3, acc, p3 + 1, '{');
  }

  /** Characters an object frame only buffers. */
  predicate PlainInObject(c: char) {
    IsAscii(c) && c != '}' && c != '{' && c != '['
  }

  /** Characters an array frame only buffers. */
  predicate PlainInArray(c: char) {
    IsAscii(c) && c != ']' && c != '{' && c != '['
  }

  lemma ObjectPlainStep(text: string, pos: nat, last: char, viewed: string,
                        acc: map<string, Value>, parse: Parser)
    requires pos < |text| && PlainInObject(text[pos])
    ensures ObjectFrame(text, pos, last, viewed, acc, parse)
            == ObjectFrame(text, pos + 1, last, viewed + [text[pos]], acc, parse)
  {
  }

  lemma ArrayPlainStep(text: string, pos: nat, last: char, viewed: string, parse: Parser)
    requires pos < |text| && PlainInArray(text[pos])
    ensures ArrayFrame(text, pos, last, viewed, parse)
            == ArrayFrame(text, pos + 1, last, viewed + [text[pos]], parse)
  {
  }

  lemma BufferGrows(viewed: string, text: string, pos: nat, end: nat)
    requires pos < end <= |text|
    ensures viewed + [text[pos]] + text[pos + 1..end] == viewed + text[pos..end]
  {
    assert text[pos..end] == [text[pos]] + text[pos + 1..end];
  }

  /** An object frame buffers a run of plain characters unchanged. */
  lemma {:induction false} ObjectPlainRun(text: string, pos: nat, last: char, viewed: string,
                                          acc: map<string, Value>, parse: Parser, end: nat)
    requires pos <= end <= |text|
    requires forall k :: pos <= k < end ==> PlainInObject(text[k])
    ensures ObjectFrame(text, pos, last, viewed, acc, parse)
            == ObjectFrame(text, end, last, viewed + text[pos..end], acc, parse)
    decreases end - pos
  {
    if pos < end {
      ObjectPlainStep(text, pos, last, viewed, acc, parse);
      ObjectPlainRun(text, pos + 1, last, viewed + [text[pos]], acc, parse, end);
      BufferGrows(viewed, text, pos, end);
    } else {
      assert viewed + text[pos..end] == viewed;
    }
  }

  /** An array frame buffers a run of plain characters unchanged. */
  lemma {:induction false} ArrayPlainRun(text: string, pos: nat, last: char, viewed: string,
                                         parse: Parser, end: nat)
    requires pos <= end <= |text|
    requires forall k :: pos <= k < end ==> PlainInArray(text[k])
    ensures ArrayFrame(text, pos, last, viewed, parse)
            == ArrayFrame(text, end, last, viewed + text[pos..end], parse)
    decreases end - pos
  {
    if pos < end {
      ArrayPlainStep(text, pos, last, viewed, parse);
      ArrayPlainRun(text, pos + 1, last, viewed + [text[pos]], parse, end);
      BufferGrows(viewed, text, pos, end);
    } else {
      assert viewed + text[pos..end] == viewed;
    }
  }

  /** Input that ends before the object's `}` is a failure (`unwrap` on an
      exhausted iterator). */
  lemma ObjectRunsOut(text: string, pos: nat, last: char, viewed: string,
                      acc: map<string, Value>, parse: Parser)
    requires pos <= |text|
    requires forall k :: pos <= k < |text| ==> PlainInObject(text[k])
    ensures ObjectFrame(text, pos, last, viewed, acc, parse) == Err(UnexpectedEnd)
  {
    ObjectPlainRun(text, pos, last, viewed, acc, parse, |text|);
  }

  /** Input that ends before the array's `]` is a failure. */
  lemma ArrayRunsOut(text: string, pos: nat, last: char, viewed: string, parse: Parser)
    requires pos <= |text|
    requires forall k :: pos <= k < |text| ==> PlainInArray(text[k])
    ensures ArrayFrame(text, pos, last, viewed, parse) == Err(UnexpectedEnd)
  {
    ArrayPlainRun(text, pos, last, viewed, parse, |text|);
  }

  /** An object frame whose remaining characters up to a `}` are plain
      closes there with everything buffered. */
  lemma ObjectFrameCloses(text: string, pos: nat, last: char, viewed: string,
                          acc: map<string, Value>, parse: Parser, end: nat)
    requires pos <= end < |text| && text[end] == '}'
    requires forall k :: pos <= k < end ==> PlainInObject(text[k])
    ensures ObjectFrame(text, pos, last, viewed, acc, parse)
            == CloseObject(viewed + text[pos..end], acc, end + 1, last)
  {
    ObjectPlainRun(text, pos, last, viewed, acc, parse, end);
  }

  /** The text of a flat object and what the frame sees of it. */
  lemma FlatObjectText(body: string, tail: string)
    requires forall k :: 0 <= k < |body| ==> PlainInObject(body[k])
    ensures var text := "{" + body + "}" + tail;
            && |body| + 1 < |text| && text[|body| + 1] == '}'
            && (forall k :: 1 <= k < |body| + 1 ==> PlainInObject(text[k]))
            && "" + text[1..|body| + 1] == body
  {
    var text := "{" + body + "}" + tail;
    forall k | 1 <= k < |body| + 1 ensures PlainInObject(text[k]) {
      assert text[k] == body[k - 1];
    }
    assert text[1..|body| + 1] == body;
  }

  /** A flat object `{ body }`: its lines are bound as by `bind_idents_labels`
      without an inner value, and whatever follows the closing brace is
      left unread. */
  lemma AnnotateFlatObject(body: string, tail: string, parse: Parser)
    requires forall k :: 0 <= k < |body| ==> PlainInObject(body[k])
    ensures Annotate("{" + body + "}" + tail, 1, '{', parse) == CloseObject(body, map[], |body| + 2, '{')
  {
    FlatObjectText(body, tail);
    ObjectFrameCloses("{" + body + "}" + tail, 1, '{', "", map[], parse, |body| + 1);
  }

  /** Closing a non-blank buffer binds its lines as `bind_idents_labels`
      does without an inner value, after the bindings made so far. */
  lemma CloseObjectBinds(viewed: string, acc: map<string, Value>, end: nat, last: char)
    requires !IsBlank(viewed)
    ensures var r := CloseObject(viewed, acc, end, last);
            var flat := BindFlat(CleanViewed(viewed).value);
            && (r.Ok? <==> flat.Ok?)
            && (r.Ok? ==> r.value.value == Obj(acc + flat.value))
  {
  }

  /** The bindings of a flat object are those of its buffered lines. */
  lemma FlatObjectBindings(body: string, tail: string, parse: Parser)
    requires forall k :: 0 <= k < |body| ==> PlainInObject(body[k])
    requires !IsBlank(body)
    ensures var r := Annotate("{" + body + "}" + tail, 1, '{', parse);
            var flat := BindFlat(CleanViewed(body).value);
            && (r.Ok? <==> flat.Ok?)
            && (r.Ok? ==> r.value.value == Obj(flat.value))
  {
    AnnotateFlatObject(body, tail, parse);
    CloseObjectBinds(body, map[], |body| + 2, '{');
    var flat := BindFlat(CleanViewed(body).value);
    if flat.Ok? {
      MergeIntoEmpty(flat.value);
    }
  }

  lemma MergeIntoEmpty(m: map<string, Value>)
    ensures map[] + m == m
  {
  }

  /** An array frame whose remaining characters up to a `]` are plain
      hands everything buffered to `label_by_position`. */
  lemma ArrayFrameCloses(text: string, pos: nat, last: char, viewed: string, parse: Parser, end: nat)
    requires pos <= end < |text| && text[end] == ']'
    requires forall k :: pos <= k < end ==> PlainInArray(text[k])
    ensures var r := ArrayFrame(text, pos, last, viewed, parse);
            var buffer := viewed + text[pos..end];
            && (r.Ok? <==> parse(EmbeddedObject(buffer)).Some?)
            && (r.Ok? ==> r.value == Step(Arr([Obj(parse(EmbeddedObject(buffer)).value)]), end + 1, last))
  {
    ArrayPlainRun(text, pos, last, viewed, parse, end);
  }

  /** The text of a flat array and what the frame sees of it. */
  lemma FlatArrayText(body: string, tail: string)
    requires forall k :: 0 <= k < |body| ==> PlainInArray(body[k])
    ensures var text := "[" + body + "]" + tail;
            && |body| + 1 < |text| && text[|body| + 1] == ']'
            && (forall k :: 1 <= k < |body| + 1 ==> PlainInArray(text[k]))
            && "" + text[1..|body| + 1] == body
  {
    var text := "[" + body + "]" + tail;
    forall k | 1 <= k < |body| + 1 ensures PlainInArray(text[k]) {
      assert text[k] == body[k - 1];
    }
    assert text[1..|body| + 1] == body;
  }

  /** A flat array `[ body ]` is the one object the parser reads between the
      first `{` and the last `}` of its body. */
  lemma AnnotateFlatArray(body: string, tail: string, parse: Parser)
    requires forall k :: 0 <= k < |body| ==> PlainInArray(body[k])
    ensures var r := Annotate("[" + body + "]" + tail, 1, '[', parse);
            && (r.Ok? <==> parse(EmbeddedObject(body)).Some?)
            && (r.Ok? ==> r.value == Step(Arr([Obj(parse(EmbeddedObject(body)).value)]), |body| + 2, '['))
  {
    FlatArrayText(body, tail);
    ArrayFrameCloses("[" + body + "]" + tail, 1, '[', "", parse, |body| + 1);
  }

  /** An array never clears its buffer: the one element it produces is
      parsed from a buffer that extends the one it started with, so nested
      values never reach the result. */
  lemma ArrayKeepsBuffer(text: string, pos: nat, last: char, viewed: string, parse: Parser)
    requires ArrayFrame(text, pos, last, viewed, parse).Ok?
    ensures exists buffer: string :: viewed <= buffer && parse(EmbeddedObject(buffer)).Some?
              && ArrayFrame(text, pos, last, viewed, parse).value.value == Arr([Obj(parse(EmbeddedObject(buffer)).value)])
  {
    var buffer := FinalBuffer(text, pos, last, viewed, parse);
  }

  /** The buffer an array frame hands to `label_by_position`. */
  lemma {:induction false} FinalBuffer(text: string, pos: nat, last: char, viewed: string, parse: Parser)
    returns (buffer: string)
    requires ArrayFrame(text, pos, last, viewed, parse).Ok?
    ensures viewed <= buffer && parse(EmbeddedObject(buffer)).Some?
    ensures ArrayFrame(text, pos, last, viewed, parse).value.value == Arr([Obj(parse(EmbeddedObject(buffer)).value)])
    ensures '{' !in viewed ==> '{' !in buffer
    decreases |text| - pos
  {
    var c := text[pos];
    if c == ']' {
      buffer := viewed;
    } else if c == '[' || c == '{' {
      var inner := Annotate(text, pos + 1, c, parse).value;
      assert ArrayFrame(text, pos, last, viewed, parse) == ArrayFrame(text, inner.pos, inner.lastChar, viewed, parse);
      buffer := FinalBuffer(text, inner.pos, inner.lastChar, viewed, parse);
    } else {
      assert ArrayFrame(text, pos, last, viewed, parse) == ArrayFrame(text, pos + 1, last, viewed + [c], parse);
      buffer := FinalBuffer(text, pos + 1, last, viewed + [c], parse);
    }
  }

  /** Every `{` starts a nested frame, so an array frame entered with a
      brace-free buffer hands a brace-free buffer to `label_by_position`,
      whose embedded object is then empty: the frame can only succeed if
      the JSON parser accepts the empty text. */
  lemma ArrayFrameNeedsEmptyParse(text: string, pos: nat, last: char, viewed: string, parse: Parser)
    requires '{' !in viewed
    ensures ArrayFrame(text, pos, last, viewed, parse).Ok? ==> parse("").Some?
  {
    if ArrayFrame(text, pos, last, viewed, parse).Ok? {
      var buffer := FinalBuffer(text, pos, last, viewed, parse);
      NoBraceNoObject(buffer);
    }
  }

  /** Array mode never succeeds: `serde_json::from_str` rejects the empty text. */
  lemma ArrayModeFails(text: string, pos: nat, parse: Parser)
    requires parse("") == None
    ensures Annotate(text, pos, '[', parse).Err?
  {
    ArrayFrameNeedsEmptyParse(text, pos, '[', "", parse);
  }

  // ------------------------------------------------------------------
  // The crate's mutable state

  /** `struct Context`: the command name and the opening character of the
      frame most recently entered. */
  class Context {
    const cmdName: string
    var lastChar: char

    constructor (cmdName: string, lastChar: char)
      ensures this.cmdName == cmdName && this.lastChar == lastChar
    {
      this.cmdName := cmdName;
      this.lastChar := lastChar;
    }
  }

  /** `std::str::Chars` over `text`, next to yield `text[pos]`. */
  class Chars {
    const text: string
    var pos: nat

    constructor (text: string)
      ensures this.text == text && pos == 0
    {
      this.text := text;
      pos := 0;
    }

    /** `Iterator::next` */
    method Next() returns (c: Option<char>)
      modifies this
      ensures old(pos) < |text| ==> c == Some(text[old(pos)]) && pos == old(pos) + 1
      ensures |text| <= old(pos) ==> c == None && pos == old(pos)
    {
      if pos < |text| {
        c := Some(text[pos]);
        pos := pos + 1;
      } else {
        c := None;
      }
    }
  }

  /** The outcome `r` of a method and the state it leaves (`pos`,
      `lastChar`) are those the walk `spec` describes. */
  predicate Agrees(spec: Result<Step>, r: Result<Value>, pos: nat, lastChar: char) {
    match spec
    case Ok(step) => r == Ok(step.value) && pos == step.pos && lastChar == step.lastChar
    case Err(f) => r == Err(f)
  }

  /** `annotate_result` */
  method AnnotateResult(context: Context, chars: Chars, parse: Parser) returns (r: Result<Value>)
    modifies context, chars
    ensures Agrees(Annotate(chars.text, old(chars.pos), old(context.lastChar), parse), r, chars.pos, context.lastChar)
    decreases |chars.text| - chars.pos, 1
  {
    ghost var spec := Annotate(chars.text, chars.pos, context.lastChar, parse);
    var viewed: string := "";
    if context.lastChar == '{' {
      var bindings: map<string, Value> := map[];
      while chars.pos < |chars.text|
        invariant ObjectFrame(chars.text, chars.pos, context.lastChar, viewed, bindings, parse) == spec
        decreases |chars.text| - chars.pos
      {
        var next := chars.Next();
        var c := next.value;
        if c == '}' {
          if IsBlank(viewed) {
            return Ok(Obj(bindings));
          }
          var partial := BindIdentsLabels(viewed, None);
          if partial.Err? {
            return Err(partial.failure);
          }
          viewed := "";
          bindings := bindings + partial.value;
          return Ok(Obj(bindings));
        } else if c == '[' || c == '{' {
          var inner := Recurse(c, context, chars, parse);
          if inner.Err? {
            return Err(inner.failure);
          }
          var partial := BindIdentsLabels(viewed, Some(inner.value));
          if partial.Err? {
            return Err(partial.failure);
          }
          viewed := "";
          bindings := bindings + partial.value;
        } else if IsAscii(c) {
          viewed := viewed + [c];
        } else {
          return Err(NonAscii);
        }
      }
      return Err(UnexpectedEnd);
    } else if context.lastChar == '[' {
      while chars.pos < |chars.text|
        invariant ArrayFrame(chars.text, chars.pos, context.lastChar, viewed, parse) == spec
        decreases |chars.text| - chars.pos
      {
        var next := chars.Next();
        var c := next.value;
        if c == ']' {
          var ordered := LabelByPosition(viewed, parse);
          if ordered.Err? {
            return Err(ordered.failure);
          }
          return Ok(Arr(ordered.value));
        } else if c == '[' || c == '{' {
          var inner := Recurse(c, context, chars, parse);
          if inner.Err? {
            return Err(inner.failure);
          }
          var discarded := BindIdentsLabels(viewed, Some(inner.value));
          if discarded.Err? {
            return Err(discarded.failure);
          }
        } else if IsAscii(c) {
          viewed := viewed + [c];
        } else {
          return Err(NonAscii);
        }
      }
      return Err(UnexpectedEnd);
    } else {
      return Err(Unimplemented);
    }
  }

  /** `recurse`: enter the frame `lastViewed` opens. */
  method Recurse(lastViewed: char, context: Context, chars: Chars, parse: Parser) returns (r: Result<Value>)
    modifies context, chars
    ensures Agrees(Annotate(chars.text, old(chars.pos), lastViewed, parse), r, chars.pos, context.lastChar)
    decreases |chars.text| - chars.pos, 2
  {
    context.lastChar := lastViewed;
    r := AnnotateResult(context, chars, parse);
  }

  /** `interpret_raw_output`, returning the annotated value itself rather
      than its JSON text. */
  method InterpretRawOutput(raw: string, parse: Parser) returns (r: Result<Value>)
    ensures r == Interpret(raw, parse)
  {
    var extracted := ExtractNameAndResult(raw);
    if extracted.Err? {
      return Err(extracted.failure);
    }
    var (cmdName, resultData) := extracted.value;
    var chars := new Chars(resultData);
    var first := chars.Next();
    if first.None? {
      return Err(MissingFirstChar);
    }
    var context := new Context(cmdName, first.value);
    r := AnnotateResult(context, chars, parse);
  }
}
