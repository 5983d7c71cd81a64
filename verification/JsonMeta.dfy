/** The JSON metadata builders: escaping by whole-string replacement, and what a reader recovers. */
module JsonMeta {
  import opened Wrappers
  import opened Text
  import opened Json

  // ----- Escaping -----

  /** Every `c` of `s` replaced by `repl`. */
  function Replace(s: string, c: char, repl: string): string {
    if |s| == 0 then "" else (if s[0] == c then repl else [s[0]]) + Replace(s[1..], c, repl)
  }

  /** The escape of keywords, column schemas and example queries; with `newlines`, of agent tasks. */
  function Esc(s: string, newlines: bool): string {
    var quoted := Replace(Replace(s, '\\', "\\\\"), '\"', "\\\"");
    if newlines then Replace(quoted, '\n', "\\n") else quoted
  }

  function EscapeChar(c: char, newlines: bool): string {
    if c == '\\' then "\\\\" else if c == '\"' then "\\\"" else if c == '\n' && newlines then "\\n" else [c]
  }

  /** The same escape in one pass. */
  function EscapeOnce(s: string, newlines: bool): string {
    if |s| == 0 then "" else EscapeChar(s[0], newlines) + EscapeOnce(s[1..], newlines)
  }

  lemma {:induction false} ReplaceConcat(a: string, b: string, c: char, repl: string)
    ensures Replace(a + b, c, repl) == Replace(a, c, repl) + Replace(b, c, repl)
  {
    if |a| == 0 {
      assert a + b == b;
    } else {
      assert (a + b)[1..] == a[1..] + b;
      ReplaceConcat(a[1..], b, c, repl);
    }
  }

  lemma EscOfChar(c: char, newlines: bool)
    ensures Esc([c], newlines) == EscapeChar(c, newlines)
  {
    ReplaceTwo('\\', '\\', '\"', "\\\"");
    ReplaceTwo('\\', '\"', '\n', "\\n");
    ReplaceTwo('\\', '\\', '\n', "\\n");
    assert [c][1..] == "";
    assert Replace([c], '\\', "\\\\") == if c == '\\' then "\\\\" else [c];
    assert Replace([c], '\"', "\\\"") == if c == '\"' then "\\\"" else [c];
    assert Replace([c], '\n', "\\n") == if c == '\n' then "\\n" else [c];
  }

  lemma ReplaceTwo(a: char, b: char, c: char, repl: string)
    requires a != c && b != c
    ensures Replace([a, b], c, repl) == [a, b]
  {
    assert [a, b][1..] == [b] && [b][1..] == "";
    assert Replace([b], c, repl) == [b];
  }

  /** The successive whole-string replacements do not see each other's output: they amount to one pass. */
  lemma {:induction false} EscIsOnePass(s: string, newlines: bool)
    ensures Esc(s, newlines) == EscapeOnce(s, newlines)
  {
    if |s| > 0 {
      var head, tail := [s[0]], s[1..];
      assert s == head + tail;
      ReplaceConcat(head, tail, '\\', "\\\\");
      ReplaceConcat(Replace(head, '\\', "\\\\"), Replace(tail, '\\', "\\\\"), '\"', "\\\"");
      ReplaceConcat(Esc(head, false), Esc(tail, false), '\n', "\\n");
      EscOfChar(s[0], newlines);
      EscIsOnePass(tail, newlines);
    }
  }

  /** Text the escape makes readable: no control characters, newlines aside when they are escaped. */
  ghost predicate Readable(s: string, newlines: bool) {
    forall i :: 0 <= i < |s| ==> !IsControl(s[i]) || (newlines && s[i] == '\n')
  }

  /** Reading an escaped string back, whatever follows: the original text if it is readable, an error
      if it is not. */
  lemma {:induction false} ReadEscaped(s: string, newlines: bool, rest: string)
    ensures ReadString(Esc(s, newlines) + "\"" + rest) ==
            if Readable(s, newlines) then Some((s, rest)) else None
  {
    EscIsOnePass(s, newlines);
    ReadOnePass(s, newlines, rest);
  }

  lemma {:induction false} ReadOnePass(s: string, newlines: bool, rest: string)
    ensures ReadString(EscapeOnce(s, newlines) + "\"" + rest) ==
            if Readable(s, newlines) then Some((s, rest)) else None
  {
    var text := EscapeOnce(s, newlines) + "\"" + rest;
    if |s| == 0 {
      assert text[1..] == rest;
    } else {
      var tail := EscapeOnce(s[1..], newlines) + "\"" + rest;
      ReadOnePass(s[1..], newlines, rest);
      assert text == EscapeChar(s[0], newlines) + tail;
      ReadEscapedChar(s[0], newlines, tail);
      assert s == [s[0]] + s[1..];
      ReadableTail(s, newlines);
    }
  }

  lemma ReadableTail(s: string, newlines: bool)
    requires |s| > 0
    ensures Readable(s, newlines) <==>
            (!IsControl(s[0]) || (newlines && s[0] == '\n')) && Readable(s[1..], newlines)
  {
    if Readable(s[1..], newlines) {
      assert forall i :: 1 <= i < |s| ==> s[i] == s[1..][i - 1];
    }
  }

  lemma ReadEscapedChar(c: char, newlines: bool, tail: string)
    ensures ReadString(EscapeChar(c, newlines) + tail) ==
            if IsControl(c) && !(newlines && c == '\n') then None else Cons(c, ReadString(tail))
  {
    var text := EscapeChar(c, newlines) + tail;
    assert text[|EscapeChar(c, newlines)|..] == tail;
  }

  // ----- The builders -----

  function Quote(s: string): string {
    "\"" + Esc(s, false) + "\""
  }

  /** The trimmed, non-empty pieces. */
  function Pieces(parts: seq<string>): seq<string> {
    if |parts| == 0 then []
    else if Trim(parts[0]) == "" then Pieces(parts[1..])
    else [Trim(parts[0])] + Pieces(parts[1..])
  }

  function KeywordsJson(keywords: string): string {
    var pieces := Pieces(Split(keywords, ','));
    "[" + Join(seq(|pieces|, i requires 0 <= i < |pieces| => Quote(pieces[i])), ',') + "]"
  }

  function TaskText(task: (string, string, string)): string {
    "{\"name\":\"" + Esc(task.0, true) + "\",\"prompt\":\"" + Esc(task.1, true)
    + "\",\"reference_sql\":\"" + Esc(task.2, true) + "\"}"
  }

  function AgentTestTasksJson(tasks: seq<(string, string, string)>): string {
    "[" + Join(seq(|tasks|, i requires 0 <= i < |tasks| => TaskText(tasks[i])), ',') + "]"
  }

  function ColumnText(col: (string, string, string)): string {
    "{\"name\":\"" + Esc(col.0, false) + "\",\"type\":\"" + Esc(col.1, false)
    + "\",\"description\":\"" + Esc(col.2, false) + "\"}"
  }

  function ResultColumnsSchemaJson(cols: seq<(string, string, string)>): string {
    "[" + Join(seq(|cols|, i requires 0 <= i < |cols| => ColumnText(cols[i])), ',') + "]"
  }

  function ExampleText(example: (string, string)): string {
    "{\"description\":\"" + Esc(example.0, false) + "\",\"sql\":\"" + Esc(example.1, false) + "\"}"
  }

  function ExampleQueriesJson(examples: seq<(string, string)>): string {
    "[" + Join(seq(|examples|, i requires 0 <= i < |examples| => ExampleText(examples[i])), ',') + "]"
  }

  // ----- Reading arrays back -----

  /** Followed by anything, `text` reads as `value`; without a value, it is an error. */
  ghost predicate ReadsAs(text: string, value: Option<Value>) {
    forall rest :: ReadValue(text + rest) == if value.Some? then Some((value.value, rest)) else None
  }

  ghost function Collect(values: seq<Option<Value>>): Option<seq<Value>> {
    if |values| == 0 then Some([])
    else
      var rest := Collect(values[1..]);
      if values[0].None? || rest.None? then None else Some([values[0].value] + rest.value)
  }

  lemma {:induction false} ReadJoined(texts: seq<string>, values: seq<Option<Value>>)
    requires 0 < |texts| == |values| && forall i :: 0 <= i < |texts| ==> ReadsAs(texts[i], values[i])
    ensures ReadItems(Join(texts, ',') + "]") ==
            if Collect(values).Some? then Some((Collect(values).value, "")) else None
    decreases |texts|
  {
    var text := Join(texts, ',') + "]";
    if |texts| == 1 {
      assert ReadsAs(texts[0], values[0]);
      assert text == texts[0] + "]" && "]"[1..] == "" && values[1..] == [];
      var none: seq<Value> := [];
      assert Collect(values[1..]) == Some(none);
      if values[0].Some? {
        assert [values[0].value] + none == [values[0].value];
      }
    } else {
      var rest := Join(texts[1..], ',') + "]";
      assert text == texts[0] + ("," + rest);
      assert ReadsAs(texts[0], values[0]);
      assert ("," + rest)[1..] == rest;
      ReadJoined(texts[1..], values[1..]);
    }
  }

  /** An array of texts reads as the array of their values, if each has one, and as an error if any
      has none. No text is taken for the end of the array. */
  lemma ReadArray(texts: seq<string>, values: seq<Option<Value>>)
    requires |texts| == |values| && forall i :: 0 <= i < |texts| ==> ReadsAs(texts[i], values[i])
    requires forall i :: 0 <= i < |texts| ==> |texts[i]| > 0 && texts[i][0] != ']'
    ensures Read("[" + Join(texts, ',') + "]") ==
            if Collect(values).Some? then Some(Arr(Collect(values).value)) else None
  {
    var text := "[" + Join(texts, ',') + "]";
    if |texts| == 0 {
      assert text == "[]" && text[2..] == "";
    } else {
      assert text == "[" + (Join(texts, ',') + "]");
      assert text[1..] == Join(texts, ',') + "]";
      assert Join(texts, ',')[0] == texts[0][0];
      ReadJoined(texts, values);
    }
  }

  lemma {:induction false} CollectAll(values: seq<Option<Value>>)
    ensures Collect(values) ==
            if forall i :: 0 <= i < |values| ==> values[i].Some?
            then Some(seq(|values|, i requires 0 <= i < |values| && values[i].Some? => values[i].value))
            else None
  {
    if |values| > 0 {
      CollectAll(values[1..]);
      assert forall i :: 1 <= i < |values| ==> values[i] == values[1..][i - 1];
      if forall i :: 0 <= i < |values| ==> values[i].Some? {
        assert seq(|values|, i requires 0 <= i < |values| && values[i].Some? => values[i].value) ==
               [values[0].value] + Collect(values[1..]).value;
      } else if values[0].Some? {
        var i :| 0 <= i < |values| && values[i].None?;
        assert values[1..][i - 1].None?;
      }
    } else {
      assert seq(|values|, i requires 0 <= i < |values| && values[i].Some? => values[i].value) == [];
    }
  }

  lemma QuoteReads(s: string)
    ensures ReadsAs(Quote(s), if Readable(s, false) then Some(Str(s)) else None)
  {
    forall rest
      ensures ReadValue(Quote(s) + rest) == if Readable(s, false) then Some((Str(s), rest)) else None
    {
      ReadEscaped(s, false, rest);
      assert (Quote(s) + rest)[1..] == Esc(s, false) + "\"" + rest;
    }
  }

  ghost function StringValues(pieces: seq<string>): seq<Option<Value>> {
    seq(|pieces|, i requires 0 <= i < |pieces| =>
      if Readable(pieces[i], false) then Some(Str(pieces[i])) else None)
  }

  lemma PiecesRead(keywords: string)
    ensures var pieces := Pieces(Split(keywords, ','));
            Read(KeywordsJson(keywords)) ==
            if forall i :: 0 <= i < |pieces| ==> Readable(pieces[i], false)
            then Some(Arr(seq(|pieces|, i requires 0 <= i < |pieces| => Str(pieces[i]))))
            else None
  {
    var pieces := Pieces(Split(keywords, ','));
    var texts := seq(|pieces|, i requires 0 <= i < |pieces| => Quote(pieces[i]));
    forall i | 0 <= i < |pieces|
      ensures ReadsAs(texts[i], StringValues(pieces)[i])
    {
      QuoteReads(pieces[i]);
    }
    ReadArray(texts, StringValues(pieces));
    var values := StringValues(pieces);
    CollectAll(values);
    assert forall i :: 0 <= i < |pieces| ==> (values[i].Some? <==> Readable(pieces[i], false));
    if Collect(values).Some? {
      assert Collect(values).value == seq(|pieces|, i requires 0 <= i < |pieces| => Str(pieces[i]));
    }
  }

  /** `pieces` are, in order, what lies between the blanks of the parts at the places `at`: exactly the
      places of the parts that are not all white space. */
  ghost predicate InnerParts(parts: seq<string>, pieces: seq<string>, at: seq<nat>) {
    |at| == |pieces| &&
    (forall i :: 0 <= i < |at| ==> at[i] < |parts| && IsInner(parts[at[i]], pieces[i])) &&
    (forall i, j :: 0 <= i < j < |at| ==> at[i] < at[j]) &&
    (forall p: nat :: p < |parts| && !Blank(parts[p]) ==> p in at)
  }

  lemma {:induction false} PiecesAreInner(parts: seq<string>) returns (at: seq<nat>)
    ensures InnerParts(parts, Pieces(parts), at)
  {
    hide Trim, IsInner, Blank;
    at := [];
    if |parts| > 0 {
      var later := PiecesAreInner(parts[1..]);
      at := seq(|later|, i requires 0 <= i < |later| => later[i] + 1);
      TrimExact(parts[0]);
      ShiftPlaces(parts, Pieces(parts[1..]), later, at);
      if !Blank(parts[0]) {
        InnerNotEmpty(parts[0], Trim(parts[0]));
        FirstPlace(parts, Pieces(parts[1..]), at, Trim(parts[0]));
        at := [0] + at;
      }
    }
  }

  lemma InnerNotEmpty(s: string, inner: string)
    requires IsInner(s, inner)
    ensures inner != ""
  {
  }

  /** The places of the tail's parts, seen from the whole: those of all parts but the first. */
  ghost predicate TailPlaces(parts: seq<string>, pieces: seq<string>, at: seq<nat>) {
    |at| == |pieces| &&
    (forall i :: 0 <= i < |at| ==> 0 < at[i] < |parts| && IsInner(parts[at[i]], pieces[i])) &&
    (forall i, j :: 0 <= i < j < |at| ==> at[i] < at[j]) &&
    (forall p: nat :: 0 < p < |parts| && !Blank(parts[p]) ==> p in at)
  }

  lemma ShiftPlaces(parts: seq<string>, pieces: seq<string>, later: seq<nat>, at: seq<nat>)
    requires |parts| > 0 && InnerParts(parts[1..], pieces, later)
    requires |at| == |later| && forall i :: 0 <= i < |at| ==> at[i] == later[i] + 1
    ensures TailPlaces(parts, pieces, at)
  {
    hide IsInner, Blank;
    forall p: nat | 0 < p < |parts| && !Blank(parts[p])
      ensures p in at
    {
      assert parts[1..][p - 1] == parts[p];
      assert p - 1 in later;
    }
  }

  lemma FirstPlace(parts: seq<string>, pieces: seq<string>, at: seq<nat>, inner: string)
    requires |parts| > 0 && TailPlaces(parts, pieces, at) && IsInner(parts[0], inner)
    ensures InnerParts(parts, [inner] + pieces, [0] + at)
  {
    hide IsInner, Blank;
    var places := [0] + at;
    forall p: nat | p < |parts| && !Blank(parts[p])
      ensures p in places
    {
      assert p == 0 ==> places[0] == p;
    }
  }

  /** A JSON reader recovers from `vgi.keywords` the parts between the commas, in order, without the
      white space around them and without those that are nothing else, if none holds a control
      character; otherwise the text is not JSON. */
  lemma KeywordsRead(keywords: string)
    ensures exists pieces, at ::
              InnerParts(Split(keywords, ','), pieces, at) &&
              Read(KeywordsJson(keywords)) ==
              if forall i :: 0 <= i < |pieces| ==> Readable(pieces[i], false)
              then Some(Arr(seq(|pieces|, i requires 0 <= i < |pieces| => Str(pieces[i]))))
              else None
  {
    hide Read, KeywordsJson, Pieces, Split, Readable;
    var parts := Split(keywords, ',');
    var at := PiecesAreInner(parts);
    PiecesRead(keywords);
  }

  // ----- Reading objects back -----

  function FieldText(name: string, text: string, newlines: bool): string {
    "\"" + name + "\":\"" + Esc(text, newlines) + "\""
  }

  /** A field name that needs no escape. */
  ghost predicate Plain(name: string) {
    Readable(name, false) && '\\' !in name && '\"' !in name
  }

  lemma {:induction false} PlainEscape(name: string)
    requires '\\' !in name && '\"' !in name
    ensures EscapeOnce(name, false) == name
  {
    if |name| > 0 {
      PlainEscape(name[1..]);
      assert name == [name[0]] + name[1..];
    }
  }

  lemma ReadFieldText(name: string, text: string, newlines: bool, rest: string)
    requires Plain(name)
    ensures ReadField(FieldText(name, text, newlines) + rest) ==
            if Readable(text, newlines) then Some(((name, text), rest)) else None
  {
    hide Esc, EscapeOnce, Readable, ReadString;
    var s := FieldText(name, text, newlines) + rest;
    var afterName := ":\"" + (Esc(text, newlines) + "\"" + rest);
    PlainEscape(name);
    ReadOnePass(name, false, afterName);
    assert s[1..] == name + "\"" + afterName;
    assert afterName[2..] == Esc(text, newlines) + "\"" + rest;
    ReadEscaped(text, newlines, rest);
  }

  /** The texts of the fields, in order. */
  function FieldTexts(fields: seq<(string, string)>, newlines: bool): seq<string> {
    seq(|fields|, i requires 0 <= i < |fields| => FieldText(fields[i].0, fields[i].1, newlines))
  }

  ghost predicate AllReadable(fields: seq<(string, string)>, newlines: bool) {
    forall i :: 0 <= i < |fields| ==> Readable(fields[i].1, newlines)
  }

  lemma {:induction false} ReadFieldsJoined(fields: seq<(string, string)>, newlines: bool, rest: string)
    requires |fields| > 0 && forall i :: 0 <= i < |fields| ==> Plain(fields[i].0)
    ensures ReadFields(Join(FieldTexts(fields, newlines), ',') + "}" + rest) ==
            if AllReadable(fields, newlines) then Some((fields, rest)) else None
    decreases |fields|
  {
    hide ReadField, FieldText, Readable;
    var texts := FieldTexts(fields, newlines);
    var text := Join(texts, ',') + "}" + rest;
    if |fields| == 1 {
      ReadFieldText(fields[0].0, fields[0].1, newlines, "}" + rest);
      assert text == texts[0] + ("}" + rest) && ("}" + rest)[1..] == rest;
      assert fields == [fields[0]];
    } else {
      var more := Join(FieldTexts(fields[1..], newlines), ',') + "}" + rest;
      assert texts[1..] == FieldTexts(fields[1..], newlines);
      assert text == texts[0] + ("," + more) && ("," + more)[1..] == more;
      ReadFieldText(fields[0].0, fields[0].1, newlines, "," + more);
      ReadFieldsJoined(fields[1..], newlines, rest);
      assert fields == [fields[0]] + fields[1..];
    }
  }

  function ObjectText(fields: seq<(string, string)>, newlines: bool): string {
    "{" + Join(FieldTexts(fields, newlines), ',') + "}"
  }

  lemma ObjectReads(fields: seq<(string, string)>, newlines: bool)
    requires |fields| > 0 && forall i :: 0 <= i < |fields| ==> Plain(fields[i].0)
    ensures ReadsAs(ObjectText(fields, newlines), if AllReadable(fields, newlines) then Some(Obj(fields)) else None)
  {
    var text := ObjectText(fields, newlines);
    forall rest
      ensures ReadValue(text + rest) == if AllReadable(fields, newlines) then Some((Obj(fields), rest)) else None
    {
      ReadFieldsJoined(fields, newlines, rest);
      assert (text + rest)[1..] == Join(FieldTexts(fields, newlines), ',') + "}" + rest;
      assert (text + rest)[1] == '\"';
    }
  }

  ghost function ObjectValues(objects: seq<seq<(string, string)>>, newlines: bool): seq<Option<Value>> {
    seq(|objects|, i requires 0 <= i < |objects| =>
      if AllReadable(objects[i], newlines) then Some(Obj(objects[i])) else None)
  }

  /** The array of the objects if all their fields are readable, otherwise an error. */
  ghost function ReadObjectsAs(objects: seq<seq<(string, string)>>, newlines: bool): Option<Value> {
    if forall i :: 0 <= i < |objects| ==> AllReadable(objects[i], newlines)
    then Some(Arr(seq(|objects|, i requires 0 <= i < |objects| => Obj(objects[i]))))
    else None
  }

  lemma ReadObjects(texts: seq<string>, objects: seq<seq<(string, string)>>, newlines: bool)
    requires |texts| == |objects|
    requires forall i :: 0 <= i < |objects| ==> texts[i] == ObjectText(objects[i], newlines)
    requires forall i :: 0 <= i < |objects| ==> |objects[i]| > 0
    requires forall i, j :: 0 <= i < |objects| && 0 <= j < |objects[i]| ==> Plain(objects[i][j].0)
    ensures Read("[" + Join(texts, ',') + "]") == ReadObjectsAs(objects, newlines)
  {
    hide Join, FieldTexts, Read, AllReadable, ReadsAs;
    forall i | 0 <= i < |objects|
      ensures ReadsAs(texts[i], ObjectValues(objects, newlines)[i])
    {
      ObjectReads(objects[i], newlines);
    }
    var values := ObjectValues(objects, newlines);
    ReadArray(texts, values);
    CollectAll(values);
    assert forall i :: 0 <= i < |objects| ==> (values[i].Some? <==> AllReadable(objects[i], newlines));
    if Collect(values).Some? {
      assert Collect(values).value == seq(|objects|, i requires 0 <= i < |objects| => Obj(objects[i]));
    }
  }

  function TaskFields(task: (string, string, string)): seq<(string, string)> {
    [("name", task.0), ("prompt", task.1), ("reference_sql", task.2)]
  }

  function ColumnFields(col: (string, string, string)): seq<(string, string)> {
    [("name", col.0), ("type", col.1), ("description", col.2)]
  }

  function ExampleFields(example: (string, string)): seq<(string, string)> {
    [("description", example.0), ("sql", example.1)]
  }

  lemma JoinThree(a: string, b: string, c: string)
    ensures Join([a, b, c], ',') == a + "," + (b + "," + c)
  {
    assert [a, b, c][1..] == [b, c] && [b, c][1..] == [c];
    assert Join([c], ',') == c;
    assert Join([b, c], ',') == b + "," + c;
  }

  /** A field name written into the text around it. */
  lemma Inline(before: string, a: string, name: string, c: string, whole: string)
    requires a + name + c == whole
    ensures before + a + name + c == before + whole
  {
  }

  lemma TaskTextIsObject(task: (string, string, string))
    ensures TaskText(task) == ObjectText(TaskFields(task), true)
  {
    hide Esc, ObjectText;
    var x, y, z := Esc(task.0, true), Esc(task.1, true), Esc(task.2, true);
    ThreeFields(TaskFields(task), true);
    assert "{\"" + "name" + "\":\"" == "{\"name\":\"";
    Inline("{\"name\":\"" + x, "\",\"", "prompt", "\":\"", "\",\"prompt\":\"");
    Inline("{\"name\":\"" + x + "\",\"prompt\":\"" + y, "\",\"", "reference_sql", "\":\"", "\",\"reference_sql\":\"");
  }

  lemma ColumnTextIsObject(col: (string, string, string))
    ensures ColumnText(col) == ObjectText(ColumnFields(col), false)
  {
    hide Esc, ObjectText;
    var x, y, z := Esc(col.0, false), Esc(col.1, false), Esc(col.2, false);
    ThreeFields(ColumnFields(col), false);
    assert "{\"" + "name" + "\":\"" == "{\"name\":\"";
    Inline("{\"name\":\"" + x, "\",\"", "type", "\":\"", "\",\"type\":\"");
    Inline("{\"name\":\"" + x + "\",\"type\":\"" + y, "\",\"", "description", "\":\"", "\",\"description\":\"");
  }

  lemma TwoFields(fields: seq<(string, string)>, newlines: bool)
    requires |fields| == 2
    ensures ObjectText(fields, newlines) ==
            "{\"" + fields[0].0 + "\":\"" + Esc(fields[0].1, newlines) + "\",\"" + fields[1].0 + "\":\""
            + Esc(fields[1].1, newlines) + "\"}"
  {
    hide Esc;
    var t := FieldTexts(fields, newlines);
    assert t == [t[0], t[1]] && t[1..] == [t[1]];
    assert Join([t[1]], ',') == t[1];
  }

  lemma ExampleTextIsObject(example: (string, string))
    ensures ExampleText(example) == ObjectText(ExampleFields(example), false)
  {
    hide Esc, ObjectText;
    var x := Esc(example.0, false);
    TwoFields(ExampleFields(example), false);
    assert "{\"" + "description" + "\":\"" == "{\"description\":\"";
    Inline("{\"description\":\"" + x, "\",\"", "sql", "\":\"", "\",\"sql\":\"");
  }

  /** The agent tasks read back as objects of their three original fields, newlines included, if no
      field holds any other control character; otherwise the text is not JSON. */
  lemma AgentTestTasksRead(tasks: seq<(string, string, string)>)
    ensures var objects := seq(|tasks|, i requires 0 <= i < |tasks| => TaskFields(tasks[i]));
            Read(AgentTestTasksJson(tasks)) == ReadObjectsAs(objects, true)
  {
    hide ObjectText, TaskText, Join, Read, ReadObjectsAs;
    var objects := seq(|tasks|, i requires 0 <= i < |tasks| => TaskFields(tasks[i]));
    var texts := seq(|tasks|, i requires 0 <= i < |tasks| => TaskText(tasks[i]));
    forall i | 0 <= i < |tasks|
      ensures texts[i] == ObjectText(objects[i], true)
    {
      TaskTextIsObject(tasks[i]);
    }
    ReadObjects(texts, objects, true);
  }

  lemma ThreeFields(fields: seq<(string, string)>, newlines: bool)
    requires |fields| == 3
    ensures ObjectText(fields, newlines) ==
            "{\"" + fields[0].0 + "\":\"" + Esc(fields[0].1, newlines) + "\",\"" + fields[1].0 + "\":\""
            + Esc(fields[1].1, newlines) + "\",\"" + fields[2].0 + "\":\"" + Esc(fields[2].1, newlines) + "\"}"
  {
    hide Esc;
    var t := FieldTexts(fields, newlines);
    assert t == [t[0], t[1], t[2]];
    JoinThree(t[0], t[1], t[2]);
  }

  lemma ResultColumnsSchemaRead(cols: seq<(string, string, string)>)
    ensures var objects := seq(|cols|, i requires 0 <= i < |cols| => ColumnFields(cols[i]));
            Read(ResultColumnsSchemaJson(cols)) == ReadObjectsAs(objects, false)
  {
    hide ObjectText, ColumnText, Join, Read, ReadObjectsAs;
    var objects := seq(|cols|, i requires 0 <= i < |cols| => ColumnFields(cols[i]));
    var texts := seq(|cols|, i requires 0 <= i < |cols| => ColumnText(cols[i]));
    forall i | 0 <= i < |cols|
      ensures texts[i] == ObjectText(objects[i], false)
    {
      ColumnTextIsObject(cols[i]);
    }
    ReadObjects(texts, objects, false);
  }

  lemma ExampleQueriesRead(examples: seq<(string, string)>)
    ensures var objects := seq(|examples|, i requires 0 <= i < |examples| => ExampleFields(examples[i]));
            Read(ExampleQueriesJson(examples)) == ReadObjectsAs(objects, false)
  {
    hide ObjectText, ExampleText, Join, Read, ReadObjectsAs;
    var objects := seq(|examples|, i requires 0 <= i < |examples| => ExampleFields(examples[i]));
    var texts := seq(|examples|, i requires 0 <= i < |examples| => ExampleText(examples[i]));
    forall i | 0 <= i < |examples|
      ensures texts[i] == ObjectText(objects[i], false)
    {
      ExampleTextIsObject(examples[i]);
    }
    ReadObjects(texts, objects, false);
  }
}
