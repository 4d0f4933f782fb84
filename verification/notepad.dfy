/** How the notepad tracker turns the `filename` field of a `/load` or
    `/save` request into the text file it reads or writes. */
module NotepadNames {
  import opened Results
  import opened PyText
  import opened PosixPath

  const DefaultNoteName: string := "note"
  const NoteExtension: string := ".txt"

  // ---------------------------------------------------------------------------
  // `sanitize_filename`

  predicate IsSeparator(c: char) {
    c == '/' || c == '\\'
  }

  predicate SeparatorFree(s: string) {
    forall i :: 0 <= i < |s| ==> !IsSeparator(s[i])
  }

  /** The two chained `str.replace` calls: every `/` and every backslash
      becomes `_`, and nothing else changes. */
  function ReplaceSeparators(s: string): (r: string)
    ensures |r| == |s|
    ensures SeparatorFree(r)
    ensures forall i :: 0 <= i < |s| ==> r[i] == (if IsSeparator(s[i]) then '_' else s[i])
  {
    if s == [] then []
    else (if IsSeparator(s[0]) then "_" else [s[0]]) + ReplaceSeparators(s[1..])
  }

  /** `_` is not whitespace, so replacing separators keeps a trimmed text
      trimmed. */
  lemma ReplaceKeepsEdges(s: string)
    requires NoEdgeSpace(s)
    ensures NoEdgeSpace(ReplaceSeparators(s))
  {
    var r := ReplaceSeparators(s);
    if |s| > 0 {
      assert r[0] == '_' || r[0] == s[0];
      assert r[|r| - 1] == '_' || r[|r| - 1] == s[|s| - 1];
    }
  }

  /** `sanitize_filename`: strip the name, then replace the separators. The
      result has no separator and no edge whitespace, is as long as the
      stripped name, and is empty exactly when the name is blank. */
  function Sanitize(name: string): (r: string)
    ensures SeparatorFree(r)
    ensures NoEdgeSpace(r)
    ensures |r| == |Strip(name)|
    ensures forall i :: 0 <= i < |r| ==> r[i] == (if IsSeparator(Strip(name)[i]) then '_' else Strip(name)[i])
    ensures r == [] <==> AllSpace(name)
  {
    StripEmptyIffAllSpace(name);
    var t := Strip(name);
    ReplaceKeepsEdges(t);
    ReplaceSeparators(t)
  }

  /** `sanitize_filename` including its `name or ''` guard: `None` and the
      empty string both give the empty name. */
  function SanitizeFilename(name: Option<string>): (r: string)
    ensures name.None? ==> r == []
    ensures name.Some? ==> r == Sanitize(name.value)
    ensures r == [] <==> name.None? || AllSpace(name.value)
  {
    Sanitize(if name.Some? then name.value else [])
  }

  lemma ReplaceSeparatorsFixesFree(s: string)
    requires SeparatorFree(s)
    ensures ReplaceSeparators(s) == s
  {
    var r := ReplaceSeparators(s);
    assert forall i :: 0 <= i < |s| ==> r[i] == s[i];
  }

  /** A name that is already stripped and separator-free is left alone. */
  lemma SanitizeFixesSafeName(name: string)
    requires NoEdgeSpace(name) && SeparatorFree(name)
    ensures Sanitize(name) == name
  {
    StripFixesTrimmed(name);
    ReplaceSeparatorsFixesFree(name);
  }

  /** Sanitising twice is the same as sanitising once. */
  lemma SanitizeIdempotent(name: string)
    ensures Sanitize(Sanitize(name)) == Sanitize(name)
  {
    SanitizeFixesSafeName(Sanitize(name));
  }

  /** A separator between two ordinary characters turns into `_`, so the
      name collides with the one that has `_` there already. */
  lemma SeparatorBetween(x: char, sep: char, y: char)
    requires IsSeparator(sep)
    requires !IsSeparator(x) && !IsSpace(x) && !IsSeparator(y) && !IsSpace(y)
    ensures Sanitize([x, sep, y]) == Sanitize([x, '_', y]) == [x, '_', y]
  {
    var slashed := [x, sep, y];
    var plain := [x, '_', y];
    assert NoEdgeSpace(slashed);
    StripFixesTrimmed(slashed);
    var r := Sanitize(slashed);
    assert |r| == 3;
    assert r[0] == x && r[1] == '_' && r[2] == y;
    assert r == plain;
    assert SeparatorFree(plain) && NoEdgeSpace(plain);
    SanitizeFixesSafeName(plain);
  }

  /** Replacing separators is not injective: a name with a slash and the same
      name with an underscore in its place share one file. */
  lemma SeparatorAndUnderscoreCollide()
    ensures Sanitize("a/b") == Sanitize("a_b") == "a_b"
  {
    SeparatorBetween('a', '/', 'b');
  }

  // ---------------------------------------------------------------------------
  // The request body

  /** A parsed JSON value, as Python sees it after `request.json`. Numbers
      are integers only; what matters here is whether they are zero. */
  datatype JsonValue =
    | Null
    | Bool(b: bool)
    | Number(n: int)
    | Str(s: string)
    | Array(items: seq<JsonValue>)
    | Object(fields: map<string, JsonValue>)

  /** Python truthiness of the decoded value. */
  predicate Truthy(v: JsonValue) {
    match v
    case Null => false
    case Bool(b) => b
    case Number(n) => n != 0
    case Str(s) => s != []
    case Array(items) => items != []
    case Object(fields) => |fields| > 0
  }

  /** The exception a request handler raises before it reaches its file:
      `.get` on a body that is not an object, `.strip` on a filename that is
      not a string, or the write of content that is not a string. */
  datatype RequestError = AttributeError(attribute: string) | WriteFailed

  /** `request.json or {}`: a falsy body becomes the empty object; any other
      body that is not an object has no `.get`. */
  function RequestData(body: JsonValue): (r: Result<map<string, JsonValue>, RequestError>)
    ensures r.Failure? <==> Truthy(body) && !body.Object?
    ensures r.Failure? ==> r.error == AttributeError("get")
    ensures r.Success? ==> forall k :: k in r.value <==> body.Object? && k in body.fields
    ensures r.Success? ==> forall k :: k in r.value ==> r.value[k] == body.fields[k]
  {
    if !Truthy(body) then
      if body.Object? then Success(body.fields) else Success(map[])
    else if body.Object? then Success(body.fields)
    else Failure(AttributeError("get"))
  }

  /** `data.get(key)`, with a missing key read as `None`. */
  function Field(data: map<string, JsonValue>, key: string): JsonValue {
    if key in data then data[key] else Null
  }

  /** `(data.get('filename') or '').strip()`: the stripped filename, or the
      empty string for a missing or falsy field; a truthy field that is not a
      string has no `.strip`. */
  function RequestedName(data: map<string, JsonValue>): (r: Result<string, RequestError>)
    ensures r.Failure? <==> Truthy(Field(data, "filename")) && !Field(data, "filename").Str?
    ensures r.Failure? ==> r.error == AttributeError("strip")
    ensures r.Success? ==> NoEdgeSpace(r.value)
    ensures r.Success? && Field(data, "filename").Str? ==> r.value == Strip(Field(data, "filename").s)
    ensures r.Success? && !Field(data, "filename").Str? ==> r.value == []
  {
    var v := Field(data, "filename");
    if !Truthy(v) then
      if v.Str? then Success(Strip(v.s)) else Success([])
    else if v.Str? then Success(Strip(v.s))
    else Failure(AttributeError("strip"))
  }

  /** A request whose filename field, once stripped, leaves a real name. */
  predicate NamesFile(body: JsonValue) {
    && body.Object?
    && "filename" in body.fields
    && body.fields["filename"].Str?
    && !AllSpace(body.fields["filename"].s)
  }

  /** A request that falls back to `note`: no usable filename, but nothing
      that raises either. */
  predicate FallsBackToNote(body: JsonValue) {
    || !Truthy(body)
    || (body.Object? && !Truthy(Field(body.fields, "filename")))
    || (body.Object? && Field(body.fields, "filename").Str? && AllSpace(Field(body.fields, "filename").s))
  }

  /** The exception a request raises before it reaches its file, if any. */
  function NameError(body: JsonValue): RequestError {
    if Truthy(body) && !body.Object? then AttributeError("get") else AttributeError("strip")
  }

  /** The stripped filename, or `note` when that is empty. */
  function ChosenName(body: JsonValue): (r: Result<string, RequestError>)
    ensures r.Failure? <==> !NamesFile(body) && !FallsBackToNote(body)
    ensures r.Failure? ==> r.error == NameError(body)
    ensures r.Success? ==> r.value != [] && NoEdgeSpace(r.value)
    ensures NamesFile(body) ==> r == Success(Strip(body.fields["filename"].s))
    ensures FallsBackToNote(body) ==> r == Success(DefaultNoteName)
  {
    match RequestData(body)
    case Failure(e) => Failure(e)
    case Success(data) =>
      match RequestedName(data)
      case Failure(e) => Failure(e)
      case Success(filename) =>
        if filename == [] then Success(DefaultNoteName)
        else
          StripEmptyIffAllSpace(body.fields["filename"].s);
          Success(filename)
  }

  lemma SanitizeStripped(name: string)
    ensures Sanitize(Strip(name)) == Sanitize(name)
  {
    StripFixesTrimmed(Strip(name));
  }

  lemma NonBlankNotAllSpace(s: string)
    requires s != [] && NoEdgeSpace(s)
    ensures !AllSpace(s)
  {
    assert !IsSpace(s[0]);
  }

  lemma DefaultNoteIsSafe()
    ensures Sanitize(DefaultNoteName) == DefaultNoteName
  {
    assert NoEdgeSpace(DefaultNoteName) && SeparatorFree(DefaultNoteName);
    SanitizeFixesSafeName(DefaultNoteName);
  }

  /** The name before `.txt`: the sanitised filename, or `note` when the
      stripped filename is empty. */
  function NoteStem(body: JsonValue): (r: Result<string, RequestError>)
    ensures r.Success? ==> r.value != [] && NoEdgeSpace(r.value) && SeparatorFree(r.value)
    ensures r.Failure? <==> !NamesFile(body) && !FallsBackToNote(body)
    ensures r.Failure? ==> r.error == NameError(body)
    ensures NamesFile(body) ==> r == Success(Sanitize(body.fields["filename"].s))
    ensures FallsBackToNote(body) ==> r == Success(DefaultNoteName)
  {
    match ChosenName(body)
    case Failure(e) => Failure(e)
    case Success(chosen) =>
      NonBlankNotAllSpace(chosen);
      DefaultNoteIsSafe();
      var v := if body.Object? then Field(body.fields, "filename") else Null;
      SanitizeStripped(if v.Str? then v.s else []);
      Success(Sanitize(chosen))
  }

  /** A non-empty separator-free stem with `.txt` appended is one path
      component, and the stem can be read back from it. */
  lemma StemWithExtension(stem: string)
    requires stem != [] && SeparatorFree(stem)
    ensures IsSingleComponent(stem + NoteExtension)
    ensures (stem + NoteExtension)[..|stem|] == stem
  {
    var r := stem + NoteExtension;
    forall i | 0 <= i < |r|
      ensures r[i] != '/'
    {
      if i < |stem| {
        assert r[i] == stem[i];
      }
    }
  }

  /** The file name both endpoints use: the stem with `.txt` appended. */
  function NoteFileName(body: JsonValue): (r: Result<string, RequestError>)
    ensures r.Success? ==> IsSingleComponent(r.value)
    ensures r.Success? ==> EndsWith(r.value, NoteExtension) && |r.value| > |NoteExtension|
    ensures r.Success? <==> NoteStem(body).Success?
    ensures r.Success? ==> r.value[..|r.value| - |NoteExtension|] == NoteStem(body).value
    ensures r.Failure? ==> r.error == NoteStem(body).error
  {
    match NoteStem(body)
    case Failure(e) => Failure(e)
    case Success(stem) =>
      StemWithExtension(stem);
      Success(stem + NoteExtension)
  }

  /** `DEFAULT_NOTES_DIR / (safe + '.txt')` in `/load` and `/save`. */
  function NotePath(notesDir: string, body: JsonValue): (r: Result<string, RequestError>)
    ensures r.Success? <==> NoteFileName(body).Success?
    ensures r.Success? ==> Name(r.value) == NoteFileName(body).value
    ensures r.Success? ==> Components(r.value) == Components(notesDir) + [NoteFileName(body).value]
  {
    match NoteFileName(body)
    case Failure(e) => Failure(e)
    case Success(name) =>
      SingleComponentJoin(notesDir, name);
      Success(Join(notesDir, name))
  }

  /** What `/save` writes: the note's path and `data.get('content', '')`,
      which must be a string for the write to succeed. */
  function SaveRequest(notesDir: string, body: JsonValue): (r: Result<(string, string), RequestError>)
    ensures NotePath(notesDir, body).Failure? ==> r == Failure(NotePath(notesDir, body).error)
    ensures r.Success? ==> r.value.0 == NotePath(notesDir, body).value
    ensures NotePath(notesDir, body).Success? ==>
      (r.Success? <==> (body.Object? && "content" in body.fields ==> body.fields["content"].Str?))
    ensures r.Success? && body.Object? && "content" in body.fields ==> r.value.1 == body.fields["content"].s
    ensures r.Success? && !(body.Object? && "content" in body.fields) ==> r.value.1 == []
    ensures r.Failure? && NotePath(notesDir, body).Success? ==> r.error == WriteFailed
  {
    match NotePath(notesDir, body)
    case Failure(e) => Failure(e)
    case Success(path) =>
      var data := RequestData(body).value;
      var content := if "content" in data then data["content"] else Str([]);
      if content.Str? then Success((path, content.s)) else Failure(WriteFailed)
  }

  // ---------------------------------------------------------------------------
  // Properties of the two endpoints

  /** A filename that is already safe names exactly its own `.txt` file:
      what the user typed is what appears on disk. */
  lemma SafeNameRoundTrip(notesDir: string, name: string)
    requires name != [] && NoEdgeSpace(name) && SeparatorFree(name)
    ensures NotePath(notesDir, Object(map["filename" := Str(name)])).Success?
    ensures Name(NotePath(notesDir, Object(map["filename" := Str(name)])).value) == name + NoteExtension
  {
    var body := Object(map["filename" := Str(name)]);
    assert !AllSpace(name) by {
      assert !IsSpace(name[0]);
    }
    assert NamesFile(body);
    SanitizeFixesSafeName(name);
  }
}
