/**
 * The line-based OBJ loader: `loadOBJ(path, out_vertices, out_faces)`.
 *
 * Each line is put into an `std::istringstream` and its first word read
 * into `lineHeader`. A `v` line appends a vertex. An `f` line appends a
 * face with one index triple per further word, each word being split on
 * `'/'` and each field converted with `std::stoi(...) - 1`. `lineHeader`
 * and `vertex` live across iterations, and a failed extraction leaves them
 * as they were, so a line without words runs the previous header's branch
 * again.
 */
module ObjLineLoader {
  import opened Parsing

  /** One `std::array<int, 3>` of a face: the three `'/'`-separated fields, each minus one. */
  datatype IndexTriple = IndexTriple(v: int, vt: int, vn: int)

  /** The `Face` struct. */
  datatype Face = Face(vertexIndices: seq<IndexTriple>)

  // ---------------------------------------------------------------------
  // Splitting one face word on '/'
  // ---------------------------------------------------------------------

  /**
   * The `tokenstream` a face word is read from: the characters not yet
   * extracted, and whether the stream is still good (neither end-of-file
   * nor failure has been recorded).
   */
  datatype SlashStream = SlashStream(rest: string, good: bool)

  /**
   * `std::getline(tokenstream, token, '/')`. On a stream that is no longer
   * good nothing happens and `token` keeps its value. Otherwise `token`
   * becomes the characters up to the next `'/'`, which is extracted too;
   * with no `'/'` left it becomes the whole rest and the stream hits its end.
   */
  function GetField(ts: SlashStream, token: string): (r: (SlashStream, string))
    ensures !ts.good ==> r == (ts, token)
    ensures ts.good ==> r.1 + (if r.0.good then "/" else "") + r.0.rest == ts.rest
    ensures ts.good ==> NoSlash(r.1)
    ensures ts.good && !r.0.good ==> r.1 == ts.rest
  {
    if !ts.good then (ts, token)
    else
      var n := SlashPos(ts.rest);
      if n < |ts.rest| then
        assert ts.rest == ts.rest[..n] + "/" + ts.rest[n + 1..];
        (SlashStream(ts.rest[n + 1..], true), ts.rest[..n])
      else
        assert ts.rest[..n] == ts.rest;
        (SlashStream([], false), ts.rest)
  }

  /**
   * Where the `for` loop over one face word stands: the stream, the value
   * of `token`, and every value `token` has taken so far.
   */
  datatype Reading = Reading(stream: SlashStream, token: string, taken: seq<string>)

  /** The reading after the first `k` turns of the `for` loop over face word `w`. */
  function ReadFields(w: string, k: nat): (r: Reading)
    ensures |r.taken| == k
    ensures k > 0 ==> r.token == r.taken[k - 1]
    ensures k > 0 ==> r.taken[0] <= w && (|r.taken[0]| == |w| || w[|r.taken[0]|] == '/')
    ensures forall j :: 0 <= j < k ==> NoSlash(r.taken[j])
  {
    if k == 0 then Reading(SlashStream(w, true), "", [])
    else
      var prev := ReadFields(w, k - 1);
      var next := GetField(prev.stream, prev.token);
      assert k == 1 ==> prev.stream == SlashStream(w, true) && next.1 <= w && (|next.1| == |w| || w[|next.1|] == '/');
      Reading(next.0, next.1, prev.taken + [next.1])
  }

  /**
   * The three values `token` takes while a face word is read: none holds a
   * `'/'`, and the first is the text before the word's first `'/'`.
   */
  function Fields(w: string): (fs: seq<string>)
    ensures |fs| == 3
    ensures fs[0] <= w && (|fs[0]| == |w| || w[|fs[0]|] == '/')
    ensures NoSlash(fs[0]) && NoSlash(fs[1]) && NoSlash(fs[2])
  {
    ReadFields(w, 3).taken
  }

  /** One more turn of the `for` loop adds one value to those `token` took. */
  lemma ReadFieldsStep(w: string, m: nat)
    requires m > 0
    ensures ReadFields(w, m).taken[..m - 1] == ReadFields(w, m - 1).taken
  {
    var prev := ReadFields(w, m - 1);
    var next := GetField(prev.stream, prev.token);
    assert ReadFields(w, m).taken == prev.taken + [next.1];
  }

  /** Later turns of the `for` loop only add to the values `token` took. */
  lemma {:induction false} ReadFieldsPrefix(w: string, k: nat, m: nat)
    requires k <= m
    ensures ReadFields(w, k).taken == ReadFields(w, m).taken[..k]
    decreases m - k
  {
    if k < m {
      ReadFieldsPrefix(w, k, m - 1);
      ReadFieldsStep(w, m);
      assert ReadFields(w, m).taken[..k] == ReadFields(w, m).taken[..m - 1][..k];
    } else {
      assert ReadFields(w, m).taken[..k] == ReadFields(w, m).taken;
    }
  }

  /** `getline` on a good stream holding `a/rest` yields `a` and leaves `rest`. */
  lemma GetFieldBeforeSlash(a: string, rest: string, token: string)
    requires NoSlash(a)
    ensures GetField(SlashStream(a + "/" + rest, true), token) == (SlashStream(rest, true), a)
  {
    var w := a + "/" + rest;
    assert w == a + ("/" + rest);
    SlashPosOf(a, "/" + rest);
    assert w[|a| + 1..] == rest;
  }

  /** `getline` on a good stream holding no `'/'` yields all of it and exhausts the stream. */
  lemma GetFieldLast(a: string, token: string)
    requires NoSlash(a)
    ensures GetField(SlashStream(a, true), token) == (SlashStream([], false), a)
  {
    SlashPosOf(a, "");
    assert a + "" == a;
  }

  /** Three fields separated by two slashes are read as they are. */
  lemma FieldsOfThree(a: string, b: string, c: string)
    requires NoSlash(a) && NoSlash(b) && NoSlash(c)
    ensures Fields(a + "/" + b + "/" + c) == [a, b, c]
  {
    var w := a + "/" + b + "/" + c;
    assert w == a + "/" + (b + "/" + c);
    GetFieldBeforeSlash(a, b + "/" + c, "");
    assert ReadFields(w, 1).stream == SlashStream(b + "/" + c, true);
    assert ReadFields(w, 1).taken == [a];
    GetFieldBeforeSlash(b, c, a);
    assert ReadFields(w, 2).stream == SlashStream(c, true);
    assert ReadFields(w, 2).taken == [a, b];
    GetFieldLast(c, b);
    assert ReadFields(w, 3).taken == [a, b, c];
  }

  /** Two fields: the third `getline` finds the stream exhausted and leaves the second in place. */
  lemma FieldsOfTwo(a: string, b: string)
    requires NoSlash(a) && NoSlash(b)
    ensures Fields(a + "/" + b) == [a, b, b]
  {
    var w := a + "/" + b;
    GetFieldBeforeSlash(a, b, "");
    assert ReadFields(w, 1).stream == SlashStream(b, true);
    assert ReadFields(w, 1).taken == [a];
    GetFieldLast(b, a);
    assert ReadFields(w, 2).stream == SlashStream([], false);
    assert ReadFields(w, 2).taken == [a, b];
    assert ReadFields(w, 3).taken == [a, b, b];
  }

  /** A word without `'/'` is the value of all three fields. */
  lemma FieldsOfOne(a: string)
    requires NoSlash(a)
    ensures Fields(a) == [a, a, a]
  {
    GetFieldLast(a, "");
    assert ReadFields(a, 1).stream == SlashStream([], false);
    assert ReadFields(a, 1).taken == [a];
    assert ReadFields(a, 2).stream == SlashStream([], false);
    assert ReadFields(a, 2).taken == [a, a];
    assert ReadFields(a, 3).taken == [a, a, a];
  }

  /**
   * The index triple of one face word: each field through `std::stoi`
   * minus one, fields converted in order, the first conversion that throws
   * ending the load.
   */
  function TripleOf(w: string): (r: Result<IndexTriple>)
    ensures r.Ok? ==> InIntRange(r.value.v + 1) && InIntRange(r.value.vt + 1) && InIntRange(r.value.vn + 1)
    ensures r.Ok? && NoSlash(w) ==> r.value.v == r.value.vt == r.value.vn
  {
    var fs := Fields(w);
    ConvertAllOk(fs, ZeroBasedIndex);
    assert NoSlash(w) ==> fs == [w, w, w] by {
      if NoSlash(w) {
        FieldsOfOne(w);
      }
    }
    match ConvertAll(fs, ZeroBasedIndex)
    case Err(e) => Err(e)
    case Ok(ns) => Ok(IndexTriple(ns[0], ns[1], ns[2]))
  }

  /** The text of an `f` word naming 1-based indices, as an OBJ writer produces it. */
  function TripleText(t: IndexTriple): string {
    IntToString(t.v + 1) + "/" + IntToString(t.vt + 1) + "/" + IntToString(t.vn + 1)
  }

  predicate InIntRange(n: int) {
    INT_MIN <= n <= INT_MAX
  }

  lemma NumeralHasNoSlash(n: int)
    ensures NoSlash(IntToString(n))
  {
    var s := IntToString(n);
    var d := NatToString(if n < 0 then -n else n);
    assert AllDigits(d);
    assert n < 0 ==> s == "-" + d && forall i :: 1 <= i < |s| ==> s[i] == d[i - 1];
  }

  /** Reading back the text of a triple of 1-based indices gives the 0-based triple. */
  lemma TripleOfTripleText(t: IndexTriple)
    requires InIntRange(t.v + 1) && InIntRange(t.vt + 1) && InIntRange(t.vn + 1)
    ensures TripleOf(TripleText(t)) == Ok(t)
  {
    var a, b, c := IntToString(t.v + 1), IntToString(t.vt + 1), IntToString(t.vn + 1);
    NumeralHasNoSlash(t.v + 1);
    NumeralHasNoSlash(t.vt + 1);
    NumeralHasNoSlash(t.vn + 1);
    FieldsOfThree(a, b, c);
    assert Fields(TripleText(t)) == [a, b, c];
    ZeroBasedIndexOfNumeral(t.v + 1);
    ZeroBasedIndexOfNumeral(t.vt + 1);
    ZeroBasedIndexOfNumeral(t.vn + 1);
    ConvertAllOk([a, b, c], ZeroBasedIndex);
  }

  /**
   * A word that is a single numeral fills all three positions with it:
   * `f 1 2 3` yields the triples (0,0,0), (1,1,1) and (2,2,2).
   */
  lemma TripleOfPlainIndex(n: int)
    requires InIntRange(n)
    ensures TripleOf(IntToString(n)) == Ok(IndexTriple(n - 1, n - 1, n - 1))
  {
    NumeralHasNoSlash(n);
    FieldsOfOne(IntToString(n));
    ZeroBasedIndexOfNumeral(n);
    ConvertAllOk([IntToString(n), IntToString(n), IntToString(n)], ZeroBasedIndex);
  }

  /** A word with an empty middle field, as in `1//3`, makes `std::stoi` throw. */
  lemma TripleOfEmptyMiddle(a: string, c: string)
    requires NoSlash(a) && NoSlash(c)
    requires Stoi(a).Ok?
    ensures TripleOf(a + "//" + c) == Err(InvalidArgument)
  {
    assert a + "//" + c == a + "/" + "" + "/" + c;
    FieldsOfThree(a, "", c);
    ConvertAllFirstError([a, "", c], ZeroBasedIndex, 1);
  }

  /**
   * The inner `for` loop over one face word: three `getline` calls on `'/'`,
   * each followed by `std::stoi(token) - 1`.
   */
  method ParseTriple(w: string) returns (r: Result<IndexTriple>)
    ensures r == TripleOf(w)
  {
    var tokenstream := SlashStream(w, true);
    var token := "";
    var vertexIndices: seq<int> := [];
    ghost var fs := Fields(w);
    for i := 0 to 3
      invariant ReadFields(w, i) == Reading(tokenstream, token, fs[..i])
      invariant ConvertAll(fs[..i], ZeroBasedIndex) == Ok(vertexIndices)
    {
      var next := GetField(tokenstream, token);
      tokenstream, token := next.0, next.1;
      assert ReadFields(w, i + 1) == Reading(tokenstream, token, fs[..i] + [token]);
      ReadFieldsPrefix(w, i + 1, 3);
      assert fs[..i + 1] == fs[..i] + [token];
      var n := ZeroBasedIndex(token);
      if n.Err? {
        ConvertAllErrExtends(fs, ZeroBasedIndex, i + 1);
        return Err(n.error);
      }
      vertexIndices := vertexIndices + [n.value];
    }
    assert fs[..3] == fs;
    ConvertAllOk(fs, ZeroBasedIndex);
    r := Ok(IndexTriple(vertexIndices[0], vertexIndices[1], vertexIndices[2]));
  }

  // ---------------------------------------------------------------------
  // One face line
  // ---------------------------------------------------------------------

  /** The `while (iss >> lineHeader)` loop of an `f` line, filling the scratch face. */
  method ParseFace(words: seq<string>) returns (r: Result<seq<IndexTriple>>)
    ensures r == ConvertAll(words, TripleOf)
  {
    var face: seq<IndexTriple> := [];
    var k := 0;
    while k < |words|
      invariant 0 <= k <= |words|
      invariant ConvertAll(words[..k], TripleOf) == Ok(face)
    {
      var t := ParseTriple(words[k]);
      assert words[..k + 1][..k] == words[..k];
      if t.Err? {
        ConvertAllErrExtends(words, TripleOf, k + 1);
        return Err(t.error);
      }
      face := face + [t.value];
      k := k + 1;
    }
    assert words[..k] == words;
    r := Ok(face);
  }

  // ---------------------------------------------------------------------
  // The line loop
  // ---------------------------------------------------------------------

  /** The variables the line loop carries from one line to the next, and the two outputs. */
  datatype LineState = LineState(header: string, vertex: Vec3, vertices: seq<Vec3>, faces: seq<Face>)

  /** `lineHeader` starts empty and `vertex` uninitialised. */
  function Start(vertices: seq<Vec3>, faces: seq<Face>): LineState {
    LineState("", Vec3(Indeterminate, Indeterminate, Indeterminate), vertices, faces)
  }

  /** The words of an `f` line after its header (none if the line has no word at all). */
  function TokensAfterHeader(ws: seq<string>): seq<string> {
    if |ws| > 0 then ws[1..] else []
  }

  /**
   * One turn of the line loop, or the exception it throws. Only a line
   * taken as an `f` line can throw, and a turn appends at most one vertex
   * or one face to the outputs and changes nothing already in them.
   */
  function StepLine(st: LineState, line: string): (r: Result<LineState>)
    ensures r.Err? ==> (if |Words(line)| > 0 then Words(line)[0] else st.header) == "f"
    ensures r.Ok? ==> st.vertices <= r.value.vertices && st.faces <= r.value.faces
    ensures r.Ok? ==> |r.value.vertices| + |r.value.faces| <= |st.vertices| + |st.faces| + 1
  {
    var ws := Words(line);
    var header := if |ws| > 0 then ws[0] else st.header;
    if header == "v" then
      var v := Vec3(ReadFloat(ws, 1, st.vertex.x), ReadFloat(ws, 2, st.vertex.y), ReadFloat(ws, 3, st.vertex.z));
      Ok(st.(header := header, vertex := v, vertices := st.vertices + [v]))
    else if header == "f" then
      var tokens := TokensAfterHeader(ws);
      match ConvertAll(tokens, TripleOf)
      case Err(e) => Err(e)
      case Ok(triples) =>
        var last := if |tokens| > 0 then tokens[|tokens| - 1] else header;
        Ok(st.(header := last, faces := st.faces + [Face(triples)]))
    else
      Ok(st.(header := header))
  }

  /**
   * The loop over `lines`, from state `st`. It stops only on an exception,
   * and it appends at most one vertex or face per line.
   */
  function Run(st: LineState, lines: seq<string>): (r: Outcome<LineState>)
    ensures r.Stopped? ==> r.cause.Threw?
    ensures |r.state.vertices| + |r.state.faces| <= |st.vertices| + |st.faces| + |lines|
    decreases |lines|
  {
    if lines == [] then Completed(st)
    else
      match Run(st, lines[..|lines| - 1])
      case Stopped(cause, s) => Stopped(cause, s)
      case Completed(s) =>
        match StepLine(s, lines[|lines| - 1])
        case Err(e) => Stopped(Threw(e), s)
        case Ok(s') => Completed(s')
  }

  /** Once the loop has stopped, further lines change nothing. */
  lemma {:induction false} RunStoppedExtends(st: LineState, lines: seq<string>, k: nat)
    requires k <= |lines|
    requires Run(st, lines[..k]).Stopped?
    ensures Run(st, lines) == Run(st, lines[..k])
    decreases |lines| - k
  {
    if k < |lines| {
      assert lines[..k + 1][..k] == lines[..k];
      RunStoppedExtends(st, lines, k + 1);
    } else {
      assert lines[..k] == lines;
    }
  }

  /**
   * `loadOBJ`. `file` is the file's lines, or `None` when it cannot be
   * opened; `vertices` and `faces` are what the caller's vectors held, and
   * `vertices'` and `faces'` what they hold afterwards.
   */
  method LoadObj(file: Option<seq<string>>, vertices: seq<Vec3>, faces: seq<Face>)
    returns (status: LoadStatus, vertices': seq<Vec3>, faces': seq<Face>)
    ensures file.None? ==> status == CannotOpen && vertices' == vertices && faces' == faces
    ensures file.Some? ==>
              var out := Run(Start(vertices, faces), file.value);
              vertices' == out.state.vertices && faces' == out.state.faces &&
              status == if out.Completed? then Loaded else Aborted(out.cause)
    ensures status != CannotOpen ==> file.Some?
  {
    if file.None? {
      return CannotOpen, vertices, faces;
    }
    var lines := file.value;
    var header := "";
    var vertex := Vec3(Indeterminate, Indeterminate, Indeterminate);
    vertices', faces' := vertices, faces;
    var i := 0;
    while i < |lines|
      invariant 0 <= i <= |lines|
      invariant Run(Start(vertices, faces), lines[..i]) == Completed(LineState(header, vertex, vertices', faces'))
    {
      assert lines[..i + 1][..i] == lines[..i];
      var ws := Words(lines[i]);
      if |ws| > 0 {
        header := ws[0];
      }
      if header == "v" {
        vertex := Vec3(ReadFloat(ws, 1, vertex.x), ReadFloat(ws, 2, vertex.y), ReadFloat(ws, 3, vertex.z));
        vertices' := vertices' + [vertex];
      } else if header == "f" {
        var tokens := TokensAfterHeader(ws);
        var face := ParseFace(tokens);
        if face.Err? {
          RunStoppedExtends(Start(vertices, faces), lines, i + 1);
          return Aborted(Threw(face.error)), vertices', faces';
        }
        if |tokens| > 0 {
          header := tokens[|tokens| - 1];
        }
        faces' := faces' + [Face(face.value)];
      }
      i := i + 1;
    }
    assert lines[..i] == lines;
    status := Loaded;
  }

  // ---------------------------------------------------------------------
  // Properties of the line loop
  // ---------------------------------------------------------------------

  /** A `v` line appends exactly one vertex, built from its next three words, and no face. */
  lemma VertexLine(st: LineState, line: string)
    requires |Words(line)| > 0 && Words(line)[0] == "v"
    ensures var ws := Words(line);
            StepLine(st, line) == Ok(st.(header := "v",
                                         vertex := Vec3(ReadFloat(ws, 1, st.vertex.x), ReadFloat(ws, 2, st.vertex.y), ReadFloat(ws, 3, st.vertex.z)),
                                         vertices := st.vertices + [Vec3(ReadFloat(ws, 1, st.vertex.x), ReadFloat(ws, 2, st.vertex.y), ReadFloat(ws, 3, st.vertex.z))]))
  {
  }

  /**
   * An `f` line whose words all convert appends exactly one face holding
   * one triple per word, in word order, and nothing taken from an earlier
   * line; no vertex is appended.
   */
  lemma FaceLine(st: LineState, line: string)
    requires |Words(line)| > 0 && Words(line)[0] == "f"
    requires forall k :: 1 <= k < |Words(line)| ==> TripleOf(Words(line)[k]).Ok?
    ensures var ws := Words(line);
            StepLine(st, line).Ok? &&
            var s := StepLine(st, line).value;
            s.vertices == st.vertices && s.vertex == st.vertex &&
            |s.faces| == |st.faces| + 1 && s.faces[..|st.faces|] == st.faces &&
            |s.faces[|st.faces|].vertexIndices| == |ws| - 1 &&
            forall k :: 1 <= k < |ws| ==> s.faces[|st.faces|].vertexIndices[k - 1] == TripleOf(ws[k]).value
  {
    var ws := Words(line);
    var tokens := ws[1..];
    assert forall k :: 0 <= k < |tokens| ==> tokens[k] == ws[k + 1];
    ConvertAllOk(tokens, TripleOf);
    var s := StepLine(st, line).value;
    assert s.faces == st.faces + [Face(ConvertAll(tokens, TripleOf).value)];
  }

  /** An `f` line with a word that cannot be converted throws and appends nothing. */
  lemma FaceLineThrows(st: LineState, line: string, k: nat)
    requires |Words(line)| > 0 && Words(line)[0] == "f"
    requires 1 <= k < |Words(line)| && TripleOf(Words(line)[k]).Err?
    ensures StepLine(st, line).Err?
  {
    var ws := Words(line);
    var tokens := ws[1..];
    assert tokens[k - 1] == ws[k];
    ConvertAllOk(tokens, TripleOf);
  }

  /** A line whose first word is neither `v` nor `f` only records its header. */
  lemma OtherLine(st: LineState, line: string)
    requires |Words(line)| > 0 && Words(line)[0] != "v" && Words(line)[0] != "f"
    ensures StepLine(st, line) == Ok(st.(header := Words(line)[0]))
  {
  }

  /**
   * A line without words after a `v` line appends a copy of the vertex
   * just read: the failed extraction leaves both `lineHeader` and `vertex`
   * unchanged.
   */
  lemma BlankLineRepeatsVertex(st: LineState, line: string)
    requires st.header == "v"
    requires Words(line) == []
    ensures StepLine(st, line) == Ok(st.(vertices := st.vertices + [st.vertex]))
  {
  }

  /** The loop only appends: the outputs it starts with stay a prefix of what it leaves. */
  lemma {:induction false} RunOnlyAppends(st: LineState, lines: seq<string>)
    ensures st.vertices <= Run(st, lines).state.vertices
    ensures st.faces <= Run(st, lines).state.faces
    decreases |lines|
  {
    if lines != [] {
      RunOnlyAppends(st, lines[..|lines| - 1]);
    }
  }

  /** How many of `lines` have `h` as their first word. */
  function CountHeader(lines: seq<string>, h: string): (n: nat)
    ensures n <= |lines|
  {
    if lines == [] then 0
    else CountHeader(lines[..|lines| - 1], h) + if |Words(lines[|lines| - 1])| > 0 && Words(lines[|lines| - 1])[0] == h then 1 else 0
  }

  /**
   * When every line has a first word and the load completes, one vertex
   * was appended per `v` line and one face per `f` line.
   */
  lemma {:induction false} RunCounts(st: LineState, lines: seq<string>)
    requires forall i :: 0 <= i < |lines| ==> |Words(lines[i])| > 0
    requires Run(st, lines).Completed?
    ensures |Run(st, lines).state.vertices| == |st.vertices| + CountHeader(lines, "v")
    ensures |Run(st, lines).state.faces| == |st.faces| + CountHeader(lines, "f")
    decreases |lines|
  {
    if lines != [] {
      var init := lines[..|lines| - 1];
      assert forall i :: 0 <= i < |init| ==> init[i] == lines[i];
      RunCounts(st, init);
    }
  }
}
