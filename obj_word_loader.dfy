/**
 * The word-based OBJ loader: `loadOBJ(path, out_vertices, out_normals,
 * out_faces)`.
 *
 * The file is read one whitespace-separated word at a time, regardless of
 * line breaks. A `v` or `vn` word is followed by three coordinates, an `f`
 * word by three vertex words whose index is the integer before the first
 * `'/'`, minus one. Any other word is skipped on its own.
 */
module ObjWordLoader {
  import opened Parsing

  /** A `glm::ivec3` face: three 0-based vertex indices. */
  datatype FaceIndices = FaceIndices(x: int, y: int, z: int)

  /** The three output vectors. */
  datatype Mesh = Mesh(vertices: seq<Vec3>, normals: seq<Vec3>, faces: seq<FaceIndices>)

  /** Size of `char lineHeader[128]`, which must also hold the terminating NUL. */
  const HEADER_CAPACITY := 128

  /** What `>>` into a freshly declared `std::string` leaves: word `k`, or `""` past the end. */
  function WordAt(ws: seq<string>, k: nat): (w: string)
    ensures k < |ws| ==> w == ws[k]
    ensures |ws| <= k ==> w == ""
  {
    if k < |ws| then ws[k] else ""
  }

  /** The words left after the first `n` have been consumed. */
  function Drop(ws: seq<string>, n: nat): (rest: seq<string>)
    ensures |rest| == if n < |ws| then |ws| - n else 0
  {
    if n < |ws| then ws[n..] else []
  }

  /**
   * `stoi(word.substr(0, word.find("/"))) - 1`, with `find` scanning the
   * word from position `i` for the first `'/'`: once it is found (or the
   * word ends) the text before it is converted.
   */
  function IndexOf(word: string, i: nat := 0): (r: Result<int>)
    requires i <= |word|
    ensures r.Ok? ==> INT_MIN - 1 <= r.value <= INT_MAX - 1
    decreases |word| - i
  {
    if i < |word| && word[i] != '/' then IndexOf(word, i + 1) else ZeroBasedIndex(word[..i])
  }

  /** The text before the first `'/'` is what gets converted. */
  lemma {:induction false} IndexOfPrefix(a: string, suffix: string, i: nat)
    requires NoSlash(a) && i <= |a|
    requires suffix == [] || suffix[0] == '/'
    ensures IndexOf(a + suffix, i) == ZeroBasedIndex(a)
    decreases |a| - i
  {
    var w := a + suffix;
    if i < |a| {
      assert w[i] == a[i];
      IndexOfPrefix(a, suffix, i + 1);
    } else {
      assert w[..i] == a;
    }
  }

  /** A numeral in the range of `int`, followed by nothing or by `/...`, is read as that number minus one. */
  lemma IndexOfNumeral(n: int, suffix: string)
    requires INT_MIN <= n <= INT_MAX
    requires suffix == [] || suffix[0] == '/'
    ensures IndexOf(IntToString(n) + suffix) == Ok(n - 1)
  {
    var s := IntToString(n);
    var d := NatToString(if n < 0 then -n else n);
    assert n < 0 ==> s == "-" + d && forall i :: 1 <= i < |s| ==> s[i] == d[i - 1];
    assert NoSlash(s);
    IndexOfPrefix(s, suffix, 0);
    ZeroBasedIndexOfNumeral(n);
  }

  /**
   * The face read from the three vertex words `a`, `b` and `c`, converted
   * in that order; the first conversion that throws gives the result.
   */
  function FaceOf(a: string, b: string, c: string): (r: Result<FaceIndices>)
    ensures r.Ok? <==> IndexOf(a).Ok? && IndexOf(b).Ok? && IndexOf(c).Ok?
    ensures r.Ok? ==> r.value == FaceIndices(IndexOf(a).value, IndexOf(b).value, IndexOf(c).value)
    ensures IndexOf(a).Err? ==> r == Err(IndexOf(a).error)
    ensures IndexOf(a).Ok? && IndexOf(b).Err? ==> r == Err(IndexOf(b).error)
  {
    match IndexOf(a)
    case Err(e) => Err(e)
    case Ok(x) =>
      match IndexOf(b)
      case Err(e) => Err(e)
      case Ok(y) =>
        match IndexOf(c)
        case Err(e) => Err(e)
        case Ok(z) => Ok(FaceIndices(x, y, z))
  }

  /**
   * A vector built from the three words after position `k`; a component
   * whose word lies past the end of the file is never assigned.
   */
  function VectorAt(ws: seq<string>, k: nat): (v: Vec3)
    ensures k + 3 < |ws| ==> v == Vec3(Parsed(ws[k + 1]), Parsed(ws[k + 2]), Parsed(ws[k + 3]))
    ensures v.x.Indeterminate? <==> |ws| <= k + 1
    ensures v.y.Indeterminate? <==> |ws| <= k + 2
    ensures v.z.Indeterminate? <==> |ws| <= k + 3
  {
    Vec3(ReadFloat(ws, k + 1, Indeterminate), ReadFloat(ws, k + 2, Indeterminate), ReadFloat(ws, k + 3, Indeterminate))
  }

  /**
   * The loop over the remaining words `ws`, from outputs `m`. Every record
   * it appends consumes its header and up to three words after it, so at
   * most one record is appended per four words, the last one possibly
   * short.
   */
  function Parse(ws: seq<string>, m: Mesh): (r: Outcome<Mesh>)
    ensures 4 * (|r.state.vertices| + |r.state.normals| + |r.state.faces|)
            <= 4 * (|m.vertices| + |m.normals| + |m.faces|) + |ws| + 3
    decreases |ws|
  {
    if ws == [] then Completed(m)
    else
      var header := ws[0];
      if |header| >= HEADER_CAPACITY then Stopped(HeaderOverflow, m)
      else if header == "v" then
        Parse(Drop(ws, 4), m.(vertices := m.vertices + [VectorAt(ws, 0)]))
      else if header == "vn" then
        Parse(Drop(ws, 4), m.(normals := m.normals + [VectorAt(ws, 0)]))
      else if header == "f" then
        match FaceOf(WordAt(ws, 1), WordAt(ws, 2), WordAt(ws, 3))
        case Err(e) => Stopped(Threw(e), m)
        case Ok(face) => Parse(Drop(ws, 4), m.(faces := m.faces + [face]))
      else
        Parse(ws[1..], m)
  }

  /**
   * `loadOBJ`. `file` is the file's text, or `None` when it cannot be
   * opened; the three sequences are what the caller's vectors held, the
   * primed ones what they hold afterwards.
   */
  method LoadObj(file: Option<string>, vertices: seq<Vec3>, normals: seq<Vec3>, faces: seq<FaceIndices>)
    returns (status: LoadStatus, vertices': seq<Vec3>, normals': seq<Vec3>, faces': seq<FaceIndices>)
    ensures file.None? ==> status == CannotOpen && vertices' == vertices && normals' == normals && faces' == faces
    ensures file.Some? ==>
              var out := Parse(Words(file.value), Mesh(vertices, normals, faces));
              Mesh(vertices', normals', faces') == out.state &&
              status == if out.Completed? then Loaded else Aborted(out.cause)
    ensures status != CannotOpen ==> file.Some?
  {
    if file.None? {
      return CannotOpen, vertices, normals, faces;
    }
    var ws := Words(file.value);
    vertices', normals', faces' := vertices, normals, faces;
    var i := 0;
    while i < |ws|
      invariant 0 <= i <= |ws|
      invariant Parse(ws[i..], Mesh(vertices', normals', faces')) == Parse(ws, Mesh(vertices, normals, faces))
    {
      var rest := ws[i..];
      var next := if i + 4 < |ws| then i + 4 else |ws|;
      assert Drop(rest, 4) == ws[next..];
      assert VectorAt(rest, 0) == VectorAt(ws, i);
      var lineHeader := ws[i];
      if |lineHeader| >= HEADER_CAPACITY {
        return Aborted(HeaderOverflow), vertices', normals', faces';
      }
      if lineHeader == "v" {
        var vertex := VectorAt(ws, i);
        vertices' := vertices' + [vertex];
        i := next;
      } else if lineHeader == "vn" {
        var normal := VectorAt(ws, i);
        normals' := normals' + [normal];
        i := next;
      } else if lineHeader == "f" {
        var vertex1, vertex2, vertex3 := WordAt(ws, i + 1), WordAt(ws, i + 2), WordAt(ws, i + 3);
        assert vertex1 == WordAt(rest, 1) && vertex2 == WordAt(rest, 2) && vertex3 == WordAt(rest, 3);
        var x := IndexOf(vertex1);
        if x.Err? {
          return Aborted(Threw(x.error)), vertices', normals', faces';
        }
        var y := IndexOf(vertex2);
        if y.Err? {
          return Aborted(Threw(y.error)), vertices', normals', faces';
        }
        var z := IndexOf(vertex3);
        if z.Err? {
          return Aborted(Threw(z.error)), vertices', normals', faces';
        }
        faces' := faces' + [FaceIndices(x.value, y.value, z.value)];
        i := next;
      } else {
        i := i + 1;
      }
    }
    status := Loaded;
  }

  // ---------------------------------------------------------------------
  // Properties of the word loop
  // ---------------------------------------------------------------------

  /** The loop only appends: the vectors it starts with stay prefixes of what it leaves, whatever the outcome. */
  lemma {:induction false} ParseOnlyAppends(ws: seq<string>, m: Mesh)
    ensures m.vertices <= Parse(ws, m).state.vertices
    ensures m.normals <= Parse(ws, m).state.normals
    ensures m.faces <= Parse(ws, m).state.faces
    decreases |ws|
  {
    if ws != [] && |ws[0]| < HEADER_CAPACITY {
      var m' := if ws[0] == "v" then m.(vertices := m.vertices + [VectorAt(ws, 0)])
                else if ws[0] == "vn" then m.(normals := m.normals + [VectorAt(ws, 0)])
                else m;
      if ws[0] == "v" || ws[0] == "vn" {
        ParseOnlyAppends(Drop(ws, 4), m');
      } else if ws[0] == "f" {
        var r := FaceOf(WordAt(ws, 1), WordAt(ws, 2), WordAt(ws, 3));
        if r.Ok? {
          ParseOnlyAppends(Drop(ws, 4), m.(faces := m.faces + [r.value]));
        }
      } else {
        ParseOnlyAppends(ws[1..], m);
      }
    }
  }

  /** `v` and the three words after it append exactly one vertex made of them. */
  lemma VertexWords(a: string, b: string, c: string, rest: seq<string>, m: Mesh)
    ensures Parse(["v", a, b, c] + rest, m) == Parse(rest, m.(vertices := m.vertices + [Vec3(Parsed(a), Parsed(b), Parsed(c))]))
  {
    var ws := ["v", a, b, c] + rest;
    assert Drop(ws, 4) == rest;
  }

  /** `vn` and the three words after it append exactly one normal made of them. */
  lemma NormalWords(a: string, b: string, c: string, rest: seq<string>, m: Mesh)
    ensures Parse(["vn", a, b, c] + rest, m) == Parse(rest, m.(normals := m.normals + [Vec3(Parsed(a), Parsed(b), Parsed(c))]))
  {
    var ws := ["vn", a, b, c] + rest;
    assert Drop(ws, 4) == rest;
  }

  /**
   * `f` consumes exactly the three words after it and appends exactly one
   * face, whose indices are those words' integer prefixes minus one.
   */
  lemma FaceWords(a: string, b: string, c: string, rest: seq<string>, m: Mesh)
    requires IndexOf(a).Ok? && IndexOf(b).Ok? && IndexOf(c).Ok?
    ensures Parse(["f", a, b, c] + rest, m)
            == Parse(rest, m.(faces := m.faces + [FaceIndices(IndexOf(a).value, IndexOf(b).value, IndexOf(c).value)]))
  {
    var ws := ["f", a, b, c] + rest;
    assert Drop(ws, 4) == rest;
    assert WordAt(ws, 1) == a && WordAt(ws, 2) == b && WordAt(ws, 3) == c;
  }

  /** An `f` whose three words are missing or unreadable stops the load with the first exception. */
  lemma FaceWordsThrow(ws: seq<string>, m: Mesh, k: nat)
    requires |ws| > 0 && ws[0] == "f"
    requires 1 <= k <= 3
    requires forall j :: 1 <= j < k ==> IndexOf(WordAt(ws, j)).Ok?
    requires IndexOf(WordAt(ws, k)).Err?
    ensures Parse(ws, m) == Stopped(Threw(IndexOf(WordAt(ws, k)).error), m)
  {
  }

  /** Any other word is skipped on its own, and the next word is read as a header. */
  lemma OtherWord(w: string, rest: seq<string>, m: Mesh)
    requires |w| < HEADER_CAPACITY && w != "v" && w != "vn" && w != "f"
    ensures Parse([w] + rest, m) == Parse(rest, m)
  {
    assert ([w] + rest)[1..] == rest;
  }

  // ---------------------------------------------------------------------
  // Reading back what an OBJ writer produces
  // ---------------------------------------------------------------------

  predicate AllParsed(vs: seq<Vec3>) {
    forall i :: 0 <= i < |vs| ==> vs[i].x.Parsed? && vs[i].y.Parsed? && vs[i].z.Parsed?
  }

  /** The words of one `tag x y z` record per vector. */
  function VectorWords(tag: string, vs: seq<Vec3>): (ws: seq<string>)
    requires AllParsed(vs)
    ensures |ws| == 4 * |vs|
  {
    if vs == [] then []
    else [tag, vs[0].x.text, vs[0].y.text, vs[0].z.text] + VectorWords(tag, vs[1..])
  }

  /** The words of one `f a b c` record per face, with 1-based indices. */
  function FaceRecordWords(fs: seq<FaceIndices>): (ws: seq<string>)
    ensures |ws| == 4 * |fs|
  {
    if fs == [] then []
    else ["f", IntToString(fs[0].x + 1), IntToString(fs[0].y + 1), IntToString(fs[0].z + 1)] + FaceRecordWords(fs[1..])
  }

  predicate IndexWritable(n: int) {
    INT_MIN <= n + 1 <= INT_MAX
  }

  predicate FacesWritable(fs: seq<FaceIndices>) {
    forall i :: 0 <= i < |fs| ==> IndexWritable(fs[i].x) && IndexWritable(fs[i].y) && IndexWritable(fs[i].z)
  }

  /** A mesh written out as OBJ words: its vertices, then its normals, then its faces. */
  function MeshWords(m: Mesh): seq<string>
    requires AllParsed(m.vertices) && AllParsed(m.normals)
  {
    VectorWords("v", m.vertices) + VectorWords("vn", m.normals) + FaceRecordWords(m.faces)
  }

  /** Words made of one `tag x y z` record per vector of `vs`, followed by `rest`. */
  predicate VectorRecordsRead(tag: string, ws: seq<string>, vs: seq<Vec3>, rest: seq<string>)
    decreases |vs|
  {
    if vs == [] then ws == rest
    else
      |ws| >= 4 && ws[0] == tag && vs[0] == Vec3(Parsed(ws[1]), Parsed(ws[2]), Parsed(ws[3])) &&
      VectorRecordsRead(tag, ws[4..], vs[1..], rest)
  }

  lemma {:induction false} ParseVertexRecords(ws: seq<string>, vs: seq<Vec3>, rest: seq<string>, m: Mesh)
    requires VectorRecordsRead("v", ws, vs, rest)
    ensures Parse(ws, m) == Parse(rest, m.(vertices := m.vertices + vs))
    decreases |vs|
  {
    if vs == [] {
      assert m.vertices + vs == m.vertices;
    } else {
      assert ws == ["v", ws[1], ws[2], ws[3]] + ws[4..];
      VertexWords(ws[1], ws[2], ws[3], ws[4..], m);
      ParseVertexRecords(ws[4..], vs[1..], rest, m.(vertices := m.vertices + [vs[0]]));
      assert m.vertices + [vs[0]] + vs[1..] == m.vertices + vs;
    }
  }

  lemma {:induction false} ParseNormalRecords(ws: seq<string>, vs: seq<Vec3>, rest: seq<string>, m: Mesh)
    requires VectorRecordsRead("vn", ws, vs, rest)
    ensures Parse(ws, m) == Parse(rest, m.(normals := m.normals + vs))
    decreases |vs|
  {
    if vs == [] {
      assert m.normals + vs == m.normals;
    } else {
      assert ws == ["vn", ws[1], ws[2], ws[3]] + ws[4..];
      NormalWords(ws[1], ws[2], ws[3], ws[4..], m);
      ParseNormalRecords(ws[4..], vs[1..], rest, m.(normals := m.normals + [vs[0]]));
      assert m.normals + [vs[0]] + vs[1..] == m.normals + vs;
    }
  }

  /** What the writer puts out for vectors, followed by anything, reads back as those vectors. */
  lemma {:induction false} VectorWordsRead(tag: string, vs: seq<Vec3>, rest: seq<string>)
    requires AllParsed(vs)
    ensures VectorRecordsRead(tag, VectorWords(tag, vs) + rest, vs, rest)
    decreases |vs|
  {
    if vs == [] {
      assert VectorWords(tag, vs) + rest == rest;
    } else {
      var v, tail := vs[0], vs[1..];
      assert AllParsed(tail) by {
        forall i | 0 <= i < |tail| ensures tail[i].x.Parsed? && tail[i].y.Parsed? && tail[i].z.Parsed? {
          assert tail[i] == vs[i + 1];
        }
      }
      var ws := VectorWords(tag, vs) + rest;
      assert ws == [tag, v.x.text, v.y.text, v.z.text] + (VectorWords(tag, tail) + rest);
      assert ws[4..] == VectorWords(tag, tail) + rest;
      VectorWordsRead(tag, tail, rest);
    }
  }

  /** Words made of `f` records, each of whose three vertex words reads as the face beside it. */
  predicate FaceRecordsRead(ws: seq<string>, fs: seq<FaceIndices>)
    decreases |fs|
  {
    if fs == [] then ws == []
    else
      |ws| >= 4 && ws[0] == "f" && FaceOf(ws[1], ws[2], ws[3]) == Ok(fs[0]) &&
      FaceRecordsRead(ws[4..], fs[1..])
  }

  lemma {:induction false} ParseFaceRecords(ws: seq<string>, fs: seq<FaceIndices>, m: Mesh)
    requires FaceRecordsRead(ws, fs)
    ensures Parse(ws, m) == Completed(m.(faces := m.faces + fs))
    decreases |fs|
  {
    if fs == [] {
      assert m.faces + fs == m.faces;
    } else {
      var f := fs[0];
      assert ws == ["f", ws[1], ws[2], ws[3]] + ws[4..];
      FaceWords(ws[1], ws[2], ws[3], ws[4..], m);
      ParseFaceRecords(ws[4..], fs[1..], m.(faces := m.faces + [f]));
      assert m.faces + [f] + fs[1..] == m.faces + fs;
    }
  }

  /** The vertex words of a face written with 1-based numerals read back as that face. */
  lemma FaceOfNumerals(f: FaceIndices)
    requires IndexWritable(f.x) && IndexWritable(f.y) && IndexWritable(f.z)
    ensures FaceOf(IntToString(f.x + 1), IntToString(f.y + 1), IntToString(f.z + 1)) == Ok(f)
  {
    var a, b, c := IntToString(f.x + 1), IntToString(f.y + 1), IntToString(f.z + 1);
    IndexOfNumeral(f.x + 1, []);
    IndexOfNumeral(f.y + 1, []);
    IndexOfNumeral(f.z + 1, []);
    assert a + [] == a && b + [] == b && c + [] == c;
  }

  /** What the writer puts out for the faces reads back as those faces. */
  lemma {:induction false} FaceRecordWordsRead(fs: seq<FaceIndices>)
    requires FacesWritable(fs)
    ensures FaceRecordsRead(FaceRecordWords(fs), fs)
    decreases |fs|
  {
    if fs != [] {
      var ws := FaceRecordWords(fs);
      assert ws[4..] == FaceRecordWords(fs[1..]);
      FaceRecordWordsRead(fs[1..]);
      FaceOfNumerals(fs[0]);
    }
  }

  /**
   * Loading the words of a mesh into empty vectors gives back that mesh:
   * every record is read in file order into the right vector.
   */
  lemma ParseMeshWords(m: Mesh)
    requires AllParsed(m.vertices) && AllParsed(m.normals) && FacesWritable(m.faces)
    ensures Parse(MeshWords(m), Mesh([], [], [])) == Completed(m)
  {
    var e := Mesh([], [], []);
    var vn := VectorWords("vn", m.normals);
    var f := FaceRecordWords(m.faces);
    assert MeshWords(m) == VectorWords("v", m.vertices) + (vn + f);
    VectorWordsRead("v", m.vertices, vn + f);
    ParseVertexRecords(MeshWords(m), m.vertices, vn + f, e);
    var e1 := e.(vertices := m.vertices);
    assert [] + m.vertices == m.vertices;
    VectorWordsRead("vn", m.normals, f);
    ParseNormalRecords(vn + f, m.normals, f, e1);
    var e2 := e1.(normals := m.normals);
    assert [] + m.normals == m.normals;
    FaceRecordWordsRead(m.faces);
    ParseFaceRecords(f, m.faces, e2);
    assert [] + m.faces == m.faces;
  }

  /** The same holds for the text of the file, its words separated by single blanks. */
  lemma LoadMeshText(m: Mesh)
    requires AllParsed(m.vertices) && AllParsed(m.normals) && FacesWritable(m.faces)
    requires forall i :: 0 <= i < |MeshWords(m)| ==> IsWord(MeshWords(m)[i])
    ensures Parse(Words(Unwords(MeshWords(m))), Mesh([], [], [])) == Completed(m)
  {
    WordsOfUnwords(MeshWords(m));
    ParseMeshWords(m);
  }
}
