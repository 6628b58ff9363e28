/**
 * The MTL loader: `loadMTL(filename, materials)`.
 *
 * The file is read line by line. A line whose first word is `newmtl`
 * names the material that the following lines describe; a line whose
 * first word is `Kd` gives that material's diffuse colour, which is stored
 * in the map under the current name. Every other line is ignored.
 */
module MtlLoader {
  import opened Parsing

  /** The loop's state: `currentMaterial` and the caller's map. */
  datatype MtlState = MtlState(current: string, materials: map<string, Vec3>)

  /** What `ss >> firstWord` leaves in a fresh string: the first word, or `""` for a blank line. */
  function FirstWord(ws: seq<string>): (w: string)
    ensures ws != [] ==> w == ws[0]
    ensures ws == [] ==> w == ""
  {
    if ws == [] then "" else ws[0]
  }

  /**
   * The diffuse colour read from the words `Kd r g b` of a line: each
   * component is the word in its place, and a component the line lacks is
   * never assigned.
   */
  function DiffuseOf(ws: seq<string>): (c: Vec3)
    ensures |ws| >= 4 ==> c == Vec3(Parsed(ws[1]), Parsed(ws[2]), Parsed(ws[3]))
    ensures c.x.Indeterminate? <==> |ws| <= 1
    ensures c.y.Indeterminate? <==> |ws| <= 2
    ensures c.z.Indeterminate? <==> |ws| <= 3
  {
    Vec3(ReadFloat(ws, 1, Indeterminate), ReadFloat(ws, 2, Indeterminate), ReadFloat(ws, 3, Indeterminate))
  }

  /**
   * One turn of the loop, on one line of the file. The current material
   * stays or becomes the second word of the line; the map gains or changes
   * at most the entry of the current material.
   */
  function StepMtl(st: MtlState, line: string): (r: MtlState)
    ensures r.current == st.current || (|Words(line)| > 1 && r.current == Words(line)[1])
    ensures r.materials.Keys == st.materials.Keys || r.materials.Keys == st.materials.Keys + {st.current}
    ensures forall name :: name != st.current && name in st.materials ==> r.materials[name] == st.materials[name]
  {
    var ws := Words(line);
    if FirstWord(ws) == "newmtl" then
      // `ss >> currentMaterial` fails without touching the string when the line ends here
      if |ws| > 1 then st.(current := ws[1]) else st
    else if FirstWord(ws) == "Kd" then
      st.(materials := st.materials[st.current := DiffuseOf(ws)])
    else st
  }

  /**
   * The loop over `lines`, from state `st`. The current material at the end
   * is the one it started with or one that a `newmtl` line named.
   */
  function RunMtl(st: MtlState, lines: seq<string>): (r: MtlState)
    ensures r.current == st.current || r.current in NamedIn(lines)
    decreases |lines|
  {
    if lines == [] then st
    else
      var init := lines[..|lines| - 1];
      assert NamedIn(init) <= NamedIn(lines);
      StepMtl(RunMtl(st, init), lines[|lines| - 1])
  }

  /**
   * `loadMTL`. `file` is the file's lines, or `None` when it cannot be
   * opened; `materials` is what the caller's map held, `materials'` what
   * it holds afterwards.
   */
  method LoadMtl(file: Option<seq<string>>, materials: map<string, Vec3>) returns (ok: bool, materials': map<string, Vec3>)
    ensures file.None? ==> !ok && materials' == materials
    ensures file.Some? ==> ok && materials' == RunMtl(MtlState("", materials), file.value).materials
  {
    if file.None? {
      return false, materials;
    }
    var lines := file.value;
    var currentMaterial := "";
    materials' := materials;
    var i := 0;
    while i < |lines|
      invariant 0 <= i <= |lines|
      invariant RunMtl(MtlState("", materials), lines[..i]) == MtlState(currentMaterial, materials')
    {
      assert lines[..i + 1][..i] == lines[..i];
      assert RunMtl(MtlState("", materials), lines[..i + 1]) == StepMtl(MtlState(currentMaterial, materials'), lines[i]);
      var ss := Words(lines[i]);
      var firstWord := FirstWord(ss);
      if firstWord == "newmtl" {
        if |ss| > 1 {
          currentMaterial := ss[1];
        }
      } else if firstWord == "Kd" {
        var diffuseColor := DiffuseOf(ss);
        materials' := materials'[currentMaterial := diffuseColor];
      }
      i := i + 1;
    }
    assert lines[..i] == lines;
    ok := true;
  }

  // ---------------------------------------------------------------------
  // Properties of the loop
  // ---------------------------------------------------------------------

  /** Running two pieces of a file one after the other is running the whole file. */
  lemma {:induction false} RunMtlAppend(st: MtlState, a: seq<string>, b: seq<string>)
    ensures RunMtl(st, a + b) == RunMtl(RunMtl(st, a), b)
    decreases |b|
  {
    if b == [] {
      assert a + b == a;
    } else {
      var ab := a + b;
      assert ab[..|ab| - 1] == a + b[..|b| - 1];
      assert ab[|ab| - 1] == b[|b| - 1];
      RunMtlAppend(st, a, b[..|b| - 1]);
    }
  }

  /** Entries are only ever added or overwritten: no material is removed. */
  lemma {:induction false} RunMtlKeepsNames(st: MtlState, lines: seq<string>)
    ensures st.materials.Keys <= RunMtl(st, lines).materials.Keys
    decreases |lines|
  {
    if lines != [] {
      RunMtlKeepsNames(st, lines[..|lines| - 1]);
    }
  }

  /** The name a `newmtl` line switches to, if it switches. */
  function NewName(line: string): Option<string> {
    var ws := Words(line);
    if FirstWord(ws) == "newmtl" && |ws| > 1 then Some(ws[1]) else None
  }

  /** Every name some `newmtl` line of `lines` switches to. */
  function NamedIn(lines: seq<string>): (names: set<string>)
    ensures forall j :: 0 <= j < |lines| && NewName(lines[j]).Some? ==> NewName(lines[j]).value in names
    decreases |lines|
  {
    if lines == [] then {}
    else
      var init := lines[..|lines| - 1];
      var last := lines[|lines| - 1];
      assert forall j :: 0 <= j < |init| ==> lines[j] == init[j];
      NamedIn(init) + (if NewName(last).Some? then {NewName(last).value} else {})
  }

  /**
   * The current material is the one the loop started with or one that a
   * `newmtl` line named; any other name keeps exactly the entry it had
   * (present with the same colour, or absent).
   */
  lemma {:induction false} RunMtlOnlyNamed(st: MtlState, lines: seq<string>, name: string)
    requires name != st.current && name !in NamedIn(lines)
    ensures RunMtl(st, lines).current == st.current || RunMtl(st, lines).current in NamedIn(lines)
    ensures name in RunMtl(st, lines).materials <==> name in st.materials
    ensures name in st.materials ==> RunMtl(st, lines).materials[name] == st.materials[name]
    decreases |lines|
  {
    if lines != [] {
      var init := lines[..|lines| - 1];
      assert NamedIn(init) <= NamedIn(lines);
      RunMtlOnlyNamed(st, init, name);
    }
  }

  /** A `Kd` line with three numbers stores them under the current material, replacing any earlier colour. */
  lemma KdLine(st: MtlState, line: string)
    requires |Words(line)| >= 4 && Words(line)[0] == "Kd"
    ensures var ws := Words(line);
            StepMtl(st, line) == st.(materials := st.materials[st.current := Vec3(Parsed(ws[1]), Parsed(ws[2]), Parsed(ws[3]))])
  {
  }

  /**
   * A `Kd` line with fewer than three numbers still stores a colour under
   * the current material; the components it lacks are never assigned.
   */
  lemma ShortKdLine(st: MtlState, line: string)
    requires 0 < |Words(line)| < 4 && Words(line)[0] == "Kd"
    ensures var ws := Words(line);
            StepMtl(st, line) == st.(materials := st.materials[st.current := Vec3(if |ws| > 1 then Parsed(ws[1]) else Indeterminate,
                                                                                  if |ws| > 2 then Parsed(ws[2]) else Indeterminate,
                                                                                  Indeterminate)])
  {
  }

  /** A `newmtl` line switches the current material to its second word and changes no entry. */
  lemma NewmtlLine(st: MtlState, line: string)
    requires |Words(line)| >= 2 && Words(line)[0] == "newmtl"
    ensures StepMtl(st, line) == st.(current := Words(line)[1])
  {
  }

  /** A `newmtl` line with no name after it leaves the current material as it was. */
  lemma NewmtlWithoutName(st: MtlState, line: string)
    requires Words(line) == ["newmtl"]
    ensures StepMtl(st, line) == st
  {
  }

  /** Any other line, blank ones included, changes neither the current material nor the map. */
  lemma OtherMtlLine(st: MtlState, line: string)
    requires FirstWord(Words(line)) != "newmtl" && FirstWord(Words(line)) != "Kd"
    ensures StepMtl(st, line) == st
  {
  }

  /**
   * A `Kd` line that no `newmtl` line names a material before stores its
   * colour under the empty name.
   */
  lemma KdBeforeNewmtl(materials: map<string, Vec3>, pre: seq<string>, line: string)
    requires NamedIn(pre) == {}
    requires |Words(line)| >= 4 && Words(line)[0] == "Kd"
    ensures var ws := Words(line);
            RunMtl(MtlState("", materials), pre + [line]).materials
            == RunMtl(MtlState("", materials), pre).materials["" := Vec3(Parsed(ws[1]), Parsed(ws[2]), Parsed(ws[3]))]
  {
    var lines := pre + [line];
    assert lines[..|lines| - 1] == pre && lines[|lines| - 1] == line;
    var before := RunMtl(MtlState("", materials), pre);
    assert before.current == "";
    KdLine(before, line);
  }

  // ---------------------------------------------------------------------
  // Reading back what an MTL writer produces
  // ---------------------------------------------------------------------

  /** One material as a writer puts it out: `newmtl name`, then `Kd r g b`. */
  datatype Material = Material(name: string, r: string, g: string, b: string)

  predicate Writable(es: seq<Material>) {
    forall i :: 0 <= i < |es| ==> IsWord(es[i].name) && IsWord(es[i].r) && IsWord(es[i].g) && IsWord(es[i].b)
  }

  function Diffuse(e: Material): Vec3 {
    Vec3(Parsed(e.r), Parsed(e.g), Parsed(e.b))
  }

  /** The lines of a library, two per material. */
  function LibraryLines(es: seq<Material>): (lines: seq<string>)
    ensures |lines| == 2 * |es|
    decreases |es|
  {
    if es == [] then []
    else
      var e := es[|es| - 1];
      LibraryLines(es[..|es| - 1]) + [Unwords(["newmtl", e.name]), Unwords(["Kd", e.r, e.g, e.b])]
  }

  /** The map a library describes; a name given twice keeps its later colour. */
  function Library(es: seq<Material>): map<string, Vec3>
    decreases |es|
  {
    if es == [] then map[]
    else
      var e := es[|es| - 1];
      Library(es[..|es| - 1])[e.name := Diffuse(e)]
  }

  lemma RunTwoLines(st: MtlState, a: string, b: string)
    ensures RunMtl(st, [a, b]) == StepMtl(StepMtl(st, a), b)
  {
    var lines := [a, b];
    assert lines[..1] == [a] && lines[1] == b;
    assert [a][..0] == [];
    assert RunMtl(st, [a]) == StepMtl(st, a);
  }

  /** Updating a merged map is updating the map merged in last. */
  lemma MergeUpdate<K, V>(a: map<K, V>, b: map<K, V>, k: K, v: V)
    ensures (a + b)[k := v] == a + b[k := v]
  {
  }

  /** The `newmtl` line a writer puts out. */
  lemma NewmtlText(st: MtlState, name: string)
    requires IsWord(name)
    ensures StepMtl(st, Unwords(["newmtl", name])) == st.(current := name)
  {
    WordsOfUnwords(["newmtl", name]);
    NewmtlLine(st, Unwords(["newmtl", name]));
  }

  /** The `Kd` line a writer puts out. */
  lemma KdText(st: MtlState, e: Material)
    requires IsWord(e.r) && IsWord(e.g) && IsWord(e.b)
    ensures StepMtl(st, Unwords(["Kd", e.r, e.g, e.b])) == st.(materials := st.materials[st.current := Diffuse(e)])
  {
    WordsOfUnwords(["Kd", e.r, e.g, e.b]);
    KdLine(st, Unwords(["Kd", e.r, e.g, e.b]));
  }

  /** The two lines of one material make it current and store its colour under its name. */
  lemma RecordLines(st: MtlState, e: Material)
    requires IsWord(e.name) && IsWord(e.r) && IsWord(e.g) && IsWord(e.b)
    ensures RunMtl(st, [Unwords(["newmtl", e.name]), Unwords(["Kd", e.r, e.g, e.b])])
            == MtlState(e.name, st.materials[e.name := Diffuse(e)])
  {
    RunTwoLines(st, Unwords(["newmtl", e.name]), Unwords(["Kd", e.r, e.g, e.b]));
    NewmtlText(st, e.name);
    KdText(st.(current := e.name), e);
  }

  /**
   * Loading a library adds every material it describes to what the map
   * held, each under its own name and with its last colour, and leaves the
   * last material current.
   */
  lemma {:induction false} RunLibrary(st: MtlState, es: seq<Material>)
    requires Writable(es)
    ensures RunMtl(st, LibraryLines(es)).materials == st.materials + Library(es)
    ensures es != [] ==> RunMtl(st, LibraryLines(es)).current == es[|es| - 1].name
    decreases |es|
  {
    if es == [] {
      assert st.materials + map[] == st.materials;
    } else {
      var init, e := es[..|es| - 1], es[|es| - 1];
      var newmtl, kd := Unwords(["newmtl", e.name]), Unwords(["Kd", e.r, e.g, e.b]);
      assert Writable(init) by {
        forall i | 0 <= i < |init|
          ensures IsWord(init[i].name) && IsWord(init[i].r) && IsWord(init[i].g) && IsWord(init[i].b)
        {
          assert init[i] == es[i];
        }
      }
      RunLibrary(st, init);
      assert LibraryLines(es) == LibraryLines(init) + [newmtl, kd];
      RunMtlAppend(st, LibraryLines(init), [newmtl, kd]);
      RecordLines(RunMtl(st, LibraryLines(init)), e);
      assert Library(es) == Library(init)[e.name := Diffuse(e)];
      MergeUpdate(st.materials, Library(init), e.name, Diffuse(e));
    }
  }

  /** Loading a library into an empty map gives exactly the map the library describes. */
  lemma LoadLibrary(es: seq<Material>)
    requires Writable(es)
    ensures RunMtl(MtlState("", map[]), LibraryLines(es)).materials == Library(es)
  {
    RunLibrary(MtlState("", map[]), es);
    assert map[] + Library(es) == Library(es);
  }
}
