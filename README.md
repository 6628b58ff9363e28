# OBJ/MTL loaders and ray caster of a small software renderer

This project models the text-parsing and ray-casting core of a small C++
software renderer and proves properties of it in Dafny.

- **`loadOBJ(path, out_vertices, out_faces)`**, in `src/objLoader.h`, is the line-based OBJ loader (module `ObjLineLoader`).
  - Each line is read into a string stream, and its first word goes into `lineHeader`.
  - A `v` line appends a vertex.
  - An `f` line appends a `Face`. The face holds one index triple per further word. Each word is split on `'/'` by three `getline` calls, and each field is converted with `std::stoi(field) - 1`.
  - `lineHeader` and `vertex` live across iterations, and a failed extraction leaves its target as it was. So a line without words runs the branch of the header the previous line left in `lineHeader`:
    - after a `v` line, it appends the same vertex once more;
    - after an `f` line with no further words, `lineHeader` is still `f` and it appends an empty face;
    - after an `f` line with words, `lineHeader` holds the line's last word (the `while (iss >> lineHeader)` loop reads the words into it), so it does nothing.
  - A word with fewer than three fields repeats its last field: `7` reads as (6,6,6) and `1/2` as (0,1,1). An empty field, as in `1//3`, makes `std::stoi` throw.
  - The method `LoadObj` is proved against the specification function `Run`, a fold over the lines.
- **`loadOBJ(path, out_vertices, out_normals, out_faces)`**, in `src/ObjLoader.cpp`, is the word-based OBJ loader (module `ObjWordLoader`).
  - The file is read as whitespace-separated words, regardless of lines.
  - `v` and `vn` take the next three words as a vector.
  - `f` takes the next three words as a triangle. Each index is the integer before the first `'/'`, minus one.
  - Every other word is skipped on its own. So the fourth corner of a quad is read as a header and skipped.
  - A header word of 128 characters or more would overflow `char lineHeader[128]`. The model stops the load there, with `HeaderOverflow`.
  - The method `LoadObj` is proved against the function `Parse`, which recurses over the remaining words.
- **`loadMTL(filename, materials)`**, in `src/MtlLoader.cpp`, is the MTL loader (module `MtlLoader`).
  - `newmtl name` makes `name` the current material. If the name is missing, the extraction fails and the current material stays as it was.
  - `Kd r g b` stores the colour in the caller's map under the current name, which starts as `""`.
  - Every other line is ignored.
  - The method `LoadMtl` is proved against the fold `RunMtl`.
- **`castRay`**, in `src/main.cpp`, returns red for the first object the ray hits and light blue when none is hit (module `RayCaster`).
- **`render`**, in `src/main.cpp`, casts one ray from the origin for every pixel of the 800×600 window. It goes row by row from the top, and each row from the left.
- **The `Color` struct**, in `src/color.h`, has four 8-bit channels. Its alpha channel defaults to 255 (module `Colors`).

`Parsing` holds what the loaders share:
- splitting into words the way `>>` does;
- `std::stoi` with its two exceptions, over the 32-bit range of `int`;
- the first-exception-wins conversion of several fields;
- opaque float values;
- the ways a loader can end.

`std::stoi` skips leading white space and reads an optional sign, then the longest run of decimal digits. Whatever follows is ignored.
- No digit at all throws `invalid_argument`.
- A value outside `[-2^31, 2^31-1]` throws `out_of_range`.

Loads that throw are modelled with outcome `Aborted(Threw(e))`. The outputs keep what was appended before the exception.

The output vectors and the map are passed to the loaders by reference. Here each one is a method parameter holding its contents on entry, and the method returns the new contents as primed out-parameters (`vertices'`).

Beyond the single-step lemmas, each loader has a read-back property:
- **line-based OBJ loader:** a triple written as `a/b/c` with 1-based numerals reads back as the 0-based triple.
- **word-based OBJ loader:** a mesh written out as `v`, `vn` and `f` records reads back as exactly that mesh.
- **MTL loader:** a library written as `newmtl`/`Kd` pairs loads as exactly the map it describes, with later entries winning.

## Model

| member | source | states |
|---|---|---|
| Parsing.Words | src/objLoader.h:33-34 | the words `>>` extracts are non-empty and contain no white space |
| Parsing.WordsOfUnwords | src/ObjLoader.cpp:24-27 | words joined by blanks are split back into exactly those words |
| Parsing.WordsOfSpaces | src/objLoader.h:34 | text made only of white space yields no word, so the extraction fails |
| Parsing.WordsAfterSpaces | src/objLoader.h:34 | for any white space `sp`, any word `w` and any text `t` that is empty or starts with white space, the words of `sp + w + t` are `w` followed by the words of `t`: leading white space is skipped and a word ends at the next white space |
| Parsing.Stoi | src/objLoader.h:53 | a converted value always lies in the range of a 32-bit `int`, and an empty string throws `invalid_argument` |
| Parsing.StoiInvalidArgument | src/objLoader.h:53 | `invalid_argument` is thrown exactly when no digit follows the leading white space and the optional sign |
| Parsing.StoiAfterSpaces | src/objLoader.h:53 | leading white space does not change what `stoi` reads |
| Parsing.StoiOfRun | src/objLoader.h:53 | a run of digits followed by nothing or a non-digit converts to the value of the digits, leading zeros included (`007` is 7), or throws `out_of_range` above the range of `int` |
| Parsing.StoiOfSignedRun | src/objLoader.h:53 | the same after a sign: `+5` is 5, `-` negates, and a value outside the range of `int` throws `out_of_range` |
| Parsing.DigitsValueLeadingZero | src/objLoader.h:53 | a leading zero does not change the value of a run of digits |
| Parsing.StoiOfIntToString | src/objLoader.h:53 | `stoi` reads a decimal numeral back as its value when it is in range and throws `out_of_range` otherwise, whatever non-digit text follows it |
| Parsing.StoiOfNatNumeral | src/objLoader.h:53 | the numeral of a natural number, followed by a non-digit, converts to that number when it fits in an `int` and throws `out_of_range` otherwise |
| Parsing.StoiOfNegativeNumeral | src/objLoader.h:53 | `-` followed by a numeral and a non-digit converts to the negated number when it fits in an `int` and throws `out_of_range` otherwise |
| Parsing.ZeroBasedIndex | src/objLoader.h:53 | `stoi(s) - 1` succeeds exactly when `stoi` does, is one less than its value, and otherwise carries the same exception |
| Parsing.ZeroBasedIndexOfNumeral | src/objLoader.h:53 | the numeral of a 1-based index reads back as the 0-based index |
| Parsing.ConvertAll | src/objLoader.h:51-56 | the fields are converted in order and the first exception ends the whole; a successful conversion holds one value per field |
| Parsing.ConvertAllOk | src/objLoader.h:51-56 | converting fields in order succeeds exactly when every field converts, and then yields each field's value in order |
| Parsing.ConvertAllFirstError | src/objLoader.h:51-56 | when fields before position k convert and field k does not, the exception of field k is the one thrown |
| Parsing.ConvertAllErrExtends | src/objLoader.h:51-56 | once a conversion has thrown, later fields do not change the outcome |
| Parsing.ReadFloat | src/objLoader.h:38 | `>>` into a float gives the next word when there is one and otherwise leaves the variable's prior value |
| Parsing.SlashPos | src/ObjLoader.cpp:39 | `find("/")` returns the position of the first `'/'`, or the length when there is none |
| Parsing.SlashPosOf | src/ObjLoader.cpp:39 | for text without `'/'` followed by `/...` or nothing, `find` stops right after that text and `substr` gives it back |
| ObjLineLoader.GetField | src/objLoader.h:52 | `getline(tokenstream, token, '/')` on a stream that is not good leaves stream and token unchanged; otherwise the token has no `'/'`, and the token, the slash if any and the rest make up what the stream held, the stream ending when no slash was left |
| ObjLineLoader.ReadFields | src/objLoader.h:51-53 | after k turns of the `for` loop, `token` has taken k values and holds the last of them; no value holds a `'/'`, and the first is the text before the word's first `'/'` |
| ObjLineLoader.Fields | src/objLoader.h:51-52 | a face word gives three fields, none holding a `'/'`, the first being the text before the word's first `'/'` |
| ObjLineLoader.ReadFieldsPrefix | src/objLoader.h:51-53 | later turns of the `for` loop only add to the values taken earlier |
| ObjLineLoader.FieldsOfThree | src/objLoader.h:51-52 | `a/b/c` is split into `a`, `b`, `c` |
| ObjLineLoader.FieldsOfTwo | src/objLoader.h:51-52 | `a/b` is split into `a`, `b`, `b`, because the third `getline` leaves the token unchanged |
| ObjLineLoader.FieldsOfOne | src/objLoader.h:51-52 | a word without `'/'` fills all three fields |
| ObjLineLoader.TripleOf | src/objLoader.h:46-54 | a triple read from a word holds three `int` values each minus one; a word without `'/'` gives the same index three times |
| ObjLineLoader.TripleOfTripleText | src/objLoader.h:51-54 | a triple written as three 1-based numerals separated by `'/'` reads back as the 0-based triple |
| ObjLineLoader.TripleOfPlainIndex | src/objLoader.h:51-54 | a single numeral n reads as the triple (n-1, n-1, n-1) |
| ObjLineLoader.TripleOfEmptyMiddle | src/objLoader.h:52-53 | an empty middle field, as in `1//3`, throws `invalid_argument` |
| ObjLineLoader.ParseTriple | src/objLoader.h:46-54 | the `for` loop over one word yields the triple of its three fields each minus one, or the first exception `stoi` throws |
| ObjLineLoader.ParseFace | src/objLoader.h:44-57 | the inner `while` loop yields one triple per word in word order, or the first exception |
| ObjLineLoader.StepLine | src/objLoader.h:31-60 | one line throws only when it is taken as an `f` line (its first word, or the previous header on a line without words); otherwise it appends at most one vertex or one face and changes nothing already in the outputs |
| ObjLineLoader.Run | src/objLoader.h:30-61 | the line loop stops only on an exception, and appends at most one vertex or face per line |
| ObjLineLoader.RunStoppedExtends | src/objLoader.h:30-61 | once a line has thrown, the lines after it change nothing |
| ObjLineLoader.LoadObj | src/objLoader.h:15-64 | an unopenable file returns false with both vectors untouched; otherwise the vectors end as the line fold leaves them, and the load returns true unless a conversion throws |
| ObjLineLoader.VertexLine | src/objLoader.h:36-40 | a `v` line appends exactly one vertex, made of its next three words (a missing word keeps that component of the previous vertex), and no face |
| ObjLineLoader.FaceLine | src/objLoader.h:41-60 | an `f` line whose words all convert appends exactly one face and no vertex; the face holds one triple per word after `f`, in order, and nothing from earlier lines |
| ObjLineLoader.FaceLineThrows | src/objLoader.h:44-54 | an `f` line with a word that does not convert throws |
| ObjLineLoader.OtherLine | src/objLoader.h:34-41 | a line whose first word is neither `v` nor `f` changes no output and only records its header |
| ObjLineLoader.BlankLineRepeatsVertex | src/objLoader.h:26-40 | after a `v` line, a line without words appends the same vertex again |
| ObjLineLoader.RunOnlyAppends | src/objLoader.h:36-60 | the vectors the loop starts with stay prefixes of what it leaves, whatever the outcome |
| ObjLineLoader.RunCounts | src/objLoader.h:30-60 | when every line has a word and the load completes, one vertex is appended per `v` line and one face per `f` line |
| ObjWordLoader.WordAt | src/ObjLoader.cpp:36-38 | `>>` into a fresh string gives the next word, or leaves it empty past the end |
| ObjWordLoader.IndexOf | src/ObjLoader.cpp:39-43 | a vertex word's index, when it converts, is an `int` minus one |
| ObjWordLoader.FaceOf | src/ObjLoader.cpp:38-43 | a face is read exactly when all three vertex words convert, and holds their indices in word order; otherwise the first word that does not convert gives the exception |
| ObjWordLoader.VectorAt | src/ObjLoader.cpp:26-28 | a vector takes the three words after its header; a component whose word lies past the end of the file is never assigned |
| ObjWordLoader.Parse | src/ObjLoader.cpp:20-46 | every record the word loop appends consumes its header and up to three words after it, so at most one record is appended per four words |
| ObjWordLoader.IndexOfPrefix | src/ObjLoader.cpp:39-41 | only the text before the first `'/'` is converted |
| ObjWordLoader.IndexOfNumeral | src/ObjLoader.cpp:39-43 | a numeral in range, followed by nothing or by `/...`, gives that number minus one |
| ObjWordLoader.LoadObj | src/ObjLoader.cpp:7-48 | an unopenable file returns false with the three vectors untouched; otherwise they end as the word loop leaves them, and the load returns true unless a conversion throws or a header overflows its buffer |
| ObjWordLoader.ParseOnlyAppends | src/ObjLoader.cpp:25-45 | vertices, normals and faces are only appended to, whatever the outcome |
| ObjWordLoader.VertexWords | src/ObjLoader.cpp:25-29 | `v a b c` appends exactly the vertex (a, b, c) and consumes exactly those four words |
| ObjWordLoader.NormalWords | src/ObjLoader.cpp:30-34 | `vn a b c` appends exactly the normal (a, b, c) and consumes exactly those four words |
| ObjWordLoader.FaceWords | src/ObjLoader.cpp:35-45 | `f a b c` appends exactly one face, whose indices are the three words' integer prefixes minus one, and consumes exactly those four words |
| ObjWordLoader.FaceWordsThrow | src/ObjLoader.cpp:38-41 | an `f` whose k-th word does not convert, all earlier ones converting, stops the load with that word's exception and appends nothing |
| ObjWordLoader.OtherWord | src/ObjLoader.cpp:20-24 | any other word is skipped on its own, and the next word is examined as a header |
| ObjWordLoader.ParseVertexRecords | src/ObjLoader.cpp:25-29 | consecutive `v` records append their vectors in file order |
| ObjWordLoader.ParseNormalRecords | src/ObjLoader.cpp:30-34 | consecutive `vn` records append their vectors in file order |
| ObjWordLoader.VectorWordsRead | src/ObjLoader.cpp:27 | the words a writer puts out for vectors are read as those vectors |
| ObjWordLoader.ParseFaceRecords | src/ObjLoader.cpp:35-45 | consecutive `f` records whose words convert append their faces in file order and the load completes |
| ObjWordLoader.FaceOfNumerals | src/ObjLoader.cpp:39-43 | a face written with 1-based numerals reads back as the 0-based face |
| ObjWordLoader.FaceRecordWordsRead | src/ObjLoader.cpp:38-43 | the words a writer puts out for faces are read as those faces |
| ObjWordLoader.ParseMeshWords | src/ObjLoader.cpp:20-46 | the words of a mesh (vertices, then normals, then faces) load into empty vectors as exactly that mesh |
| ObjWordLoader.LoadMeshText | src/ObjLoader.cpp:7-48 | the same holds for the file text with the words separated by blanks |
| MtlLoader.FirstWord | src/MtlLoader.cpp:18-19 | `ss >> firstWord` gives the first word, or leaves the string empty on a blank line |
| MtlLoader.DiffuseOf | src/MtlLoader.cpp:25-27 | `Kd r g b` gives the colour (r, g, b); a component the line lacks is never assigned |
| MtlLoader.StepMtl | src/MtlLoader.cpp:17-28 | one line keeps the current name or switches it to the line's second word, and adds or changes at most the entry of the current name |
| MtlLoader.RunMtl | src/MtlLoader.cpp:16-29 | after the loop the current name is the initial one or one a `newmtl` line gave |
| MtlLoader.LoadMtl | src/MtlLoader.cpp:6-32 | an unopenable file returns false with the map untouched; otherwise it returns true with the map as the line fold leaves it, starting from the empty current name |
| MtlLoader.RunMtlAppend | src/MtlLoader.cpp:16-29 | loading two pieces of a file one after the other is loading the whole file |
| MtlLoader.RunMtlKeepsNames | src/MtlLoader.cpp:27 | no entry is ever removed from the map |
| MtlLoader.RunMtlOnlyNamed | src/MtlLoader.cpp:14-28 | the current name is the initial one or one a `newmtl` line gave, and a name that is neither keeps exactly the entry it had, present with the same colour or absent |
| MtlLoader.KdLine | src/MtlLoader.cpp:24-27 | any line whose first word is `Kd`, with three words after it, stores the colour of those words under the current name, overwriting any earlier value, and changes nothing else |
| MtlLoader.ShortKdLine | src/MtlLoader.cpp:24-27 | a `Kd` line with fewer than three words after it still stores a colour under the current name, the components it lacks never assigned |
| MtlLoader.NewmtlLine | src/MtlLoader.cpp:21-22 | any line whose first word is `newmtl`, with a word after it, makes that word current and leaves the map unchanged |
| MtlLoader.NewmtlWithoutName | src/MtlLoader.cpp:21-22 | any line whose only word is `newmtl` changes neither the current name nor the map |
| MtlLoader.OtherMtlLine | src/MtlLoader.cpp:17-28 | any other line, blank lines included, changes neither the map nor the current name |
| MtlLoader.KdBeforeNewmtl | src/MtlLoader.cpp:14-27 | after any lines that name no material, a `Kd` line stores its colour under the empty name |
| MtlLoader.NewmtlText | src/MtlLoader.cpp:21-22 | the `newmtl name` line a writer puts out makes `name` current |
| MtlLoader.KdText | src/MtlLoader.cpp:24-27 | the `Kd r g b` line a writer puts out stores (r, g, b) under the current name |
| MtlLoader.RecordLines | src/MtlLoader.cpp:21-27 | a `newmtl`/`Kd` pair makes its material current and stores its colour under its name |
| MtlLoader.RunLibrary | src/MtlLoader.cpp:16-29 | loading a library adds every material it describes under its own name with its last colour, keeps the entries for other names, and leaves the last material current |
| MtlLoader.LoadLibrary | src/MtlLoader.cpp:6-32 | a library loaded into an empty map gives exactly the map it describes |
| Colors.Rgba | src/color.h:11-12 | the constructor stores the red, green, blue and alpha values as given, alpha being 255 when it is not given |
| Colors.RgbaDefaultAlpha | src/color.h:11 | a colour built without an alpha is fully opaque |
| RayCaster.AnyHit | src/main.cpp:21-23 | a ray hits when some object of the scene reports an intersection; in an empty scene it hits nothing |
| RayCaster.HitColor | src/main.cpp:20-27 | a ray's colour is always opaque and is either red or light blue |
| RayCaster.CastRay | src/main.cpp:20-27 | red exactly when some object reports a hit and light blue exactly when none does; the objects are examined in order, and the scan stops at the first hit, all earlier objects having missed |
| RayCaster.HitColorMoreObjects | src/main.cpp:21-23 | adding objects to a scene never turns a red ray light blue |
| RayCaster.HitColorEmptyScene | src/main.cpp:21-26 | with no objects, every ray is light blue |
| RayCaster.PixelAt | src/main.cpp:45-51 | the pixel drawn at (x, y) sits at (x, y), is opaque, and is red exactly when the ray from the origin in that pixel's direction hits an object, light blue otherwise |
| RayCaster.Render | src/main.cpp:34-54 | exactly 800×600 pixels are drawn, row by row from the top and each row from the left; pixel (x, y) gets the colour of the ray from the origin in that pixel's direction |

## Left out

- Decimal-to-float conversion: a coordinate or colour component is the text of its word (`Parsed`). A component that was never read is `Indeterminate`.
- Malformed numbers: every word read as a float is taken as a well-formed number. What `>>` does otherwise is not modelled:
  - A word that does not start a number fails the extraction: the component becomes zero and the stream fails. In `src/objLoader.h` and `src/MtlLoader.cpp` the failure lasts for the rest of the line, and the remaining components keep their values.
  - In `src/ObjLoader.cpp` `>>` reads the file stream itself, so the failure lasts for the rest of the file. The end-of-file flag is then never set, and `while(!file.eof())` never ends: each turn runs a branch again on the stale `lineHeader` and, for `v` or `vn`, appends again.
  - A number that stops partway, as in `1.5abc`, reads as 1.5 without failing and leaves `abc` for the next extraction. In the line loaders the next component then fails; in `src/ObjLoader.cpp` `abc` becomes the next word, possibly the next header.
- Opening and reading files: a file is its already-read lines (`src/objLoader.h`, `src/MtlLoader.cpp`) or its text (`src/ObjLoader.cpp`), or `None` when it cannot be opened. How `getline` splits text into lines is not modelled.
- In-place updates of the caller's vectors and map: they are modelled as values passed in and returned, so aliasing between them is not captured.
- `stoi(...) - 1` on `INT_MIN` overflows `int` in C++ (undefined behaviour). The model gives the mathematical value `INT_MIN - 1`.
- In `src/ObjLoader.cpp`, when no word is left but the end of the file has not yet been reached, `while (!file.eof())` runs once more. This happens after the final word when the file ends in white space, and also for an empty or all-white-space file. That turn's `file >> lineHeader` fails and leaves the buffer uninitialised, and the turn branches on it. The model ends the loop when no words are left.
- A header word of 128 or more characters overflows `char lineHeader[128]` in `src/ObjLoader.cpp`. The model stops the load at such a word (`HeaderOverflow`) rather than modelling the overflow.
- The sphere intersection test is float arithmetic and is not part of this model. `castRay` takes it as a parameter `rayIntersect`.
- The float mapping from a pixel to its ray direction, with its aspect-ratio scaling and normalisation, is not modelled. `render` takes it as a parameter `rayDirection`.
- SDL is not modelled: the window, the events, the drawing colour and `pixel` itself. Each `pixel` call is recorded as one entry of the drawn sequence.
- `src/sphere.cpp`, `src/triangle.h`, `src/skybox.cpp` and the shader, print and plain header files are not part of this model.
