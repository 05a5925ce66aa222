# CSC405 WebGL demos: verified model of the geometry and colour code

This project models in Dafny the parts of the CSC405 WebGL exercises that compute
something, and proves what they promise. Four pieces are covered:

- `gasket.dfy` (module `Gasket`) covers the Sierpinski gasket of `module-2/src/gasket.js`.
  - `addTriangle` pushes three points onto a shared list.
  - `divideTriangle` recurses on the three corner sub-triangles of a triangle and appends their points to that list.
  - `createTriangles` runs the recursion on the seed triangle, starting from a fresh list.
  - The shared list is a `PointList` object with a `seq` field, and the methods modify it in place.
  - The methods are proved against the value-level definition `Gasket`, and the facts about counts, order, corners and the bounding box are proved about `Gasket`.
- `tetrahedron.dfy` (module `Tetrahedron`) covers the tetrahedron of `module-6/src/index.js`.
  - The globals `data` and `k` become the fields of a `Mesh` object.
  - `triangle` writes three vertices with JavaScript array-assignment semantics. Writing past the end grows the array and leaves holes, which the `Slot` type models.
  - `tetrahedron` emits the four faces of the seed table `v`.
  - The face list is also written as a table of vertex indices. About that table the model proves closure, consistent winding and outward orientation.
- `color.dfy` (module `Color`) covers the shared `hexToFloatColor` of `common/color.js`.
  - The function strips one optional leading `#`, parses three two-digit base-16 bytes and divides each by 255.
  - A formatter `FormatColor` writes three bytes as `"#rrggbb"`. It is the parser's round-trip partner.
- `cube.dfy` (module `Cube`) covers the data of `module-4/src/index.js`.
  - It holds that file's copy of `hexToFloatColor` and `createColor`.
  - It holds the constant vertex and index tables of the cube, with their shape and face-structure facts.

Two facts about the code:

- `divideTriangle` recurses three times per level. Depth `n` therefore yields `3^n` triangles (`3 * 3^n` points).
- The tetrahedron's seed table is the one in `module-6/src/index.js:34-39`.
  - `v0` is `(0, 0, 1)`; the other three vertices have `z = -0.333333`.

Representation of values:

- JavaScript numbers are modelled as Dafny `real`s.
- The glMatrix vectors become the datatypes `Vec3` and `Vec4`.
- Strings are `seq<char>`.

## Model

| member | source | states |
|---|---|---|
| Gasket.Midpoint | module-2/src/gasket.js:79-81 | the midpoint is equally far from both ends, coordinate by coordinate |
| Gasket.Gasket | module-2/src/gasket.js:73-90 | the points `divideTriangle` appends, in order; depth `n` gives exactly `3 * 3^n` points |
| Gasket.GasketStartsWithA | module-2/src/gasket.js:86 | at every depth the first point appended is the corner `a` |
| Gasket.GasketCornerPositions | module-2/src/gasket.js:86-88 | for `n >= 1` the three recursive blocks open with `a`, `c` and `b` at positions `0`, `3^n` and `2 * 3^n` |
| Gasket.GasketKeepsCorners | module-2/src/gasket.js:86-88 | all three corners `a`, `b`, `c` appear in the output at any depth |
| Gasket.GasketDepthOne | module-2/src/gasket.js:79-88 | depth 1 emits exactly `[a,ab,ac, c,ac,bc, b,bc,ab]` |
| Gasket.CornerIsNoMidpoint | module-2/src/gasket.js:79-81 | in a non-collinear triangle a corner is never one of the three midpoints |
| Gasket.CentreTriangleDropped | module-2/src/gasket.js:86-88 | no triangle emitted at depth 1 has the centre vertex set `{ab, bc, ac}` |
| Gasket.GasketInBox | module-2/src/gasket.js:79-88 | if the corners lie in `[-1,1]^2` then every emitted point does too |
| Gasket.SeedIsProper | module-2/src/gasket.js:24-31 | the seed triangle is not degenerate |
| Gasket.PointList.constructor | module-2/src/gasket.js:95 | a fresh point list is empty |
| Gasket.AddTriangle | module-2/src/gasket.js:67-69 | the list becomes its old contents followed by `a, b, c` and nothing else |
| Gasket.DivideTriangle | module-2/src/gasket.js:73-90 | the list becomes its old contents followed by `Gasket(a,b,c,count)`; earlier entries are unchanged; the length grows by `3 * 3^count`; with `count == 0` exactly `a, b, c` is appended |
| Gasket.CreateTriangles | module-2/src/gasket.js:94-98 | the result is the seed's gasket: `3 * 3^n` points, starting with the first seed corner, holding all three seed corners, all within `[-1,1]^2` |
| Tetrahedron.SeedVertices | module-6/src/index.js:34-39 | four seed vertices, pairwise distinct, each with `w = 1` |
| Tetrahedron.Store | module-6/src/index.js:44-48 | `data[i] = x` on a JavaScript array: the new length is the old one or `i + 1`; slot `i` holds `x`; other slots keep their value or are holes |
| Tetrahedron.Emitted | module-6/src/index.js:52-57 | a face list emits three vertices per face: vertices `3n`, `3n+1`, `3n+2` are the corners of face `n` in order |
| Tetrahedron.Faces | module-6/src/index.js:53-56 | the four faces `tetrahedron` emits, in order, as indices into `v` |
| Tetrahedron.FacesAreProper | module-6/src/index.js:52-57 | four faces, each with three distinct vertices |
| Tetrahedron.EachVertexOnThreeFaces | module-6/src/index.js:52-57 | every seed vertex lies on exactly three faces |
| Tetrahedron.EveryDirectedEdgeOnce | module-6/src/index.js:52-57 | every directed edge `i -> j` between distinct vertices is traversed by exactly one face |
| Tetrahedron.TouchingIsBothDirections | module-6/src/index.js:52-57 | for faces with distinct corners, the faces on the edge `{i, j}` number those traversing `i -> j` plus those traversing `j -> i` |
| Tetrahedron.EveryEdgeOnTwoFaces | module-6/src/index.js:52-57 | every one of the six edges lies on exactly two faces (a closed surface) |
| Tetrahedron.FacesWoundOutward | module-6/src/index.js:34-57 | every face's normal `(b-a) x (c-a)` points away from the origin |
| Tetrahedron.EmittedTetrahedron | module-6/src/index.js:52-57 | the faces emit exactly `v0,v1,v2, v3,v2,v1, v0,v3,v1, v0,v2,v3` |
| Tetrahedron.EmittedArePoints | module-6/src/index.js:34-57 | every emitted vertex has `w = 1` |
| Tetrahedron.Mesh.constructor | module-6/src/index.js:40-41 | the initial state is `data = []`, `k = 0`, with nothing written |
| Tetrahedron.Mesh.Contents | module-6/src/index.js:40-41 | in a hole-free state the written vertices are the `k` entries of `data` |
| Tetrahedron.Mesh.Triangle | module-6/src/index.js:43-50 | `k` grows by 3; `data[k..k+2]` hold `a, b, c`; every other slot is unchanged or a new hole; `data.length == k` without holes is preserved, and the contents grow by `[a, b, c]` |
| Tetrahedron.Mesh.Tetrahedron | module-6/src/index.js:52-57 | `k` grows by 12; the twelve slots from the old `k` hold `Emitted(Faces)`; every other slot is unchanged or a hole; the hole-free invariant is preserved |
| Tetrahedron.BuildTetrahedron | module-6/src/index.js:40-57 | from `data = []`, `k = 0`, one `tetrahedron()` leaves exactly the twelve face vertices, all with `w = 1` |
| Color.DigitValue | common/color.js:7-9 | a hex digit's value is below 16; it is below 10 exactly for decimal digits |
| Color.HexChar | common/color.js:7-9 | the lower-case digit for a value below 16, inverse to `DigitValue` |
| Color.StripHash | common/color.js:4 | exactly one leading `#`, if present, is removed; otherwise the string is unchanged |
| Color.ParseByte | common/color.js:7-9 | two hex digits parse to a byte below 256 |
| Color.Channel | common/color.js:7-9 | byte `i` of a colour, read from characters `2i` and `2i+1`, is below 256 |
| Color.HexToFloatColor | common/color.js:2-18 | exactly three components; component `i` is byte `i` over 255 and lies in `[0, 1]` |
| Color.HashIsOptional | common/color.js:4 | `"#" + s` and `s` parse equally; of `"##" + s` only one `#` is removed, which leaves it outside the parser's domain |
| Color.ChannelsAreIndependent | common/color.js:7-9 | component `i` depends only on characters `2i` and `2i+1` of the stripped string |
| Color.Black | common/color.js:7-14 | `"#000000"` parses to `[0, 0, 0]` |
| Color.White | common/color.js:7-14 | `"#ffffff"` parses to `[1, 1, 1]` |
| Color.DigitValueLower | common/color.js:7-9 | lower-casing a hex digit keeps it a hex digit with the same value |
| Color.ParseByteLower | common/color.js:7-9 | lower-casing two digits leaves the parsed byte unchanged |
| Color.LowerStaysValid | common/color.js:4-9 | lower-casing keeps a colour string in the parser's domain and commutes with stripping the `#` |
| Color.ChannelLower | common/color.js:7-9 | lower-casing leaves every byte of a colour unchanged |
| Color.LowerCaseParsesEqually | common/color.js:7-14 | a colour and its lower-cased spelling parse to the same components |
| Color.CaseInsensitive | common/color.js:7-14 | two spellings that differ only in letter case parse equally |
| Color.ByteToHex | common/color.js:7-9 | a byte is written as two hex digits |
| Color.FormatColor | common/color.js:4-9 | three bytes are written as a seven-character string behind one `#` |
| Color.ParseByteToHex | common/color.js:7-9 | writing a byte as two digits and parsing it back gives the byte |
| Color.ByteToHexOfParse | common/color.js:7-9 | parsing two digits and writing the byte back gives the digits lower-cased |
| Color.ParseFormattedColor | common/color.js:4-14 | a formatted colour `"#rrggbb"` parses to `[r/255, g/255, b/255]` |
| Color.FormatParsedColor | common/color.js:4-9 | formatting the three bytes of a colour gives back its six digits, lower-cased, behind one `#` |
| Cube.HexToFloatColor | module-4/src/index.js:35-51 | three components, each in `[0, 1]` |
| Cube.SameAsSharedParser | module-4/src/index.js:35-51 | the copy returns exactly what the shared `hexToFloatColor` returns, on every input in its domain |
| Cube.CreateColor | module-4/src/index.js:54-58 | the vector holds the three parsed components in r, g, b order, each in `[0, 1]` |
| Cube.VertexRowIsUnit | module-4/src/index.js:109-120 | every coordinate of each labelled row is `±1` |
| Cube.VertexRowIsFlat | module-4/src/index.js:109-120 | the 4 corners of each labelled row share one fixed coordinate |
| Cube.IndexRowFacts | module-4/src/index.js:129-140 | each row of indices has six entries within `4f..4f+3` and uses all four of them; its two triangles each have distinct corners |
| Cube.SixBlocks | module-4/src/index.js:108-121 | entry `i` of block `f` of six equal-width blocks sits at `w*f + i` in their concatenation |
| Cube.VertexRowInTable | module-4/src/index.js:108-121 | the flat vertex table has 72 entries, and entry `12f + i` is entry `i` of labelled row `f` |
| Cube.IndexRowInTable | module-4/src/index.js:128-141 | the flat index table has 36 entries, and the indices of face `f` are labelled row `f` |
| Cube.VertexTableShape | module-4/src/index.js:108-121 | 72 numbers, that is 24 vertices of 3 coordinates, all `±1` |
| Cube.FaceIndexInRange | module-4/src/index.js:128-141 | each index of face `f` lies within `4f..4f+3` |
| Cube.IndexTableShape | module-4/src/index.js:128-197 | 36 indices, that is 12 triangles, the count drawn, all below 24 |
| Cube.FaceUsesItsCorners | module-4/src/index.js:128-141 | the indices of face `f` are exactly the vertices `4f..4f+3` |
| Cube.FaceSharesCoordinate | module-4/src/index.js:109-120 | the vertices of face `f` share its fixed coordinate: Top y=1, Left x=-1, Right x=1, Front z=1, Back z=-1, Bottom y=-1 |
| Cube.TrianglesLieOnTheirFace | module-4/src/index.js:108-141 | each of the 12 triangles has three distinct in-range corners on the plane of its face |

## Left out

- Shader sources, shader compilation and program linking, buffer upload, attribute and uniform binding, and the `render`/`requestAnimationFrame` loops are left out. They are WebGL calls with GPU side effects.
- Canvas and context setup are left out: `createCanvas` and `initWebGL` (common/webgl.js), and each `main`. The `initCanvas` that the demos call is not defined in the files this model covers. All of this is DOM plumbing, and the module-8 demo only clears the screen.
- The module-5 keyboard handler is left out. It is UI event wiring, and its camera state is only logged, never drawn.
- `toRadian`, `rotateX`, `rotateY`, `lookAt` and `perspective` are left out. They are floating-point trigonometry or calls into glMatrix, which is not part of this model.
- Floating-point rounding is not modelled. Coordinates and colour components are exact reals, so `r / 255` and the midpoints carry no rounding. The `Float32Array` and `Uint16Array` conversions are not modelled either.
- Unit length of the tetrahedron's seed vertices is not stated. With the six-digit decimal constants it holds only approximately.
- Color.HexToFloatColor: defined only on strings that have six hex digits after the optional `#`. On other inputs JavaScript's `parseInt` yields `NaN`, partial parses, or signed or whitespace-prefixed values (`"-fffff"` gives a red byte of `-15`, a component outside `[0, 1]`), which the model does not cover. Characters after the sixth are ignored, as `substring` ignores them.
- Cube.HexToFloatColor: same input restriction as the shared parser.
- Gasket.DivideTriangle: the depth is a natural number. The page passes `slider.value`, a string, as the first depth (module-2/src/gasket.js:162). A negative or non-integer depth never reaches `count == 0`: the recursion exhausts the call stack and throws a `RangeError`, which the model does not cover.
- Tetrahedron.Mesh.Contents: the vertex list is defined only for hole-free states. After a `triangle` call past the end of `data`, the model states the holes slot by slot instead.
- The tetrahedron demo never calls `tetrahedron()` from `main`. The model states what the call would do.
- Sharing of vertex objects is not modelled. JavaScript pushes the same point objects `ab`, `ac`, `bc` at several positions of the output, and `tetrahedron` stores each `v[i]` by reference three times (module-6/src/index.js:53-56). The model stores points and vertices as values. Nothing in the source mutates these objects, so a later change through one reference is the only behaviour the model does not capture.
- Gasket.Midpoint: `mix` (module-2/src/gasket.js:79-81) comes from a helper library the page loads, which is not part of this model. It is taken to be the componentwise midpoint `(a + b) / 2`. `GasketInBox` depends on that choice.
