/** The rotating-cube demo's data (module-4/src/index.js): its own copy of the hex
    colour parser, `createColor`, and the constant vertex and index tables that
    `drawElements` consumes.

    The tables are the source's flat arrays, written as the concatenation of their
    six labelled face rows (Top, Left, Right, Front, Back, Bottom).
 */
module Cube {
  import Color

  /** A glMatrix `vec3`, as three reals. */
  datatype Vec3 = Vec3(x: real, y: real, z: real)

  /** This file's `hexToFloatColor`, a copy of the shared one. */
  function HexToFloatColor(hex: string): (rgb: seq<real>)
    requires Color.ValidHex(hex)
    ensures |rgb| == 3
    ensures forall i :: 0 <= i < 3 ==> 0.0 <= rgb[i] <= 1.0
  {
    var s := Color.StripHash(hex);
    assert forall i :: 0 <= i < 6 ==> Color.IsHexDigit(s[i]);
    var r := Color.ParseByte(s[0..2]);
    var g := Color.ParseByte(s[2..4]);
    var b := Color.ParseByte(s[4..6]);
    [r as real / 255.0, g as real / 255.0, b as real / 255.0]
  }

  /** The copy behaves exactly like the shared parser. */
  lemma SameAsSharedParser(hex: string)
    requires Color.ValidHex(hex)
    ensures HexToFloatColor(hex) == Color.HexToFloatColor(hex)
  {
    var s := Color.StripHash(hex);
    assert s[0..2] == s[2 * 0 .. 2 * 0 + 2];
    assert s[2..4] == s[2 * 1 .. 2 * 1 + 2];
    assert s[4..6] == s[2 * 2 .. 2 * 2 + 2];
  }

  /** `createColor`: a `vec3` holding the parsed components in r, g, b order. */
  function CreateColor(hex: string): (c: Vec3)
    requires Color.ValidHex(hex)
    ensures [c.x, c.y, c.z] == Color.HexToFloatColor(hex)
    ensures 0.0 <= c.x <= 1.0 && 0.0 <= c.y <= 1.0 && 0.0 <= c.z <= 1.0
  {
    var rgb := HexToFloatColor(hex);
    SameAsSharedParser(hex);
    Vec3(rgb[0], rgb[1], rgb[2])
  }

  // The vertex table: four corners of 3 coordinates per face.
  const TopVertices: seq<real> := [-1.0, 1.0, -1.0, -1.0, 1.0, 1.0, 1.0, 1.0, 1.0, 1.0, 1.0, -1.0]
  const LeftVertices: seq<real> := [-1.0, 1.0, 1.0, -1.0, -1.0, 1.0, -1.0, -1.0, -1.0, -1.0, 1.0, -1.0]
  const RightVertices: seq<real> := [1.0, 1.0, 1.0, 1.0, -1.0, 1.0, 1.0, -1.0, -1.0, 1.0, 1.0, -1.0]
  const FrontVertices: seq<real> := [1.0, 1.0, 1.0, 1.0, -1.0, 1.0, -1.0, -1.0, 1.0, -1.0, 1.0, 1.0]
  const BackVertices: seq<real> := [1.0, 1.0, -1.0, 1.0, -1.0, -1.0, -1.0, -1.0, -1.0, -1.0, 1.0, -1.0]
  const BottomVertices: seq<real> := [-1.0, -1.0, -1.0, -1.0, -1.0, 1.0, 1.0, -1.0, 1.0, 1.0, -1.0, -1.0]

  /** `vertices`. */
  const Vertices: seq<real> :=
    TopVertices + LeftVertices + RightVertices + FrontVertices + BackVertices + BottomVertices

  // The index table: two triangles per face.
  const TopIndices: seq<nat> := [0, 1, 2, 0, 2, 3]
  const LeftIndices: seq<nat> := [5, 4, 6, 6, 4, 7]
  const RightIndices: seq<nat> := [8, 9, 10, 8, 10, 11]
  const FrontIndices: seq<nat> := [13, 12, 14, 15, 14, 12]
  const BackIndices: seq<nat> := [16, 17, 18, 16, 18, 19]
  const BottomIndices: seq<nat> := [21, 20, 22, 22, 20, 23]

  /** `indices`. */
  const Indices: seq<nat> :=
    TopIndices + LeftIndices + RightIndices + FrontIndices + BackIndices + BottomIndices

  /** The vertex rows and index rows, face by face: Top, Left, Right, Front, Back, Bottom. */
  const VertexRows: seq<seq<real>> :=
    [TopVertices, LeftVertices, RightVertices, FrontVertices, BackVertices, BottomVertices]
  const IndexRows: seq<seq<nat>> :=
    [TopIndices, LeftIndices, RightIndices, FrontIndices, BackIndices, BottomIndices]

  /** The axis (0 = x, 1 = y, 2 = z) and the value every corner of face `f` shares:
      Top y = 1, Left x = -1, Right x = 1, Front z = 1, Back z = -1, Bottom y = -1. */
  const FixedAxis: seq<nat> := [1, 0, 0, 2, 2, 1]
  const FixedValue: seq<real> := [1.0, -1.0, 1.0, 1.0, -1.0, -1.0]

  predicate IsUnit(r: real)
  {
    r == 1.0 || r == -1.0
  }

  /** The coordinate `axis` of vertex `n`. */
  function Coord(n: nat, axis: nat): real
    requires n < 24 && axis < 3
  {
    assert |Vertices| == 72;
    Vertices[3 * n + axis]
  }

  /** The six entries of `indices` that draw face `f`. */
  function FaceIndices(f: nat): seq<nat>
    requires f < 6
  {
    assert |Indices| == 36;
    Indices[6 * f .. 6 * f + 6]
  }

  /** The number of indices `drawElements` is asked to draw: `indices.length`. */
  function DrawCount(): nat
  {
    |Indices|
  }

  /** Each vertex row holds four corners whose coordinates are `+1` or `-1`. */
  lemma VertexRowIsUnit(f: nat)
    requires f < 6
    ensures |VertexRows[f]| == 12 && forall i :: 0 <= i < 12 ==> IsUnit(VertexRows[f][i])
  {
  }

  /** The four corners in vertex row `f` share the face's fixed coordinate. */
  lemma VertexRowIsFlat(f: nat)
    requires f < 6
    ensures |VertexRows[f]| == 12 && FixedAxis[f] < 3
    ensures forall c :: 0 <= c < 4 ==> VertexRows[f][3 * c + FixedAxis[f]] == FixedValue[f]
  {
  }

  /** Index row `f` names only vertices `4f .. 4f + 3`, all four of them, in two
      triangles of three distinct indices. */
  lemma IndexRowFacts(f: nat)
    requires f < 6
    ensures |IndexRows[f]| == 6
    ensures forall j :: 0 <= j < 6 ==> 4 * f <= IndexRows[f][j] < 4 * f + 4
    ensures forall n :: 4 * f <= n < 4 * f + 4 ==> n in IndexRows[f]
    ensures forall t :: 0 <= t < 2 ==>
              IndexRows[f][3 * t] != IndexRows[f][3 * t + 1] &&
              IndexRows[f][3 * t + 1] != IndexRows[f][3 * t + 2] &&
              IndexRows[f][3 * t + 2] != IndexRows[f][3 * t]
  {
  }

  /** Element `i` of block `f` of six equal-width blocks laid end to end. */
  lemma SixBlocks<T>(r0: seq<T>, r1: seq<T>, r2: seq<T>, r3: seq<T>, r4: seq<T>, r5: seq<T>,
                                        w: nat, f: nat, i: nat)
    requires |r0| == w && |r1| == w && |r2| == w && |r3| == w && |r4| == w && |r5| == w
    requires f < 6 && i < w
    ensures |r0 + r1 + r2 + r3 + r4 + r5| == 6 * w
    ensures (r0 + r1 + r2 + r3 + r4 + r5)[w * f + i] == [r0, r1, r2, r3, r4, r5][f][i]
  {
    var all := r0 + r1 + r2 + r3 + r4 + r5;
    if f == 0 {
      assert all[i] == r0[i];
    } else if f == 1 {
      assert all[w + i] == r1[i];
    } else if f == 2 {
      assert all[2 * w + i] == r2[i];
    } else if f == 3 {
      assert all[3 * w + i] == r3[i];
    } else if f == 4 {
      assert all[4 * w + i] == r4[i];
    } else {
      assert all[5 * w + i] == r5[i];
    }
  }

  /** Face `f`'s vertex row sits at positions `12f .. 12f + 12` of `vertices`. */
  lemma VertexRowInTable(f: nat, i: nat)
    requires f < 6 && i < 12
    ensures |Vertices| == 72 && |VertexRows[f]| == 12 && Vertices[12 * f + i] == VertexRows[f][i]
  {
    var r0, r1, r2, r3, r4, r5 := TopVertices, LeftVertices, RightVertices, FrontVertices, BackVertices, BottomVertices;
    assert |r0| == 12 && |r1| == 12 && |r2| == 12 && |r3| == 12 && |r4| == 12 && |r5| == 12;
    SixBlocks(r0, r1, r2, r3, r4, r5, 12, f, i);
    assert Vertices == r0 + r1 + r2 + r3 + r4 + r5;
    assert VertexRows == [r0, r1, r2, r3, r4, r5];
  }

  /** Face `f`'s index row sits at positions `6f .. 6f + 6` of `indices`. */
  lemma IndexRowInTable(f: nat)
    requires f < 6
    ensures |Indices| == 36 && FaceIndices(f) == IndexRows[f]
  {
    var r0, r1, r2, r3, r4, r5 := TopIndices, LeftIndices, RightIndices, FrontIndices, BackIndices, BottomIndices;
    assert |r0| == 6 && |r1| == 6 && |r2| == 6 && |r3| == 6 && |r4| == 6 && |r5| == 6;
    assert Indices == r0 + r1 + r2 + r3 + r4 + r5;
    assert IndexRows == [r0, r1, r2, r3, r4, r5];
  }

  /** 72 numbers, that is 24 vertices of 3 coordinates, all of them `+1` or `-1`. */
  lemma VertexTableShape()
    ensures |Vertices| == 72 && |Vertices| == 3 * 24
    ensures forall i :: 0 <= i < |Vertices| ==> IsUnit(Vertices[i])
  {
    VertexRowInTable(0, 0);
    forall i | 0 <= i < |Vertices| ensures IsUnit(Vertices[i]) {
      var f := i / 12;
      assert 12 * f <= i < 12 * f + 12;
      VertexRowIsUnit(f);
      VertexRowInTable(f, i - 12 * f);
    }
  }

  /** The six indices of face `f` name only vertices `4f .. 4f + 3`. */
  lemma FaceIndexInRange(f: nat, j: nat)
    requires f < 6 && j < 6
    ensures |Indices| == 36
    ensures 4 * f <= Indices[6 * f + j] < 4 * f + 4
  {
    IndexRowFacts(f);
    IndexRowInTable(f);
    assert Indices[6 * f + j] == FaceIndices(f)[j];
  }

  /** 36 indices, so `drawElements` draws 12 triangles, and each index names one of
      the 24 vertices. */
  lemma IndexTableShape()
    ensures DrawCount() == 36 && DrawCount() == 3 * 12
    ensures forall i :: 0 <= i < |Indices| ==> Indices[i] < 24
  {
    IndexRowInTable(0);
    forall i | 0 <= i < |Indices| ensures Indices[i] < 24 {
      var f := i / 6;
      assert 6 * f <= i < 6 * f + 6;
      FaceIndexInRange(f, i - 6 * f);
    }
  }

  /** The two triangles of face `f` use exactly its four vertices `4f .. 4f + 3`. */
  lemma FaceUsesItsCorners(f: nat)
    requires f < 6
    ensures (set n | n in FaceIndices(f)) == {4 * f, 4 * f + 1, 4 * f + 2, 4 * f + 3}
  {
    IndexRowFacts(f);
    IndexRowInTable(f);
    var row := IndexRows[f];
    forall n | n in row ensures 4 * f <= n < 4 * f + 4 {
      var j :| 0 <= j < 6 && row[j] == n;
    }
  }

  /** The four vertices of each labelled face share its fixed coordinate. */
  lemma FaceSharesCoordinate(f: nat, n: nat)
    requires f < 6 && 4 * f <= n < 4 * f + 4
    ensures FixedAxis[f] < 3 && Coord(n, FixedAxis[f]) == FixedValue[f]
  {
    VertexRowIsFlat(f);
    var c := n - 4 * f;
    VertexRowInTable(f, 3 * c + FixedAxis[f]);
    assert 3 * n + FixedAxis[f] == 12 * f + (3 * c + FixedAxis[f]);
  }

  /** Every triangle drawn is proper and lies in the plane of its face: triangle `t`
      belongs to face `t / 2`, its three indices differ, and its corners share that
      face's fixed coordinate. */
  lemma TrianglesLieOnTheirFace(t: nat)
    requires t < 12
    ensures |Indices| == 36
    ensures var i0, i1, i2 := Indices[3 * t], Indices[3 * t + 1], Indices[3 * t + 2];
            i0 != i1 && i1 != i2 && i2 != i0 &&
            i0 < 24 && i1 < 24 && i2 < 24 &&
            FixedAxis[t / 2] < 3 &&
            Coord(i0, FixedAxis[t / 2]) == FixedValue[t / 2] &&
            Coord(i1, FixedAxis[t / 2]) == FixedValue[t / 2] &&
            Coord(i2, FixedAxis[t / 2]) == FixedValue[t / 2]
  {
    var f := t / 2;
    var h := t - 2 * f;
    assert 0 <= h < 2 && 3 * t == 6 * f + 3 * h;
    IndexRowFacts(f);
    IndexRowInTable(f);
    FaceIndexInRange(f, 3 * h);
    FaceIndexInRange(f, 3 * h + 1);
    FaceIndexInRange(f, 3 * h + 2);
    assert Indices[3 * t] == FaceIndices(f)[3 * h];
    assert Indices[3 * t + 1] == FaceIndices(f)[3 * h + 1];
    assert Indices[3 * t + 2] == FaceIndices(f)[3 * h + 2];
    FaceSharesCoordinate(f, Indices[3 * t]);
    FaceSharesCoordinate(f, Indices[3 * t + 1]);
    FaceSharesCoordinate(f, Indices[3 * t + 2]);
  }
}
