/** The tetrahedron face emitter (module-6/src/index.js).

    The globals `data` (a JavaScript array) and `k` (a write cursor) become the
    fields of a `Mesh`; `triangle` writes three vertices at the cursor and
    `tetrahedron` emits the four faces of the seed table `v`. The face list is also
    given as a table of vertex indices, about which the closure and winding facts
    of the surface are proved.
 */
module Tetrahedron {

  /** A homogeneous point `vec4.fromValues(x, y, z, w)`. */
  datatype Vec4 = Vec4(x: real, y: real, z: real, w: real)

  /** The seed vertices `v`. */
  const V: seq<Vec4> := [
    Vec4(0.0, 0.0, 1.0, 1.0),
    Vec4(0.0, 0.942809, -0.333333, 1.0),
    Vec4(-0.816497, -0.471405, -0.333333, 1.0),
    Vec4(0.816497, -0.471405, -0.333333, 1.0)
  ]

  /** Every seed vertex is a point (`w = 1`), and the four are pairwise distinct. */
  lemma SeedVertices()
    ensures |V| == 4
    ensures forall i :: 0 <= i < |V| ==> V[i].w == 1.0
    ensures forall i, j :: 0 <= i < j < |V| ==> V[i] != V[j]
  {
  }

  /** One element of a JavaScript array: a hole, or a stored vertex. */
  datatype Slot = Hole | Holds(v: Vec4)

  /** The assignment `s[i] = x` on a JavaScript array: it overwrites an element, or
      grows the array to `i + 1` elements, leaving holes between the old end and `i`. */
  function Store(s: seq<Slot>, i: nat, x: Vec4): (r: seq<Slot>)
    ensures |r| == if i < |s| then |s| else i + 1
    ensures r[i] == Holds(x)
    ensures forall j :: 0 <= j < |r| && j != i ==> r[j] == if j < |s| then s[j] else Hole
  {
    if i < |s| then s[i := Holds(x)] else s + seq(i - |s|, _ => Hole) + [Holds(x)]
  }

  function Max(a: nat, b: nat): nat
  {
    if a < b then b else a
  }

  /** An index into `V`. */
  type Index = i: nat | i < 4

  /** A face as three indices into `V`, in drawing order. */
  datatype Face = Face(a: Index, b: Index, c: Index)

  /** The faces `tetrahedron` emits, in order. */
  const Faces: seq<Face> := [Face(0, 1, 2), Face(3, 2, 1), Face(0, 3, 1), Face(0, 2, 3)]

  /** The vertices a list of faces emits, three per face. */
  function Emitted(fs: seq<Face>): (ps: seq<Vec4>)
    ensures |ps| == 3 * |fs|
    ensures forall n :: 0 <= n < |fs| ==>
              ps[3 * n] == V[fs[n].a] && ps[3 * n + 1] == V[fs[n].b] && ps[3 * n + 2] == V[fs[n].c]
  {
    if fs == [] then []
    else
      var rest := Emitted(fs[1..]);
      assert forall n :: 1 <= n < |fs| ==> fs[n] == fs[1..][n - 1];
      [V[fs[0].a], V[fs[0].b], V[fs[0].c]] + rest
  }

  /** Each face uses three distinct vertices of the seed. */
  lemma FacesAreProper()
    ensures |Faces| == 4
    ensures forall f :: f in Faces ==> f.a != f.b && f.b != f.c && f.c != f.a
  {
  }

  predicate Uses(f: Face, i: nat)
  {
    f.a == i || f.b == i || f.c == i
  }

  /** The face traverses the directed edge `i -> j`. */
  predicate HasEdge(f: Face, i: nat, j: nat)
  {
    (f.a == i && f.b == j) || (f.b == i && f.c == j) || (f.c == i && f.a == j)
  }

  /** Number of faces that use vertex `i`. */
  function CountUsing(fs: seq<Face>, i: nat): nat
  {
    if fs == [] then 0 else (if Uses(fs[0], i) then 1 else 0) + CountUsing(fs[1..], i)
  }

  /** Number of faces that traverse the directed edge `i -> j`. */
  function CountEdge(fs: seq<Face>, i: nat, j: nat): nat
  {
    if fs == [] then 0 else (if HasEdge(fs[0], i, j) then 1 else 0) + CountEdge(fs[1..], i, j)
  }

  /** Number of faces that hold both `i` and `j`. */
  function CountTouching(fs: seq<Face>, i: nat, j: nat): nat
  {
    if fs == [] then 0 else (if Uses(fs[0], i) && Uses(fs[0], j) then 1 else 0) + CountTouching(fs[1..], i, j)
  }

  /** Each seed vertex lies on exactly three of the four faces. */
  lemma EachVertexOnThreeFaces()
    ensures forall i :: 0 <= i < |V| ==> CountUsing(Faces, i) == 3
  {
    assert CountUsing(Faces, 0) == 3;
    assert CountUsing(Faces, 1) == 3;
    assert CountUsing(Faces, 2) == 3;
    assert CountUsing(Faces, 3) == 3;
  }

  /** Consistent winding: every directed edge between two distinct vertices is
      traversed by exactly one face, so each edge is crossed once each way. */
  lemma EveryDirectedEdgeOnce()
    ensures forall i, j :: 0 <= i < |V| && 0 <= j < |V| && i != j ==> CountEdge(Faces, i, j) == 1
  {
    forall i, j | 0 <= i < |V| && 0 <= j < |V| && i != j
      ensures CountEdge(Faces, i, j) == 1
    {
      if i == 0 {
        assert CountEdge(Faces, 0, 1) == 1 && CountEdge(Faces, 0, 2) == 1 && CountEdge(Faces, 0, 3) == 1;
      } else if i == 1 {
        assert CountEdge(Faces, 1, 0) == 1 && CountEdge(Faces, 1, 2) == 1 && CountEdge(Faces, 1, 3) == 1;
      } else if i == 2 {
        assert CountEdge(Faces, 2, 0) == 1 && CountEdge(Faces, 2, 1) == 1 && CountEdge(Faces, 2, 3) == 1;
      } else {
        assert CountEdge(Faces, 3, 0) == 1 && CountEdge(Faces, 3, 1) == 1 && CountEdge(Faces, 3, 2) == 1;
      }
    }
  }

  /** In faces with three distinct corners, a face holding both `i` and `j` traverses
      the edge between them in exactly one direction. */
  lemma {:induction false} TouchingIsBothDirections(fs: seq<Face>, i: nat, j: nat)
    requires i != j
    requires forall f :: f in fs ==> f.a != f.b && f.b != f.c && f.c != f.a
    ensures CountTouching(fs, i, j) == CountEdge(fs, i, j) + CountEdge(fs, j, i)
  {
    if fs != [] {
      TouchingIsBothDirections(fs[1..], i, j);
    }
  }

  /** Closure: each of the six edges lies on exactly two faces. */
  lemma EveryEdgeOnTwoFaces()
    ensures forall i, j :: 0 <= i < |V| && 0 <= j < |V| && i != j ==> CountTouching(Faces, i, j) == 2
  {
    FacesAreProper();
    EveryDirectedEdgeOnce();
    forall i, j | 0 <= i < |V| && 0 <= j < |V| && i != j
      ensures CountTouching(Faces, i, j) == 2
    {
      TouchingIsBothDirections(Faces, i, j);
    }
  }

  /** The triple product `((q - p) x (r - p)) . p` of the spatial parts: positive
      when the normal of the triangle `p q r` points away from the origin. */
  function Orientation(p: Vec4, q: Vec4, r: Vec4): real
  {
    var ux, uy, uz := q.x - p.x, q.y - p.y, q.z - p.z;
    var vx, vy, vz := r.x - p.x, r.y - p.y, r.z - p.z;
    (uy * vz - uz * vy) * p.x + (uz * vx - ux * vz) * p.y + (ux * vy - uy * vx) * p.z
  }

  /** Every face is wound counter-clockwise seen from outside: its normal
      `(b - a) x (c - a)` points away from the origin, which lies inside the solid. */
  lemma FacesWoundOutward()
    ensures forall f :: f in Faces ==> Orientation(V[f.a], V[f.b], V[f.c]) > 0.0
  {
  }

  /** The twelve vertices `tetrahedron` writes, face by face. */
  lemma EmittedTetrahedron()
    ensures |Emitted(Faces)| == 12
    ensures Emitted(Faces) == [V[0], V[1], V[2], V[3], V[2], V[1], V[0], V[3], V[1], V[0], V[2], V[3]]
  {
    var e := Emitted(Faces);
    assert e[0] == V[0] && e[1] == V[1] && e[2] == V[2];
    assert e[3] == V[3] && e[4] == V[2] && e[5] == V[1];
    assert e[6] == V[0] && e[7] == V[3] && e[8] == V[1];
    assert e[9] == V[0] && e[10] == V[2] && e[11] == V[3];
  }

  /** Every vertex a face list emits is a point of the seed, so has `w = 1`. */
  lemma EmittedArePoints()
    ensures forall p :: p in Emitted(Faces) ==> p.w == 1.0
  {
    var e := Emitted(Faces);
    forall p | p in e ensures p.w == 1.0 {
      var j :| 0 <= j < |e| && e[j] == p;
      var n := j / 3;
      assert n < |Faces|;
      assert e[j] == V[Faces[n].a] || e[j] == V[Faces[n].b] || e[j] == V[Faces[n].c];
    }
  }

  /** The module-level state: the vertex array `data` and its write cursor `k`. */
  class Mesh {
    var data: seq<Slot>
    var k: nat

    /** The state as first initialised: `data = []`, `k = 0`. */
    constructor ()
      ensures data == [] && k == 0 && Valid() && Contents() == []
    {
      data := [];
      k := 0;
    }

    /** The cursor sits at the end of a hole-free array. */
    ghost predicate Valid()
      reads this
    {
      |data| == k && forall i :: 0 <= i < |data| ==> data[i].Holds?
    }

    /** The vertices written so far. */
    function Contents(): (ps: seq<Vec4>)
      reads this
      requires Valid()
      ensures |ps| == k && forall i :: 0 <= i < k ==> data[i] == Holds(ps[i])
    {
      var d := data;
      seq(|d|, i requires 0 <= i < |d| => d[i].v)
    }

    /** `triangle(a, b, c)`: stores `a`, `b`, `c` at `k`, `k + 1`, `k + 2` with
        array-assignment semantics and moves the cursor past them. */
    method Triangle(a: Vec4, b: Vec4, c: Vec4)
      modifies this
      ensures k == old(k) + 3
      ensures |data| == Max(|old(data)|, old(k) + 3)
      ensures data[old(k)] == Holds(a) && data[old(k) + 1] == Holds(b) && data[old(k) + 2] == Holds(c)
      ensures forall i :: 0 <= i < |data| && !(old(k) <= i < old(k) + 3) ==>
                data[i] == if i < |old(data)| then old(data)[i] else Hole
      ensures old(Valid()) ==> Valid() && Contents() == old(Contents()) + [a, b, c]
    {
      data := Store(data, k, a);
      k := k + 1;
      data := Store(data, k, b);
      k := k + 1;
      data := Store(data, k, c);
      k := k + 1;
    }

    /** `tetrahedron()`: writes the twelve vertices of `Faces` at the cursor. */
    method Tetrahedron()
      modifies this
      ensures k == old(k) + 12
      ensures |data| == Max(|old(data)|, old(k) + 12)
      ensures forall j :: 0 <= j < 12 ==> data[old(k) + j] == Holds(Emitted(Faces)[j])
      ensures forall i :: 0 <= i < |data| && !(old(k) <= i < old(k) + 12) ==>
                data[i] == if i < |old(data)| then old(data)[i] else Hole
      ensures old(Valid()) ==> Valid() && Contents() == old(Contents()) + Emitted(Faces)
    {
      Triangle(V[0], V[1], V[2]);
      Triangle(V[3], V[2], V[1]);
      Triangle(V[0], V[3], V[1]);
      Triangle(V[0], V[2], V[3]);
      EmittedTetrahedron();
    }
  }

  /** The buffer a fresh `data = []`, `k = 0` holds after one `tetrahedron()` call. */
  method BuildTetrahedron() returns (points: seq<Vec4>)
    ensures points == Emitted(Faces) && |points| == 12
    ensures forall p :: p in points ==> p.w == 1.0
  {
    var mesh := new Mesh();
    mesh.Tetrahedron();
    points := mesh.Contents();
    EmittedArePoints();
  }
}
