/**
 The emitted mesh: packed vertices, four a quad, and six indices a quad. `DecodeQuads` reads the
 rectangles back from the vertex words alone.
 */
module MeshFormat {
  import opened Chunk
  import opened RectMerge

  datatype PackedVertex = PackedVertex(posFace: nat, slot: nat)

  datatype ChunkMesh = ChunkMesh(vertices: seq<PackedVertex>, indices: seq<nat>, quadCount: nat)

  /** A merged rectangle in the plane at coordinate p along axis d, facing up or down the axis. */
  datatype Quad = Quad(d: nat, positive: bool, p: nat, rect: Rect)
  {
    predicate Valid() {
      d < 3 && p <= EDGE && rect.InMask()
    }
    function Face(): nat { 2 * d + (if positive then 0 else 1) }
  }

  datatype Vec = Vec(x: int, y: int, z: int)
  {
    function Axis(d: nat): int {
      if d == 0 then x else if d == 1 then y else z
    }
    function Minus(o: Vec): Vec { Vec(x - o.x, y - o.y, z - o.z) }
    function Cross(o: Vec): Vec {
      Vec(y * o.z - z * o.y, z * o.x - x * o.z, x * o.y - y * o.x)
    }
  }

  function AxisU(d: nat): nat { (d + 1) % 3 }
  function AxisV(d: nat): nat { (d + 2) % 3 }

  /** The point with coordinate p on axis d, a on axis d+1 and b on axis d+2, cyclically. */
  function Place(d: nat, p: int, a: int, b: int): (c: Vec)
    ensures d < 3 ==> c.Axis(d) == p && c.Axis(AxisU(d)) == a && c.Axis(AxisV(d)) == b
  {
    if d == 0 then Vec(p, a, b) else if d == 1 then Vec(b, p, a) else Vec(a, b, p)
  }

  /** Corner fields of five bits each and a face field of three: the fields do not overlap. */
  function PackVertex(x: nat, y: nat, z: nat, face: nat, slot: nat): (v: PackedVertex)
    requires x < 32 && y < 32 && z < 32 && face < 8
  {
    PackedVertex(x + y * 32 + z * 1024 + face * 32768, slot)
  }

  function VertexX(v: PackedVertex): nat { v.posFace % 32 }
  function VertexY(v: PackedVertex): nat { (v.posFace / 32) % 32 }
  function VertexZ(v: PackedVertex): nat { (v.posFace / 1024) % 32 }
  function VertexFace(v: PackedVertex): nat { (v.posFace / 32768) % 8 }
  function VertexPos(v: PackedVertex): Vec { Vec(VertexX(v), VertexY(v), VertexZ(v)) }

  lemma VertexFields(x: nat, y: nat, z: nat, face: nat, slot: nat)
    requires x < 32 && y < 32 && z < 32 && face < 8
    ensures var v := PackVertex(x, y, z, face, slot);
            VertexPos(v) == Vec(x, y, z) && VertexFace(v) == face && v.slot == slot
    ensures var w := PackVertex(x, y, z, face, slot).posFace;
            w % 32 == x && w / 32 % 32 == y && w / 1024 % 32 == z && w / 32768 == face
  {
    var w := x + y * 32 + z * 1024 + face * 32768;
    assert w / 32 == y + z * 32 + face * 1024;
    assert w / 1024 == z + face * 32;
    assert w / 32768 == face;
  }

  /** Corner i of a quad: u edge first on positive faces, v edge first on negative ones. */
  function CornerOffset(positive: bool, i: nat, du: nat, dv: nat): (int, int) {
    if i == 0 then (0, 0)
    else if i == 2 then (du, dv)
    else if (i == 1) == positive then (du, 0)
    else (0, dv)
  }

  function CornerPos(q: Quad, i: nat): Vec {
    var o := CornerOffset(q.positive, i, q.rect.du, q.rect.dv);
    Place(q.d, q.p, q.rect.u0 + o.0, q.rect.v0 + o.1)
  }

  function Corner(q: Quad, i: nat): PackedVertex
    requires q.Valid()
  {
    var c := CornerPos(q, i);
    PackVertex(c.x, c.y, c.z, q.Face(), q.rect.slot)
  }

  /** Index pattern of the two triangles of a quad. */
  function TriangleCorner(i: nat): nat {
    if i == 0 || i == 3 then 0 else if i == 1 then 1 else if i == 2 || i == 4 then 2 else 3
  }

  /** Face ids: +x, -x, +y, -y, +z, -z. */
  lemma FaceIds(q: Quad)
    requires q.Valid()
    ensures q.positive ==> q.Face() == [0, 2, 4][q.d]
    ensures !q.positive ==> q.Face() == [1, 3, 5][q.d]
  {
    assert q.d == 0 || q.d == 1 || q.d == 2;
  }

  ghost predicate AllValid(qs: seq<Quad>) {
    forall k :: 0 <= k < |qs| ==> qs[k].Valid()
  }

  function VerticesOf(qs: seq<Quad>): (vs: seq<PackedVertex>)
    requires AllValid(qs)
    ensures |vs| == 4 * |qs|
  {
    seq(4 * |qs|, i requires 0 <= i < 4 * |qs| => Corner(qs[i / 4], i % 4))
  }

  function IndicesOf(n: nat): (ids: seq<nat>)
    ensures |ids| == 6 * n
  {
    seq(6 * n, i requires 0 <= i < 6 * n => 4 * (i / 6) + TriangleCorner(i % 6))
  }

  function MeshOf(qs: seq<Quad>): ChunkMesh
    requires AllValid(qs)
  {
    ChunkMesh(VerticesOf(qs), IndicesOf(|qs|), |qs|)
  }

  /** Growing mesh: one call of `EmitQuad` appends four vertices and six indices. */
  class Emitter {
    var vertices: seq<PackedVertex>
    var indices: seq<nat>
    var quadCount: nat
    ghost var quads: seq<Quad>

    ghost predicate Valid()
      reads this
    {
      && AllValid(quads)
      && vertices == VerticesOf(quads)
      && indices == IndicesOf(|quads|)
      && quadCount == |quads|
    }

    constructor ()
      ensures Valid() && quads == []
    {
      vertices, indices, quadCount, quads := [], [], 0, [];
    }

    method PushCorner(q: Quad, i: nat)
      requires q.Valid() && i < 4
      modifies this`vertices
      ensures vertices == old(vertices) + [Corner(q, i)]
    {
      var c := CornerPos(q, i);
      vertices := vertices + [PackVertex(c.x, c.y, c.z, q.Face(), q.rect.slot)];
    }

    method EmitQuad(d: nat, positive: bool, p: nat, u0: nat, v0: nat, du: nat, dv: nat, slot: nat)
      requires Valid() && Quad(d, positive, p, Rect(u0, v0, du, dv, slot)).Valid()
      modifies this
      ensures Valid()
      ensures quads == old(quads) + [Quad(d, positive, p, Rect(u0, v0, du, dv, slot))]
    {
      var q := Quad(d, positive, p, Rect(u0, v0, du, dv, slot));
      var firstIndex := |vertices|;
      for i := 0 to 4
        invariant vertices == old(vertices) + seq(i, (k: nat) => Corner(q, k))
        invariant indices == old(indices) && quadCount == old(quadCount) && quads == old(quads)
      {
        PushCorner(q, i);
      }
      ghost var four := vertices;
      for i := 0 to 6
        invariant indices == old(indices) + seq(i, (k: nat) => firstIndex + TriangleCorner(k))
        invariant vertices == four && quadCount == old(quadCount) && quads == old(quads)
      {
        indices := indices + [firstIndex + TriangleCorner(i)];
      }
      quadCount := quadCount + 1;
      AppendQuad(quads, q);
      quads := quads + [q];
    }

    method Mesh() returns (m: ChunkMesh)
      requires Valid()
      ensures m == MeshOf(quads)
    {
      m := ChunkMesh(vertices, indices, quadCount);
    }
  }

  lemma AppendQuad(qs: seq<Quad>, q: Quad)
    requires AllValid(qs) && q.Valid()
    ensures VerticesOf(qs + [q]) == VerticesOf(qs) + seq(4, (k: nat) => Corner(q, k))
    ensures IndicesOf(|qs| + 1) == IndicesOf(|qs|) + seq(6, (k: nat) => 4 * |qs| + TriangleCorner(k))
  {
  }

  /* ----- reading a mesh back ----- */

  /** The rectangle spanned by four packed vertices. */
  function DecodeQuad(a: PackedVertex, c: PackedVertex): Quad {
    var d := VertexFace(a) / 2;
    var lo, hi := VertexPos(a), VertexPos(c);
    var u0, v0 := lo.Axis(AxisU(d)), lo.Axis(AxisV(d));
    var u1, v1 := hi.Axis(AxisU(d)), hi.Axis(AxisV(d));
    Quad(d, VertexFace(a) % 2 == 0, lo.Axis(d),
         Rect(u0, v0, if u0 <= u1 then u1 - u0 else 0, if v0 <= v1 then v1 - v0 else 0, a.slot))
  }

  /** Rectangles read from the vertex words: corners 0 and 2 of each group of four. */
  function DecodeQuads(m: ChunkMesh): (qs: seq<Quad>) {
    seq(|m.vertices| / 4, k requires 0 <= k < |m.vertices| / 4 => DecodeQuad(m.vertices[4 * k], m.vertices[4 * k + 2]))
  }

  lemma CornerInRange(q: Quad, i: nat)
    requires q.Valid() && i < 4
    ensures var c := CornerPos(q, i); 0 <= c.x <= EDGE && 0 <= c.y <= EDGE && 0 <= c.z <= EDGE
  {
  }

  lemma CornerFields(q: Quad, i: nat)
    requires q.Valid() && i < 4
    ensures VertexPos(Corner(q, i)) == CornerPos(q, i)
    ensures VertexFace(Corner(q, i)) == q.Face() && Corner(q, i).slot == q.rect.slot
  {
    var c := CornerPos(q, i);
    CornerInRange(q, i);
    VertexFields(c.x, c.y, c.z, q.Face(), q.rect.slot);
  }

  lemma FaceParts(q: Quad)
    requires q.d < 3
    ensures q.Face() / 2 == q.d && (q.Face() % 2 == 0 <==> q.positive)
  {
  }

  lemma DecodeOfCorners(q: Quad)
    requires q.Valid()
    ensures DecodeQuad(Corner(q, 0), Corner(q, 2)) == q
  {
    CornerFields(q, 0);
    CornerFields(q, 2);
    FaceParts(q);
  }

  lemma VertexAt(qs: seq<Quad>, k: nat, j: nat)
    requires AllValid(qs) && k < |qs| && j < 4
    ensures 4 * k + j < 4 * |qs| && VerticesOf(qs)[4 * k + j] == Corner(qs[k], j)
  {
    assert (4 * k + j) / 4 == k && (4 * k + j) % 4 == j;
  }

  lemma IndexAt(n: nat, k: nat, j: nat)
    requires k < n && j < 6
    ensures 6 * k + j < 6 * n && IndicesOf(n)[6 * k + j] == 4 * k + TriangleCorner(j)
  {
    assert (6 * k + j) / 6 == k && (6 * k + j) % 6 == j;
  }

  lemma DecodeQuadAt(m: ChunkMesh, k: nat, a: PackedVertex, c: PackedVertex)
    requires 4 * k + 4 <= |m.vertices| && m.vertices[4 * k] == a && m.vertices[4 * k + 2] == c
    ensures k < |DecodeQuads(m)| && DecodeQuads(m)[k] == DecodeQuad(a, c)
  {
  }

  lemma DecodeAt(qs: seq<Quad>, k: nat)
    requires AllValid(qs) && k < |qs|
    ensures DecodeQuads(MeshOf(qs))[k] == qs[k]
  {
    VertexAt(qs, k, 0);
    VertexAt(qs, k, 2);
    DecodeQuadAt(MeshOf(qs), k, Corner(qs[k], 0), Corner(qs[k], 2));
    DecodeOfCorners(qs[k]);
  }

  /** Nothing is lost in packing: the emitted words determine the rectangles. */
  lemma DecodeOfMesh(qs: seq<Quad>)
    requires AllValid(qs)
    ensures DecodeQuads(MeshOf(qs)) == qs
  {
    forall k | 0 <= k < |qs| {
      DecodeAt(qs, k);
    }
  }

  /** Corner k of triangle t of quad q of a mesh, through the index list. */
  function TrianglePoint(m: ChunkMesh, i: nat): Vec
    requires i < |m.indices| && m.indices[i] < |m.vertices|
  {
    VertexPos(m.vertices[m.indices[i]])
  }

  /** The outward normal of a face scaled by n. */
  function Normal(d: nat, positive: bool, n: int): Vec {
    Place(d, if positive then n else -n, 0, 0)
  }

  lemma CrossInPlane(e: Vec, e': Vec, d: nat, a: int, b: int, a': int, b': int, n: int)
    requires d < 3 && e == Place(d, 0, a, b) && e' == Place(d, 0, a', b') && a * b' - b * a' == n
    ensures e.Cross(e') == Place(d, n, 0, 0)
  {
  }

  lemma EdgeFromOrigin(q: Quad, i: nat)
    requires q.d < 3
    ensures var o := CornerOffset(q.positive, i, q.rect.du, q.rect.dv);
            CornerPos(q, i).Minus(CornerPos(q, 0)) == Place(q.d, 0, o.0, o.1)
  {
  }

  /** Turning from edge e to edge e' about the face's own normal: area n. */
  ghost predicate Turns(e: Vec, e': Vec, q: Quad) {
    e.Cross(e') == Normal(q.d, q.positive, q.rect.du * q.rect.dv)
  }

  lemma TurnUp1(q: Quad, e: Vec, e': Vec)
    requires q.d < 3 && q.positive
    requires e == Place(q.d, 0, q.rect.du, 0) && e' == Place(q.d, 0, q.rect.du, q.rect.dv)
    ensures Turns(e, e', q)
  {
    CrossInPlane(e, e', q.d, q.rect.du, 0, q.rect.du, q.rect.dv, q.rect.du * q.rect.dv);
  }

  lemma TurnUp2(q: Quad, e: Vec, e': Vec)
    requires q.d < 3 && q.positive
    requires e == Place(q.d, 0, q.rect.du, q.rect.dv) && e' == Place(q.d, 0, 0, q.rect.dv)
    ensures Turns(e, e', q)
  {
    CrossInPlane(e, e', q.d, q.rect.du, q.rect.dv, 0, q.rect.dv, q.rect.du * q.rect.dv);
  }

  lemma TurnDown1(q: Quad, e: Vec, e': Vec)
    requires q.d < 3 && !q.positive
    requires e == Place(q.d, 0, 0, q.rect.dv) && e' == Place(q.d, 0, q.rect.du, q.rect.dv)
    ensures Turns(e, e', q)
  {
    CrossInPlane(e, e', q.d, 0, q.rect.dv, q.rect.du, q.rect.dv, -(q.rect.du * q.rect.dv));
  }

  lemma TurnDown2(q: Quad, e: Vec, e': Vec)
    requires q.d < 3 && !q.positive
    requires e == Place(q.d, 0, q.rect.du, q.rect.dv) && e' == Place(q.d, 0, q.rect.du, 0)
    ensures Turns(e, e', q)
  {
    CrossInPlane(e, e', q.d, q.rect.du, q.rect.dv, q.rect.du, 0, -(q.rect.du * q.rect.dv));
  }

  /** Seen from corner 0, each triangle turns by the quad's area towards the face. */
  lemma CornerWinding(q: Quad, i: nat)
    requires q.d < 3 && (i == 1 || i == 2)
    ensures var p0 := CornerPos(q, 0);
            Turns(CornerPos(q, i).Minus(p0), CornerPos(q, i + 1).Minus(p0), q)
  {
    EdgeFromOrigin(q, i);
    EdgeFromOrigin(q, i + 1);
    var p0 := CornerPos(q, 0);
    var e, e' := CornerPos(q, i).Minus(p0), CornerPos(q, i + 1).Minus(p0);
    if i == 1 && q.positive {
      TurnUp1(q, e, e');
    } else if i == 1 {
      TurnDown1(q, e, e');
    } else if q.positive {
      TurnUp2(q, e, e');
    } else {
      TurnDown2(q, e, e');
    }
  }

  lemma MeshPoint(qs: seq<Quad>, k: nat, j: nat)
    requires AllValid(qs) && k < |qs| && j < 6
    ensures var m := MeshOf(qs);
            && 6 * k + j < |m.indices| && m.indices[6 * k + j] < |m.vertices|
            && TrianglePoint(m, 6 * k + j) == CornerPos(qs[k], TriangleCorner(j))
  {
    var t := TriangleCorner(j);
    IndexAt(|qs|, k, j);
    VertexAt(qs, k, t);
    CornerFields(qs[k], t);
  }

  /**
   Both triangles of every emitted quad wind counter-clockwise seen from the face side: their
   cross product is the outward normal times the quad's area.
   */
  lemma WindsWithNormal(qs: seq<Quad>, k: nat, t: nat)
    requires AllValid(qs) && k < |qs| && t < 2
    ensures var m, i := MeshOf(qs), 6 * k + 3 * t;
            && i + 2 < |m.indices|
            && m.indices[i] < |m.vertices| && m.indices[i + 1] < |m.vertices| && m.indices[i + 2] < |m.vertices|
            && Turns(TrianglePoint(m, i + 1).Minus(TrianglePoint(m, i)),
                     TrianglePoint(m, i + 2).Minus(TrianglePoint(m, i)), qs[k])
  {
    MeshPoint(qs, k, 3 * t);
    MeshPoint(qs, k, 3 * t + 1);
    MeshPoint(qs, k, 3 * t + 2);
    CornerWinding(qs[k], t + 1);
  }
}
