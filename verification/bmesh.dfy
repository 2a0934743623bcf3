/** The host's boundary-representation mesh (a Blender BMesh), reduced to what
    the conversion reads: vertices with opaque coordinates, edges, loops and
    faces, all referring to each other by index. Element handles are their
    positions, so `v.index` of vertex `v` is its position in `coords`. */
module BMeshModel {

  /** One face corner: the vertex it starts at (`l.vert`), the edge it runs
      along (`l.edge`) and the next loop around that same edge
      (`l.link_loop_radial_next`). */
  datatype Loop = Loop(vert: nat, edge: nat, radialNext: nat)

  /** An edge and its two end vertices. */
  datatype Edge = Edge(v1: nat, v2: nat)

  /** Vertex `i` sits at `coords[i]`; face `f` is the sequence `faces[f]` of
      loop ids, in loop order. */
  datatype BMesh<C> = BMesh(coords: seq<C>, edges: seq<Edge>, loops: seq<Loop>, faces: seq<seq<nat>>)

  /** Every stored index refers to an existing element. */
  predicate RefsInRange<C>(bm: BMesh<C>) {
    && (forall l :: 0 <= l < |bm.loops| ==>
          bm.loops[l].vert < |bm.coords| && bm.loops[l].edge < |bm.edges| && bm.loops[l].radialNext < |bm.loops|)
    && (forall e :: 0 <= e < |bm.edges| ==> bm.edges[e].v1 < |bm.coords| && bm.edges[e].v2 < |bm.coords|)
    && (forall f, j :: 0 <= f < |bm.faces| && 0 <= j < |bm.faces[f]| ==> bm.faces[f][j] < |bm.loops|)
  }

  /** The loop reached from `l` after `k` steps along `radialNext`. */
  function Radial<C>(bm: BMesh<C>, l: nat, k: nat): (r: nat)
    requires RefsInRange(bm) && l < |bm.loops|
    ensures r < |bm.loops|
    decreases k
  {
    if k == 0 then l else Radial(bm, bm.loops[l].radialNext, k - 1)
  }

  /** The radial relation is a union of cycles: walking `radialNext` from any
      loop comes back to it. */
  ghost predicate RadialCycles<C>(bm: BMesh<C>)
    requires RefsInRange(bm)
  {
    forall l :: 0 <= l < |bm.loops| ==> ReturnsTo(bm, l)
  }

  /** Some positive number of radial steps leads from `l` back to `l`. */
  ghost predicate ReturnsTo<C>(bm: BMesh<C>, l: nat)
    requires RefsInRange(bm) && l < |bm.loops|
  {
    exists k: nat :: k >= 1 && Radial(bm, l, k) == l
  }

  /** What the conversion needs to run at all: valid references, and radial
      walks that close (otherwise the walk in the converter never stops). */
  ghost predicate WellFormed<C>(bm: BMesh<C>) {
    RefsInRange(bm) && RadialCycles(bm)
  }

  /** Length of some radial cycle through `l` (not necessarily the shortest). */
  ghost function CycleLength<C>(bm: BMesh<C>, l: nat): (k: nat)
    requires WellFormed(bm) && l < |bm.loops|
    ensures k >= 1 && Radial(bm, l, k) == l
    ensures Radial(bm, bm.loops[l].radialNext, k - 1) == l
  {
    assert ReturnsTo(bm, l);
    var k: nat :| k >= 1 && Radial(bm, l, k) == l; k
  }

  /** Every loop in a radial cycle lies on the same edge. */
  ghost predicate RadialSharesEdge<C>(bm: BMesh<C>)
    requires RefsInRange(bm)
  {
    forall l :: 0 <= l < |bm.loops| ==> bm.loops[bm.loops[l].radialNext].edge == bm.loops[l].edge
  }

  /** A loop's vertex is an end point of the loop's edge. */
  ghost predicate LoopOnEdge<C>(bm: BMesh<C>)
    requires RefsInRange(bm)
  {
    forall l :: 0 <= l < |bm.loops| ==>
      bm.loops[l].vert == bm.edges[bm.loops[l].edge].v1 || bm.loops[l].vert == bm.edges[bm.loops[l].edge].v2
  }

  /** The edge of the loop at position `j` of a face joins that loop's vertex
      and the vertex of the next loop of the face. */
  ghost predicate FaceEdgesMatch<C>(bm: BMesh<C>)
    requires RefsInRange(bm)
  {
    forall f, j :: 0 <= f < |bm.faces| && 0 <= j < |bm.faces[f]| ==>
      EdgeJoins(bm.edges[bm.loops[bm.faces[f][j]].edge],
                bm.loops[bm.faces[f][j]].vert, bm.loops[bm.faces[f][(j + 1) % |bm.faces[f]|]].vert)
  }

  /** Edge `e` joins vertices `a` and `b`, in either direction. */
  predicate EdgeJoins(e: Edge, a: nat, b: nat) {
    (e.v1 == a && e.v2 == b) || (e.v1 == b && e.v2 == a)
  }

  /** The BMesh invariants that tie loops, edges and radial cycles together. */
  ghost predicate EdgeConsistent<C>(bm: BMesh<C>)
    requires RefsInRange(bm)
  {
    RadialSharesEdge(bm) && LoopOnEdge(bm) && FaceEdgesMatch(bm)
  }

  /** The vertex indices of face `f`, in loop order. */
  function FaceVerts<C>(bm: BMesh<C>, f: nat): (vs: seq<nat>)
    requires RefsInRange(bm) && f < |bm.faces|
    ensures |vs| == |bm.faces[f]|
    ensures forall j :: 0 <= j < |vs| ==> vs[j] < |bm.coords|
  {
    seq(|bm.faces[f]|, j requires 0 <= j < |bm.faces[f]| => bm.loops[bm.faces[f][j]].vert)
  }

  /** None of the first `t` radial steps from `l` comes back to `l`. */
  ghost predicate NoReturnWithin<C>(bm: BMesh<C>, l: nat, t: nat)
    requires RefsInRange(bm) && l < |bm.loops|
  {
    forall s :: 1 <= s <= t ==> Radial(bm, l, s) != l
  }

  /** The walk from `l` is the walk from its radial successor, one step
      ahead: if steps `1..t` from `l` avoid `start`, then steps `0..t-1` from
      the successor do, and both reach the same loop. */
  lemma RadialShift<C>(bm: BMesh<C>, l: nat, start: nat, t: nat)
    requires RefsInRange(bm) && l < |bm.loops| && 1 <= t
    requires forall s :: 1 <= s <= t ==> Radial(bm, l, s) != start
    ensures forall s :: 0 <= s <= t - 1 ==> Radial(bm, bm.loops[l].radialNext, s) != start
    ensures Radial(bm, l, t) == Radial(bm, bm.loops[l].radialNext, t - 1)
  {
    forall s | 0 <= s <= t - 1
      ensures Radial(bm, bm.loops[l].radialNext, s) != start
    {
      assert Radial(bm, l, s + 1) == Radial(bm, bm.loops[l].radialNext, s);
    }
  }

  /** Walking the radial cycle never leaves the edge it started on. */
  lemma {:induction false} RadialStaysOnEdge<C>(bm: BMesh<C>, l: nat, k: nat)
    requires RefsInRange(bm) && RadialSharesEdge(bm) && l < |bm.loops|
    ensures bm.loops[Radial(bm, l, k)].edge == bm.loops[l].edge
    decreases k
  {
    if k > 0 {
      RadialStaysOnEdge(bm, bm.loops[l].radialNext, k - 1);
    }
  }

  /** Both end points of the edge under the loop at position `j` of face `f`
      are vertices of face `f` (when edges match their faces). */
  lemma EdgeEndsInFace<C>(bm: BMesh<C>, f: nat, j: nat)
    requires RefsInRange(bm) && f < |bm.faces| && j < |bm.faces[f]|
    ensures FaceEdgesMatch(bm) ==>
      && bm.edges[bm.loops[bm.faces[f][j]].edge].v1 in FaceVerts(bm, f)
      && bm.edges[bm.loops[bm.faces[f][j]].edge].v2 in FaceVerts(bm, f)
  {
    if FaceEdgesMatch(bm) {
      var n := |bm.faces[f]|;
      var e := bm.edges[bm.loops[bm.faces[f][j]].edge];
      assert EdgeJoins(e, bm.loops[bm.faces[f][j]].vert, bm.loops[bm.faces[f][(j + 1) % n]].vert);
      assert FaceVerts(bm, f)[j] == bm.loops[bm.faces[f][j]].vert;
      assert FaceVerts(bm, f)[(j + 1) % n] == bm.loops[bm.faces[f][(j + 1) % n]].vert;
    }
  }

  /** Under the BMesh invariants every loop met on the radial walk from the
      loop at position `j` of face `f` has a vertex of face `f`. */
  lemma RadialVertexInFace<C>(bm: BMesh<C>, f: nat, j: nat, k: nat)
    requires RefsInRange(bm) && EdgeConsistent(bm)
    requires f < |bm.faces| && j < |bm.faces[f]|
    ensures bm.loops[Radial(bm, bm.faces[f][j], k)].vert in FaceVerts(bm, f)
  {
    RadialStaysOnEdge(bm, bm.faces[f][j], k);
    EdgeEndsInFace(bm, f, j);
  }

  /** Every loop on the radial cycle through a loop of face `f` has a vertex
      of face `f`: a radial cycle goes around one edge of `f`, and every loop
      on it starts at one of that edge's two end points. */
  ghost predicate RadialWithinFaces<C>(bm: BMesh<C>)
    requires RefsInRange(bm)
  {
    forall f, j :: 0 <= f < |bm.faces| && 0 <= j < |bm.faces[f]| ==> CornerWithinFace(bm, f, j)
  }

  /** Every loop on the radial cycle through the loop at position `j` of face
      `f` has a vertex of face `f`. */
  ghost predicate CornerWithinFace<C>(bm: BMesh<C>, f: nat, j: nat)
    requires RefsInRange(bm) && f < |bm.faces| && j < |bm.faces[f]|
  {
    forall k :: bm.loops[Radial(bm, bm.faces[f][j], k)].vert in FaceVerts(bm, f)
  }

  lemma EdgeConsistentWithinFaces<C>(bm: BMesh<C>)
    requires RefsInRange(bm) && EdgeConsistent(bm)
    ensures RadialWithinFaces(bm)
  {
    forall f, j | 0 <= f < |bm.faces| && 0 <= j < |bm.faces[f]|
      ensures CornerWithinFace(bm, f, j)
    {
      forall k | true
        ensures bm.loops[Radial(bm, bm.faces[f][j], k)].vert in FaceVerts(bm, f)
      {
        RadialVertexInFace(bm, f, j, k);
      }
    }
  }
}
