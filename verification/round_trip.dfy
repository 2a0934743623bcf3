/** Converting a BMesh to the graph and back (`DLFLtoBPY(bpyToDLFL(bm))`,
    pytopmod-addon.py:130-138 and 158-168) gives back the BMesh's own vertex
    coordinates and face loop vertices: the relabelling through graph keys is
    the identity, because keys are enumerated in creation order. */
module RoundTrip {
  import opened BMeshModel
  import opened ToDlfl
  import opened ToDlflProperties
  import opened ToBpy

  /** The lists the host would build directly from the BMesh. */
  function Lists<C>(bm: BMesh<C>): (r: MeshData<C>)
    requires RefsInRange(bm)
    ensures |r.vertices| == |bm.coords| && |r.faces| == |bm.faces|
    ensures forall f :: 0 <= f < |bm.faces| ==> r.faces[f] == FaceVerts(bm, f)
  {
    MeshData(bm.coords, seq(|bm.faces|, f requires 0 <= f < |bm.faces| => FaceVerts(bm, f)))
  }

  /** The converted graph can be read back. */
  lemma ToGraphReadable<C>(bm: BMesh<C>)
    requires WellFormed(bm)
    ensures Readable(ToGraph(bm).mesh)
  {
    ToGraphValid(bm);
    ValidReadable(ToGraph(bm).mesh);
  }

  /** Vertex `v` comes back at its own position with its own coordinates. */
  lemma RoundTripVertex<C>(bm: BMesh<C>, v: nat)
    requires WellFormed(bm) && v < |bm.coords|
    ensures var g := ToGraph(bm).mesh;
      Readable(g) && v < |ToMeshData(g).vertices| && ToMeshData(g).vertices[v] == bm.coords[v]
  {
    ToGraphReadable(bm);
    ToGraphCoords(bm, v);
  }

  /** Face `f` comes back at its own position with its own loop vertices. */
  lemma RoundTripFace<C>(bm: BMesh<C>, f: nat)
    requires WellFormed(bm) && f < |bm.faces|
    ensures var g := ToGraph(bm).mesh;
      Readable(g) && f < |ToMeshData(g).faces| && ToMeshData(g).faces[f] == FaceVerts(bm, f)
  {
    var r := ToGraph(bm);
    var g := r.mesh;
    ToGraphReadable(bm);
    ToGraphValid(bm);
    ToGraphFaceVertices(bm, f);
    var out := ToMeshData(g).faces[f];
    assert g.faceKeys[f] == r.faces[f];
    forall j | 0 <= j < |out|
      ensures out[j] == FaceVerts(bm, f)[j]
    {
      var v := FaceVerts(bm, f)[j];
      assert r.verts[v] == g.vertexKeys[v];
      ToMeshDataNumbering(g, f, j, v);
    }
  }

  /** The vertex list comes back unchanged. */
  lemma RoundTripVertices<C>(bm: BMesh<C>)
    requires WellFormed(bm)
    ensures Readable(ToGraph(bm).mesh) && ToMeshData(ToGraph(bm).mesh).vertices == bm.coords
  {
    ToGraphReadable(bm);
    var out := ToMeshData(ToGraph(bm).mesh).vertices;
    forall v | 0 <= v < |bm.coords|
      ensures out[v] == bm.coords[v]
    {
      RoundTripVertex(bm, v);
    }
  }

  /** The face list comes back unchanged. */
  lemma RoundTripFaces<C>(bm: BMesh<C>)
    requires WellFormed(bm)
    ensures Readable(ToGraph(bm).mesh) && ToMeshData(ToGraph(bm).mesh).faces == Lists(bm).faces
  {
    ToGraphReadable(bm);
    var out := ToMeshData(ToGraph(bm).mesh).faces;
    forall f | 0 <= f < |bm.faces|
      ensures out[f] == FaceVerts(bm, f)
    {
      RoundTripFace(bm, f);
    }
    FaceListsEqual(bm, out);
  }

  /** A list holding each face's loop vertices at the face's position is the
      host's face list. */
  lemma FaceListsEqual<C>(bm: BMesh<C>, out: seq<seq<nat>>)
    requires RefsInRange(bm) && |out| == |bm.faces|
    requires forall f :: 0 <= f < |bm.faces| ==> out[f] == FaceVerts(bm, f)
    ensures out == Lists(bm).faces
  {
  }

  /** `DLFLtoBPY(bpyToDLFL(bm))` reproduces the BMesh's vertex and face lists
      exactly: same counts, same coordinates, same loop vertex indices. */
  lemma RoundTripExact<C>(bm: BMesh<C>)
    requires WellFormed(bm)
    ensures Readable(ToGraph(bm).mesh) && ToMeshData(ToGraph(bm).mesh) == Lists(bm)
  {
    RoundTripVertices(bm);
    RoundTripFaces(bm);
  }
}
