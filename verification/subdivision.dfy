/** The Triangular Subdivision operator's `execute` (pytopmod-addon.py:188-196):
    convert the mesh to a graph, triangulate every face that existed before
    the loop started, convert back. `triangulate_face` belongs to the
    pytopmod library, which is not part of this model: it is the parameter
    `tri`, about which only what a lemma assumes is known. */
module Subdivision {
  import opened BMeshModel
  import opened Dlfl
  import opened ToDlfl
  import opened ToDlflProperties
  import opened ToBpy
  import opened RoundTrip

  /** The reference meaning of the loop: apply `tri` to each key of `faces`
      in order, threading the graph through. */
  function FoldFaces<C>(g: Graph<C>, faces: seq<Key>, tri: (Graph<C>, Key) -> Graph<C>): (r: Graph<C>)
    decreases |faces|
  {
    if |faces| == 0 then g else FoldFaces(tri(g, faces[0]), faces[1..], tri)
  }

  /** Folding over one more key is one more call of `tri` at the end. */
  lemma {:induction false} FoldFacesSnoc<C>(g: Graph<C>, faces: seq<Key>, k: Key, tri: (Graph<C>, Key) -> Graph<C>)
    ensures FoldFaces(g, faces + [k], tri) == tri(FoldFaces(g, faces, tri), k)
    decreases |faces|
  {
    if |faces| == 0 {
      assert (faces + [k])[1..] == [];
    } else {
      assert (faces + [k])[1..] == faces[1..] + [k];
      FoldFacesSnoc(tri(g, faces[0]), faces[1..], k, tri);
    }
  }

  /** Lines 191-192: `for face in list(mesh.face_keys)`. The list is taken
      once, before the first call, so faces that `tri` creates are not
      triangulated again and faces are visited in face-key order. */
  method TriangulateAll<C>(g: Graph<C>, tri: (Graph<C>, Key) -> Graph<C>) returns (r: Graph<C>, visited: seq<Key>)
    ensures visited == g.faceKeys
    ensures r == FoldFaces(g, g.faceKeys, tri)
  {
    var snapshot := g.faceKeys;
    r := g;
    visited := [];
    var i := 0;
    while i < |snapshot|
      invariant 0 <= i <= |snapshot|
      invariant visited == snapshot[..i]
      invariant r == FoldFaces(g, snapshot[..i], tri)
    {
      FoldFacesSnoc(g, snapshot[..i], snapshot[i], tri);
      assert snapshot[..i + 1] == snapshot[..i] + [snapshot[i]];
      r := tri(r, snapshot[i]);
      visited := visited + [snapshot[i]];
      i := i + 1;
    }
    assert snapshot[..i] == snapshot;
  }

  /** `triangulate_face(mesh, k)` retires face `k` but no other face. If each
      call of `tri` keeps every face key except its own argument, a face of
      `g` that the loop is not given survives the whole loop. */
  lemma {:induction false} FoldKeepsFaceKeys<C>(g: Graph<C>, faces: seq<Key>, tri: (Graph<C>, Key) -> Graph<C>, x: Key)
    requires forall h: Graph<C>, k: Key, y: Key :: y in h.faceKeys && y != k ==> y in tri(h, k).faceKeys
    requires x in g.faceKeys && x !in faces
    ensures x in FoldFaces(g, faces, tri).faceKeys
    decreases |faces|
  {
    if |faces| > 0 {
      var h := tri(g, faces[0]);
      assert x in h.faceKeys;
      assert x !in faces[1..] by {
        assert forall y :: y in faces[1..] ==> y in faces;
      }
      FoldKeepsFaceKeys(h, faces[1..], tri, x);
    }
  }

  /** Lines 191-192: because the key list is a snapshot of distinct live
      keys, every key the loop hands to `tri` is still a face of the graph at
      that moment, so `triangulate_face` never receives a retired key. */
  lemma FoldReachesLiveFaces<C>(g: Graph<C>, tri: (Graph<C>, Key) -> Graph<C>, i: nat)
    requires forall h: Graph<C>, k: Key, y: Key :: y in h.faceKeys && y != k ==> y in tri(h, k).faceKeys
    requires Distinct(g.faceKeys) && i < |g.faceKeys|
    ensures g.faceKeys[i] in FoldFaces(g, g.faceKeys[..i], tri).faceKeys
  {
    assert g.faceKeys[i] !in g.faceKeys[..i];
    FoldKeepsFaceKeys(g, g.faceKeys[..i], tri, g.faceKeys[i]);
  }

  /** If each call of `tri` keeps the graph valid, so does the loop. */
  lemma {:induction false} FoldKeepsValid<C>(g: Graph<C>, faces: seq<Key>, tri: (Graph<C>, Key) -> Graph<C>)
    requires Valid(g)
    requires forall h: Graph<C>, k: Key :: Valid(h) ==> Valid(tri(h, k))
    ensures Valid(FoldFaces(g, faces, tri))
    decreases |faces|
  {
    if |faces| > 0 {
      FoldKeepsValid(tri(g, faces[0]), faces[1..], tri);
    }
  }

  /** The triangulated graph of a well-formed mesh can be listed. */
  lemma SubdivisionReadable<C>(bm: BMesh<C>, tri: (Graph<C>, Key) -> Graph<C>)
    requires WellFormed(bm)
    requires forall h: Graph<C>, k: Key :: Valid(h) ==> Valid(tri(h, k))
    ensures Readable(FoldFaces(ToGraph(bm).mesh, ToGraph(bm).mesh.faceKeys, tri))
  {
    var g := ToGraph(bm).mesh;
    ToGraphValid(bm);
    FoldKeepsValid(g, g.faceKeys, tri);
    ValidReadable(FoldFaces(g, g.faceKeys, tri));
  }

  /** Lines 188-196 without the host calls: convert, triangulate the
      snapshot of face keys, and list the result. */
  method Subdivide<C>(bm: BMesh<C>, tri: (Graph<C>, Key) -> Graph<C>) returns (r: MeshData<C>)
    requires WellFormed(bm)
    requires forall h: Graph<C>, k: Key :: Valid(h) ==> Valid(tri(h, k))
    ensures var g := FoldFaces(ToGraph(bm).mesh, ToGraph(bm).mesh.faceKeys, tri);
      Readable(g) && r == ToMeshData(g)
  {
    SubdivisionReadable(bm, tri);
    var c := ToGraph(bm);
    var g, _ := TriangulateAll(c.mesh, tri);
    r := ToMeshData(g);
  }

  /** With a `tri` that changes nothing, the operator gives back the mesh's
      own vertex and face lists. */
  lemma SubdivideIdentity<C>(bm: BMesh<C>, faces: seq<Key>)
    requires WellFormed(bm)
    ensures var g := FoldFaces(ToGraph(bm).mesh, faces, (h: Graph<C>, k: Key) => h);
      g == ToGraph(bm).mesh && Readable(g) && ToMeshData(g) == Lists(bm)
  {
    FoldIdentity(ToGraph(bm).mesh, faces);
    RoundTripExact(bm);
  }

  lemma {:induction false} FoldIdentity<C>(g: Graph<C>, faces: seq<Key>)
    ensures FoldFaces(g, faces, (h: Graph<C>, k: Key) => h) == g
    decreases |faces|
  {
    if |faces| > 0 {
      FoldIdentity(g, faces[1..]);
    }
  }
}
