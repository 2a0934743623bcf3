/** What `bpyToDLFL` (pytopmod-addon.py:105-150) produces: tables that are
    total and injective, faces that list their loop vertices in order, and
    incidence sets that hold exactly the faces through each vertex. */
module ToDlflProperties {
  import opened BMeshModel
  import opened Dlfl
  import opened ToDlfl

  /** Injective table: distinct indices get distinct keys. */
  lemma TableInjective(t: map<nat, Key>, keys: seq<Key>, a: nat, b: nat)
    requires TableOf(t, keys) && Distinct(keys) && a < |keys| && b < |keys|
    ensures t[a] == t[b] ==> a == b
  {
  }

  /** With an injective vertex table, a vertex's key is among face `f`'s keys
      only if the vertex is one of face `f`'s vertices. */
  lemma FaceKeysOnlyVert<C>(bm: BMesh<C>, verts: map<nat, Key>, keys: seq<Key>, f: nat, v: nat)
    requires RefsInRange(bm) && f < |bm.faces| && v < |bm.coords|
    requires TableOf(verts, keys) && Distinct(keys) && |keys| == |bm.coords|
    ensures verts[v] in FaceKeys(bm, verts, f) ==> v in FaceVerts(bm, f)
  {
    if verts[v] in FaceKeys(bm, verts, f) {
      var m :| 0 <= m < |bm.faces[f]| && FaceKeys(bm, verts, f)[m] == verts[v];
      var w := FaceVerts(bm, f)[m];
      TableInjective(verts, keys, v, w);
    }
  }

  /** Lines 128-135: one graph vertex and one graph face per BMesh vertex
      and face, with the tables `verts` and `faces` defined on exactly the
      BMesh indices. */
  lemma ToGraphTables<C>(bm: BMesh<C>)
    requires WellFormed(bm)
    ensures var r := ToGraph(bm);
      && |r.mesh.vertexKeys| == |bm.coords| && |r.mesh.faceKeys| == |bm.faces|
      && (forall v: nat :: v in r.verts <==> v < |bm.coords|)
      && (forall f: nat :: f in r.faces <==> f < |bm.faces|)
  {
  }

  /** Lines 128-135, with fresh keys from the library: distinct BMesh
      vertices get distinct graph vertices, and distinct faces distinct
      graph faces. */
  lemma ToGraphInjective<C>(bm: BMesh<C>)
    requires WellFormed(bm)
    ensures var r := ToGraph(bm);
      && (forall a, b :: a in r.verts && b in r.verts && r.verts[a] == r.verts[b] ==> a == b)
      && (forall a, b :: a in r.faces && b in r.faces && r.faces[a] == r.faces[b] ==> a == b)
  {
    var c := Allocate(bm);
    var r := ToGraph(bm);
    assert r.verts == c.verts && r.faces == c.faces;
    forall a, b | a in r.verts && b in r.verts && r.verts[a] == r.verts[b]
      ensures a == b
    {
      TableInjective(c.verts, c.mesh.vertexKeys, a, b);
    }
    forall a, b | a in r.faces && b in r.faces && r.faces[a] == r.faces[b]
      ensures a == b
    {
      TableInjective(c.faces, c.mesh.faceKeys, a, b);
    }
  }

  /** Line 131: each graph vertex sits at its BMesh vertex's coordinates. */
  lemma ToGraphCoords<C>(bm: BMesh<C>, v: nat)
    requires WellFormed(bm) && v < |bm.coords|
    ensures var r := ToGraph(bm); r.verts[v] in r.mesh.coords && r.mesh.coords[r.verts[v]] == bm.coords[v]
  {
    var c := Allocate(bm);
    assert c.verts[v] == c.mesh.vertexKeys[v];
  }

  /** Line 131: every BMesh vertex's key has an incidence set. */
  lemma ToGraphVertexKey<C>(bm: BMesh<C>, v: nat)
    requires WellFormed(bm) && v < |bm.coords|
    ensures var r := ToGraph(bm); r.verts[v] in r.mesh.vertexFaces
  {
    var c := Allocate(bm);
    AllocateFilling(bm);
    FillFacesDomain(bm, c.verts, c.faces, 0, c.mesh, c.verts[v]);
  }

  /** Lines 136-138: the graph face of BMesh face `f` lists the keys of
      `f`'s loop vertices, in loop order. */
  lemma ToGraphFaceVertices<C>(bm: BMesh<C>, f: nat)
    requires WellFormed(bm) && f < |bm.faces|
    ensures var r := ToGraph(bm);
      && r.faces[f] in r.mesh.faceVertices
      && |r.mesh.faceVertices[r.faces[f]]| == |FaceVerts(bm, f)|
      && forall j :: 0 <= j < |FaceVerts(bm, f)| ==> r.mesh.faceVertices[r.faces[f]][j] == r.verts[FaceVerts(bm, f)[j]]
  {
    var c := Allocate(bm);
    AllocateFilling(bm);
    assert OnlyFaceWithKey(c.mesh.faceKeys, 0, f);
    FillFacesFaceVertices(bm, c.verts, c.faces, 0, c.mesh, f);
    var fv := ToGraph(bm).mesh.faceVertices[c.faces[f]];
    assert fv == FaceKeys(bm, c.verts, f);
  }

  /** Lines 139-148: every face through vertex `v` is incident to `v`'s key. */
  lemma ToGraphCovers<C>(bm: BMesh<C>, v: nat, f: nat)
    requires WellFormed(bm) && v < |bm.coords| && f < |bm.faces|
    requires v in FaceVerts(bm, f)
    ensures var r := ToGraph(bm); r.verts[v] in r.mesh.vertexFaces && r.faces[f] in r.mesh.vertexFaces[r.verts[v]]
  {
    var c := Allocate(bm);
    AllocateFilling(bm);
    var m :| 0 <= m < |FaceVerts(bm, f)| && FaceVerts(bm, f)[m] == v;
    FillFacesCovers(bm, c.verts, c.faces, 0, c.mesh, f, m);
  }

  /** Lines 139-148: under the BMesh invariants, a face is incident to `v`'s
      key only if it passes through `v`, although the walk visits loops of
      other faces. */
  lemma ToGraphOnlyIncident<C>(bm: BMesh<C>, v: nat, f: nat)
    requires WellFormed(bm) && EdgeConsistent(bm) && v < |bm.coords| && f < |bm.faces|
    requires v !in FaceVerts(bm, f)
    ensures var r := ToGraph(bm); r.verts[v] in r.mesh.vertexFaces && r.faces[f] !in r.mesh.vertexFaces[r.verts[v]]
  {
    var c := Allocate(bm);
    AllocateFilling(bm);
    EdgeConsistentWithinFaces(bm);
    var u := c.verts[v];
    var x := c.faces[f];
    FaceKeysOnlyVert(bm, c.verts, c.mesh.vertexKeys, f, v);
    forall f' | 0 <= f' < |bm.faces| && c.mesh.faceKeys[f'] == x
      ensures u !in FaceKeys(bm, c.verts, f')
    {
      assert f' == f;
    }
    assert u in c.mesh.vertexFaces by {
      assert u == c.mesh.vertexKeys[v];
    }
    FillFacesStaysInFace(bm, c.verts, c.faces, 0, c.mesh, u, x);
  }

  /** Lines 139-148: under the BMesh invariants a face is incident to
      vertex `v` exactly when it passes through `v`. */
  lemma ToGraphIncidence<C>(bm: BMesh<C>, v: nat, f: nat)
    requires WellFormed(bm) && EdgeConsistent(bm) && v < |bm.coords| && f < |bm.faces|
    ensures var r := ToGraph(bm);
      r.verts[v] in r.mesh.vertexFaces && (r.faces[f] in r.mesh.vertexFaces[r.verts[v]] <==> v in FaceVerts(bm, f))
  {
    if v in FaceVerts(bm, f) {
      ToGraphCovers(bm, v, f);
    } else {
      ToGraphOnlyIncident(bm, v, f);
    }
  }

  /** A set of face keys that contains only keys of faces, and the key of
      face `f` exactly when `f` passes through `v`, is the set of keys of the
      faces through `v`. */
  lemma IncidenceSet<C>(bm: BMesh<C>, faces: map<nat, Key>, s: set<Key>, v: nat)
    requires RefsInRange(bm)
    requires forall f :: 0 <= f < |bm.faces| ==> f in faces
    requires forall x :: x in s ==> exists f :: 0 <= f < |bm.faces| && faces[f] == x
    requires forall f :: 0 <= f < |bm.faces| ==> (faces[f] in s <==> v in FaceVerts(bm, f))
    ensures s == set f | 0 <= f < |bm.faces| && v in FaceVerts(bm, f) :: faces[f]
  {
  }

  /** Lines 139-148, the incidence invariant: under the BMesh invariants the
      incidence set of vertex `v` is exactly the set of graph faces of the
      BMesh faces through `v`. */
  lemma ToGraphVertexFaces<C>(bm: BMesh<C>, v: nat)
    requires WellFormed(bm) && EdgeConsistent(bm) && v < |bm.coords|
    ensures var r := ToGraph(bm);
      && r.verts[v] in r.mesh.vertexFaces
      && r.mesh.vertexFaces[r.verts[v]] == set f | 0 <= f < |bm.faces| && v in FaceVerts(bm, f) :: r.faces[f]
  {
    var r := ToGraph(bm);
    var u := r.verts[v];
    ToGraphVertexKey(bm, v);
    forall x | x in r.mesh.vertexFaces[u]
      ensures exists f :: 0 <= f < |bm.faces| && r.faces[f] == x
    {
      FaceKeyOfIncidence(bm, u, x);
    }
    forall f | 0 <= f < |bm.faces|
      ensures r.faces[f] in r.mesh.vertexFaces[u] <==> v in FaceVerts(bm, f)
    {
      ToGraphIncidence(bm, v, f);
    }
    IncidenceSet(bm, r.faces, r.mesh.vertexFaces[u], v);
  }

  /** Every key in an incidence set of the result is the key of some BMesh
      face. */
  lemma FaceKeyOfIncidence<C>(bm: BMesh<C>, u: Key, x: Key)
    requires WellFormed(bm)
    requires var r := ToGraph(bm); u in r.mesh.vertexFaces && x in r.mesh.vertexFaces[u]
    ensures var r := ToGraph(bm); exists f :: 0 <= f < |bm.faces| && r.faces[f] == x
  {
    var c := Allocate(bm);
    AllocateFilling(bm);
    FillFacesDomain(bm, c.verts, c.faces, 0, c.mesh, u);
    if x !in c.mesh.faceKeys {
      assert x !in c.mesh.faceKeys[0..];
      FillFacesKeepsOut(bm, c.verts, c.faces, 0, c.mesh, u, x);
    } else {
      var f :| 0 <= f < |c.mesh.faceKeys| && c.mesh.faceKeys[f] == x;
      assert c.faces[f] == x;
    }
  }

  /** The graph keeps its own invariant: filling faces changes no key and
      the tables it fills stay on their own keys. */
  lemma ToGraphValid<C>(bm: BMesh<C>)
    requires WellFormed(bm)
    ensures Valid(ToGraph(bm).mesh)
  {
    ToGraphDomains(bm);
    ToGraphFacesUseVertices(bm);
    ToGraphIncidenceUsesFaces(bm);
  }

  /** Every key in a face's vertex sequence is a vertex key. */
  lemma ToGraphFacesUseVertices<C>(bm: BMesh<C>)
    requires WellFormed(bm)
    ensures var g := ToGraph(bm).mesh;
      forall fk, k :: fk in g.faceVertices && k in g.faceVertices[fk] ==> k in g.vertexKeys
  {
    var g := ToGraph(bm).mesh;
    forall fk, k | fk in g.faceVertices && k in g.faceVertices[fk]
      ensures k in g.vertexKeys
    {
      FaceVertexIsVertex(bm, fk, k);
    }
  }

  /** Every key in an incidence set is a face key. */
  lemma ToGraphIncidenceUsesFaces<C>(bm: BMesh<C>)
    requires WellFormed(bm)
    ensures var g := ToGraph(bm).mesh;
      forall vk, k :: vk in g.vertexFaces && k in g.vertexFaces[vk] ==> k in g.faceKeys
  {
    var r := ToGraph(bm);
    forall vk, k | vk in r.mesh.vertexFaces && k in r.mesh.vertexFaces[vk]
      ensures k in r.mesh.faceKeys
    {
      FaceKeyOfIncidence(bm, vk, k);
      var f :| 0 <= f < |bm.faces| && r.faces[f] == k;
      assert r.mesh.faceKeys[f] == k;
    }
  }

  /** The first seven conjuncts of `Valid`: keys and the tables' domains. */
  lemma ToGraphDomains<C>(bm: BMesh<C>)
    requires WellFormed(bm)
    ensures var g := ToGraph(bm).mesh;
      && Distinct(g.vertexKeys) && Distinct(g.faceKeys)
      && (forall k :: k in g.coords <==> k in g.vertexKeys)
      && (forall k :: k in g.vertexFaces <==> k in g.vertexKeys)
      && (forall k :: k in g.faceVertices <==> k in g.faceKeys)
      && (forall k :: k in g.vertexKeys ==> k < g.nextKey)
      && (forall k :: k in g.faceKeys ==> k < g.nextKey)
  {
    var c := Allocate(bm);
    AllocateFilling(bm);
    var g := ToGraph(bm).mesh;
    forall k
      ensures (k in g.vertexFaces <==> k in c.mesh.vertexFaces) && (k in g.faceVertices <==> k in c.mesh.faceVertices)
    {
      FillFacesDomain(bm, c.verts, c.faces, 0, c.mesh, k);
    }
  }

  /** A key in a face's vertex sequence is a vertex key. */
  lemma FaceVertexIsVertex<C>(bm: BMesh<C>, fk: Key, k: Key)
    requires WellFormed(bm)
    requires var g := ToGraph(bm).mesh; fk in g.faceVertices && k in g.faceVertices[fk]
    ensures k in ToGraph(bm).mesh.vertexKeys
  {
    var r := ToGraph(bm);
    ToGraphDomains(bm);
    var f :| 0 <= f < |r.mesh.faceKeys| && r.mesh.faceKeys[f] == fk;
    assert r.faces[f] == fk;
    ToGraphFaceVertices(bm, f);
    var j :| 0 <= j < |r.mesh.faceVertices[fk]| && r.mesh.faceVertices[fk][j] == k;
    var w := FaceVerts(bm, f)[j];
    assert r.verts[w] == r.mesh.vertexKeys[w];
  }
}
