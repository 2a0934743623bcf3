/** `bpyToDLFL` (pytopmod-addon.py:105-150): builds the topology graph of a
    BMesh, with the tables from BMesh vertex and face indices to graph keys,
    and derives each vertex's incident faces by walking radial cycles. */
module ToDlfl {
  import opened BMeshModel
  import opened Dlfl

  /** The results `mesh`, `verts` and `faces` of `bpyToDLFL`. */
  datatype Conversion<C> = Conversion(mesh: Graph<C>, verts: map<nat, Key>, faces: map<nat, Key>)

  /** Table `t` sends index `i` to the `i`-th key of `keys` and is defined on
      nothing else. */
  ghost predicate TableOf(t: map<nat, Key>, keys: seq<Key>) {
    && (forall i: nat :: i in t <==> i < |keys|)
    && (forall i :: 0 <= i < |keys| ==> t[i] == keys[i])
  }

  /** Every BMesh vertex index has a key with an incidence set in the graph. */
  ghost predicate VertsIn<C>(bm: BMesh<C>, verts: map<nat, Key>, g: Graph<C>) {
    forall v :: 0 <= v < |bm.coords| ==> v in verts && verts[v] in g.vertexFaces
  }

  /** The graph keys of face `f`'s loop vertices, in loop order: what
      `face_vertices[faces[f]]` should hold once the face is converted. */
  function FaceKeys<C>(bm: BMesh<C>, verts: map<nat, Key>, f: nat): (ks: seq<Key>)
    requires RefsInRange(bm) && f < |bm.faces|
    requires forall v :: 0 <= v < |bm.coords| ==> v in verts
    ensures |ks| == |bm.faces[f]|
    ensures forall j :: 0 <= j < |ks| ==> ks[j] == verts[FaceVerts(bm, f)[j]]
  {
    seq(|bm.faces[f]|, j requires 0 <= j < |bm.faces[f]| => verts[bm.loops[bm.faces[f][j]].vert])
  }

  /** A vertex of face `f` has its key among the face's keys. */
  lemma FaceKeysHasVert<C>(bm: BMesh<C>, verts: map<nat, Key>, f: nat, v: nat)
    requires RefsInRange(bm) && f < |bm.faces|
    requires forall v :: 0 <= v < |bm.coords| ==> v in verts
    ensures v in FaceVerts(bm, f) ==> verts[v] in FaceKeys(bm, verts, f)
  {
    if v in FaceVerts(bm, f) {
      var j :| 0 <= j < |FaceVerts(bm, f)| && FaceVerts(bm, f)[j] == v;
      assert FaceKeys(bm, verts, f)[j] == verts[v];
    }
  }

  /** Recording the next key keeps a table aligned with its key list. */
  lemma TableExtend(t: map<nat, Key>, keys: seq<Key>, k: Key)
    requires TableOf(t, keys)
    ensures TableOf(t[|keys| := k], keys + [k])
  {
  }

  /** Giving a fresh key the next coordinate keeps keys and coordinates aligned. */
  lemma CoordsExtend<C>(m: map<Key, C>, keys: seq<Key>, coords: seq<C>, k: Key)
    requires |keys| < |coords| && k !in keys
    requires forall v :: 0 <= v < |keys| ==> keys[v] in m && m[keys[v]] == coords[v]
    ensures forall v :: 0 <= v < |keys| + 1 ==> (keys + [k])[v] in m[k := coords[|keys|]] && m[k := coords[|keys|]][(keys + [k])[v]] == coords[v]
  {
  }

  /** A new vertex with no incident face keeps every incidence set empty. */
  lemma NoIncidenceExtend(m: map<Key, set<Key>>, k: Key, m': map<Key, set<Key>>)
    requires forall x :: x in m ==> m[x] == {}
    requires m' == m[k := {}]
    ensures forall x :: x in m' ==> m'[x] == {}
  {
  }

  /** Lines 130-131: one graph vertex per BMesh vertex, in index order. */
  function CreateVertices<C>(coords: seq<C>, g: Graph<C>, verts: map<nat, Key>): (r: (Graph<C>, map<nat, Key>))
    requires Valid(g) && |g.vertexKeys| <= |coords| && TableOf(verts, g.vertexKeys)
    requires forall v :: 0 <= v < |g.vertexKeys| ==> g.coords[g.vertexKeys[v]] == coords[v]
    requires forall k :: k in g.vertexFaces ==> g.vertexFaces[k] == {}
    ensures Valid(r.0) && TableOf(r.1, r.0.vertexKeys)
    ensures |r.0.vertexKeys| == |coords|
    ensures forall v :: 0 <= v < |coords| ==> r.0.coords[r.0.vertexKeys[v]] == coords[v]
    ensures forall k :: k in r.0.vertexFaces ==> r.0.vertexFaces[k] == {}
    ensures r.0.faceKeys == g.faceKeys && r.0.faceVertices == g.faceVertices
    decreases |coords| - |g.vertexKeys|
  {
    var i := |g.vertexKeys|;
    if i == |coords| then (g, verts)
    else
      var (g', k) := CreateVertex(g, coords[i]);
      TableExtend(verts, g.vertexKeys, k);
      CoordsExtend(g.coords, g.vertexKeys, coords, k);
      NoIncidenceExtend(g.vertexFaces, k, g'.vertexFaces);
      CreateVertices(coords, g', verts[i := k])
  }

  /** Lines 134-135: one empty graph face per BMesh face, in index order. */
  function CreateFaces<C>(n: nat, g: Graph<C>, faces: map<nat, Key>): (r: (Graph<C>, map<nat, Key>))
    requires Valid(g) && |g.faceKeys| <= n && TableOf(faces, g.faceKeys)
    requires forall k :: k in g.faceVertices ==> g.faceVertices[k] == []
    ensures Valid(r.0) && TableOf(r.1, r.0.faceKeys)
    ensures |r.0.faceKeys| == n
    ensures forall k :: k in r.0.faceVertices ==> r.0.faceVertices[k] == []
    ensures r.0.vertexKeys == g.vertexKeys && r.0.coords == g.coords && r.0.vertexFaces == g.vertexFaces
    decreases n - |g.faceKeys|
  {
    var i := |g.faceKeys|;
    if i == n then (g, faces)
    else
      var (g', k) := CreateFace(g);
      TableExtend(faces, g.faceKeys, k);
      CreateFaces(n, g', faces[i := k])
  }

  /** Lines 145-148: the radial walk from loop `l` until it is back at
      `start`, adding face `fk` to the incidence set of each visited loop's
      vertex. The ghost `k` is a number of radial steps from `l` to `start`;
      it bounds the walk. */
  function RadialWalk<C>(bm: BMesh<C>, verts: map<nat, Key>, fk: Key, start: nat, l: nat, ghost k: nat, g: Graph<C>): (r: Graph<C>)
    requires RefsInRange(bm) && start < |bm.loops| && l < |bm.loops| && Radial(bm, l, k) == start
    requires VertsIn(bm, verts, g)
    ensures r == g.(vertexFaces := r.vertexFaces) && AddsOnly(g, r, fk)
    decreases k
  {
    if l == start then g
    else
      var g1 := AddIncidence(g, verts[bm.loops[l].vert], fk);
      var r := RadialWalk(bm, verts, fk, start, bm.loops[l].radialNext, k - 1, g1);
      AddsOnlyTrans(g, g1, r, fk);
      r
  }

  /** The walk from `l` changes the incidence set of key `u` only if `u` is
      the key of the vertex of one of the first `k` loops on the radial cycle
      from `l`. */
  lemma {:induction false} RadialWalkMisses<C>(bm: BMesh<C>, verts: map<nat, Key>, fk: Key, start: nat, l: nat, k: nat, g: Graph<C>, u: Key)
    requires RefsInRange(bm) && start < |bm.loops| && l < |bm.loops| && Radial(bm, l, k) == start
    requires VertsIn(bm, verts, g) && u in g.vertexFaces
    requires forall i :: 0 <= i < k ==> verts[bm.loops[Radial(bm, l, i)].vert] != u
    ensures RadialWalk(bm, verts, fk, start, l, k, g).vertexFaces[u] == g.vertexFaces[u]
    decreases k
  {
    if l != start {
      var next := bm.loops[l].radialNext;
      assert verts[bm.loops[Radial(bm, l, 0)].vert] != u;
      var g1 := AddIncidence(g, verts[bm.loops[l].vert], fk);
      forall i | 0 <= i < k - 1
        ensures verts[bm.loops[Radial(bm, next, i)].vert] != u
      {
        assert Radial(bm, l, i + 1) == Radial(bm, next, i);
      }
      RadialWalkMisses(bm, verts, fk, start, next, k - 1, g1, u);
    }
  }

  /** The walk from `l` adds `fk` to the incidence set of the vertex of every
      loop it reaches before it is back at `start`: the loop `i` radial steps
      from `l` is visited when none of steps `0..i` lands on `start`. */
  lemma {:induction false} RadialWalkCovers<C>(bm: BMesh<C>, verts: map<nat, Key>, fk: Key, start: nat, l: nat, k: nat, g: Graph<C>, i: nat)
    requires RefsInRange(bm) && start < |bm.loops| && l < |bm.loops| && Radial(bm, l, k) == start
    requires VertsIn(bm, verts, g)
    requires forall t :: 0 <= t <= i ==> Radial(bm, l, t) != start
    ensures Incident(RadialWalk(bm, verts, fk, start, l, k, g), verts[bm.loops[Radial(bm, l, i)].vert], fk)
    decreases k
  {
    assert Radial(bm, l, 0) != start;
    var next := bm.loops[l].radialNext;
    var vk := verts[bm.loops[l].vert];
    var g1 := AddIncidence(g, vk, fk);
    var r := RadialWalk(bm, verts, fk, start, next, k - 1, g1);
    assert r == RadialWalk(bm, verts, fk, start, l, k, g);
    var w := verts[bm.loops[Radial(bm, l, i)].vert];
    if i == 0 {
      assert w == vk;
      AddsOnlyKeeps(g1, r, fk, vk, fk);
    } else {
      RadialShift(bm, l, start, i);
      RadialWalkCovers(bm, verts, fk, start, next, k - 1, g1, i - 1);
    }
  }

  /** The walk round the cycle of `l`, started one step past `l` on a graph
      where `fk` is already incident to `l`'s own vertex, covers the vertex of
      every loop up to the first return to `l`. */
  lemma CycleWalkCovers<C>(bm: BMesh<C>, verts: map<nat, Key>, fk: Key, l: nat, k: nat, g: Graph<C>, r: Graph<C>)
    requires RefsInRange(bm) && l < |bm.loops| && Radial(bm, bm.loops[l].radialNext, k) == l
    requires VertsIn(bm, verts, g) && Incident(g, verts[bm.loops[l].vert], fk)
    requires r == RadialWalk(bm, verts, fk, l, bm.loops[l].radialNext, k, g)
    ensures forall t: nat :: NoReturnWithin(bm, l, t) ==>
      Incident(r, verts[bm.loops[Radial(bm, l, t)].vert], fk)
  {
    forall t: nat | NoReturnWithin(bm, l, t)
      ensures Incident(r, verts[bm.loops[Radial(bm, l, t)].vert], fk)
    {
      if t == 0 {
        assert Radial(bm, l, t) == l;
        AddsOnlyKeeps(g, r, fk, verts[bm.loops[l].vert], fk);
      } else {
        CycleWalkCoversAt(bm, verts, fk, l, k, g, t);
      }
    }
  }

  /** One loop `t >= 1` steps round the cycle of `l`, before it closes. */
  lemma CycleWalkCoversAt<C>(bm: BMesh<C>, verts: map<nat, Key>, fk: Key, l: nat, k: nat, g: Graph<C>, t: nat)
    requires RefsInRange(bm) && l < |bm.loops| && Radial(bm, bm.loops[l].radialNext, k) == l
    requires VertsIn(bm, verts, g)
    requires 1 <= t && NoReturnWithin(bm, l, t)
    ensures Incident(RadialWalk(bm, verts, fk, l, bm.loops[l].radialNext, k, g), verts[bm.loops[Radial(bm, l, t)].vert], fk)
  {
    RadialShift(bm, l, l, t);
    RadialWalkCovers(bm, verts, fk, l, bm.loops[l].radialNext, k, g, t - 1);
  }

  /** Under `RadialWithinFaces`, the radial walk from a loop of face `f`
      leaves the incidence set of every key outside the face unchanged. */
  lemma WalkStaysInFace<C>(bm: BMesh<C>, verts: map<nat, Key>, fk: Key, f: nat, m: nat, k: nat, g: Graph<C>, u: Key)
    requires RefsInRange(bm) && f < |bm.faces| && m < |bm.faces[f]|
    requires Radial(bm, bm.loops[bm.faces[f][m]].radialNext, k) == bm.faces[f][m]
    requires VertsIn(bm, verts, g) && RadialWithinFaces(bm)
    requires u in g.vertexFaces && u !in FaceKeys(bm, verts, f)
    ensures var l := bm.faces[f][m];
      RadialWalk(bm, verts, fk, l, bm.loops[l].radialNext, k, g).vertexFaces[u] == g.vertexFaces[u]
  {
    var l := bm.faces[f][m];
    var next := bm.loops[l].radialNext;
    assert CornerWithinFace(bm, f, m);
    forall i | 0 <= i < k
      ensures verts[bm.loops[Radial(bm, next, i)].vert] != u
    {
      assert Radial(bm, l, i + 1) == Radial(bm, next, i);
      FaceKeysHasVert(bm, verts, f, bm.loops[Radial(bm, next, i)].vert);
    }
    RadialWalkMisses(bm, verts, fk, l, next, k, g, u);
  }

  /** Lines 138-148, for the loop at position `m` of face `f` (graph face
      `fk`): append the loop's vertex key to the face, record `fk` as incident
      to it, then walk the loop's radial cycle. */
  function VisitLoop<C>(bm: BMesh<C>, verts: map<nat, Key>, fk: Key, f: nat, m: nat, g: Graph<C>): (r: Graph<C>)
    requires WellFormed(bm) && f < |bm.faces| && m < |bm.faces[f]|
    requires VertsIn(bm, verts, g) && fk in g.faceVertices
    ensures r == g.(faceVertices := r.faceVertices, vertexFaces := r.vertexFaces)
    ensures r.faceVertices == g.faceVertices[fk := g.faceVertices[fk] + [verts[bm.loops[bm.faces[f][m]].vert]]]
    ensures AddsOnly(g, r, fk)
    ensures fk in r.vertexFaces[verts[bm.loops[bm.faces[f][m]].vert]]
    ensures forall t: nat :: NoReturnWithin(bm, bm.faces[f][m], t) ==>
      Incident(r, verts[bm.loops[Radial(bm, bm.faces[f][m], t)].vert], fk)
    ensures RadialWithinFaces(bm) ==>
      forall u :: u in g.vertexFaces && u !in FaceKeys(bm, verts, f) ==> r.vertexFaces[u] == g.vertexFaces[u]
  {
    var l := bm.faces[f][m];
    var vk := verts[bm.loops[l].vert];
    var g2 := AddIncidence(AppendFaceVertex(g, fk, vk), vk, fk);
    var k := CycleLength(bm, l) - 1;
    assert VertsIn(bm, verts, g2);
    var r := RadialWalk(bm, verts, fk, l, bm.loops[l].radialNext, k, g2);
    AddsOnlyTrans(g, g2, r, fk);
    CycleWalkCovers(bm, verts, fk, l, k, g2, r);
    assert RadialWithinFaces(bm) ==>
      forall u :: u in g.vertexFaces && u !in FaceKeys(bm, verts, f) ==> r.vertexFaces[u] == g.vertexFaces[u]
    by {
      if RadialWithinFaces(bm) {
        assert vk == FaceKeys(bm, verts, f)[m];
        forall u | u in g.vertexFaces && u !in FaceKeys(bm, verts, f)
          ensures r.vertexFaces[u] == g.vertexFaces[u]
        {
          WalkStaysInFace(bm, verts, fk, f, m, k, g2, u);
        }
      }
    }
    r
  }

  /** Lines 137-148: the loops of face `f`, from position `j` on. */
  function FillFace<C>(bm: BMesh<C>, verts: map<nat, Key>, fk: Key, f: nat, j: nat, g: Graph<C>): (r: Graph<C>)
    requires WellFormed(bm) && f < |bm.faces| && j <= |bm.faces[f]|
    requires VertsIn(bm, verts, g) && fk in g.faceVertices
    ensures r == g.(faceVertices := r.faceVertices, vertexFaces := r.vertexFaces)
    ensures r.faceVertices == g.faceVertices[fk := g.faceVertices[fk] + FaceKeys(bm, verts, f)[j..]]
    ensures AddsOnly(g, r, fk)
    decreases |bm.faces[f]| - j
  {
    if j == |bm.faces[f]| then
      assert g.faceVertices[fk] + FaceKeys(bm, verts, f)[j..] == g.faceVertices[fk];
      g
    else
      var g1 := VisitLoop(bm, verts, fk, f, j, g);
      var r := FillFace(bm, verts, fk, f, j + 1, g1);
      AddsOnlyTrans(g, g1, r, fk);
      SliceStep(FaceKeys(bm, verts, f), j, g.faceVertices[fk]);
      UpdateTwice(g.faceVertices, fk, g1.faceVertices[fk], r.faceVertices[fk]);
      r
  }

  /** Every vertex of face `f` from position `j` on ends up incident to `fk`. */
  lemma {:induction false} FillFaceCovers<C>(bm: BMesh<C>, verts: map<nat, Key>, fk: Key, f: nat, j: nat, g: Graph<C>, m: nat)
    requires WellFormed(bm) && f < |bm.faces| && j <= m < |bm.faces[f]|
    requires VertsIn(bm, verts, g) && fk in g.faceVertices
    ensures fk in FillFace(bm, verts, fk, f, j, g).vertexFaces[FaceKeys(bm, verts, f)[m]]
    decreases |bm.faces[f]| - j
  {
    var g1 := VisitLoop(bm, verts, fk, f, j, g);
    if m == j {
      assert FaceKeys(bm, verts, f)[m] == verts[bm.loops[bm.faces[f][m]].vert];
    } else {
      FillFaceCovers(bm, verts, fk, f, j + 1, g1, m);
    }
  }

  /** Under `RadialWithinFaces`, filling face `f` leaves the incidence set of
      every key outside the face unchanged. */
  lemma {:induction false} FillFaceStaysInFace<C>(bm: BMesh<C>, verts: map<nat, Key>, fk: Key, f: nat, j: nat, g: Graph<C>, u: Key)
    requires WellFormed(bm) && f < |bm.faces| && j <= |bm.faces[f]|
    requires VertsIn(bm, verts, g) && fk in g.faceVertices && RadialWithinFaces(bm)
    requires u in g.vertexFaces && u !in FaceKeys(bm, verts, f)
    ensures FillFace(bm, verts, fk, f, j, g).vertexFaces[u] == g.vertexFaces[u]
    decreases |bm.faces[f]| - j
  {
    if j < |bm.faces[f]| {
      var g1 := VisitLoop(bm, verts, fk, f, j, g);
      FillFaceStaysInFace(bm, verts, fk, f, j + 1, g1, u);
    }
  }

  lemma UpdateTwice<K, V>(m: map<K, V>, k: K, a: V, b: V)
    ensures m[k := a][k := b] == m[k := b]
  {
  }

  lemma SliceStep(ks: seq<Key>, j: nat, pre: seq<Key>)
    requires j < |ks|
    ensures pre + [ks[j]] + ks[j + 1..] == pre + ks[j..]
  {
    assert ks[j..] == [ks[j]] + ks[j + 1..];
  }

  /** What filling faces needs and keeps: every BMesh vertex and face has
      its key, and every face key names a vertex sequence. */
  ghost predicate Filling<C>(bm: BMesh<C>, verts: map<nat, Key>, faces: map<nat, Key>, g: Graph<C>) {
    && WellFormed(bm) && VertsIn(bm, verts, g)
    && TableOf(faces, g.faceKeys) && |g.faceKeys| == |bm.faces|
    && (forall k :: k in g.faceKeys ==> k in g.faceVertices)
  }

  /** Filling one face keeps what filling the others needs. */
  lemma FillFaceFilling<C>(bm: BMesh<C>, verts: map<nat, Key>, faces: map<nat, Key>, i: nat, g: Graph<C>)
    requires Filling(bm, verts, faces, g) && i < |bm.faces|
    ensures Filling(bm, verts, faces, FillFace(bm, verts, faces[i], i, 0, g))
  {
  }

  /** Lines 136-148: faces `i` onwards, in index order; face `f` is the
      graph face `faces[f]`, that is `g.faceKeys[f]`. */
  function FillFaces<C>(bm: BMesh<C>, verts: map<nat, Key>, faces: map<nat, Key>, i: nat, g: Graph<C>): (r: Graph<C>)
    requires Filling(bm, verts, faces, g) && i <= |bm.faces|
    ensures r == g.(faceVertices := r.faceVertices, vertexFaces := r.vertexFaces)
    decreases |bm.faces| - i
  {
    if i == |bm.faces| then g
    else
      FillFaceFilling(bm, verts, faces, i, g);
      var g1 := FillFace(bm, verts, faces[i], i, 0, g);
      FillFaces(bm, verts, faces, i + 1, g1)
  }

  lemma SliceCons(s: seq<Key>, i: nat)
    requires i < |s|
    ensures s[i..] == [s[i]] + s[i + 1..]
  {
  }

  /** Filling faces never removes an incidence. */
  lemma {:induction false} FillFacesKeepsIn<C>(bm: BMesh<C>, verts: map<nat, Key>, faces: map<nat, Key>, i: nat, g: Graph<C>, u: Key, x: Key)
    requires Filling(bm, verts, faces, g) && i <= |bm.faces|
    requires u in g.vertexFaces && x in g.vertexFaces[u]
    ensures var r := FillFaces(bm, verts, faces, i, g); u in r.vertexFaces && x in r.vertexFaces[u]
    decreases |bm.faces| - i
  {
    if i < |bm.faces| {
      FillFaceFilling(bm, verts, faces, i, g);
      var g1 := FillFace(bm, verts, faces[i], i, 0, g);
      assert FillFaces(bm, verts, faces, i, g) == FillFaces(bm, verts, faces, i + 1, g1);
      FillFacesKeepsIn(bm, verts, faces, i + 1, g1, u, x);
    }
  }

  /** Filling faces keeps the set of vertex keys with an incidence set and
      the set of face keys with a vertex sequence. */
  lemma {:induction false} FillFacesDomain<C>(bm: BMesh<C>, verts: map<nat, Key>, faces: map<nat, Key>, i: nat, g: Graph<C>, k: Key)
    requires Filling(bm, verts, faces, g) && i <= |bm.faces|
    ensures var r := FillFaces(bm, verts, faces, i, g);
      && (k in r.vertexFaces <==> k in g.vertexFaces)
      && (k in r.faceVertices <==> k in g.faceVertices)
    decreases |bm.faces| - i
  {
    if i < |bm.faces| {
      FillFaceFilling(bm, verts, faces, i, g);
      var g1 := FillFace(bm, verts, faces[i], i, 0, g);
      assert FillFaces(bm, verts, faces, i, g) == FillFaces(bm, verts, faces, i + 1, g1);
      FillFacesDomain(bm, verts, faces, i + 1, g1, k);
    }
  }

  /** Filling faces `i` onwards adds no key other than those faces' keys. */
  lemma {:induction false} FillFacesKeepsOut<C>(bm: BMesh<C>, verts: map<nat, Key>, faces: map<nat, Key>, i: nat, g: Graph<C>, u: Key, x: Key)
    requires Filling(bm, verts, faces, g) && i <= |bm.faces|
    requires u in g.vertexFaces && x !in g.vertexFaces[u] && x !in g.faceKeys[i..]
    ensures var r := FillFaces(bm, verts, faces, i, g); u in r.vertexFaces && x !in r.vertexFaces[u]
    decreases |bm.faces| - i
  {
    if i < |bm.faces| {
      FillFaceFilling(bm, verts, faces, i, g);
      var g1 := FillFace(bm, verts, faces[i], i, 0, g);
      assert FillFaces(bm, verts, faces, i, g) == FillFaces(bm, verts, faces, i + 1, g1);
      SliceCons(g.faceKeys, i);
      FillFacesKeepsOut(bm, verts, faces, i + 1, g1, u, x);
    }
  }

  /** A graph face that is not among the faces still to fill keeps its
      vertex sequence. */
  lemma {:induction false} FillFacesKeepsFace<C>(bm: BMesh<C>, verts: map<nat, Key>, faces: map<nat, Key>, i: nat, g: Graph<C>, key: Key)
    requires Filling(bm, verts, faces, g) && i <= |bm.faces|
    requires key in g.faceVertices && key !in g.faceKeys[i..]
    ensures var r := FillFaces(bm, verts, faces, i, g); key in r.faceVertices && r.faceVertices[key] == g.faceVertices[key]
    decreases |bm.faces| - i
  {
    if i < |bm.faces| {
      FillFaceFilling(bm, verts, faces, i, g);
      var g1 := FillFace(bm, verts, faces[i], i, 0, g);
      assert FillFaces(bm, verts, faces, i, g) == FillFaces(bm, verts, faces, i + 1, g1);
      SliceCons(g.faceKeys, i);
      FillFacesKeepsFace(bm, verts, faces, i + 1, g1, key);
    }
  }

  /** Face `f` is the only one among faces `i` onwards with its key. */
  ghost predicate OnlyFaceWithKey(keys: seq<Key>, i: nat, f: nat)
    requires f < |keys|
  {
    forall j :: i <= j < |keys| && j != f ==> keys[j] != keys[f]
  }

  /** The key of the only face with that key is not met again later. */
  lemma OnlyFaceNotInTail(keys: seq<Key>, i: nat)
    requires i < |keys| && OnlyFaceWithKey(keys, i, i)
    ensures keys[i] !in keys[i + 1..]
  {
    var tail := keys[i + 1..];
    forall j | 0 <= j < |tail|
      ensures tail[j] != keys[i]
    {
      assert tail[j] == keys[i + 1 + j];
    }
  }

  /** Each face still to fill, if no other face still to fill shares its
      key, ends up with its loop vertices' keys, in loop order, after what
      it held before. */
  lemma {:induction false} FillFacesFaceVertices<C>(bm: BMesh<C>, verts: map<nat, Key>, faces: map<nat, Key>, i: nat, g: Graph<C>, f: nat)
    requires Filling(bm, verts, faces, g) && i <= f < |bm.faces| && OnlyFaceWithKey(g.faceKeys, i, f)
    ensures var r := FillFaces(bm, verts, faces, i, g); g.faceKeys[f] in r.faceVertices && r.faceVertices[g.faceKeys[f]] == g.faceVertices[g.faceKeys[f]] + FaceKeys(bm, verts, f)
    decreases |bm.faces| - i
  {
    if f == i {
      FillFacesFirstFaceVertices(bm, verts, faces, i, g);
    } else {
      FillFaceFilling(bm, verts, faces, i, g);
      var g1 := FillFace(bm, verts, faces[i], i, 0, g);
      assert FillFaces(bm, verts, faces, i, g) == FillFaces(bm, verts, faces, i + 1, g1);
      FillFacesFaceVertices(bm, verts, faces, i + 1, g1, f);
    }
  }

  /** The first face still to fill, if no later face shares its key, ends
      up with its loop vertices' keys after what it held before. */
  lemma FillFacesFirstFaceVertices<C>(bm: BMesh<C>, verts: map<nat, Key>, faces: map<nat, Key>, i: nat, g: Graph<C>)
    requires Filling(bm, verts, faces, g) && i < |bm.faces| && OnlyFaceWithKey(g.faceKeys, i, i)
    ensures var r := FillFaces(bm, verts, faces, i, g); g.faceKeys[i] in r.faceVertices && r.faceVertices[g.faceKeys[i]] == g.faceVertices[g.faceKeys[i]] + FaceKeys(bm, verts, i)
  {
    FillFaceAppends(bm, verts, faces, i, g);
    var g1 := FillFace(bm, verts, faces[i], i, 0, g);
    assert FillFaces(bm, verts, faces, i, g) == FillFaces(bm, verts, faces, i + 1, g1);
    OnlyFaceNotInTail(g.faceKeys, i);
    FillFacesKeepsFace(bm, verts, faces, i + 1, g1, g.faceKeys[i]);
  }

  /** Filling face `i` appends the keys of its loop vertices to its sequence. */
  lemma FillFaceAppends<C>(bm: BMesh<C>, verts: map<nat, Key>, faces: map<nat, Key>, i: nat, g: Graph<C>)
    requires Filling(bm, verts, faces, g) && i < |bm.faces|
    ensures var g1 := FillFace(bm, verts, faces[i], i, 0, g);
      && Filling(bm, verts, faces, g1) && g1.faceKeys == g.faceKeys
      && g1.faceVertices[g.faceKeys[i]] == g.faceVertices[g.faceKeys[i]] + FaceKeys(bm, verts, i)
  {
    FillFaceFilling(bm, verts, faces, i, g);
    assert FaceKeys(bm, verts, i)[0..] == FaceKeys(bm, verts, i);
  }

  /** Every vertex of a face still to fill ends up incident to that face. */
  lemma {:induction false} FillFacesCovers<C>(bm: BMesh<C>, verts: map<nat, Key>, faces: map<nat, Key>, i: nat, g: Graph<C>, f: nat, m: nat)
    requires Filling(bm, verts, faces, g) && i <= f < |bm.faces| && m < |bm.faces[f]|
    ensures var r := FillFaces(bm, verts, faces, i, g); FaceKeys(bm, verts, f)[m] in r.vertexFaces && g.faceKeys[f] in r.vertexFaces[FaceKeys(bm, verts, f)[m]]
    decreases |bm.faces| - i
  {
    FillFaceFilling(bm, verts, faces, i, g);
    var g1 := FillFace(bm, verts, faces[i], i, 0, g);
    assert FillFaces(bm, verts, faces, i, g) == FillFaces(bm, verts, faces, i + 1, g1);
    if f == i {
      FillFaceCovers(bm, verts, faces[i], i, 0, g, m);
      FillFacesKeepsIn(bm, verts, faces, i + 1, g1, FaceKeys(bm, verts, f)[m], g.faceKeys[f]);
    } else {
      FillFacesCovers(bm, verts, faces, i + 1, g1, f, m);
    }
  }

  /** Under `RadialWithinFaces`, filling faces `i` onwards adds face key `x`
      to the incidence set of `u` only if `x` is the key of one of those faces
      and `u` the key of a vertex of that face. */
  lemma {:induction false} FillFacesStaysInFace<C>(bm: BMesh<C>, verts: map<nat, Key>, faces: map<nat, Key>, i: nat, g: Graph<C>, u: Key, x: Key)
    requires Filling(bm, verts, faces, g) && i <= |bm.faces| && RadialWithinFaces(bm)
    requires u in g.vertexFaces && x !in g.vertexFaces[u]
    requires forall f :: i <= f < |bm.faces| && g.faceKeys[f] == x ==> u !in FaceKeys(bm, verts, f)
    ensures var r := FillFaces(bm, verts, faces, i, g); u in r.vertexFaces && x !in r.vertexFaces[u]
    decreases |bm.faces| - i
  {
    if i < |bm.faces| {
      FillFaceMisses(bm, verts, faces, i, g, u, x);
      var g1 := FillFace(bm, verts, faces[i], i, 0, g);
      assert FillFaces(bm, verts, faces, i, g) == FillFaces(bm, verts, faces, i + 1, g1);
      FillFacesStaysInFace(bm, verts, faces, i + 1, g1, u, x);
    }
  }

  /** Filling face `i` adds face key `x` to the incidence set of `u` only if
      `x` is the key of face `i` and `u` the key of one of its vertices. */
  lemma FillFaceMisses<C>(bm: BMesh<C>, verts: map<nat, Key>, faces: map<nat, Key>, i: nat, g: Graph<C>, u: Key, x: Key)
    requires Filling(bm, verts, faces, g) && i < |bm.faces| && RadialWithinFaces(bm)
    requires u in g.vertexFaces && x !in g.vertexFaces[u]
    requires g.faceKeys[i] == x ==> u !in FaceKeys(bm, verts, i)
    ensures var g1 := FillFace(bm, verts, faces[i], i, 0, g);
      Filling(bm, verts, faces, g1) && u in g1.vertexFaces && x !in g1.vertexFaces[u]
  {
    FillFaceFilling(bm, verts, faces, i, g);
    if x == g.faceKeys[i] {
      FillFaceStaysInFace(bm, verts, faces[i], i, 0, g, u);
    }
  }

  /** Lines 126-135: one graph vertex per BMesh vertex and one empty graph
      face per BMesh face, with the tables `verts` and `faces` from BMesh
      indices to the new keys. */
  function Allocate<C>(bm: BMesh<C>): (r: Conversion<C>)
    ensures Valid(r.mesh)
    ensures TableOf(r.verts, r.mesh.vertexKeys) && |r.mesh.vertexKeys| == |bm.coords|
    ensures TableOf(r.faces, r.mesh.faceKeys) && |r.mesh.faceKeys| == |bm.faces|
    ensures forall v :: 0 <= v < |bm.coords| ==> r.mesh.coords[r.mesh.vertexKeys[v]] == bm.coords[v]
    ensures forall k :: k in r.mesh.vertexFaces ==> r.mesh.vertexFaces[k] == {}
    ensures forall k :: k in r.mesh.faceVertices ==> r.mesh.faceVertices[k] == []
  {
    var (g1, verts) := CreateVertices(bm.coords, Empty(), map[]);
    var (g2, faces) := CreateFaces(|bm.faces|, g1, map[]);
    Conversion(g2, verts, faces)
  }

  /** The allocated graph is ready for filling faces. */
  lemma AllocateFilling<C>(bm: BMesh<C>)
    requires WellFormed(bm)
    ensures var c := Allocate(bm); Filling(bm, c.verts, c.faces, c.mesh)
  {
    var c := Allocate(bm);
    forall v | 0 <= v < |bm.coords|
      ensures v in c.verts && c.verts[v] in c.mesh.vertexFaces
    {
      assert c.verts[v] == c.mesh.vertexKeys[v];
    }
  }

  /** `bpyToDLFL` (lines 105-150) on a given BMesh: allocate, then fill
      every face in index order. */
  function ToGraph<C>(bm: BMesh<C>): (r: Conversion<C>)
    requires WellFormed(bm)
    ensures TableOf(r.verts, r.mesh.vertexKeys) && |r.mesh.vertexKeys| == |bm.coords|
    ensures TableOf(r.faces, r.mesh.faceKeys) && |r.mesh.faceKeys| == |bm.faces|
  {
    var c := Allocate(bm);
    AllocateFilling(bm);
    c.(mesh := FillFaces(bm, c.verts, c.faces, 0, c.mesh))
  }
}
