/** The topology graph of the mesh-algebra library (a `DLFLMesh`): vertices
    and faces named by opaque keys, each face's ordered vertex keys, and each
    vertex's set of incident face keys. The library's own allocator is not
    visible; it is stood in for by a counter `nextKey`. Together with
    `CreateVertex` and `CreateFace` it gives the three facts the add-on relies
    on: every created key is fresh, a new face has an empty vertex sequence,
    and a new vertex gets its coordinates and an empty incidence set. */
module Dlfl {

  type Key = nat

  /** `vertexKeys` and `faceKeys` list the keys in creation order, which is
      also the order in which the library enumerates them. */
  datatype Graph<C> = Graph(
    vertexKeys: seq<Key>,
    coords: map<Key, C>,
    faceKeys: seq<Key>,
    faceVertices: map<Key, seq<Key>>,
    vertexFaces: map<Key, set<Key>>,
    nextKey: Key)

  /** No key occurs twice in `s`. */
  ghost predicate Distinct(s: seq<Key>) {
    forall i, j :: 0 <= i < j < |s| ==> s[i] != s[j]
  }

  /** The graph's own invariant: keys are unique and below the allocator,
      every table is defined exactly on the keys it belongs to, and faces and
      incidence sets only mention existing keys. */
  ghost predicate Valid<C>(g: Graph<C>) {
    && Distinct(g.vertexKeys)
    && Distinct(g.faceKeys)
    && (forall k :: k in g.coords <==> k in g.vertexKeys)
    && (forall k :: k in g.vertexFaces <==> k in g.vertexKeys)
    && (forall k :: k in g.faceVertices <==> k in g.faceKeys)
    && (forall k :: k in g.vertexKeys ==> k < g.nextKey)
    && (forall k :: k in g.faceKeys ==> k < g.nextKey)
    && (forall fk, k :: fk in g.faceVertices && k in g.faceVertices[fk] ==> k in g.vertexKeys)
    && (forall vk, k :: vk in g.vertexFaces && k in g.vertexFaces[vk] ==> k in g.faceKeys)
  }

  /** Appending a key not yet present keeps a key list duplicate-free. */
  lemma DistinctAppend(s: seq<Key>, k: Key)
    requires Distinct(s) && k !in s
    ensures Distinct(s + [k])
  {
    forall i, j | 0 <= i < j < |s + [k]|
      ensures (s + [k])[i] != (s + [k])[j]
    {
      if j == |s| {
        assert s[i] in s;
      }
    }
  }

  /** A freshly constructed `DLFLMesh()`. */
  function Empty<C>(): (g: Graph<C>)
    ensures Valid(g)
    ensures |g.vertexKeys| == 0 && |g.faceKeys| == 0
  {
    Graph([], map[], [], map[], map[], 0)
  }

  /** `create_vertex(co)`: a new vertex at `co`, with no incident face yet. */
  function CreateVertex<C>(g: Graph<C>, co: C): (r: (Graph<C>, Key))
    requires Valid(g)
    ensures Valid(r.0)
    ensures r.1 !in g.vertexKeys && r.1 !in g.faceKeys
    ensures r.0.vertexKeys == g.vertexKeys + [r.1]
    ensures r.0.coords == g.coords[r.1 := co]
    ensures r.0.vertexFaces == g.vertexFaces[r.1 := {}]
    ensures r.0.faceKeys == g.faceKeys && r.0.faceVertices == g.faceVertices
  {
    var k := g.nextKey;
    DistinctAppend(g.vertexKeys, k);
    (g.(vertexKeys := g.vertexKeys + [k], coords := g.coords[k := co],
        vertexFaces := g.vertexFaces[k := {}], nextKey := k + 1), k)
  }

  /** `create_face()`: a new face whose vertex sequence is empty. */
  function CreateFace<C>(g: Graph<C>): (r: (Graph<C>, Key))
    requires Valid(g)
    ensures Valid(r.0)
    ensures r.1 !in g.faceKeys && r.1 !in g.vertexKeys
    ensures r.0.faceKeys == g.faceKeys + [r.1]
    ensures r.0.faceVertices == g.faceVertices[r.1 := []]
    ensures r.0.vertexKeys == g.vertexKeys && r.0.coords == g.coords && r.0.vertexFaces == g.vertexFaces
  {
    var k := g.nextKey;
    DistinctAppend(g.faceKeys, k);
    (g.(faceKeys := g.faceKeys + [k], faceVertices := g.faceVertices[k := []], nextKey := k + 1), k)
  }

  /** `face_vertices[fk].append(vk)`: only face `fk` changes, and it gains
      `vk` at its end. */
  function AppendFaceVertex<C>(g: Graph<C>, fk: Key, vk: Key): (r: Graph<C>)
    requires fk in g.faceVertices
    ensures r == g.(faceVertices := r.faceVertices)
    ensures r.faceVertices.Keys == g.faceVertices.Keys
    ensures forall k :: k in g.faceVertices && k != fk ==> r.faceVertices[k] == g.faceVertices[k]
    ensures r.faceVertices[fk] == g.faceVertices[fk] + [vk]
  {
    g.(faceVertices := g.faceVertices[fk := g.faceVertices[fk] + [vk]])
  }

  /** `r`'s incidence sets are `g`'s, some of them with face `fk` added. */
  ghost predicate AddsOnly<C>(g: Graph<C>, r: Graph<C>, fk: Key) {
    && r.vertexFaces.Keys == g.vertexFaces.Keys
    && forall u :: u in g.vertexFaces ==> g.vertexFaces[u] <= r.vertexFaces[u] <= g.vertexFaces[u] + {fk}
  }

  lemma AddsOnlyTrans<C>(a: Graph<C>, b: Graph<C>, c: Graph<C>, fk: Key)
    requires AddsOnly(a, b, fk) && AddsOnly(b, c, fk)
    ensures AddsOnly(a, c, fk)
  {
  }

  /** Face `fk` is recorded in the incidence set of vertex `vk`. */
  ghost predicate Incident<C>(g: Graph<C>, vk: Key, fk: Key) {
    vk in g.vertexFaces && fk in g.vertexFaces[vk]
  }

  /** Only adding keeps every incidence already there. */
  lemma AddsOnlyKeeps<C>(g: Graph<C>, r: Graph<C>, fk: Key, u: Key, x: Key)
    requires AddsOnly(g, r, fk) && Incident(g, u, x)
    ensures Incident(r, u, x)
  {
  }

  /** `if fk not in vertex_faces[vk]: vertex_faces[vk].add(fk)`: skipping the
      add when `fk` is present is the same as a set union. */
  function AddIncidence<C>(g: Graph<C>, vk: Key, fk: Key): (r: Graph<C>)
    requires vk in g.vertexFaces
    ensures r == g.(vertexFaces := r.vertexFaces)
    ensures r.vertexFaces == g.vertexFaces[vk := g.vertexFaces[vk] + {fk}]
    ensures AddsOnly(g, r, fk)
  {
    if fk in g.vertexFaces[vk] then
      assert g.vertexFaces[vk] + {fk} == g.vertexFaces[vk];
      g
    else g.(vertexFaces := g.vertexFaces[vk := g.vertexFaces[vk] + {fk}])
  }
}
