/** `DLFLtoBPY` (pytopmod-addon.py:152-173) up to, not including, the call
    that hands the lists to the host: number the vertex keys in enumeration
    order, list their coordinates, and list each face as vertex numbers. */
module ToBpy {
  import opened Dlfl

  /** The two lists given to `from_pydata`: vertex coordinates, and per face
      the vertex numbers in order. Line 162 appends a one-shot generator over
      the key's coordinates rather than the coordinates themselves; an entry
      of `vertices` stands for that generator through the coordinates it
      yields. The dictionary read behind the generator happens at once, so a
      missing key still raises on line 162. */
  datatype MeshData<C> = MeshData(vertices: seq<C>, faces: seq<seq<nat>>)

  /** Lines 158-160: `vertex_index_map[vertex] = index` over the enumerated
      keys. A key met twice keeps its last index, as a dictionary does. */
  function IndexMap(keys: seq<Key>): (m: map<Key, nat>)
    ensures forall k :: k in m <==> k in keys
    ensures forall k :: k in m ==> m[k] < |keys| && keys[m[k]] == k
  {
    if |keys| == 0 then map[]
    else
      var n := |keys| - 1;
      var m := IndexMap(keys[..n]);
      assert forall j :: 0 <= j < n ==> keys[..n][j] == keys[j];
      assert forall k :: k in keys ==> k in keys[..n] || k == keys[n];
      m[keys[n] := n]
  }

  /** A key met more than once is numbered by its last position. */
  lemma {:induction false} IndexMapLast(keys: seq<Key>, k: Key, j: nat)
    requires k in IndexMap(keys) && IndexMap(keys)[k] < j < |keys|
    ensures keys[j] != k
    decreases |keys|
  {
    var n := |keys| - 1;
    if j < n && k != keys[n] {
      assert keys[..n][j] == keys[j];
      IndexMapLast(keys[..n], k, j);
    }
  }

  /** On a duplicate-free key list the index map inverts the enumeration. */
  lemma IndexMapInverts(keys: seq<Key>, i: nat)
    requires Distinct(keys) && i < |keys|
    ensures keys[i] in IndexMap(keys) && IndexMap(keys)[keys[i]] == i
  {
    var m := IndexMap(keys);
    assert keys[i] in keys;
    var j := m[keys[i]];
    assert keys[j] == keys[i];
  }

  /** What the loops need of the graph so that no lookup fails: every vertex
      key has coordinates, every face key has a vertex sequence, and every key
      in a face's sequence is a vertex key. A `Valid` graph has all three. */
  ghost predicate Readable<C>(g: Graph<C>) {
    && (forall k :: k in g.vertexKeys ==> k in g.coords)
    && (forall fk :: fk in g.faceKeys ==> fk in g.faceVertices)
    && (forall fk, k :: fk in g.faceVertices && k in g.faceVertices[fk] ==> k in g.vertexKeys)
  }

  lemma ValidReadable<C>(g: Graph<C>)
    requires Valid(g)
    ensures Readable(g)
  {
  }

  /** Lines 166-167: the vertex numbers of face `fk`. */
  function FaceIndices<C>(g: Graph<C>, m: map<Key, nat>, fk: Key): (ix: seq<nat>)
    requires fk in g.faceVertices
    requires forall k :: k in g.faceVertices[fk] ==> k in m
    ensures |ix| == |g.faceVertices[fk]|
    ensures forall j :: 0 <= j < |ix| ==> ix[j] == m[g.faceVertices[fk][j]]
  {
    seq(|g.faceVertices[fk]|, j requires 0 <= j < |g.faceVertices[fk]| => m[g.faceVertices[fk][j]])
  }

  /** Lines 158-168: one coordinate entry per vertex key and one index list
      per face key, both in enumeration order. Every index names an output
      vertex, and names it through the key the face holds. */
  function ToMeshData<C>(g: Graph<C>): (r: MeshData<C>)
    requires Readable(g)
    ensures |r.vertices| == |g.vertexKeys| && |r.faces| == |g.faceKeys|
    ensures forall i :: 0 <= i < |g.vertexKeys| ==> r.vertices[i] == g.coords[g.vertexKeys[i]]
    ensures forall i :: 0 <= i < |g.faceKeys| ==> |r.faces[i]| == |g.faceVertices[g.faceKeys[i]]|
    ensures forall i, j :: 0 <= i < |r.faces| && 0 <= j < |r.faces[i]| ==>
      r.faces[i][j] < |r.vertices| && g.vertexKeys[r.faces[i][j]] == g.faceVertices[g.faceKeys[i]][j]
  {
    var m := IndexMap(g.vertexKeys);
    var vs := seq(|g.vertexKeys|, i requires 0 <= i < |g.vertexKeys| => g.coords[g.vertexKeys[i]]);
    var fs := seq(|g.faceKeys|, i requires 0 <= i < |g.faceKeys| => FaceIndices(g, m, g.faceKeys[i]));
    MeshData(vs, fs)
  }

  /** On a `Valid` graph the index of the key at position `j` of a face is
      the position of that key among the vertex keys: the numbering is
      exactly the enumeration order. */
  lemma ToMeshDataNumbering<C>(g: Graph<C>, i: nat, j: nat, v: nat)
    requires Valid(g) && i < |g.faceKeys| && v < |g.vertexKeys|
    requires j < |g.faceVertices[g.faceKeys[i]]|
    ensures ToMeshData(g).faces[i][j] == v <==> g.faceVertices[g.faceKeys[i]][j] == g.vertexKeys[v]
  {
    var r := ToMeshData(g);
    var w := r.faces[i][j];
    assert g.vertexKeys[w] == g.faceVertices[g.faceKeys[i]][j];
    if g.faceVertices[g.faceKeys[i]][j] == g.vertexKeys[v] {
      assert g.vertexKeys[w] == g.vertexKeys[v];
    }
  }
}
