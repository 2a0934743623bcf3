# pytopmod add-on core, modelled in Dafny

The pytopmod Blender add-on edits meshes with the pytopmod DLFL library, a
doubly linked face list (`DLFLMesh`), which this model calls a graph. It converts the host's
boundary-representation mesh (a BMesh) into such a graph (`bpyToDLFL`). It
hands the graph to a library operation. It converts the graph back into
vertex and face lists for the host (`DLFLtoBPY`). The Delete Edge and Insert
Edge operators first collect two corners, each a vertex and a face. The user
picks them through a small event-driven session (`modal`): Alt+1 to Alt+4
record the first selected vertex or face in one of four slots, and ESC
cancels. The next event after all four slots are set runs the operator. The
Triangular Subdivision operator triangulates every face present when it
starts.

The model has eight modules, one file each:

- `BMeshModel` (`bmesh.dfy`) models the BMesh with indices as handles.
  - Vertices carry opaque coordinates of a type parameter `C`.
  - Loops carry `vert`, `edge` and `radialNext`.
  - Faces are sequences of loop ids.
  - It states the BMesh invariants the conversion relies on: every radial walk closes, every radial cycle stays on one edge, and a loop's edge joins its vertex and the next loop's vertex.
- `Dlfl` (`dlfl.dfy`) models the graph.
  - Its fields are the vertex and face key lists in creation order, coordinates, face vertex sequences, vertex incidence sets, and a key allocator.
  - It models `create_vertex`, `create_face`, the `append` on a face and the guarded `add` on an incidence set.
- `ToDlfl` (`to_dlfl.dfy`) models `bpyToDLFL`: allocation, then each face's loops, including the radial walk.
- `ToDlflProperties` (`to_dlfl_properties.dfy`) proves what the conversion builds: the tables, the face sequences, the incidence invariant and graph validity.
- `ToBpy` (`to_bpy.dfy`) models `DLFLtoBPY` up to the two lists handed to `from_pydata`. Each vertex entry there is a generator over the key's coordinates, and the model writes it as the coordinates it yields.
- `RoundTrip` (`round_trip.dfy`) proves that converting and converting back gives the BMesh's own lists.
- `CornerSession` (`corner_session.dfy`) models the `modal` state machine and the key lookups in `execute`.
- `Subdivision` (`subdivision.dfy`) models the snapshot loop of the Triangular Subdivision operator, with `triangulate_face` as a function parameter.

Three behaviours of the code are easy to expect otherwise:

- **Corners are never validated.** Once all four slots are set, nothing checks that each vertex lies on its face, and no slot is ever cleared. `execute` looks the four indices up in the conversion tables and calls the library.
- **Commit happens on the event after the fourth fill.** The all-set test runs at the start of `modal`, so the event that fills the fourth slot returns PASS_THROUGH. Any event after it commits, whatever kind that event is.
- **There are no error checks or reports.** Nothing checks that a radial walk closes, and no degenerate face is rejected on the way back. A walk that never closes would loop forever, so the model requires closed walks (`WellFormed`). The way back accepts any face whose keys are vertex keys.

## Model

| member | source | states |
|---|---|---|
| Dlfl.Empty | pytopmod-addon.py:125 | A new mesh is a valid graph with no vertices and no faces. |
| Dlfl.CreateVertex | pytopmod-addon.py:131 | The returned key is fresh: not an existing vertex or face key. It is appended to the vertex keys, gets the coordinates and an empty incidence set, and the graph stays valid. |
| Dlfl.CreateFace | pytopmod-addon.py:135 | The returned key is fresh. It is appended to the face keys with an empty vertex sequence, and nothing else changes. |
| Dlfl.AppendFaceVertex | pytopmod-addon.py:138 | Only face `fk` changes, and it gains `vk` at its end. |
| Dlfl.AddIncidence | pytopmod-addon.py:141-142 | The guarded add equals a set union on one incidence set; every other set and field is unchanged. |
| ToDlfl.CreateVertices | pytopmod-addon.py:130-131 | One graph vertex per BMesh vertex, in index order. The table `verts` sends index `v` to the `v`-th key, each key holds its vertex's coordinates, and every incidence set is empty. |
| ToDlfl.CreateFaces | pytopmod-addon.py:134-135 | One graph face per BMesh face, in index order. The table `faces` sends index `f` to the `f`-th face key, and every face sequence is empty. |
| ToDlfl.Allocate | pytopmod-addon.py:125-135 | After allocation the graph is valid, both tables are total on the BMesh indices and aligned with the key lists, coordinates are copied, and sequences and incidence sets are empty. |
| ToDlfl.RadialWalk | pytopmod-addon.py:144-148 | The walk from `l` until it is back at `start` only adds face `fk` to incidence sets. It changes no other field. |
| ToDlfl.RadialWalkMisses | pytopmod-addon.py:144-148 | A vertex key not met on the first `k` radial steps keeps its incidence set. |
| ToDlfl.WalkStaysInFace | pytopmod-addon.py:144-148 | Under the BMesh invariants, the walk from a loop of face `f` leaves every key outside `f`'s vertex keys unchanged, though it visits other faces' loops. |
| ToDlfl.RadialWalkCovers | pytopmod-addon.py:144-148 | The walk adds face `fk` to the incidence set of the vertex of every loop it reaches before it is back at `start`. |
| ToDlfl.CycleWalkCovers | pytopmod-addon.py:141-148 | Started one step past loop `l`, on a graph where `fk` is already incident to `l`'s vertex, the walk leaves `fk` incident to the vertex of every loop on `l`'s radial cycle up to the first return to `l`. |
| ToDlfl.VisitLoop | pytopmod-addon.py:137-148 | One loop appends its vertex's key to the face. It makes the face incident to that key and to the vertex key of every loop on the loop's radial cycle up to the first return. It only adds the starting face. Under the BMesh invariants it touches no vertex outside the face. |
| ToDlfl.FillFace | pytopmod-addon.py:137-148 | A face's loops from position `j` append exactly the keys of their vertices, in loop order, to the face's sequence, and only add that face to incidence sets. |
| ToDlfl.FillFaceCovers | pytopmod-addon.py:137-142 | Every vertex of the face from position `j` on ends up with the face in its incidence set. |
| ToDlfl.FillFaceStaysInFace | pytopmod-addon.py:137-148 | Under the BMesh invariants, filling a face leaves the incidence sets of keys outside the face unchanged. |
| ToDlfl.FillFaceAppends | pytopmod-addon.py:136-138 | Filling face `i` appends its loop vertex keys to its own sequence and keeps the face keys. |
| ToDlfl.FillFaces | pytopmod-addon.py:136-148 | The face loop changes only face sequences and incidence sets: the keys, coordinates, tables and allocator stay as they were. |
| ToDlfl.FillFacesKeepsIn | pytopmod-addon.py:136-148 | Filling the remaining faces never removes an incidence. |
| ToDlfl.FillFacesDomain | pytopmod-addon.py:136-148 | Filling faces neither adds nor removes a key from the incidence or face-sequence tables. |
| ToDlfl.FillFacesKeepsOut | pytopmod-addon.py:136-148 | Only the keys of faces still to fill are ever added to an incidence set. |
| ToDlfl.FillFacesKeepsFace | pytopmod-addon.py:136-138 | A face not among those still to fill keeps its vertex sequence. |
| ToDlfl.FillFacesFaceVertices | pytopmod-addon.py:136-138 | Each face still to fill ends up with its old sequence followed by its loop vertex keys, when no other remaining face shares its key. |
| ToDlfl.FillFacesCovers | pytopmod-addon.py:136-142 | Every vertex of every face still to fill ends up incident to that face. |
| ToDlfl.FillFacesStaysInFace | pytopmod-addon.py:136-148 | Under the BMesh invariants, face key `x` is added to `u`'s set only if `u` is the key of a vertex of a remaining face with key `x`. |
| ToDlfl.ToGraph | pytopmod-addon.py:105-150 | The conversion returns tables `verts` and `faces`. Each is defined on exactly the BMesh indices and sends index `i` to the `i`-th created key. |
| ToDlflProperties.ToGraphTables | pytopmod-addon.py:128-135 | There is exactly one graph vertex per BMesh vertex and one graph face per BMesh face, and both tables are total on the BMesh indices. |
| ToDlflProperties.ToGraphInjective | pytopmod-addon.py:128-135 | Both tables are injective: distinct BMesh vertices get distinct keys, and so do distinct faces. |
| ToDlflProperties.ToGraphCoords | pytopmod-addon.py:131 | The key of BMesh vertex `v` has `v`'s coordinates. |
| ToDlflProperties.ToGraphFaceVertices | pytopmod-addon.py:136-138 | The graph face of BMesh face `f` holds `verts[l.vert]` for the loops `l` of `f`, in loop order and with the same length. |
| ToDlflProperties.ToGraphCovers | pytopmod-addon.py:139-148 | Every face through vertex `v` is in the incidence set of `v`'s key. |
| ToDlflProperties.ToGraphOnlyIncident | pytopmod-addon.py:139-148 | Under the BMesh invariants, a face not through `v` is not in `v`'s incidence set, although the walk visits other faces' loops. |
| ToDlflProperties.ToGraphIncidence | pytopmod-addon.py:139-148 | Under the BMesh invariants, face `f` is incident to `v`'s key if and only if `v` occurs among `f`'s loop vertices. |
| ToDlflProperties.ToGraphVertexFaces | pytopmod-addon.py:139-148 | The incidence invariant: `vertex_faces[verts[v]]` equals the set of `faces[f]` over the faces `f` whose loops contain `v`. |
| ToDlflProperties.FaceKeyOfIncidence | pytopmod-addon.py:139-148 | Every key in an incidence set is the key of some BMesh face. |
| ToDlflProperties.ToGraphValid | pytopmod-addon.py:105-150 | The converted graph satisfies the graph invariant: unique keys, tables on their own keys, and faces and incidences that name existing keys. |
| ToBpy.IndexMap | pytopmod-addon.py:158-161 | The index map is defined on exactly the vertex keys, and maps each key to a position that holds that key. |
| ToBpy.IndexMapLast | pytopmod-addon.py:160-161 | A key met twice keeps its last position, as dictionary assignment does. |
| ToBpy.IndexMapInverts | pytopmod-addon.py:158-161 | On duplicate-free keys, the map sends the `i`-th key to `i`: a bijection onto `0..n-1`. |
| ToBpy.ToMeshData | pytopmod-addon.py:158-168 | There is one coordinate entry per vertex key, holding the `i`-th key's coordinates, and one index list per face key in order. Each list has its face's length, and every index is in `[0, n)` and names the key the face holds at that position. |
| ToBpy.ToMeshDataNumbering | pytopmod-addon.py:165-168 | On a valid graph, entry `j` of face `i` is `v` exactly when the face's `j`-th key is the `v`-th vertex key. |
| RoundTrip.RoundTripVertices | pytopmod-addon.py:130-131 | Converting and converting back returns the BMesh's coordinate list unchanged. |
| RoundTrip.RoundTripFaces | pytopmod-addon.py:130-138 | Converting and converting back returns each face's loop vertex indices unchanged. |
| RoundTrip.RoundTripExact | pytopmod-addon.py:130-138 | `DLFLtoBPY(bpyToDLFL(bm))` yields exactly the BMesh's own vertex and face lists: the key relabelling cancels out. |
| CornerSession.Step | pytopmod-addon.py:230-254 | Execute exactly when all four slots were set at the start of the event. CANCELLED exactly on ESC otherwise. IndexError exactly on Alt+1..4 with an empty selection. RUNNING_MODAL never. Slots change only on a pass-through, and never without Alt. Without Alt, everything but ESC passes through. |
| CornerSession.Fill | pytopmod-addon.py:237-248 | The step raises IndexError exactly when nothing is selected, and then the slots are unchanged. Otherwise it passes the event through, slot `k` holds the first selected index, and the other three slots keep their values. |
| CornerSession.StepFillsOnlyItsSlot | pytopmod-addon.py:237-248 | Alt+1/2/3/4 overwrite only `v1`/`f1`/`v2`/`f2`, with the first selected vertex or face index, and pass the event through. |
| CornerSession.StepChangesOnlyFilledSlot | pytopmod-addon.py:234-252 | A slot changes only on the Alt event for that slot. |
| CornerSession.StepKeepsSet | pytopmod-addon.py:237-248 | A set slot is never reset to -1, since selected indices are not negative. |
| CornerSession.FilledExecutesNext | pytopmod-addon.py:232-233 | Once all four slots are set, any event executes with those slots. |
| CornerSession.Run | pytopmod-addon.py:230-254 | The host feeds events to the session while it answers PASS_THROUGH. A session that ends on another answer has used at least one event and no more than it was given. A session still open has used every event. |
| CornerSession.RunNeverRunningModal | pytopmod-addon.py:254 | No session ever answers RUNNING_MODAL. |
| CornerSession.RunExecutesFilled | pytopmod-addon.py:232-233 | A session that executes ends with all four slots set. |
| CornerSession.RunExecuteNeedsFill | pytopmod-addon.py:232-248 | A slot that was -1 at the start was filled by an Alt event strictly before the event that executes. |
| CornerSession.RunFromInitialNeedsFiveEvents | pytopmod-addon.py:205-208 | From the initial slots, executing takes at least five events: Alt+1, Alt+2, Alt+3 and Alt+4 each, then one more. |
| CornerSession.RunKeepsSet | pytopmod-addon.py:230-254 | A slot that holds an index keeps holding one for the rest of the session. |
| CornerSession.Lookup | pytopmod-addon.py:220-221 | A lookup in a table from `bpyToDLFL` succeeds exactly when the slot value is an index below the number of keys, and gives the key created at that position. -1 raises. |
| CornerSession.CornerKeys | pytopmod-addon.py:220-221 | Over the conversion's tables, the four lookups in `execute` succeed exactly when both vertex slots and both face slots are in range. They then give the keys at those positions, in `delete_edge` argument order. |
| CornerSession.CornerKeysOfConversion | pytopmod-addon.py:220-221 | After the conversion, the lookups succeed exactly when the vertex slots name BMesh vertices and the face slots name BMesh faces. They then give those elements' graph keys, with no check that the corners belong together. |
| Subdivision.FoldFacesSnoc | pytopmod-addon.py:191-192 | One more face key in the snapshot means one more call of `triangulate_face` at the end. |
| Subdivision.TriangulateAll | pytopmod-addon.py:191-192 | The loop visits exactly the face keys present before it started, in order. Its result equals the reference fold of `triangulate_face` over that snapshot. |
| Subdivision.FoldKeepsFaceKeys | pytopmod-addon.py:191-192 | If `triangulate_face` retires at most the face it is given, a face the loop is not given survives the loop. |
| Subdivision.FoldReachesLiveFaces | pytopmod-addon.py:191-192 | Under the same assumption, every key of the snapshot is still a live face when the loop reaches it, so `triangulate_face` never receives a retired key. |
| Subdivision.FoldKeepsValid | pytopmod-addon.py:191-192 | If `triangulate_face` keeps the graph valid, so does the loop. |
| Subdivision.Subdivide | pytopmod-addon.py:188-196 | Convert, triangulate the snapshot, and list the result. The result can be listed whenever `triangulate_face` keeps graphs valid. |
| Subdivision.SubdivideIdentity | pytopmod-addon.py:188-196 | With a `triangulate_face` that changes nothing, the operator gives back the mesh's own lists. |

## Left out

- Fetching the BMesh from edit or object mode, `from_pydata`/`update`, edit-mode toggles, deselection and replacing the object's mesh data are host API calls. The BMesh is an input and the output is the two lists.
- The library operations `triangulate_face`, `delete_edge` and `insert_edge` are not part of this model. `triangulate_face` is a function parameter. `delete_edge` and `insert_edge` are represented only by the keys `execute` passes them (`CornerKeys`).
- `create_vertex` and `create_face` are modelled by a key allocator. That gives them the three facts the add-on relies on. Keys are fresh. A new face has an empty sequence. A new vertex gets its coordinates and an empty incidence set, which the guarded `add` at line 141 reads and which the incidence invariant needs to start empty. Library code beyond that is not part of this model.
- Vertex coordinates are floats in the host. Here they are an opaque type `C` that is only copied.
- Dependency installation, operator registration, panels, pie menus and keymaps are process I/O and UI.
- The `invoked` flag set at the top of `modal` is never read by the code shown, so it is not modelled.
- `poll` depends only on host mode and is not modelled.
- Element indices are modelled as positions. This assumes the host's index tables are up to date, which the add-on assumes too.
- `vertex_keys` and `face_keys` are modelled as enumerating keys in creation order, as the insertion order of a Python dictionary does.
- ToBpy.ToMeshData: the `KeyError` paths at lines 162 and 167 are excluded by `Readable`. These are a vertex key without coordinates, a face key without a sequence, and a face naming a key that is not a vertex key. Every valid graph is readable (`ValidReadable`), and the library keeps its graphs valid.
- ToDlfl.RadialWalk: the number of radial steps back to the start is a ghost argument. A BMesh whose radial walk never closes is excluded by `WellFormed`, because the code would not terminate on it.
- Execute is an outcome of `CornerSession.Step` and `CornerSession.Run`. Its effect beyond the key lookups is the conversion and a library call, which are modelled separately or left out.
- The selection passed to `Step` is the list of selected indices in index order. How the host records selection is not modelled.
