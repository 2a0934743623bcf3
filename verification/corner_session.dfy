/** The corner-selection session of the Delete Edge and Insert Edge operators
    (`modal`, pytopmod-addon.py:230-254, repeated verbatim at 290-314). The
    operator keeps four integer slots `v1`, `f1`, `v2`, `f2`, all -1 at the
    start (lines 205-208 and 265-268). Each keyboard or mouse event is one
    `Step`; Alt+1..4 copy the index of the first selected vertex or face into
    a slot, ESC cancels, and once all four slots are set the next event runs
    the operator's `execute`. */
module CornerSession {
  import opened Dlfl
  import opened BMeshModel
  import opened ToDlfl

  /** The event types the session tells apart; every other type is `Other`. */
  datatype EventType =
    | One | Two | Three | Four | Esc
    | MouseMove | LeftMouse | RightMouse | WheelDownMouse | MiddleMouse | WheelUpMouse
    | Other(code: nat)

  datatype Event = Event(kind: EventType, alt: bool)

  /** The event types a session without Alt hands straight back to the host
      (line 235). FOUR and ESC are not among them. */
  const PassKeys: set<EventType> :=
    {One, Two, Three, MouseMove, LeftMouse, RightMouse, WheelDownMouse, MiddleMouse, WheelUpMouse}

  /** The four operator properties. */
  datatype Slots = Slots(v1: int, f1: int, v2: int, f2: int)

  /** Lines 205-208: every slot starts at -1. */
  const Initial: Slots := Slots(-1, -1, -1, -1)

  datatype Slot = V1 | F1 | V2 | F2

  datatype Option<T> = None | Some(value: T)

  function Get(s: Slots, k: Slot): int {
    match k
    case V1 => s.v1
    case F1 => s.f1
    case V2 => s.v2
    case F2 => s.f2
  }

  /** The slot with `k` set to `x` and the other three kept. */
  function Set(s: Slots, k: Slot, x: int): (r: Slots)
    ensures Get(r, k) == x
    ensures forall j :: j != k ==> Get(r, j) == Get(s, j)
  {
    match k
    case V1 => s.(v1 := x)
    case F1 => s.(f1 := x)
    case V2 => s.(v2 := x)
    case F2 => s.(f2 := x)
  }

  /** Which slot Alt with the given key fills: 1 -> v1, 2 -> f1, 3 -> v2,
      4 -> f2 (lines 237-248). */
  function SlotOf(kind: EventType): (r: Option<Slot>) {
    match kind
    case One => Some(V1)
    case Two => Some(F1)
    case Three => Some(V2)
    case Four => Some(F2)
    case _ => None
  }

  /** Vertex slots read the selected vertices, face slots the selected faces. */
  predicate IsVertexSlot(k: Slot) {
    k == V1 || k == V2
  }

  /** The indices of the selected vertices and faces, each in index order;
      the session reads only the first of each. */
  datatype Selection = Selection(verts: seq<nat>, faces: seq<nat>)

  function Candidates(sel: Selection, k: Slot): seq<nat> {
    if IsVertexSlot(k) then sel.verts else sel.faces
  }

  /** `IndexError` is the exception `[0]` raises on an empty selection list;
      `RunningModal` is the value the unreachable last line would return. */
  datatype Outcome = PassThrough | Cancelled | Execute | IndexError | RunningModal

  datatype StepResult = StepResult(slots: Slots, outcome: Outcome)

  /** Line 232: all four slots hold something other than -1. */
  predicate Filled(s: Slots) {
    s.v1 != -1 && s.v2 != -1 && s.f1 != -1 && s.f2 != -1
  }

  /** The event fills slot `k`: Alt together with the slot's key. */
  predicate FillsSlot(e: Event, k: Slot) {
    e.alt && SlotOf(e.kind) == Some(k)
  }

  /** Lines 231-254, branch for branch. The all-filled test comes before
      anything else, so an event never both fills a slot and executes. */
  function Step(s: Slots, e: Event, sel: Selection): (r: StepResult)
    ensures r.outcome != RunningModal
    ensures r.outcome == Execute <==> Filled(s)
    ensures r.outcome == Cancelled <==> !Filled(s) && e.kind == Esc
    ensures r.outcome == IndexError <==>
      !Filled(s) && e.alt && SlotOf(e.kind).Some? && |Candidates(sel, SlotOf(e.kind).value)| == 0
    ensures r.outcome != PassThrough ==> r.slots == s
    ensures !e.alt ==> r.slots == s && (r.outcome == PassThrough <==> !Filled(s) && e.kind != Esc)
  {
    if Filled(s) then StepResult(s, Execute)
    else if !e.alt && e.kind in PassKeys then StepResult(s, PassThrough)
    else if e.alt && e.kind == One then Fill(s, V1, sel.verts)
    else if e.alt && e.kind == Two then Fill(s, F1, sel.faces)
    else if e.alt && e.kind == Three then Fill(s, V2, sel.verts)
    else if e.alt && e.kind == Four then Fill(s, F2, sel.faces)
    else if e.kind == Esc then StepResult(s, Cancelled)
    else StepResult(s, PassThrough)
  }

  /** Lines 238, 241, 244, 247: slot `k` takes the first candidate's index;
      with no candidate `[0]` raises and nothing changes. */
  function Fill(s: Slots, k: Slot, candidates: seq<nat>): (r: StepResult)
    ensures r.outcome == IndexError <==> |candidates| == 0
    ensures r.outcome == IndexError ==> r.slots == s
    ensures r.outcome != IndexError ==> r.outcome == PassThrough
    ensures |candidates| > 0 ==> Get(r.slots, k) == candidates[0]
    ensures forall j :: j != k ==> Get(r.slots, j) == Get(s, j)
  {
    if |candidates| == 0 then StepResult(s, IndexError)
    else StepResult(Set(s, k, candidates[0]), PassThrough)
  }

  /** An Alt+1..4 event on an unfilled session overwrites exactly its own
      slot, with the first selected index, and passes the event through. */
  lemma StepFillsOnlyItsSlot(s: Slots, e: Event, sel: Selection, k: Slot)
    requires !Filled(s) && FillsSlot(e, k) && |Candidates(sel, k)| > 0
    ensures Step(s, e, sel).outcome == PassThrough
    ensures Get(Step(s, e, sel).slots, k) == Candidates(sel, k)[0]
    ensures forall j :: j != k ==> Get(Step(s, e, sel).slots, j) == Get(s, j)
  {
  }

  /** A slot changes only on an event that fills it. */
  lemma StepChangesOnlyFilledSlot(s: Slots, e: Event, sel: Selection, k: Slot)
    requires !FillsSlot(e, k)
    ensures Get(Step(s, e, sel).slots, k) == Get(s, k)
  {
  }

  /** Selected indices are never negative, so a set slot stays set. */
  lemma StepKeepsSet(s: Slots, e: Event, sel: Selection, k: Slot)
    requires Get(s, k) != -1
    ensures Get(Step(s, e, sel).slots, k) != -1
  {
  }

  /** Once all four slots are set, whatever event comes next executes, and
      the slots it executes with are the ones set. */
  lemma FilledExecutesNext(s: Slots, e: Event, sel: Selection)
    requires Filled(s)
    ensures Step(s, e, sel) == StepResult(s, Execute)
  {
  }

  /** The host delivers events to `modal` while it answers PASS_THROUGH; any
      other answer ends the session (FINISHED after `execute`, CANCELLED, or
      the exception). `used` counts the events consumed; a session that runs
      out of events is still open and reports `PassThrough`. */
  datatype Session = Session(slots: Slots, outcome: Outcome, used: nat)

  function Run(s: Slots, events: seq<Event>, sels: seq<Selection>): (r: Session)
    requires |sels| == |events|
    ensures r.used <= |events|
    ensures r.outcome != PassThrough ==> r.used >= 1
    ensures r.outcome == PassThrough ==> r.used == |events|
    decreases |events|
  {
    if |events| == 0 then Session(s, PassThrough, 0)
    else
      var st := Step(s, events[0], sels[0]);
      if st.outcome == PassThrough then
        var rest := Run(st.slots, events[1..], sels[1..]);
        rest.(used := rest.used + 1)
      else Session(st.slots, st.outcome, 1)
  }

  /** A session never answers RUNNING_MODAL: the last line of `modal` is
      dead code. */
  lemma {:induction false} RunNeverRunningModal(s: Slots, events: seq<Event>, sels: seq<Selection>)
    requires |sels| == |events|
    ensures Run(s, events, sels).outcome != RunningModal
    decreases |events|
  {
    if |events| > 0 {
      var st := Step(s, events[0], sels[0]);
      if st.outcome == PassThrough {
        RunNeverRunningModal(st.slots, events[1..], sels[1..]);
      }
    }
  }

  /** A session that executes does so with all four slots set, and the slots
      it ends with are the ones it executes with. */
  lemma {:induction false} RunExecutesFilled(s: Slots, events: seq<Event>, sels: seq<Selection>)
    requires |sels| == |events|
    requires Run(s, events, sels).outcome == Execute
    ensures Filled(Run(s, events, sels).slots)
    decreases |events|
  {
    var st := Step(s, events[0], sels[0]);
    if st.outcome == PassThrough {
      RunExecutesFilled(st.slots, events[1..], sels[1..]);
    }
  }

  /** A slot that is -1 when the session starts has been filled by an
      earlier event, strictly before the event that executes. */
  lemma {:induction false} RunExecuteNeedsFill(s: Slots, events: seq<Event>, sels: seq<Selection>, k: Slot)
    requires |sels| == |events|
    requires Get(s, k) == -1 && Run(s, events, sels).outcome == Execute
    ensures exists i :: 0 <= i < Run(s, events, sels).used - 1 && FillsSlot(events[i], k)
    decreases |events|
  {
    var st := Step(s, events[0], sels[0]);
    assert st.outcome == PassThrough;
    var rest := Run(st.slots, events[1..], sels[1..]);
    assert rest.outcome == Execute;
    if FillsSlot(events[0], k) {
      assert 0 < Run(s, events, sels).used - 1;
    } else {
      StepChangesOnlyFilledSlot(s, events[0], sels[0], k);
      RunExecuteNeedsFill(st.slots, events[1..], sels[1..], k);
      var i :| 0 <= i < rest.used - 1 && FillsSlot(events[1..][i], k);
      assert FillsSlot(events[i + 1], k);
    }
  }

  /** From the initial slots, executing takes at least five events: one
      Alt+1, Alt+2, Alt+3 and Alt+4 each, then the event that commits. */
  lemma RunFromInitialNeedsFiveEvents(events: seq<Event>, sels: seq<Selection>)
    requires |sels| == |events|
    requires Run(Initial, events, sels).outcome == Execute
    ensures Run(Initial, events, sels).used >= 5
  {
    var n := Run(Initial, events, sels).used - 1;
    RunExecuteNeedsFill(Initial, events, sels, V1);
    RunExecuteNeedsFill(Initial, events, sels, F1);
    RunExecuteNeedsFill(Initial, events, sels, V2);
    RunExecuteNeedsFill(Initial, events, sels, F2);
    var a :| 0 <= a < n && FillsSlot(events[a], V1);
    var b :| 0 <= b < n && FillsSlot(events[b], F1);
    var c :| 0 <= c < n && FillsSlot(events[c], V2);
    var d :| 0 <= d < n && FillsSlot(events[d], F2);
    assert a != b && a != c && a != d && b != c && b != d && c != d;
  }

  /** A slot that holds an index when the session starts still holds one
      (not -1) when it ends: the session never clears a slot. */
  lemma {:induction false} RunKeepsSet(s: Slots, events: seq<Event>, sels: seq<Selection>, k: Slot)
    requires |sels| == |events|
    requires Get(s, k) != -1
    ensures Get(Run(s, events, sels).slots, k) != -1
    decreases |events|
  {
    if |events| > 0 {
      var st := Step(s, events[0], sels[0]);
      StepKeepsSet(s, events[0], sels[0], k);
      if st.outcome == PassThrough {
        RunKeepsSet(st.slots, events[1..], sels[1..], k);
      }
    }
  }

  /** The four keys `execute` hands to `delete_edge` / `insert_edge`
      (lines 220-221 and 280-281), in argument order. */
  datatype Corners = Corners(v1: Key, f1: Key, v2: Key, f2: Key)

  /** A dictionary lookup with an integer slot: a missing index (including
      -1) raises `KeyError`, modelled as `None`. The tables `execute` reads
      are the ones `bpyToDLFL` returns on line 220, which send index `i` to
      the `i`-th created key (`ToGraph`); `keys` is that key list. */
  function Lookup(t: map<nat, Key>, ghost keys: seq<Key>, i: int): (r: Option<Key>)
    requires TableOf(t, keys)
    ensures r.Some? <==> 0 <= i < |keys|
    ensures r.Some? ==> r.value == keys[i]
  {
    if i >= 0 && i in t then Some(t[i]) else None
  }

  /** Line 221: `verts[self.v1]`, `faces[self.f1]`, `verts[self.v2]`,
      `faces[self.f2]`; any failed lookup raises. Over index tables the
      lookups succeed exactly on the tables' ranges and give the keys at
      those positions. */
  function CornerKeys(verts: map<nat, Key>, ghost vkeys: seq<Key>, faces: map<nat, Key>, ghost fkeys: seq<Key>, s: Slots): (r: Option<Corners>)
    requires TableOf(verts, vkeys) && TableOf(faces, fkeys)
    ensures r.Some? <==>
      0 <= s.v1 < |vkeys| && 0 <= s.v2 < |vkeys| && 0 <= s.f1 < |fkeys| && 0 <= s.f2 < |fkeys|
    ensures r.Some? ==> r.value == Corners(vkeys[s.v1], fkeys[s.f1], vkeys[s.v2], fkeys[s.f2])
  {
    match (Lookup(verts, vkeys, s.v1), Lookup(faces, fkeys, s.f1), Lookup(verts, vkeys, s.v2), Lookup(faces, fkeys, s.f2))
    case (Some(a), Some(b), Some(c), Some(d)) => Some(Corners(a, b, c, d))
    case _ => None
  }

  /** On a freshly converted mesh the lookups in `execute` succeed exactly
      when both vertex slots name BMesh vertices and both face slots name
      BMesh faces, and then they give the graph elements made for those
      vertices and faces. No check that the corners belong together is made. */
  lemma CornerKeysOfConversion<C>(bm: BMesh<C>, s: Slots)
    requires WellFormed(bm)
    ensures var r := ToGraph(bm);
      CornerKeys(r.verts, r.mesh.vertexKeys, r.faces, r.mesh.faceKeys, s).Some? <==>
        0 <= s.v1 < |bm.coords| && 0 <= s.v2 < |bm.coords| &&
        0 <= s.f1 < |bm.faces| && 0 <= s.f2 < |bm.faces|
    ensures var r := ToGraph(bm);
      CornerKeys(r.verts, r.mesh.vertexKeys, r.faces, r.mesh.faceKeys, s).Some? ==>
        CornerKeys(r.verts, r.mesh.vertexKeys, r.faces, r.mesh.faceKeys, s).value ==
          Corners(r.mesh.vertexKeys[s.v1], r.mesh.faceKeys[s.f1], r.mesh.vertexKeys[s.v2], r.mesh.faceKeys[s.f2])
  {
  }
}
