/** Whole renders of one component: `before_run`, the hooks its body calls, `after_run`.

    These put the hooks together the way a component does and state what a
    sequence of renders observes: which effect bodies run, and what value a
    state slot yields from one render to the next.
 */
module Scenarios {
  import opened Values
  import opened HookState
  import opened Hooks

  // ---------------------------------------------------------------------
  // A component with one effect
  // ---------------------------------------------------------------------

  /** Between renders the component has, if it has rendered before, one effect slot with
      nothing pending and a guard of type `ty`, and one entry in its cleanup vector. */
  predicate EffectReady(rt: Runtime, id: Id, ty: Ty) {
    && Valid(rt)
    && (id in rt.buckets ==>
          var e := rt.buckets[id].effects;
          && |e| == 1
          && e[0].pending.None?
          && e[0].lastGuard.Some?
          && TypeOf(e[0].lastGuard.value) == ty
          && |rt.buckets[id].cleanups| == 1)
  }

  /** The cleanup vector the component holds between renders, empty before the first. */
  function StoredCleanups(rt: Runtime, id: Id): seq<Option<nat>> {
    if id in rt.buckets then rt.buckets[id].cleanups else []
  }

  /** The guard recorded at the previous render, none before the first. */
  function PreviousGuard(rt: Runtime, id: Id): Option<Value>
    requires id in rt.buckets ==> |rt.buckets[id].effects| > 0
  {
    if id in rt.buckets then rt.buckets[id].effects[0].lastGuard else None
  }

  /** `before_run` of a component that is ready: its effect cursor is back at slot 0. */
  lemma EffectBeforeRun(rt: Runtime, id: Id, ty: Ty)
    requires EffectReady(rt, id, ty)
    ensures var rt1 := BeforeRun(rt, id);
      && rt1.stack == rt.stack + [id] && Top(rt1) == id
      && Valid(rt1) && rt1.heap == rt.heap && rt1.log == rt.log
      && Current(rt1).nextEffectIdx == 0
      && Current(rt1).effects == (if id in rt.buckets then rt.buckets[id].effects else [])
      && Current(rt1).cleanups == StoredCleanups(rt, id)
  {
  }

  /** What `use_effect` leaves in slot 0 during the render, given the guard `prev` the
      slot recorded at the previous render (none on the first). */
  lemma EffectStored(rt: Runtime, body: EffectBody, g: Value, prev: Option<Value>)
    requires |rt.stack| > 0 && Valid(rt)
    requires Current(rt).nextEffectIdx == 0
    requires Current(rt).effects == (if prev.Some? then [EffectSlot(None, prev)] else [])
    requires prev.Some? ==> TypeOf(prev.value) == TypeOf(g)
    ensures EffectGuardReadable(rt, TypeOf(g))
    ensures var rt2 := UseEffect(rt, body, g);
      && Top(rt) in rt2.buckets
      && rt2.buckets[Top(rt)].effects ==
           [EffectSlot(if prev == Some(g) then None else Some(PendingEffect(Top(rt), 0, body)), Some(g))]
      && rt2.buckets[Top(rt)].cleanups == Current(rt).cleanups
  {
    var rt2 := UseEffect(rt, body, g);
    assert |rt2.buckets[Top(rt)].effects| == 1;
  }

  /** `after_run` of a component with one effect slot: the pending body, if any, runs and
      the slot keeps only its guard. */
  lemma EffectAfterRun(rt: Runtime, id: Id, g: Value, below: seq<Id>)
    requires id in rt.buckets && Valid(rt) && rt.stack == below + [id]
    requires |rt.buckets[id].effects| == 1 && rt.buckets[id].effects[0].lastGuard == Some(g)
    requires OwnersPresent(rt, id, 0)
    ensures var r := AfterRun(rt, id);
      && r.stack == below && r.heap == rt.heap && Valid(r)
      && id in r.buckets && r.buckets[id].effects == [EffectSlot(None, Some(g))]
      && Bodies(r.log) == Bodies(rt.log) + PendingBodies(rt.buckets[id].effects)
  {
    var r := AfterRun(rt, id);
    assert r.stack + [id] == below + [id];
    assert r.stack == (r.stack + [id])[..|below|];
  }

  /** The reference trace of a single effect slot is one step of `EffectStep`. */
  lemma OneSlotTrace(slot: EffectSlot, cs: seq<Option<nat>>, log: seq<Event>)
    ensures EffectTrace([slot], 0, cs, log)
         == if slot.pending.Some? then EffectStep(0, slot.pending.value.body, cs, log) else (cs, log)
  {
    assert [slot][1..] == [];
  }

  /** `after_run` of a component with one effect slot whose closure is its own, as
      `use_effect` builds it, and at most one stored cleanup: a pending body first calls
      the stored cleanup and clears it, then runs; its own cleanup is kept only when
      nothing was stored yet. */
  lemma EffectAfterRunCleanups(rt: Runtime, id: Id)
    requires id in rt.buckets && |rt.buckets[id].effects| == 1
    requires OwnersPresent(rt, id, 0) && OwnPending(rt, id)
    requires |rt.buckets[id].cleanups| <= 1
    ensures var r, p, cs := AfterRun(rt, id), rt.buckets[id].effects[0].pending, rt.buckets[id].cleanups;
      && (p.None? ==> r.buckets[id].cleanups == cs && r.log == rt.log)
      && (p.Some? ==>
            && r.buckets[id].cleanups == (if |cs| == 0 then [Some(p.value.body.cleanup)] else [None])
            && r.log == rt.log + (CalledCleanups(cs) + [EffectRan(p.value.body.token)]))
  {
    var b := rt.buckets[id];
    assert b.effects == [b.effects[0]];
    OneSlotTrace(b.effects[0], b.cleanups, rt.log);
    if b.effects[0].pending.Some? {
      OneCleanupStep(b.effects[0].pending.value.body, b.cleanups, rt.log);
    }
  }

  /** An effect step at slot 0 on a cleanup vector of at most one entry. */
  lemma OneCleanupStep(body: EffectBody, cs: seq<Option<nat>>, log: seq<Event>)
    requires |cs| <= 1
    ensures EffectStep(0, body, cs, log)
         == (if |cs| == 0 then [Some(body.cleanup)] else [None], log + (CalledCleanups(cs) + [EffectRan(body.token)]))
  {
    if |cs| == 0 {
      FirstCleanupStep(body, log);
    } else {
      assert cs == [cs[0]];
      StoredCleanupStep(body, cs[0], log);
    }
  }

  /** The step on an empty cleanup vector appends the body's cleanup. */
  lemma FirstCleanupStep(body: EffectBody, log: seq<Event>)
    ensures EffectStep(0, body, [], log) == ([Some(body.cleanup)], log + (CalledCleanups([]) + [EffectRan(body.token)]))
  {
    var empty: seq<Option<nat>> := [];
    assert empty + [Some(body.cleanup)] == [Some(body.cleanup)];
    assert CalledCleanups(empty) + [EffectRan(body.token)] == [EffectRan(body.token)];
  }

  /** The step on a one-entry vector calls the stored cleanup, if any, and clears it. */
  lemma StoredCleanupStep(body: EffectBody, c: Option<nat>, log: seq<Event>)
    ensures EffectStep(0, body, [c], log) == ([None], log + (CalledCleanups([c]) + [EffectRan(body.token)]))
  {
    assert [c][1..] == [];
    if c.Some? {
      assert CalledCleanups([c]) + [EffectRan(body.token)] == [CleanupRan(c.value), EffectRan(body.token)];
      assert [c][0 := None] == [None];
    } else {
      assert CalledCleanups([c]) + [EffectRan(body.token)] == [EffectRan(body.token)];
    }
  }


  /** What one render of the effect component leaves, from the state `rt` it starts in:
      the body runs exactly when `g` differs from the previous render's guard, which is
      always so on the first render; the closure is then dropped and `g` kept. */
  predicate EffectRenderShape(rt: Runtime, id: Id, body: EffectBody, g: Value, r: Runtime)
    requires EffectReady(rt, id, TypeOf(g))
  {
    && id in r.buckets && Valid(r)
    && r.stack == rt.stack && r.heap == rt.heap
    && r.buckets[id].effects == [EffectSlot(None, Some(g))]
    && Bodies(r.log) == Bodies(rt.log) + (if PreviousGuard(rt, id) == Some(g) then [] else [body.token])
  }

  /** The calls one render of the effect component makes and the cleanup vector it leaves:
      when the guard changed, the stored cleanup (if any) is called right before the body.
      The body's cleanup is stored only on the first render; a later run clears the
      stored entry. */
  predicate EffectRenderEvents(rt: Runtime, id: Id, body: EffectBody, g: Value, r: Runtime)
    requires EffectReady(rt, id, TypeOf(g)) && id in r.buckets
  {
    && r.log == rt.log +
         (if PreviousGuard(rt, id) == Some(g) then [] else CalledCleanups(StoredCleanups(rt, id)) + [EffectRan(body.token)])
    && r.buckets[id].cleanups ==
         (if PreviousGuard(rt, id) == Some(g) then StoredCleanups(rt, id)
          else if id in rt.buckets then [None]
          else [Some(body.cleanup)])
  }

  /** A whole render of the effect component, which leaves it ready for the next. */
  predicate EffectRendered(rt: Runtime, id: Id, body: EffectBody, g: Value, r: Runtime)
    requires EffectReady(rt, id, TypeOf(g))
  {
    && EffectRenderShape(rt, id, body, g, r)
    && EffectRenderEvents(rt, id, body, g, r)
    && EffectReady(r, id, TypeOf(g))
  }

  /** The state after `before_run` and `use_effect`, from the state `rt` the render starts
      in: the component is on top of the stack, its slot holds the guard `g` and, when the
      guard changed, a pending closure of its own for `body`; cleanups and log are as before. */
  predicate EffectMidRender(rt: Runtime, id: Id, body: EffectBody, g: Value, rt2: Runtime)
    requires EffectReady(rt, id, TypeOf(g))
  {
    && id in rt2.buckets && Valid(rt2)
    && rt2.stack == rt.stack + [id] && rt2.heap == rt.heap && rt2.log == rt.log
    && rt2.buckets[id].effects ==
         [EffectSlot(if PreviousGuard(rt, id) == Some(g) then None else Some(PendingEffect(id, 0, body)), Some(g))]
    && rt2.buckets[id].cleanups == StoredCleanups(rt, id)
  }

  /** `before_run` then `use_effect` reach `EffectMidRender`. */
  lemma EffectRenderStart(rt: Runtime, id: Id, body: EffectBody, g: Value)
    requires EffectReady(rt, id, TypeOf(g))
    ensures var rt1 := BeforeRun(rt, id);
      && |rt1.stack| > 0 && Valid(rt1) && EffectGuardReadable(rt1, TypeOf(g))
      && EffectMidRender(rt, id, body, g, UseEffect(rt1, body, g))
  {
    var rt1 := BeforeRun(rt, id);
    EffectBeforeRun(rt, id, TypeOf(g));
    EffectStored(rt1, body, g, PreviousGuard(rt, id));
  }

  /** `after_run` from `EffectMidRender` meets `EffectRenderShape`. */
  lemma EffectRenderFinishShape(rt: Runtime, id: Id, body: EffectBody, g: Value, rt2: Runtime)
    requires EffectReady(rt, id, TypeOf(g))
    requires EffectMidRender(rt, id, body, g, rt2)
    ensures OwnersPresent(rt2, id, 0)
    ensures EffectRenderShape(rt, id, body, g, AfterRun(rt2, id))
  {
    var skip := PreviousGuard(rt, id) == Some(g);
    PendingBodiesOfOne(rt2.buckets[id].effects, PendingEffect(id, 0, body), Some(g), !skip);
    EffectAfterRun(rt2, id, g, rt.stack);
  }

  /** `after_run` from `EffectMidRender` meets `EffectRenderEvents`. */
  lemma EffectRenderFinishEvents(rt: Runtime, id: Id, body: EffectBody, g: Value, rt2: Runtime)
    requires EffectReady(rt, id, TypeOf(g))
    requires EffectMidRender(rt, id, body, g, rt2)
    ensures OwnersPresent(rt2, id, 0) && id in AfterRun(rt2, id).buckets
    ensures EffectRenderEvents(rt, id, body, g, AfterRun(rt2, id))
  {
    assert OwnersPresent(rt2, id, 0) && OwnPending(rt2, id);
    EffectAfterRunCleanups(rt2, id);
  }

  /** `after_run` from `EffectMidRender` reaches `EffectRendered`. */
  lemma EffectRenderFinish(rt: Runtime, id: Id, body: EffectBody, g: Value, rt2: Runtime)
    requires EffectReady(rt, id, TypeOf(g))
    requires EffectMidRender(rt, id, body, g, rt2)
    ensures OwnersPresent(rt2, id, 0)
    ensures EffectRendered(rt, id, body, g, AfterRun(rt2, id))
  {
    EffectRenderFinishShape(rt, id, body, g, rt2);
    EffectRenderFinishEvents(rt, id, body, g, rt2);
  }

  /** One render of a component whose body registers one effect with guard `g`. */
  function EffectRender(rt: Runtime, id: Id, body: EffectBody, g: Value): (r: Runtime)
    requires EffectReady(rt, id, TypeOf(g))
    ensures EffectRendered(rt, id, body, g, r)
  {
    EffectRenderStart(rt, id, body, g);
    var rt2 := UseEffect(BeforeRun(rt, id), body, g);
    EffectRenderFinish(rt, id, body, g, rt2);
    AfterRun(rt2, id)
  }

  /** Rendering again with the guard just recorded runs nothing. */
  lemma EffectSkippedOnSameGuard(rt: Runtime, id: Id, body: EffectBody, body2: EffectBody, g: Value)
    requires EffectReady(rt, id, TypeOf(g))
    ensures var rt1 := EffectRender(rt, id, body, g);
      Bodies(EffectRender(rt1, id, body2, g).log) == Bodies(rt1.log)
  {
    var rt1 := EffectRender(rt, id, body, g);
    assert PreviousGuard(rt1, id) == Some(g);
  }

  /** Rendering again with a different guard runs the new body once. */
  lemma EffectRunsOnNewGuard(rt: Runtime, id: Id, body: EffectBody, body2: EffectBody, g: Value, g2: Value)
    requires EffectReady(rt, id, TypeOf(g))
    requires TypeOf(g2) == TypeOf(g) && g2 != g
    ensures var rt1 := EffectRender(rt, id, body, g);
      Bodies(EffectRender(rt1, id, body2, g2).log) == Bodies(rt1.log) + [body2.token]
  {
    var rt1 := EffectRender(rt, id, body, g);
    assert PreviousGuard(rt1, id) == Some(g);
    assert PreviousGuard(rt1, id) != Some(g2);
  }

  /** Unmounting a component whose cleanup vector holds one entry calls that entry's
      cleanup, if any, and nothing else. */
  lemma UnmountOneCleanup(rt: Runtime, id: Id, c: Option<nat>)
    requires id in rt.buckets && rt.buckets[id].cleanups == [c]
    ensures Reset(rt, id).log == rt.log + (if c.Some? then [CleanupRan(c.value)] else [])
  {
    assert rt.buckets[id].cleanups[1..] == [];
  }

  /** Mounting stores the body's cleanup in slot 0; unmounting then calls it once. Stated
      for any runtime `r` meeting `EffectRendered`, as `EffectRender` returns. */
  lemma EffectMountThenUnmount(rt: Runtime, id: Id, body: EffectBody, g: Value, r: Runtime)
    requires EffectReady(rt, id, TypeOf(g)) && id !in rt.buckets
    requires EffectRendered(rt, id, body, g, r)
    ensures r.log == rt.log + [EffectRan(body.token)]
    ensures r.buckets[id].cleanups == [Some(body.cleanup)]
    ensures Reset(r, id).log == r.log + [CleanupRan(body.cleanup)]
  {
    assert StoredCleanups(rt, id) == [];
    UnmountOneCleanup(r, id, Some(body.cleanup));
  }

  /** A re-render with a new guard calls the mount's cleanup right before the new body,
      but stores nothing for the new body: the vector entry is cleared, so unmounting
      afterwards calls no cleanup at all. Stated for any runtimes `rt1`, `rt2` meeting
      `EffectRendered` for the two renders. */
  lemma EffectNewGuardDropsCleanup(rt: Runtime, id: Id, body: EffectBody, body2: EffectBody, g: Value, g2: Value,
                                   rt1: Runtime, rt2: Runtime)
    requires EffectReady(rt, id, TypeOf(g)) && id !in rt.buckets
    requires TypeOf(g2) == TypeOf(g) && g2 != g
    requires EffectRendered(rt, id, body, g, rt1)
    requires EffectReady(rt1, id, TypeOf(g2)) && EffectRendered(rt1, id, body2, g2, rt2)
    ensures rt2.log == rt1.log + [CleanupRan(body.cleanup), EffectRan(body2.token)]
    ensures rt2.buckets[id].cleanups == [None]
    ensures Reset(rt2, id).log == rt2.log
  {
    EffectMountThenUnmount(rt, id, body, g, rt1);
    assert PreviousGuard(rt1, id) == Some(g) && StoredCleanups(rt1, id) == [Some(body.cleanup)];
    assert CalledCleanups([Some(body.cleanup)]) == [CleanupRan(body.cleanup)];
    UnmountOneCleanup(rt2, id, None);
  }

  /** The two lemmas above, for the runtimes `EffectRender` returns. */
  lemma EffectRenderCleanups(rt: Runtime, id: Id, body: EffectBody, body2: EffectBody, g: Value, g2: Value)
    requires EffectReady(rt, id, TypeOf(g)) && id !in rt.buckets
    requires TypeOf(g2) == TypeOf(g) && g2 != g
    ensures var rt1 := EffectRender(rt, id, body, g);
      && rt1.buckets[id].cleanups == [Some(body.cleanup)]
      && Reset(rt1, id).log == rt1.log + [CleanupRan(body.cleanup)]
      && var rt2 := EffectRender(rt1, id, body2, g2);
      && rt2.log == rt1.log + [CleanupRan(body.cleanup), EffectRan(body2.token)]
      && Reset(rt2, id).log == rt2.log
  {
    var rt1 := EffectRender(rt, id, body, g);
    var rt2 := EffectRender(rt1, id, body2, g2);
    EffectMountThenUnmount(rt, id, body, g, rt1);
    EffectNewGuardDropsCleanup(rt, id, body, body2, g, g2, rt1, rt2);
  }

  // ---------------------------------------------------------------------
  // A counter: `let (v, set) = use_state(0); set(v + 1);`
  // ---------------------------------------------------------------------

  /** Between renders the counter component has one integer state slot and no effects. */
  predicate CounterReady(rt: Runtime, id: Id) {
    && Valid(rt)
    && (id in rt.buckets ==>
          var b := rt.buckets[id];
          && b.effects == []
          && |b.stateSlots| == 1
          && b.stateSlots[0] < |rt.heap|
          && rt.heap[b.stateSlots[0]].Int?)
  }

  /** `before_run` of a counter that is ready: the state cursor is back at slot 0 and the
      slot, if any, can be read as an integer. */
  lemma CounterBeforeRun(rt: Runtime, id: Id)
    requires CounterReady(rt, id)
    ensures var rt1 := BeforeRun(rt, id);
      && rt1.stack == rt.stack + [id] && Top(rt1) == id
      && Valid(rt1) && rt1.heap == rt.heap
      && Current(rt1).nextStateSlotIdx == 0 && Current(rt1).effects == []
      && Current(rt1).stateSlots == (if id in rt.buckets then rt.buckets[id].stateSlots else [])
      && StateSlotReadable(rt1, IntTy)
      && BodyCell(rt1) == CounterSlot(rt, id)
      && (if |Current(rt1).stateSlots| > 0 then rt1.heap[BodyCell(rt1)] else Int(0)) == Int(CounterRead(rt, id))
  {
  }

  /** The cell the counter's `use_state(0)` binds on a runtime where its render has begun:
      the slot's existing cell, or on mount the next free one. */
  function BodyCell(rt: Runtime): CellId
    requires |rt.stack| > 0
  {
    if |Current(rt).stateSlots| > 0 then Current(rt).stateSlots[0] else |rt.heap|
  }

  /** The counter's body, `use_state(0)` and then the setter with one more than the value
      read. Returns the runtime and the integer read: the slot's integer, or 0 on mount;
      the cell ends up holding its successor. */
  method CounterBody(rt: Runtime) returns (r: Runtime, read: int)
    requires |rt.stack| > 0 && Valid(rt)
    requires Current(rt).nextStateSlotIdx == 0 && Current(rt).effects == []
    requires |Current(rt).stateSlots| <= 1 && StateSlotReadable(rt, IntTy)
    ensures Int(read) == (if |Current(rt).stateSlots| > 0 then rt.heap[BodyCell(rt)] else Int(0))
    ensures Top(rt) in r.buckets && r.stack == rt.stack && Valid(r)
    ensures r.buckets[Top(rt)].effects == [] && r.buckets[Top(rt)].stateSlots == [BodyCell(rt)]
    ensures BodyCell(rt) < |r.heap| && r.heap[BodyCell(rt)] == Int(read + 1)
  {
    var h := UseState(rt, Int(0));
    IntTyIsInt(h.value);
    CounterHook(rt);
    read := h.value.i;
    SetterWrites(h.rt, h.dispatch, Int(read + 1));
    r := Dispatch(h.rt, h.dispatch, Int(read + 1));
  }

  /** What the counter's `use_state(0)` leaves: the slot bound to `BodyCell(rt)`. */
  lemma CounterHook(rt: Runtime)
    requires |rt.stack| > 0 && Valid(rt)
    requires Current(rt).nextStateSlotIdx == 0 && Current(rt).effects == []
    requires |Current(rt).stateSlots| <= 1 && StateSlotReadable(rt, IntTy)
    ensures var h := UseState(rt, Int(0));
      && h.dispatch.cell == BodyCell(rt)
      && h.value == (if |Current(rt).stateSlots| > 0 then rt.heap[BodyCell(rt)] else Int(0))
      && Top(rt) in h.rt.buckets && h.rt.stack == rt.stack
      && h.rt.buckets[Top(rt)].effects == []
      && h.rt.buckets[Top(rt)].stateSlots == [BodyCell(rt)]
  {
    var h := UseState(rt, Int(0));
    var slots := Current(rt).stateSlots;
    assert h.rt.buckets[Top(rt)].stateSlots == (if |slots| == 1 then slots else [|rt.heap|]);
  }

  /** The counter's state cell: its slot's cell, or before the first render the next
      free cell. */
  function CounterSlot(rt: Runtime, id: Id): CellId {
    if id in rt.buckets && |rt.buckets[id].stateSlots| > 0 then rt.buckets[id].stateSlots[0] else |rt.heap|
  }

  /** The integer the counter's `use_state(0)` yields: its cell's, or 0 before the first
      render. */
  function CounterRead(rt: Runtime, id: Id): int {
    var c := CounterSlot(rt, id);
    if id in rt.buckets && c < |rt.heap| && rt.heap[c].Int? then rt.heap[c].i else 0
  }

  /** `after_run` of the counter: nothing to run, the stack is popped, the slot and the
      cells are kept. */
  method CounterEnd(rt: Runtime, id: Id, below: seq<Id>) returns (r: Runtime)
    requires id in rt.buckets && Valid(rt) && rt.stack == below + [id]
    requires rt.buckets[id].effects == [] && |rt.buckets[id].stateSlots| == 1
    requires rt.heap[rt.buckets[id].stateSlots[0]].Int?
    ensures r.stack == below && CounterReady(r, id) && id in r.buckets
    ensures CounterSlot(r, id) == rt.buckets[id].stateSlots[0] && r.heap == rt.heap
  {
    assert OwnersPresent(rt, id, 0);
    r := AfterRun(rt, id);
    assert r.stack + [id] == below + [id];
    assert r.stack == (r.stack + [id])[..|below|];
  }

  /** One render of the counter, `before_run`, the body, `after_run`: returns the runtime
      afterwards and the integer the render read. The render reads what the previous
      render's setter wrote (0 on mount) and leaves one more than that in the same cell. */
  method CounterRender(rt: Runtime, id: Id) returns (r: Runtime, read: int)
    requires CounterReady(rt, id)
    ensures CounterReady(r, id) && id in r.buckets && r.stack == rt.stack
    ensures read == CounterRead(rt, id) && CounterSlot(r, id) == CounterSlot(rt, id)
    ensures r.heap[CounterSlot(rt, id)] == Int(read + 1)
  {
    CounterBeforeRun(rt, id);
    var rt2;
    rt2, read := CounterBody(BeforeRun(rt, id));
    r := CounterEnd(rt2, id, rt.stack);
  }

  /** Three renders from mount read 0, 1 and 2, and leave 3 in the cell the first render
      allocated. */
  method CounterThreeRenders(rt: Runtime, id: Id) returns (seen: seq<int>, cell: CellId, last: Value)
    requires Valid(rt) && id !in rt.buckets
    ensures seen == [0, 1, 2]
    ensures cell == |rt.heap| && last == Int(3)
  {
    var rt1, v1 := CounterRender(rt, id);
    var rt2, v2 := CounterRender(rt1, id);
    var rt3, v3 := CounterRender(rt2, id);
    seen := [v1, v2, v3];
    cell := CounterSlot(rt3, id);
    last := rt3.heap[cell];
  }
}
