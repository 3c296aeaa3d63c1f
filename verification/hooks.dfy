/** The hooks a component calls while it renders.

    Each hook reads and writes the bucket of the id on top of the stack and
    advances one of that bucket's cursors. A hook called while nothing renders
    panics in the Rust library; here that is the precondition `|rt.stack| > 0`.
    A failed downcast `unwrap` is a panic too and becomes a precondition on the
    dynamic types involved.
 */
module Hooks {
  import opened Values
  import opened HookState

  // ---------------------------------------------------------------------
  // State cells: use_reducer, use_state, the dispatcher
  // ---------------------------------------------------------------------

  /** A reducer maps values of `ty` to values of `ty` (the static type `Fn(T, T) -> T`). */
  ghost predicate Typed(reducer: (Value, Value) -> Value, ty: Ty) {
    forall a, u :: TypeOf(a) == ty && TypeOf(u) == ty ==> TypeOf(reducer(a, u)) == ty
  }

  /** The closure `use_reducer` returns: it owns a handle to one state cell. */
  datatype Dispatcher = Dispatcher(cell: CellId, ty: Ty, reducer: (Value, Value) -> Value)

  datatype StateHook = StateHook(rt: Runtime, value: Value, dispatch: Dispatcher)

  /** The state slot under the cursor, if there is one already, holds a value of type `ty`:
      the downcast of the slot value cannot fail. */
  predicate StateSlotReadable(rt: Runtime, ty: Ty)
    requires |rt.stack| > 0
  {
    var b := Current(rt);
    var i := b.nextStateSlotIdx;
    i < |b.stateSlots| ==> b.stateSlots[i] < |rt.heap| && TypeOf(rt.heap[b.stateSlots[i]]) == ty
  }

  /** How one state hook changes the runtime: the current bucket's cursor advances by one,
      and a fresh cell holding `init` is allocated at the end of the heap and appended when the cursor had reached the end
      of the slots; no existing cell and no other bucket changes. */
  predicate StateStep(rt: Runtime, init: Value, r: Runtime)
    requires |rt.stack| > 0
  {
    var id := Top(rt);
    var b := Current(rt);
    var i := b.nextStateSlotIdx;
    && r == rt.(buckets := r.buckets, heap := r.heap)
    && r.buckets.Keys == rt.buckets.Keys + {id}
    && (forall x :: x in rt.buckets && x != id ==> r.buckets[x] == rt.buckets[x])
    && r.buckets[id] == b.(nextStateSlotIdx := i + 1, stateSlots := r.buckets[id].stateSlots)
    && (i < |b.stateSlots| ==>
          r.buckets[id].stateSlots == b.stateSlots && r.heap == rt.heap)
    && (|b.stateSlots| <= i ==>
          r.buckets[id].stateSlots == b.stateSlots + [|rt.heap|] && r.heap == rt.heap + [init])
  }

  /** `use_reducer`: binds the state slot under the cursor, creating it with `init` on the
      first render, and returns its value with a dispatcher for the same cell. */
  function UseReducer(rt: Runtime, reducer: (Value, Value) -> Value, init: Value): (r: StateHook)
    requires |rt.stack| > 0 && Valid(rt)
    requires Typed(reducer, TypeOf(init))
    requires StateSlotReadable(rt, TypeOf(init))
    ensures StateStep(rt, init, r.rt)
    ensures var i := Current(rt).nextStateSlotIdx;
      && i < |r.rt.buckets[Top(rt)].stateSlots|
      && r.dispatch.cell == r.rt.buckets[Top(rt)].stateSlots[i]
    ensures r.dispatch.cell < |r.rt.heap| && r.value == r.rt.heap[r.dispatch.cell]
    ensures TypeOf(r.value) == TypeOf(init)
    ensures r.dispatch.ty == TypeOf(init) && Typed(r.dispatch.reducer, r.dispatch.ty)
    ensures forall a, u :: r.dispatch.reducer(a, u) == reducer(a, u)
    ensures Valid(r.rt)
  {
    var r1 := StateSlotStep(rt, init);
    var cell := r1.buckets[Top(rt)].stateSlots[Current(rt).nextStateSlotIdx];
    StateHook(r1, r1.heap[cell], Dispatcher(cell, TypeOf(init), reducer))
  }

  /** The effect of one state hook on the runtime: the slot under the cursor is bound,
      allocated first if the cursor has reached the end of the slots, and the cursor advances. */
  function StateSlotStep(rt: Runtime, init: Value): (r: Runtime)
    requires |rt.stack| > 0 && Valid(rt)
    ensures StateStep(rt, init, r) && Valid(r)
    ensures var i, slots := Current(rt).nextStateSlotIdx, r.buckets[Top(rt)].stateSlots;
      && i < |slots| && slots[i] < |r.heap|
      && (StateSlotReadable(rt, TypeOf(init)) ==> TypeOf(r.heap[slots[i]]) == TypeOf(init))
  {
    var b := Current(rt);
    var i := b.nextStateSlotIdx;
    var grow := i >= |b.stateSlots|;
    CurrentInRange(rt);
    AllocKeepsValid(rt, init);
    AppendCellAllocated(b, rt.heap, init);
    var rt1 := if grow then rt.(heap := rt.heap + [init]) else rt;
    var slots := if grow then b.stateSlots + [|rt.heap|] else b.stateSlots;
    SetCurrent(rt1, b.(nextStateSlotIdx := i + 1, stateSlots := slots))
  }

  /** `use_state`: `use_reducer` whose reducer returns the update. Its effect on the runtime
      is `StateSlotStep`, whatever the reducer. */
  function UseState(rt: Runtime, init: Value): (r: StateHook)
    requires |rt.stack| > 0 && Valid(rt)
    requires StateSlotReadable(rt, TypeOf(init))
    ensures StateStep(rt, init, r.rt)
    ensures var i := Current(rt).nextStateSlotIdx;
      && i < |r.rt.buckets[Top(rt)].stateSlots|
      && r.dispatch.cell == r.rt.buckets[Top(rt)].stateSlots[i]
    ensures r.dispatch.cell < |r.rt.heap| && r.value == r.rt.heap[r.dispatch.cell]
    ensures TypeOf(r.value) == TypeOf(init)
    ensures r.dispatch.ty == TypeOf(init) && Typed(r.dispatch.reducer, r.dispatch.ty)
    ensures forall a, u :: r.dispatch.reducer(a, u) == u
    ensures Valid(r.rt)
  {
    UseReducer(rt, (_, u) => u, init)
  }

  /** Calling a dispatcher: folds `update` into its cell with the reducer. The downcast of
      the old value must succeed, and the update has the cell's static type. */
  function Dispatch(rt: Runtime, d: Dispatcher, update: Value): (r: Runtime)
    requires d.cell < |rt.heap| && TypeOf(rt.heap[d.cell]) == d.ty
    requires Typed(d.reducer, d.ty) && TypeOf(update) == d.ty
    ensures r == rt.(heap := r.heap)
    ensures |r.heap| == |rt.heap|
    ensures r.heap[d.cell] == d.reducer(rt.heap[d.cell], update)
    ensures forall c :: 0 <= c < |rt.heap| && c != d.cell ==> r.heap[c] == rt.heap[c]
    ensures TypeOf(r.heap[d.cell]) == d.ty
    ensures Valid(rt) ==> Valid(r)
  {
    rt.(heap := rt.heap[d.cell := d.reducer(rt.heap[d.cell], update)])
  }

  /** The next render of the component on top of the stack: popping it and starting its
      render again finds its bucket with every cursor back at zero, and the cells as they are. */
  lemma Rerender(rt: Runtime)
    requires |rt.stack| > 0 && Top(rt) in rt.buckets && Valid(rt)
    ensures var rt2 := BeforeRun(Pop(rt), Top(rt));
      && |rt2.stack| > 0 && Top(rt2) == Top(rt) && Valid(rt2)
      && Current(rt2) == rt.buckets[Top(rt)].(nextStateSlotIdx := 0, nextEffectIdx := 0, nextMemoizationIdx := 0)
      && rt2.heap == rt.heap && rt2.log == rt.log
  {
    var p := Pop(rt);
    assert p.buckets == rt.buckets;
  }

  /** A setter's dispatch stores the update itself, and leaves the rest of the runtime. */
  lemma SetterWrites(rt: Runtime, d: Dispatcher, u: Value)
    requires d.cell < |rt.heap| && TypeOf(rt.heap[d.cell]) == d.ty
    requires Typed(d.reducer, d.ty) && TypeOf(u) == d.ty
    requires forall a, v :: d.reducer(a, v) == v
    ensures var r := Dispatch(rt, d, u);
      && r.heap[d.cell] == u && r.buckets == rt.buckets && r.stack == rt.stack
      && (Valid(rt) ==> Valid(r))
  {
  }

  /** Two setter calls in a row: the second update wins whatever the first was. */
  lemma SetterOverwrites(rt: Runtime, h: StateHook, u1: Value, u2: Value)
    requires h.dispatch.cell < |rt.heap| && TypeOf(rt.heap[h.dispatch.cell]) == h.dispatch.ty
    requires Typed(h.dispatch.reducer, h.dispatch.ty)
    requires TypeOf(u1) == h.dispatch.ty && TypeOf(u2) == h.dispatch.ty
    requires forall a, u :: h.dispatch.reducer(a, u) == u
    ensures Dispatch(Dispatch(rt, h.dispatch, u1), h.dispatch, u2).heap[h.dispatch.cell] == u2
  {
  }

  /** A dispatch made during a render is what the same hook reads at the next render of
      the component: the new render starts at cursor zero and finds the same cell. */
  lemma DispatchSeenNextRender(rt: Runtime, reducer: (Value, Value) -> Value, init: Value, update: Value, init2: Value)
    requires |rt.stack| > 0 && Valid(rt)
    requires Typed(reducer, TypeOf(init)) && StateSlotReadable(rt, TypeOf(init))
    requires Current(rt).nextStateSlotIdx == 0
    requires TypeOf(update) == TypeOf(init) && TypeOf(init2) == TypeOf(init)
    ensures var h := UseReducer(rt, reducer, init);
      var rt1 := Dispatch(h.rt, h.dispatch, update);
      var rt2 := BeforeRun(Pop(rt1), Top(rt));
      && |rt2.stack| > 0 && Valid(rt2) && StateSlotReadable(rt2, TypeOf(init2))
      && UseReducer(rt2, reducer, init2).value == reducer(h.value, update)
  {
    var id := Top(rt);
    var h := UseReducer(rt, reducer, init);
    var rt1 := Dispatch(h.rt, h.dispatch, update);
    assert rt1.buckets == h.rt.buckets && rt1.stack == rt.stack;
    Rerender(rt1);
    var rt2 := BeforeRun(Pop(rt1), id);
    assert Current(rt2).stateSlots == h.rt.buckets[id].stateSlots;
    assert Current(rt2).stateSlots[0] == h.dispatch.cell;
  }

  // ---------------------------------------------------------------------
  // use_ref
  // ---------------------------------------------------------------------

  /** The handle `use_ref` returns: the initial value and one cell. */
  datatype HookRef = HookRef(initialValue: Value, cell: CellId)

  datatype RefHook = RefHook(rt: Runtime, handle: HookRef)

  /** `use_ref`: runs `use_state` with the initial value, then binds the handle to the
      LAST state slot of the bucket, which is the slot `use_state` just bound only when
      no later slot exists yet. */
  function UseRef(rt: Runtime, init: Value): (r: RefHook)
    requires |rt.stack| > 0 && Valid(rt)
    requires StateSlotReadable(rt, TypeOf(init))
    ensures StateStep(rt, init, r.rt)
    ensures r.handle.initialValue == init
    ensures var b := Current(rt);
      b.nextStateSlotIdx < |b.stateSlots| ==> r.handle.cell == b.stateSlots[|b.stateSlots| - 1]
    ensures var b := Current(rt);
      |b.stateSlots| <= b.nextStateSlotIdx ==> r.handle.cell == |rt.heap| && r.rt.heap[r.handle.cell] == init
    ensures r.handle.cell < |r.rt.heap|
    ensures Valid(r.rt)
  {
    // `use_state(initial_state.clone())`, whose value and setter are dropped
    var rt1 := StateSlotStep(rt, init);
    LastSlotAfterStep(rt, init, rt1);
    var slots := rt1.buckets[Top(rt)].stateSlots;
    RefHook(rt1, HookRef(init, slots[|slots| - 1]))
  }

  /** After a `use_state` step the bucket's last state slot is the one it had before when
      the cursor was inside the slots, and the new cell otherwise. */
  lemma LastSlotAfterStep(rt: Runtime, init: Value, r: Runtime)
    requires |rt.stack| > 0 && StateStep(rt, init, r)
    ensures var b, slots := Current(rt), r.buckets[Top(rt)].stateSlots;
      && |slots| > 0
      && (b.nextStateSlotIdx < |b.stateSlots| ==> slots[|slots| - 1] == b.stateSlots[|b.stateSlots| - 1])
      && (|b.stateSlots| <= b.nextStateSlotIdx ==> slots[|slots| - 1] == |rt.heap| && r.heap[|rt.heap|] == init)
  {
  }

  /** `HookRef::get`: the cell's value when it has the handle's type, the initial value otherwise. */
  function RefGet(rt: Runtime, h: HookRef): (r: Value)
    requires h.cell < |rt.heap|
    ensures TypeOf(r) == TypeOf(h.initialValue)
    ensures TypeOf(rt.heap[h.cell]) == TypeOf(h.initialValue) ==> r == rt.heap[h.cell]
    ensures TypeOf(rt.heap[h.cell]) != TypeOf(h.initialValue) ==> r == h.initialValue
  {
    var v := rt.heap[h.cell];
    if TypeOf(v) == TypeOf(h.initialValue) then v else h.initialValue
  }

  /** `HookRef::set`: overwrites the cell; the downcast of the cell must succeed. */
  function RefSet(rt: Runtime, h: HookRef, v: Value): (r: Runtime)
    requires h.cell < |rt.heap| && TypeOf(rt.heap[h.cell]) == TypeOf(h.initialValue)
    requires TypeOf(v) == TypeOf(h.initialValue)
    ensures r == rt.(heap := r.heap)
    ensures |r.heap| == |rt.heap|
    ensures r.heap[h.cell] == v
    ensures forall c :: 0 <= c < |rt.heap| && c != h.cell ==> r.heap[c] == rt.heap[c]
    ensures Valid(rt) ==> Valid(r)
  {
    rt.(heap := rt.heap[h.cell := v])
  }

  /** A value set through a ref is what the ref reads back. */
  lemma RefSetThenGet(rt: Runtime, h: HookRef, v: Value)
    requires h.cell < |rt.heap| && TypeOf(rt.heap[h.cell]) == TypeOf(h.initialValue)
    requires TypeOf(v) == TypeOf(h.initialValue)
    ensures RefGet(RefSet(rt, h, v), h) == v
  {
  }

  /** The first render of a component whose only state hook is `use_ref`: the ref owns a fresh
      cell, the bucket's only slot, and reads its initial value. */
  lemma UseRefOnMount(rt: Runtime, init: Value)
    requires |rt.stack| > 0 && Valid(rt)
    requires Current(rt) == EmptyBucket
    ensures var h := UseRef(rt, init);
      && h.handle == HookRef(init, |rt.heap|)
      && h.rt.buckets[Top(rt)].stateSlots == [|rt.heap|]
      && RefGet(h.rt, h.handle) == init
  {
  }

  /** When the ref is the component's first and only state hook, a value set through it on the
      first render is what the ref the next render returns reads: the next render binds the
      same cell. */
  lemma RefSurvivesRerender(rt: Runtime, init: Value, v: Value)
    requires |rt.stack| > 0 && Valid(rt)
    requires Current(rt) == EmptyBucket
    requires TypeOf(v) == TypeOf(init)
    ensures var h := UseRef(rt, init);
      var rt2 := BeforeRun(Pop(RefSet(h.rt, h.handle, v)), Top(rt));
      && |rt2.stack| > 0 && Valid(rt2) && StateSlotReadable(rt2, TypeOf(init))
      && UseRef(rt2, init).handle == h.handle
      && RefGet(UseRef(rt2, init).rt, h.handle) == v
  {
    var id := Top(rt);
    var h := UseRef(rt, init);
    UseRefOnMount(rt, init);
    var rt1 := RefSet(h.rt, h.handle, v);
    assert rt1.buckets == h.rt.buckets;
    Rerender(rt1);
    var rt2 := BeforeRun(Pop(rt1), id);
    assert Current(rt2).stateSlots == [|rt.heap|];
  }

  /** When the bucket already holds a later state slot, `use_ref` binds that slot instead of
      its own. Here the ref is the first of two state hooks, with an integer initial value,
      and the second slot holds a string: `get` returns the ref's initial value rather than
      the cell's, and setting it would panic, as the downcast of the string cell fails. */
  lemma UseRefAliasesLaterSlot(id: Id)
    ensures var b := EmptyBucket.(stateSlots := [0, 1]);
      var rt := Runtime(map[id := b], map[], [id], 0, [Int(7), Str("x")], []);
      && Valid(rt) && StateSlotReadable(rt, IntTy)
      && UseRef(rt, Int(5)).handle.cell == 1
      && RefGet(UseRef(rt, Int(5)).rt, UseRef(rt, Int(5)).handle) == Int(5)
      && TypeOf(UseRef(rt, Int(5)).rt.heap[1]) != TypeOf(Int(5))
  {
    var b := EmptyBucket.(stateSlots := [0, 1]);
    var rt := Runtime(map[id := b], map[], [id], 0, [Int(7), Str("x")], []);
    assert Current(rt) == b;
    var h := UseRef(rt, Int(5));
    assert h.rt.buckets[id].stateSlots == [0, 1];
  }

  // ---------------------------------------------------------------------
  // Guards, use_effect
  // ---------------------------------------------------------------------

  /** `guards_changed`: true when there is no previous guard or it differs from the new
      one. The previous guard must have the new guard's type. */
  function GuardsChanged(guard: Value, last: Option<Value>): (r: bool)
    requires last.Some? ==> TypeOf(last.value) == TypeOf(guard)
    ensures r <==> last != Some(guard)
  {
    match last
    case None => true
    case Some(g) => g != guard
  }

  /** The effect slot under the cursor, if there is one already, has a guard of type `ty`
      or none. */
  predicate EffectGuardReadable(rt: Runtime, ty: Ty)
    requires |rt.stack| > 0
  {
    var b := Current(rt);
    var i := b.nextEffectIdx;
    i < |b.effects| && b.effects[i].lastGuard.Some? ==> TypeOf(b.effects[i].lastGuard.value) == ty
  }

  /** The effect vector after `use_effect` at slot `i`: the slot is appended empty if
      missing, then replaced by a pending closure and the new guard if the guard changed. */
  function StoreEffect(effects: seq<EffectSlot>, i: nat, id: Id, body: EffectBody, guard: Value): (r: seq<EffectSlot>)
    requires i <= |effects|
    requires i < |effects| && effects[i].lastGuard.Some? ==> TypeOf(effects[i].lastGuard.value) == TypeOf(guard)
    ensures |r| == (if i < |effects| then |effects| else i + 1)
    ensures forall k :: 0 <= k < |effects| && k != i ==> r[k] == effects[k]
    ensures i < |effects| && effects[i].lastGuard == Some(guard) ==> r[i] == effects[i]
    ensures i >= |effects| || effects[i].lastGuard != Some(guard) ==>
      r[i] == EffectSlot(Some(PendingEffect(id, i, body)), Some(guard))
  {
    var effects1 := if |effects| <= i then effects + [EffectSlot(None, None)] else effects;
    if GuardsChanged(guard, effects1[i].lastGuard) then
      effects1[i := EffectSlot(Some(PendingEffect(id, i, body)), Some(guard))]
    else
      effects1
  }

  /** `use_effect`: makes sure the effect slot under the cursor exists; when the guard
      changed, stores a pending closure for `body` (capturing the rendering id and the
      slot index) with the new guard; advances the cursor. Nothing runs here. */
  function UseEffect(rt: Runtime, body: EffectBody, guard: Value): (r: Runtime)
    requires |rt.stack| > 0 && Valid(rt)
    requires EffectGuardReadable(rt, TypeOf(guard))
    ensures r == rt.(buckets := r.buckets)
    ensures r.buckets.Keys == rt.buckets.Keys + {Top(rt)}
    ensures forall x :: x in rt.buckets && x != Top(rt) ==> r.buckets[x] == rt.buckets[x]
    ensures var b, b', i := Current(rt), r.buckets[Top(rt)], Current(rt).nextEffectIdx;
      && b' == b.(nextEffectIdx := i + 1, effects := b'.effects)
      && |b'.effects| == (if i < |b.effects| then |b.effects| else i + 1)
      && (forall k :: 0 <= k < |b.effects| && k != i ==> b'.effects[k] == b.effects[k])
      && (i < |b.effects| && b.effects[i].lastGuard == Some(guard) ==> b'.effects[i] == b.effects[i])
      && (i >= |b.effects| || b.effects[i].lastGuard != Some(guard) ==>
            b'.effects[i] == EffectSlot(Some(PendingEffect(Top(rt), i, body)), Some(guard)))
    ensures Valid(r)
  {
    var b := Current(rt);
    CurrentInRange(rt);
    SetCurrent(rt, b.(effects := StoreEffect(b.effects, b.nextEffectIdx, Top(rt), body, guard),
                      nextEffectIdx := b.nextEffectIdx + 1))
  }

  /** An effect whose guard did not change leaves nothing pending at the end of the render
      when nothing was pending before; a changed guard always leaves its body pending. */
  lemma EffectPendingIffGuardChanged(rt: Runtime, body: EffectBody, guard: Value)
    requires |rt.stack| > 0 && Valid(rt)
    requires EffectGuardReadable(rt, TypeOf(guard))
    requires var b := Current(rt);
      b.nextEffectIdx < |b.effects| ==> b.effects[b.nextEffectIdx].pending.None?
    ensures var b, i := Current(rt), Current(rt).nextEffectIdx;
      var changed := i >= |b.effects| || GuardsChanged(guard, b.effects[i].lastGuard);
      PendingBody(UseEffect(rt, body, guard).buckets[Top(rt)].effects[i]) == (if changed then [body.token] else [])
  {
  }

  /** A mounted component whose one effect has run and stored its cleanup. When a new guard
      makes the effect run again, the stored cleanup runs first and its slot is emptied, and
      the cleanup the new body returns is not stored, because the cleanup vector already
      reaches the slot: the next unmount calls no cleanup for this effect. */
  lemma RerunEffectLosesCleanup(rt: Runtime, p: PendingEffect)
    requires p.owner in rt.buckets
    requires p.index < |rt.buckets[p.owner].cleanups| && rt.buckets[p.owner].cleanups[p.index].Some?
    ensures var r := RunEffect(rt, p);
      && r.buckets[p.owner].cleanups[p.index] == None
      && |r.buckets[p.owner].cleanups| == |rt.buckets[p.owner].cleanups|
      && (Some(p.body.cleanup) in r.buckets[p.owner].cleanups ==> Some(p.body.cleanup) in rt.buckets[p.owner].cleanups)
      && CleanupRan(rt.buckets[p.owner].cleanups[p.index].value) in r.log
  {
    var cs := rt.buckets[p.owner].cleanups;
    var r := RunEffect(rt, p);
    assert r.log[|rt.log|] == CleanupRan(cs[p.index].value);
    forall c | Some(c) in r.buckets[p.owner].cleanups
      ensures Some(c) in cs
    {
      var k :| 0 <= k < |cs| && r.buckets[p.owner].cleanups[k] == Some(c);
      assert cs[k] == Some(c);
    }
  }

  /** The first run of a freshly appended effect slot stores its cleanup, which the unmount
      of the component then calls. */
  lemma FirstRunCleanupCalledAtUnmount(rt: Runtime, p: PendingEffect)
    requires p.owner in rt.buckets
    requires |rt.buckets[p.owner].cleanups| == p.index
    ensures var r := RunEffect(rt, p);
      CleanupRan(p.body.cleanup) in Reset(r, p.owner).log[|r.log|..]
  {
    var r := RunEffect(rt, p);
    var cs := r.buckets[p.owner].cleanups;
    assert cs[p.index] == Some(p.body.cleanup);
    CalledCleanupsMembers(cs, p.body.cleanup);
    assert Reset(r, p.owner).log[|r.log|..] == CalledCleanups(cs);
  }

  // ---------------------------------------------------------------------
  // use_memo, use_callback
  // ---------------------------------------------------------------------

  /** The closure passed to `use_memo`: an opaque computation that yields `result`, or the
      `|| func.clone()` closure `use_callback` builds, which calls nothing. */
  datatype Thunk = Compute(token: nat, result: Value) | CloneOf(result: Value)

  /** The closure calls one evaluation of a thunk records. */
  function ThunkCalls(f: Thunk): seq<Event> {
    match f
    case Compute(token, _) => [MemoComputed(token)]
    case CloneOf(_) => []
  }

  datatype MemoHook = MemoHook(rt: Runtime, value: Value)

  /** The memo slot under the cursor, if there is one already, has a guard of the new guard's
      type, and when that guard is unchanged its cached value has the result's type. */
  predicate MemoReadable(rt: Runtime, guard: Value, f: Thunk)
    requires |rt.stack| > 0
  {
    var b := Current(rt);
    var i := b.nextMemoizationIdx;
    i < |b.memoizations| ==>
      && (b.memoizations[i].lastGuard.Some? ==> TypeOf(b.memoizations[i].lastGuard.value) == TypeOf(guard))
      && (b.memoizations[i].lastGuard == Some(guard) ==> TypeOf(b.memoizations[i].value) == TypeOf(f.result))
  }

  /** The memo vector after `use_memo` at slot `i`: the slot is appended holding `()` and no
      guard if missing, then replaced by the thunk's result and the new guard if the guard
      changed. */
  function StoreMemo(memos: seq<MemoSlot>, i: nat, f: Thunk, guard: Value): (r: seq<MemoSlot>)
    requires i <= |memos|
    requires i < |memos| && memos[i].lastGuard.Some? ==> TypeOf(memos[i].lastGuard.value) == TypeOf(guard)
    ensures |r| == (if i < |memos| then |memos| else i + 1)
    ensures forall k :: 0 <= k < |memos| && k != i ==> r[k] == memos[k]
    ensures i < |memos| && memos[i].lastGuard == Some(guard) ==> r[i] == memos[i]
    ensures i >= |memos| || memos[i].lastGuard != Some(guard) ==> r[i] == MemoSlot(f.result, Some(guard))
  {
    var memos1 := if |memos| <= i then memos + [MemoSlot(Unit, None)] else memos;
    if GuardsChanged(guard, memos1[i].lastGuard) then memos1[i := MemoSlot(f.result, Some(guard))] else memos1
  }

  /** `use_memo`: makes sure the memo slot under the cursor exists (holding `()` and no
      guard); when the guard changed, evaluates the thunk and caches its result with the
      new guard; returns the cached value and advances the cursor. */
  function UseMemo(rt: Runtime, f: Thunk, guard: Value): (r: MemoHook)
    requires |rt.stack| > 0 && Valid(rt)
    requires MemoReadable(rt, guard, f)
    ensures r.rt == rt.(buckets := r.rt.buckets, log := r.rt.log)
    ensures r.rt.buckets.Keys == rt.buckets.Keys + {Top(rt)}
    ensures forall x :: x in rt.buckets && x != Top(rt) ==> r.rt.buckets[x] == rt.buckets[x]
    ensures var b, b', i := Current(rt), r.rt.buckets[Top(rt)], Current(rt).nextMemoizationIdx;
      && b' == b.(nextMemoizationIdx := i + 1, memoizations := b'.memoizations)
      && |b'.memoizations| == (if i < |b.memoizations| then |b.memoizations| else i + 1)
      && (forall k :: 0 <= k < |b.memoizations| && k != i ==> b'.memoizations[k] == b.memoizations[k])
      && (i < |b.memoizations| && b.memoizations[i].lastGuard == Some(guard) ==>
            b'.memoizations[i] == b.memoizations[i] && r.value == b.memoizations[i].value && r.rt.log == rt.log)
      && (i >= |b.memoizations| || b.memoizations[i].lastGuard != Some(guard) ==>
            b'.memoizations[i] == MemoSlot(f.result, Some(guard)) && r.value == f.result
            && r.rt.log == rt.log + ThunkCalls(f))
    ensures TypeOf(r.value) == TypeOf(f.result)
    ensures Valid(r.rt)
  {
    var b := Current(rt);
    CurrentInRange(rt);
    var index := b.nextMemoizationIdx;
    var changed := index >= |b.memoizations| || GuardsChanged(guard, b.memoizations[index].lastGuard);
    var memos := StoreMemo(b.memoizations, index, f, guard);
    var b' := b.(memoizations := memos, nextMemoizationIdx := index + 1);
    assert CursorsInRange(b') && CellsAllocated(b', rt.heap);
    var rt1 := SetCurrent(rt, b');
    var log := if changed then rt.log + ThunkCalls(f) else rt.log;
    ValidWithLog(rt1, log);
    MemoHook(rt1.(log := log), memos[index].value)
  }

  /** `use_callback`: `use_memo` over a closure that clones `func`; nothing is called. */
  function UseCallback(rt: Runtime, func: Value, guard: Value): (r: MemoHook)
    requires |rt.stack| > 0 && Valid(rt)
    requires MemoReadable(rt, guard, CloneOf(func))
    ensures r.rt == rt.(buckets := r.rt.buckets)
    ensures r.rt.buckets.Keys == rt.buckets.Keys + {Top(rt)}
    ensures forall x :: x in rt.buckets && x != Top(rt) ==> r.rt.buckets[x] == rt.buckets[x]
    ensures var b, b', i := Current(rt), r.rt.buckets[Top(rt)], Current(rt).nextMemoizationIdx;
      && b' == b.(nextMemoizationIdx := i + 1, memoizations := b'.memoizations)
      && |b'.memoizations| == (if i < |b.memoizations| then |b.memoizations| else i + 1)
      && (forall k :: 0 <= k < |b.memoizations| && k != i ==> b'.memoizations[k] == b.memoizations[k])
      && (i < |b.memoizations| && b.memoizations[i].lastGuard == Some(guard) ==>
            b'.memoizations[i] == b.memoizations[i] && r.value == b.memoizations[i].value)
      && (i >= |b.memoizations| || b.memoizations[i].lastGuard != Some(guard) ==>
            b'.memoizations[i] == MemoSlot(func, Some(guard)) && r.value == func)
    ensures TypeOf(r.value) == TypeOf(func)
    ensures Valid(r.rt)
  {
    UseMemo(rt, CloneOf(func), guard)
  }

  /** A memo is computed on the first render and served from the cache on the next render
      with an equal guard: the second thunk is never called, whatever it is. */
  lemma MemoCachedAcrossRenders(rt: Runtime, f1: Thunk, f2: Thunk, guard: Value)
    requires |rt.stack| > 0 && Valid(rt)
    requires Current(rt) == EmptyBucket
    requires TypeOf(f2.result) == TypeOf(f1.result)
    ensures var m1 := UseMemo(rt, f1, guard);
      var rt2 := BeforeRun(Pop(m1.rt), Top(rt));
      && m1.value == f1.result && m1.rt.log == rt.log + ThunkCalls(f1)
      && |rt2.stack| > 0 && Valid(rt2) && MemoReadable(rt2, guard, f2)
      && UseMemo(rt2, f2, guard).value == f1.result
      && UseMemo(rt2, f2, guard).rt.log == rt2.log
  {
    var id := Top(rt);
    var m1 := UseMemo(rt, f1, guard);
    var p := Pop(m1.rt);
    var rt2 := BeforeRun(p, id);
    assert p.buckets[id] == m1.rt.buckets[id];
    assert Current(rt2) == rt2.buckets[id];
    assert Current(rt2).memoizations == [MemoSlot(f1.result, Some(guard))];
  }

  /** `use_callback` keeps returning the first closure while the guard stays equal. */
  lemma CallbackKeepsFirstValue(rt: Runtime, func1: Value, func2: Value, guard: Value)
    requires |rt.stack| > 0 && Valid(rt)
    requires Current(rt) == EmptyBucket
    requires TypeOf(func2) == TypeOf(func1)
    ensures var c1 := UseCallback(rt, func1, guard);
      var rt2 := BeforeRun(Pop(c1.rt), Top(rt));
      && c1.value == func1
      && |rt2.stack| > 0 && Valid(rt2) && MemoReadable(rt2, guard, CloneOf(func2))
      && UseCallback(rt2, func2, guard).value == func1
  {
    MemoCachedAcrossRenders(rt, CloneOf(func1), CloneOf(func2), guard);
  }
}
