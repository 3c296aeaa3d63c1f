# Hook runtime of a functional component library, in Dafny

This project models the hook runtime of a Rust UI library in which function
components keep state between renders through hooks (`use_state`, `use_reducer`,
`use_ref`, `use_effect`, `use_memo`, `use_callback`). The runtime is a set of
process-wide statics: a map from component id to a *bucket* of hook slots, a
stack of the components currently rendering, a remap table from new ids to
old ids, and a `u32` id counter. A render brackets the component body with
`before_run` (push the id, create the bucket if missing, rewind the three slot
cursors) and `after_run` (run the effects queued during the render, pop).

The model gathers those statics in one immutable `Runtime` value, and every
operation is a function from runtime to runtime:

- `values.dfy` (`Values`): the dynamic values hooks store, with a run-time type
  `TypeOf` standing in for `dyn Any` and its downcasts; `u32` ids.
- `hook_state.dfy` (`HookState`): the bucket, the runtime record, its
  invariant `Valid`, and `HookState` from `hook_context.rs` — the stack, bucket
  creation and lookup, the id counter with its wrap-around modulo
  `u32::MAX`, `run_effects_of`, `reset`, `before_run` and `after_run`.
  State cells (`Rc<RefCell<dyn Any>>`) are indices into a heap sequence that
  only grows, so two slots share a cell exactly when they hold the same index.
  Effect bodies and cleanups are opaque tokens; running one appends an event
  to a log, which is how the contracts say what ran and in which order.
- `remap.dfy` (`Remap`): `map_state`, `map_id`, `clear_map_state` and
  `commit_map_state`, the re-keying of buckets when components move.
- `hooks.rs` is modelled in `hooks.dfy` (`Hooks`): every hook, the dispatcher
  closure `use_reducer` returns, `HookRef::get`/`set`, and `guards_changed`.
- `scenarios.dfy` (`Scenarios`): whole renders of one component through
  `before_run`, the hooks and `after_run` — an effect across renders, and the
  counter component `let (v, set) = use_state(0); set(v + 1);` over three renders.

A `panic!` or an `unwrap` on `None` in the source is a precondition of the
model: a caller that meets every `requires` is a program that does not panic.
Rust's static typing of a hook's `T` becomes a `requires` that the values
involved have one `TypeOf`.

## Model

| member | source | states |
|---|---|---|
| HookState.Init | src/functional/hook_context.rs:23-40 | the runtime starts with no buckets, no remapping, an empty stack and id counter 0, and satisfies the invariant |
| HookState.PutBucketKeepsValid | src/functional/hook_context.rs:10-21 | storing a bucket whose cursors stay within its vectors and whose cells exist keeps the runtime invariant |
| HookState.Push | src/functional/hook_context.rs:91-95 | push appends the id on top of the stack and changes nothing else |
| HookState.Pop | src/functional/hook_context.rs:97-101 | pop removes exactly the top id, and is a no-op on an empty stack |
| HookState.Last | src/functional/hook_context.rs:103-107 | last is None exactly when the stack is empty; otherwise pushing it back onto the popped stack rebuilds the stack |
| HookState.PopAfterPush | src/functional/hook_context.rs:91-107 | pop undoes push, and last after a push is the pushed id |
| HookState.GetCurrentBucket | src/functional/hook_context.rs:56-67 | None exactly on an empty stack; otherwise the top id gets a bucket, a new default one only if it had none, and no other bucket changes |
| HookState.GetCurrentBucketIdempotent | src/functional/hook_context.rs:56-73 | asking for the current bucket twice creates nothing the second time, and get_bucket then finds it |
| HookState.SetCurrent | src/functional/hook_context.rs:56-67 | writing through the current bucket changes the top id's bucket only, and keeps the invariant when the bucket is well-formed |
| HookState.CurrentInRange | src/functional/hook_context.rs:10-21 | the current bucket of a valid runtime has its cursors in range and its cells allocated |
| HookState.AllocKeepsValid | src/functional/hooks.rs:73 | allocating a fresh state cell keeps the invariant |
| HookState.AppendCellAllocated | src/functional/hooks.rs:75-77 | pushing a freshly allocated cell as a state slot keeps every slot's cell allocated |
| HookState.GetBucket | src/functional/hook_context.rs:69-73 | get_bucket finds a bucket exactly for the ids present, and creates none |
| HookState.ResetBucketIdx | src/functional/hook_context.rs:132-137 | the three cursors of the named bucket go to 0; its slots and every other bucket are kept |
| HookState.ResetBucket | src/functional/hook_context.rs:139-143 | removes exactly the named bucket and keeps all others |
| HookState.CreateCompId | src/functional/hook_context.rs:75-83 | the new id is the old counter plus one modulo u32::MAX, is stored as the counter, and stays below u32::MAX |
| HookState.ResetCompId | src/functional/hook_context.rs:85-89 | the counter goes back to 0 and nothing else changes |
| HookState.CreateCompIdInjective | src/functional/hook_context.rs:75-83 | two counters that yield the same next id are equal |
| HookState.ResetThenCreateIsOne | src/functional/hook_context.rs:75-89 | the first id issued after a reset is 1 |
| HookState.CreateCompIdWraps | src/functional/hook_context.rs:77 | the id after u32::MAX - 1 wraps to 0 |
| HookState.IssueIds | src/functional/hook_context.rs:75-83 | issuing n ids in a row yields n ids, each its predecessor (the counter, for the first) plus one modulo u32::MAX, wrap-around included; the counter ends at the last id and stays in range |
| HookState.IssuedIdsAreConsecutive | src/functional/hook_context.rs:75-83 | while no wrap-around happens, the ids issued are counter+1, counter+2, … and pairwise distinct |
| HookState.EffectStep | src/functional/hooks.rs:126-140 | one effect run on its slot index, cleanup vector and log: a cleanup stored at the index is called and cleared before the body is logged; the body's cleanup is appended only when the vector does not yet reach the index, and otherwise dropped |
| HookState.RunEffect | src/functional/hooks.rs:126-140 | an effect first calls and clears the cleanup stored at its slot index, then logs its body; it stores its own cleanup only when the cleanup vector does not yet reach its index, and then at the end of the vector; only its owner's cleanups and the log change, as one EffectStep |
| HookState.RunEffectBodies | src/functional/hooks.rs:126-140 | running one pending effect adds exactly its body to the bodies the log records |
| HookState.ClearPending | src/functional/hook_context.rs:128 | `*effect = None` as a helper of the loop step: slot i of the bucket loses its closure and keeps its guard; every other slot, the bucket's other fields, every other bucket and the log are unchanged |
| HookState.ClearPendingIdempotent | src/functional/hook_context.rs:128 | clearing a slot twice is clearing it once, and a cleared slot has no pending body |
| HookState.RunEffectSlot | src/functional/hook_context.rs:124-129 | one loop step calls the slot's pending effect, if any, then clears the slot, keeping its guard and every other bucket's hooks |
| HookState.RunEffectSlotEvents | src/functional/hook_context.rs:124-129 | an empty slot calls nothing and changes no cleanup vector; a pending closure changes its owner's cleanup vector and the log exactly as one EffectStep, and no other bucket's cleanups |
| HookState.RunEffectsFrom | src/functional/hook_context.rs:124-129 | the loop from index i clears every pending effect from i on, keeps guards, and only appends to the log |
| HookState.RunEffectsFromStep | src/functional/hook_context.rs:124-129 | the bodies the loop logs from i are the slot's own followed by those from i+1 |
| HookState.RunEffectsFromBodies | src/functional/hook_context.rs:124-129 | the loop from i logs exactly the pending bodies of slots i.., in slot order |
| HookState.RunEffectsFromTrace | src/functional/hook_context.rs:124-129 | when every pending closure belongs to the bucket and its own slot, as use_effect builds them, the loop from i leaves exactly the cleanup vector and log of the reference trace EffectTrace over slots i.., and no other bucket changes |
| HookState.MountTrace | src/functional/hooks.rs:135-137 | when every slot is pending and the cleanup vector ends at the first of them, each body is logged in slot order and each cleanup is stored at its own slot's index |
| HookState.RerunTraceLog | src/functional/hooks.rs:128-133 | when the cleanup vector already covers every slot, each pending slot calls its stored cleanup (if any) and then its new body, slot after slot (the reference RerunEvents) |
| HookState.RerunTraceCleanups | src/functional/hooks.rs:128-137 | when the cleanup vector already covers every slot, its length is kept, every pending slot's entry becomes None and every other entry is kept: no new cleanup is stored |
| HookState.CleanupBeforeBody | src/functional/hooks.rs:128-133 | in the calls of a re-render, a pending slot's stored cleanup is called immediately before that slot's new body |
| HookState.EffectsKeepValid | src/functional/hook_context.rs:122-130 | changing only effects, cleanups and the log keeps the invariant |
| HookState.BodiesMembers | src/functional/hooks.rs:126-140 | a body is among the bodies a log records exactly when the log records that it ran |
| HookState.PendingBodiesMembers | src/functional/hook_context.rs:124-129 | the pending bodies are exactly the bodies of the slots holding a pending closure |
| HookState.NoPendingBodies | src/functional/hook_context.rs:124-129 | slots with nothing pending contribute no bodies |
| HookState.PendingBodiesOfOne | src/functional/hook_context.rs:124-129 | a single slot contributes its body exactly when it is pending |
| HookState.RunEffectsOf | src/functional/hook_context.rs:122-130 | after run_effects_of every effect slot of the bucket is cleared with its guard kept, the pending bodies ran in slot order, and no other bucket changed beside its cleanup vector (its effect vector is kept in every case); when the closures are the bucket's own, the cleanup vector and log are exactly those of the reference trace EffectTrace |
| HookState.CalledCleanupsMembers | src/functional/hook_context.rs:112-116 | a cleanup is called at reset exactly when it is stored, and nothing but cleanups is called |
| HookState.CleanupsRunInSlotOrder | src/functional/hook_context.rs:112-116 | when every slot holds a cleanup, each is called once, in slot order |
| HookState.RunCleanups | src/functional/hook_context.rs:112-116 | the loop from i appends the calls of the stored cleanups from i on to the log |
| HookState.Reset | src/functional/hook_context.rs:109-120 | reset calls the component's stored cleanups in order, then removes its bucket and keeps all others; an unknown id calls nothing |
| HookState.BeforeRun | src/functional/hook_context.rs:145-149 | the id is pushed and has a bucket, a default one if new; its cursors are 0 and its slots are kept; other buckets are kept |
| HookState.AfterRun | src/functional/hook_context.rs:151-154 | the component's pending effects run in slot order and are cleared, then the top of the stack is popped, whatever id it holds; other buckets keep everything beside their cleanup vectors; when the closures are the component's own, its cleanup vector and the log are exactly those of the reference trace EffectTrace, and no other bucket changes |
| HookState.MountTraceOutcome | src/functional/hooks.rs:135-137 | on mount (empty cleanup vector, every slot pending) the trace logs every body in slot order, stores every body's cleanup at its slot, and those cleanups are called in slot order by reset |
| HookState.MountThenUnmount | src/functional/hook_context.rs:109-154 | after_run of a mounting component logs its bodies in slot order and stores each cleanup at its slot; reset then calls those cleanups in slot order |
| HookState.RerunTraceOutcome | src/functional/hooks.rs:128-137 | on a re-render the trace logs each pending slot's stored cleanup then its body, clears those slots' entries and stores nothing |
| HookState.RerenderEffects | src/functional/hook_context.rs:151-154 | after_run of a re-rendering component whose cleanup vector covers its slots logs exactly the re-render calls, clears the pending slots' cleanups and stores no new cleanup |
| HookState.RerenderCleanupBeforeBody | src/functional/hooks.rs:128-133 | in after_run of a re-render, each pending slot's stored cleanup is called right before its new body |
| Remap.MapState | src/functional/hook_context.rs:156-160 | the new id maps to the old id, overwriting any earlier entry, and every other entry is kept |
| Remap.ClearMapState | src/functional/hook_context.rs:183-187 | the remap table becomes empty and nothing else changes |
| Remap.MapId | src/functional/hook_context.rs:189-197 | an id in the table maps to its entry, any other id to itself |
| Remap.MapStateOverwrites | src/functional/hook_context.rs:156-160 | of two map_state calls for one new id, the later wins |
| Remap.MapIdOneHop | src/functional/hook_context.rs:189-197 | map_id follows one entry only, not a chain of entries |
| Remap.MapIdAfterClear | src/functional/hook_context.rs:183-197 | after clear_map_state every id maps to itself |
| Remap.NamedAll | src/functional/hook_context.rs:169 | iterating the whole table visits every old id it names |
| Remap.DrainRest | src/functional/hook_context.rs:169-170 | the loop removes from the registry exactly the old ids the visited entries name and leaves every other bucket as it was |
| Remap.DrainMoved | src/functional/hook_context.rs:169-171 | every bucket collected by the loop was collected before or is the registry bucket of a visited entry's old id, filed under that entry's new id |
| Remap.DrainCovers | src/functional/hook_context.rs:169-171 | every old bucket named by a visited entry and still in the registry is collected under some new id that maps to it |
| Remap.DrainInjective | src/functional/hook_context.rs:169-171 | when no two new ids share an old id, every visited entry whose old bucket is in the registry gets that bucket |
| Remap.DrainOutcome | src/functional/hook_context.rs:168-174 | the whole loop, started with nothing collected, leaves the registry and the collected buckets in the outcome the commit relies on |
| Remap.ExtendKeepsUntouched | src/functional/hook_context.rs:168-179 | a bucket whose id is neither a new nor an old id of the table survives the commit unchanged, and none appears there |
| Remap.ExtendDropsOld | src/functional/hook_context.rs:170 | an old id that is not also a new id has no bucket after the commit |
| Remap.ExtendPlacesOld | src/functional/hook_context.rs:170-171 | every old bucket that existed ends up under some new id mapped to it |
| Remap.ExtendOrigins | src/functional/hook_context.rs:168-179 | every bucket after the commit is an untouched bucket or an old bucket moved under a new id that maps to it |
| Remap.ExtendInjective | src/functional/hook_context.rs:168-179 | when no two new ids share an old id, the commit result is the reference transplant of the buckets, whatever the iteration order |
| Remap.OldBucketsKeepValid | src/functional/hook_context.rs:179 | a bucket map made of existing buckets keeps the invariant |
| Remap.DrainMapped | src/functional/hook_context.rs:168-174 | the loop removes each mapped old bucket once and collects it under its new id |
| Remap.CommitMapState | src/functional/hook_context.rs:162-181 | the buckets are re-keyed from old to new ids: untouched ids keep theirs, old ids lose theirs, every new bucket comes from its old id, the result is the transplant when the table is injective, and the invariant holds |
| Remap.SwapKeepsBoth | src/functional/hook_context.rs:162-181 | remapping two components onto each other's ids swaps their buckets and loses neither |
| Remap.SingleRemap | src/functional/hook_context.rs:156-181 | a single map_state followed by a commit moves the old bucket to the new id and removes the old id |
| Hooks.UseReducer | src/functional/hooks.rs:67-104 | a slot is appended only when the cursor is past the end; the value read is the slot's cell; the dispatcher is bound to that cell and that reducer; the cursor advances by one |
| Hooks.StateSlotStep | src/functional/hooks.rs:71-78 | the state slot under the cursor exists afterwards, earlier slots are kept, a new one gets a fresh cell holding the initial value |
| Hooks.UseState | src/functional/hooks.rs:39-51 | use_state is use_reducer whose reducer returns the update, so its setter stores the update itself |
| Hooks.Dispatch | src/functional/hooks.rs:88-95 | the dispatcher writes reducer(old value, update) into its captured cell and changes no other cell and no bucket |
| Hooks.Rerender | src/functional/hook_context.rs:145-149 | popping the component's frame and running before_run for it again rewinds its cursors and keeps its slots and cells |
| Hooks.SetterWrites | src/functional/hooks.rs:39-51 | a setter stores its argument in its cell and keeps buckets, stack and invariant |
| Hooks.SetterOverwrites | src/functional/hooks.rs:39-51 | of two setter calls in one render, the later value wins |
| Hooks.DispatchSeenNextRender | src/functional/hooks.rs:67-104 | a dispatch is what the same use_reducer reads on the next render, whatever initial value that render passes (shown for the first state hook of a render, at cursor 0) |
| Hooks.UseRef | src/functional/hooks.rs:53-65 | use_ref runs use_state with the initial value and binds the handle to the bucket's last state slot |
| Hooks.RefGet | src/functional/hooks.rs:21-28 | get reads the cell when its value has the handle's type, and the initial value otherwise |
| Hooks.RefSet | src/functional/hooks.rs:30-36 | set overwrites the handle's cell only |
| Hooks.RefSetThenGet | src/functional/hooks.rs:21-36 | get after set returns the value set |
| Hooks.UseRefOnMount | src/functional/hooks.rs:53-65 | on a first render the ref is bound to its own freshly allocated cell and reads its initial value (shown for the first hook of a fresh bucket) |
| Hooks.RefSurvivesRerender | src/functional/hooks.rs:53-65 | when the ref is the component's first and only state hook, a value set through it on the first render is read through the ref the next render returns, which is the same handle |
| Hooks.UseRefAliasesLaterSlot | src/functional/hooks.rs:56 | on a bucket with two state slots, a ref made by the first binds the second slot's cell; when that cell holds a value of another type, as in this example, get returns the ref's initial value and not the cell's |
| Hooks.GuardsChanged | src/functional/hooks.rs:106-112 | guards changed exactly when there is no previous guard or it differs from the new one |
| Hooks.StoreEffect | src/functional/hooks.rs:116-145 | an unchanged guard keeps the slot; a changed or missing one queues the effect with its owner and index and stores the guard; other slots are kept |
| Hooks.UseEffect | src/functional/hooks.rs:114-152 | use_effect updates the effect slot under the cursor as above and advances the cursor, changing nothing else |
| Hooks.EffectPendingIffGuardChanged | src/functional/hooks.rs:124-146 | when nothing was pending in the slot before, as after every after_run, use_effect leaves a pending body in the slot exactly when the guard changed |
| Hooks.RerunEffectLosesCleanup | src/functional/hooks.rs:128-137 | re-running an effect calls and clears the stored cleanup and does not store the new one |
| Hooks.FirstRunCleanupCalledAtUnmount | src/functional/hooks.rs:135-137 | the cleanup an effect's first run returns is called when its component is reset |
| Hooks.StoreMemo | src/functional/hooks.rs:155-168 | an unchanged guard keeps the memo; a changed or missing one stores the new result with the guard; other memos are kept |
| Hooks.UseMemo | src/functional/hooks.rs:154-177 | use_memo returns the cached value and calls nothing when the guard is unchanged, and otherwise calls the closure once and returns its result |
| Hooks.UseCallback | src/functional/hooks.rs:179-185 | use_callback keeps the memo slot under the cursor and returns its value while the guard is unchanged, and otherwise stores and returns the new closure with the guard; it creates the slot if missing, advances the cursor, keeps the other memo slots and buckets, and calls nothing |
| Hooks.MemoCachedAcrossRenders | src/functional/hooks.rs:154-177 | a memo computed on the first render is served on the next render with an equal guard without calling the new closure (shown for the first hook of a fresh bucket) |
| Hooks.CallbackKeepsFirstValue | src/functional/hooks.rs:179-185 | use_callback keeps returning the first closure across renders with an equal guard (shown for the first hook of a fresh bucket) |
| Scenarios.EffectBeforeRun | src/functional/hook_context.rs:145-149 | opening a render of a component with one effect keeps that effect, its guard and its cleanup vector and rewinds the cursor |
| Scenarios.EffectStored | src/functional/hooks.rs:114-152 | the component's one use_effect queues its body, owned by the component and slot 0, exactly when the guard differs from the previous render's, and keeps the cleanup vector |
| Scenarios.EffectAfterRun | src/functional/hook_context.rs:151-154 | closing the render logs the queued body, clears the slot and restores the stack |
| Scenarios.EffectAfterRunCleanups | src/functional/hooks.rs:126-140 | closing a render of the one-effect component: a queued body calls the stored cleanup, if any, then runs; its own cleanup is stored only when the vector was empty, and a stored entry is cleared |
| Scenarios.OneCleanupStep | src/functional/hooks.rs:126-140 | an effect run at slot 0 stores its cleanup on an empty vector, and on a one-entry vector calls that entry's cleanup, if any, and leaves None |
| Scenarios.EffectRenderStart | src/functional/hook_context.rs:145-149 | before_run and use_effect leave the component on the stack with its slot queued exactly when the guard changed, and cleanups and log as they were |
| Scenarios.EffectRenderFinishShape | src/functional/hook_context.rs:151-154 | after_run then clears the slot, keeps the guard, restores the stack and logs the queued body |
| Scenarios.EffectRenderFinishEvents | src/functional/hook_context.rs:151-154 | after_run then calls the stored cleanup, if any, right before the body when the guard changed, and leaves the cleanup vector as EffectRenderEvents says |
| Scenarios.EffectRenderFinish | src/functional/hook_context.rs:151-154 | the two together: the render meets EffectRendered and leaves the component ready for the next |
| Scenarios.EffectRender | src/functional/hooks.rs:114-152 | a whole render runs the effect body exactly when the guard changed since the last render, calling the stored cleanup first; the first render stores the body's cleanup and a later run clears it; stack and cells are kept |
| Scenarios.EffectSkippedOnSameGuard | src/functional/hooks.rs:124 | a second render with the same guard runs no effect body |
| Scenarios.EffectRunsOnNewGuard | src/functional/hooks.rs:124 | a second render with a different guard runs the new body once |
| Scenarios.UnmountOneCleanup | src/functional/hook_context.rs:109-120 | reset of a component with one cleanup entry calls that cleanup, if any, and nothing else |
| Scenarios.EffectMountThenUnmount | src/functional/hooks.rs:135-137 | the first render logs the body, stores exactly its cleanup, and reset then calls that cleanup once |
| Scenarios.EffectNewGuardDropsCleanup | src/functional/hooks.rs:128-137 | a second render with a new guard calls the first cleanup right before the new body, leaves the cleanup entry None, and reset afterwards calls nothing |
| Scenarios.EffectRenderCleanups | src/functional/hooks.rs:128-137 | the same two facts for the runtimes EffectRender returns on a mount and a re-render |
| Scenarios.CounterBeforeRun | src/functional/hook_context.rs:145-149 | opening a counter render keeps its one cell and the value stored there |
| Scenarios.CounterHook | src/functional/hooks.rs:39-51 | the counter's use_state binds the same cell on every render, or a fresh one on the first |
| Scenarios.CounterBody | src/functional/hooks.rs:39-51 | the counter body reads the cell, or 0 on the first render, and leaves read + 1 in it |
| Scenarios.CounterEnd | src/functional/hook_context.rs:151-154 | closing a counter render restores the stack and keeps the cell |
| Scenarios.CounterRender | src/functional/hook_context.rs:145-154 | one render of the counter reads the stored count and leaves that count plus one in the same cell |
| Scenarios.CounterThreeRenders | src/functional/hooks.rs:67-104 | three renders of a new counter read 0, 1 and 2, and the cell holds 3 afterwards |

## Left out

- Debug output (`println!` in bucket creation, id creation, guard comparison and commit) is not modelled: it has no effect on the state.
- `HookState::init` and `try_init_static` are modelled only as `Init`, the runtime before any hook: lazy initialisation of the statics is not state the model can observe.
- `get_buckets` and `get_stack` are plain accessors; the model reads the record's fields.
- `Context` and `use_context` are not part of this model, nor is the demo driver `src/main.rs`; its components are callers of the runtime, not part of it.
- `dyn Any` is modelled by a closed `Value` type with `TypeOf`; a downcast succeeds exactly when `TypeOf` matches, and every `unwrap` on a downcast becomes a type-equality precondition.
- Rust's static typing of reducers is the ghost predicate `Hooks.Typed` (a reducer maps values of the hook's type to that type), stated as a precondition.
- Effect bodies, cleanups and memo closures are opaque tokens: what they do to the rest of the program is not modelled, only that they ran and in which order.
- `Rc` reference counting and freeing are not modelled: state cells are never freed, which matches what a remaining dispatcher or ref can observe.
- The runtime is single-threaded, as the statics are; no concurrency is modelled.
- Remap.CommitMapState: `HashMap` iteration order is a parameter. When two new ids map to one old id, which of them receives the bucket depends on that order, so the exact result is stated only for an injective table; for any table the contract still bounds where each bucket can go.
- HookState.IssuedIdsAreConsecutive: stated only while no wrap-around happens; the wrap itself is `HookState.CreateCompIdWraps`, and `HookState.IssueIds` states each id modulo u32::MAX in general.
- HookState.RunEffectsOf: the exact cleanup vector and log are stated only when every pending closure belongs to the bucket's own id and slot, as `use_effect` builds them; a closure left pending under a bucket that `commit_map_state` moved during a render is covered only by the bodies it logs.
- HookState.AfterRun: the exact cleanup vector and log are stated under the same condition as for `HookState.RunEffectsOf`.
- Stored integers are unbounded; the demo counter's `count + 1` is an `i32` addition (the state is `use_state(0)` at src/main.rs:47, the increment at src/main.rs:92) that overflows at `i32::MAX`, which the three-render scenario never reaches.

## Behaviour of note

These follow from the code as written, and the model states them:

- `after_run` pops the top of the stack without checking that it is the id it was given (`HookState.AfterRun`).
- A dispatcher writes the cell it captured, not through `map_id` or the bucket, so it keeps working after a remap and after its component is reset (`Hooks.Dispatch`).
- `commit_map_state` does not clear the remap table; that is left to `clear_map_state` (`Remap.CommitMapState`).
- `reset` of an id that has no bucket creates one through `get_current_bucket` and removes it again, calling nothing (`HookState.Reset`).
- `use_ref` binds the bucket's last state slot, not the slot its own `use_state` used (`Hooks.UseRefAliasesLaterSlot`).
- `HookRef::get` falls back to the initial value when the cell's value has another type, not when the component is gone (`Hooks.RefGet`).
- A re-run effect calls the stored cleanup but does not store the cleanup its new run returns, and a first-run cleanup is appended at the end of the vector rather than at the slot's index (`Hooks.RerunEffectLosesCleanup`, `HookState.RunEffect`).
- A setter's write is visible at once, so the counter component reads 0, 1 and 2 on its first three renders and its cell holds 3 afterwards (`Scenarios.CounterThreeRenders`).
- A re-render with a new guard calls the previous cleanup right before the new body and then holds no cleanup, so unmounting calls nothing (`Scenarios.EffectNewGuardDropsCleanup`).
