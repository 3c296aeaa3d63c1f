/** The hook registry and render lifecycle.

    The Rust library keeps four process-wide globals (the bucket map, the remap
    table, the stack of rendering ids and the id counter). Here they are the
    fields of one immutable `Runtime` value, together with a heap of state
    cells and a log of the opaque closures the runtime invokes. Every
    operation is a pure function from a runtime to a runtime.
 */
module HookState {
  import opened Values

  /** A component instance id. */
  type Id = u32

  /** The address of one shared, mutable state cell: its index in the heap. */
  type CellId = nat

  /** An invocation of an opaque closure, in the order it happened. */
  datatype Event =
    | EffectRan(body: nat)
    | CleanupRan(cleanup: nat)
    | MemoComputed(thunk: nat)

  /** An effect body: the closure `token`, which returns the cleanup `cleanup` when called. */
  datatype EffectBody = EffectBody(token: nat, cleanup: nat)

  /** The pending closure `use_effect` stores: it captured the id on top of the
      stack, the effect's slot index and the body. */
  datatype PendingEffect = PendingEffect(owner: Id, index: nat, body: EffectBody)

  datatype EffectSlot = EffectSlot(pending: Option<PendingEffect>, lastGuard: Option<Value>)

  datatype MemoSlot = MemoSlot(value: Value, lastGuard: Option<Value>)

  /** All retained slots of one component instance. */
  datatype Bucket = Bucket(
    nextStateSlotIdx: nat,
    stateSlots: seq<CellId>,
    nextEffectIdx: nat,
    effects: seq<EffectSlot>,
    cleanups: seq<Option<nat>>,
    nextMemoizationIdx: nat,
    memoizations: seq<MemoSlot>)

  /** `Bucket::default()` */
  const EmptyBucket: Bucket := Bucket(0, [], 0, [], [], 0, [])

  datatype Runtime = Runtime(
    buckets: map<Id, Bucket>,
    stateMap: map<Id, Id>,   // new id -> old id
    stack: seq<Id>,
    funcId: u32,
    heap: seq<Value>,        // cell c holds heap[c]; cells are never freed
    log: seq<Event>)

  /** A bucket's cursors never run past its slot vectors. */
  predicate CursorsInRange(b: Bucket) {
    && b.nextStateSlotIdx <= |b.stateSlots|
    && b.nextEffectIdx <= |b.effects|
    && b.nextMemoizationIdx <= |b.memoizations|
  }

  predicate CellsAllocated(b: Bucket, heap: seq<Value>) {
    forall k :: 0 <= k < |b.stateSlots| ==> b.stateSlots[k] < |heap|
  }

  /** The invariant every reachable runtime satisfies. */
  predicate Valid(rt: Runtime) {
    && rt.funcId as int < U32_MAX
    && (forall id :: id in rt.buckets ==> CursorsInRange(rt.buckets[id]) && CellsAllocated(rt.buckets[id], rt.heap))
  }

  /** `Valid` does not look at the log. */
  lemma ValidWithLog(rt: Runtime, log: seq<Event>)
    requires Valid(rt)
    ensures Valid(rt.(log := log))
  {
  }

  /** Storing a bucket whose cursors are in range and whose cells exist keeps `Valid`. */
  lemma PutBucketKeepsValid(rt: Runtime, id: Id, b: Bucket)
    requires Valid(rt) && CursorsInRange(b) && CellsAllocated(b, rt.heap)
    ensures Valid(rt.(buckets := rt.buckets[id := b]))
  {
  }

  /** `log` extends `prefix`. */
  predicate Extends(log: seq<Event>, prefix: seq<Event>) {
    |prefix| <= |log| && log[..|prefix|] == prefix
  }

  lemma ExtendsTrans(a: seq<Event>, b: seq<Event>, c: seq<Event>)
    requires Extends(b, a) && Extends(c, b)
    ensures Extends(c, a)
  {
    assert c[..|b|][..|a|] == c[..|a|];
  }

  /** Bucket `b2` differs from `b1` at most in its cleanup vector. */
  predicate SameBesideCleanups(b1: Bucket, b2: Bucket) {
    b2 == b1.(cleanups := b2.cleanups)
  }

  /** The runtime before any hook is called. */
  function Init(): (rt: Runtime)
    ensures Valid(rt)
    ensures rt.buckets == map[] && rt.stateMap == map[] && rt.stack == [] && rt.funcId == 0
  {
    Runtime(map[], map[], [], 0, [], [])
  }

  // ---------------------------------------------------------------------
  // The stack of rendering ids
  // ---------------------------------------------------------------------

  function Push(rt: Runtime, id: Id): (r: Runtime)
    ensures |r.stack| == |rt.stack| + 1 && r.stack[..|rt.stack|] == rt.stack && r.stack[|rt.stack|] == id
    ensures r == rt.(stack := r.stack)
  {
    rt.(stack := rt.stack + [id])
  }

  /** `Vec::pop`: removes the top entry whatever it is; does nothing on an empty stack. */
  function Pop(rt: Runtime): (r: Runtime)
    ensures |rt.stack| > 0 ==> r.stack + [rt.stack[|rt.stack| - 1]] == rt.stack
    ensures |rt.stack| == 0 ==> r == rt
    ensures r == rt.(stack := r.stack)
  {
    if |rt.stack| == 0 then rt else rt.(stack := rt.stack[..|rt.stack| - 1])
  }

  function Last(rt: Runtime): (r: Option<Id>)
    ensures r.None? <==> |rt.stack| == 0
    ensures r.Some? ==> r.value in rt.stack && Push(Pop(rt), r.value) == rt
  {
    if |rt.stack| == 0 then None else Some(rt.stack[|rt.stack| - 1])
  }

  lemma PopAfterPush(rt: Runtime, id: Id)
    ensures Pop(Push(rt, id)) == rt
    ensures Last(Push(rt, id)) == Some(id)
  {
    assert (rt.stack + [id])[..|rt.stack|] == rt.stack;
  }

  function Top(rt: Runtime): Id
    requires |rt.stack| > 0
  {
    rt.stack[|rt.stack| - 1]
  }

  /** The bucket the hooks of the current render see: the top id's bucket, or a fresh one. */
  function Current(rt: Runtime): Bucket
    requires |rt.stack| > 0
  {
    if Top(rt) in rt.buckets then rt.buckets[Top(rt)] else EmptyBucket
  }

  // ---------------------------------------------------------------------
  // The registry
  // ---------------------------------------------------------------------

  /** The bucket of the id on top of the stack, created empty if missing;
      `None` when nothing is rendering. The runtime is returned so that the
      created bucket is kept. */
  function GetCurrentBucket(rt: Runtime): (r: Option<Runtime>)
    ensures r.None? <==> |rt.stack| == 0
    ensures r.Some? ==>
      && r.value == rt.(buckets := r.value.buckets)
      && r.value.buckets.Keys == rt.buckets.Keys + {Top(rt)}
      && (forall id :: id in rt.buckets ==> r.value.buckets[id] == rt.buckets[id])
      && r.value.buckets[Top(rt)] == Current(rt)
    ensures r.Some? && Valid(rt) ==> Valid(r.value)
  {
    match Last(rt)
    case None => None
    case Some(id) =>
      Some(rt.(buckets := if id in rt.buckets then rt.buckets else rt.buckets[id := EmptyBucket]))
  }

  /** What a hook leaves behind: `b`, computed from `Current(rt)`, stored as the bucket of
      the id on top of the stack (which `get_current_bucket` creates if missing). */
  function SetCurrent(rt: Runtime, b: Bucket): (r: Runtime)
    requires |rt.stack| > 0
    ensures r == rt.(buckets := r.buckets)
    ensures r.buckets.Keys == rt.buckets.Keys + {Top(rt)}
    ensures forall x :: x in rt.buckets && x != Top(rt) ==> r.buckets[x] == rt.buckets[x]
    ensures r.buckets[Top(rt)] == b
    ensures Valid(rt) && CursorsInRange(b) && CellsAllocated(b, rt.heap) ==> Valid(r)
  {
    var rt1 := GetCurrentBucket(rt).value;
    rt1.(buckets := rt1.buckets[Top(rt) := b])
  }

  /** The bucket a hook sees satisfies the bucket part of `Valid`. */
  lemma CurrentInRange(rt: Runtime)
    requires |rt.stack| > 0 && Valid(rt)
    ensures CursorsInRange(Current(rt)) && CellsAllocated(Current(rt), rt.heap)
  {
  }

  /** A bucket that gains the cell just allocated at the end of the heap keeps its cells allocated. */
  lemma AppendCellAllocated(b: Bucket, heap: seq<Value>, v: Value)
    requires CellsAllocated(b, heap)
    ensures CellsAllocated(b.(stateSlots := b.stateSlots + [|heap|]), heap + [v])
  {
  }

  /** Allocating a cell at the end of the heap keeps `Valid`. */
  lemma AllocKeepsValid(rt: Runtime, v: Value)
    requires Valid(rt)
    ensures Valid(rt.(heap := rt.heap + [v]))
  {
    var r := rt.(heap := rt.heap + [v]);
    forall id | id in r.buckets
      ensures CellsAllocated(r.buckets[id], r.heap)
    {
      assert CellsAllocated(rt.buckets[id], rt.heap);
    }
  }

  /** A second `get_current_bucket` in the same frame finds the bucket the first created. */
  lemma GetCurrentBucketIdempotent(rt: Runtime)
    requires |rt.stack| > 0
    ensures GetCurrentBucket(GetCurrentBucket(rt).value) == GetCurrentBucket(rt)
    ensures GetBucket(GetCurrentBucket(rt).value, Top(rt)) == Some(Current(rt))
  {
    var rt1 := GetCurrentBucket(rt).value;
    assert Top(rt1) == Top(rt);
  }

  function GetBucket(rt: Runtime, id: Id): (r: Option<Bucket>)
    ensures r.Some? <==> id in rt.buckets
    ensures r.Some? ==> r.value == rt.buckets[id]
  {
    if id in rt.buckets then Some(rt.buckets[id]) else None
  }

  /** Zeroes the three cursors of an existing bucket. */
  function ResetBucketIdx(rt: Runtime, id: Id): (r: Runtime)
    requires id in rt.buckets
    ensures r.buckets.Keys == rt.buckets.Keys
    ensures forall other :: other in rt.buckets && other != id ==> r.buckets[other] == rt.buckets[other]
    ensures var b, b' := rt.buckets[id], r.buckets[id];
      && b'.nextStateSlotIdx == 0 && b'.nextEffectIdx == 0 && b'.nextMemoizationIdx == 0
      && b'.stateSlots == b.stateSlots && b'.effects == b.effects
      && b'.cleanups == b.cleanups && b'.memoizations == b.memoizations
    ensures r == rt.(buckets := r.buckets)
    ensures Valid(rt) ==> Valid(r)
  {
    var b := rt.buckets[id];
    rt.(buckets := rt.buckets[id := b.(nextStateSlotIdx := 0, nextEffectIdx := 0, nextMemoizationIdx := 0)])
  }

  /** Drops a bucket; runs nothing. */
  function ResetBucket(rt: Runtime, id: Id): (r: Runtime)
    ensures r.buckets.Keys == rt.buckets.Keys - {id}
    ensures forall other :: other in r.buckets ==> r.buckets[other] == rt.buckets[other]
    ensures r == rt.(buckets := r.buckets)
    ensures Valid(rt) ==> Valid(r)
  {
    rt.(buckets := rt.buckets - {id})
  }

  // ---------------------------------------------------------------------
  // The id counter
  // ---------------------------------------------------------------------

  /** Advances the counter modulo `u32::MAX` and returns it. The addition cannot
      overflow because the counter is always below `u32::MAX`. */
  function CreateCompId(rt: Runtime): (r: (Runtime, Id))
    requires rt.funcId as int < U32_MAX
    ensures r.1 as int < U32_MAX
    ensures r.0 == rt.(funcId := r.1)
    ensures (r.1 as int + U32_MAX - 1) % U32_MAX == rt.funcId as int
  {
    var sum: u32 := 1 + rt.funcId;
    var next := sum % (U32_MAX as u32);
    (rt.(funcId := next), next)
  }

  function ResetCompId(rt: Runtime): (r: Runtime)
    ensures r.funcId == 0 && r == rt.(funcId := 0)
  {
    rt.(funcId := 0)
  }

  /** Two different counter states never hand out the same id. */
  lemma CreateCompIdInjective(rt1: Runtime, rt2: Runtime)
    requires rt1.funcId as int < U32_MAX && rt2.funcId as int < U32_MAX
    requires CreateCompId(rt1).1 == CreateCompId(rt2).1
    ensures rt1.funcId == rt2.funcId
  {
  }

  lemma ResetThenCreateIsOne(rt: Runtime)
    ensures CreateCompId(ResetCompId(rt)).1 == 1
  {
  }

  /** The counter wraps: after `u32::MAX - 1` the next id is 0, so 0 is handed out again. */
  lemma CreateCompIdWraps(rt: Runtime)
    requires rt.funcId as int == U32_MAX - 1
    ensures CreateCompId(rt).1 == 0
  {
  }

  /** The ids `n` successive `create_comp_id` calls hand out: each is its predecessor (the
      counter, for the first) plus one modulo `u32::MAX`, and the counter ends at the last. */
  function IssueIds(rt: Runtime, n: nat): (r: (Runtime, seq<Id>))
    requires rt.funcId as int < U32_MAX
    ensures r.0.funcId as int < U32_MAX && |r.1| == n
    ensures r.0.funcId == if n == 0 then rt.funcId else r.1[n - 1]
    ensures forall k :: 0 <= k < n ==>
      r.1[k] as int == ((if k == 0 then rt.funcId else r.1[k - 1]) as int + 1) % U32_MAX
    decreases n
  {
    if n == 0 then (rt, [])
    else
      var (rt1, id) := CreateCompId(rt);
      var (rt2, ids) := IssueIds(rt1, n - 1);
      (rt2, [id] + ids)
  }

  /** From a counter `c`, the next `n` ids are `c + 1, ..., c + n` as long as they stay below
      `u32::MAX`; in particular they are pairwise distinct. */
  lemma {:induction false} IssuedIdsAreConsecutive(rt: Runtime, n: nat)
    requires rt.funcId as int + n < U32_MAX
    ensures forall k :: 0 <= k < n ==> IssueIds(rt, n).1[k] as int == rt.funcId as int + k + 1
    ensures IssueIds(rt, n).0.funcId as int == rt.funcId as int + n
    ensures forall j, k :: 0 <= j < k < n ==> IssueIds(rt, n).1[j] != IssueIds(rt, n).1[k]
    decreases n
  {
    if n > 0 {
      var (rt1, id) := CreateCompId(rt);
      assert id as int == rt.funcId as int + 1;
      IssuedIdsAreConsecutive(rt1, n - 1);
      var ids := IssueIds(rt, n).1;
      assert ids == [id] + IssueIds(rt1, n - 1).1;
      forall k | 0 <= k < n
        ensures ids[k] as int == rt.funcId as int + k + 1
      {
        if k > 0 {
          assert ids[k] == IssueIds(rt1, n - 1).1[k - 1];
        }
      }
    }
  }

  // ---------------------------------------------------------------------
  // Effects and cleanups
  // ---------------------------------------------------------------------

  /** What the closure `use_effect` builds for slot `index` does to its owner's cleanup
      vector `cs` and to the log: it calls the stored cleanup of its slot first (which is
      then cleared), then the body; the body's cleanup is recorded only by appending, and
      only when the cleanup vector does not yet reach the slot. */
  function EffectStep(index: nat, body: EffectBody, cs: seq<Option<nat>>, log: seq<Event>): (r: (seq<Option<nat>>, seq<Event>))
    ensures index < |cs| && cs[index].Some? ==>
      r == (cs[index := None], log + [CleanupRan(cs[index].value), EffectRan(body.token)])
    ensures index < |cs| && cs[index].None? ==> r == (cs, log + [EffectRan(body.token)])
    ensures |cs| <= index ==> r == (cs + [Some(body.cleanup)], log + [EffectRan(body.token)])
  {
    var stale := if index < |cs| then cs[index] else None;
    var log1 := if stale.Some? then log + [CleanupRan(stale.value)] else log;
    var cs1 := if stale.Some? then cs[index := None] else cs;
    var cs2 := if |cs1| <= index then cs1 + [Some(body.cleanup)] else cs1;
    assert stale.Some? ==> log1 + [EffectRan(body.token)] == log + [CleanupRan(stale.value), EffectRan(body.token)];
    (cs2, log1 + [EffectRan(body.token)])
  }

  /** Runs a pending effect closure on the runtime: only its owner's cleanup vector and
      the log change, as `EffectStep` says. */
  function RunEffect(rt: Runtime, p: PendingEffect): (r: Runtime)
    requires p.owner in rt.buckets
    ensures r == rt.(buckets := r.buckets, log := r.log)
    ensures r.buckets.Keys == rt.buckets.Keys
    ensures forall id :: id in rt.buckets && id != p.owner ==> r.buckets[id] == rt.buckets[id]
    ensures var cs, cs' := rt.buckets[p.owner].cleanups, r.buckets[p.owner].cleanups;
      && SameBesideCleanups(rt.buckets[p.owner], r.buckets[p.owner])
      && (p.index < |cs| && cs[p.index].Some? ==>
            r.log == rt.log + [CleanupRan(cs[p.index].value), EffectRan(p.body.token)]
            && cs' == cs[p.index := None])
      && (p.index < |cs| && cs[p.index].None? ==>
            r.log == rt.log + [EffectRan(p.body.token)] && cs' == cs)
      && (|cs| <= p.index ==>
            r.log == rt.log + [EffectRan(p.body.token)] && cs' == cs + [Some(p.body.cleanup)])
    ensures (r.buckets[p.owner].cleanups, r.log) == EffectStep(p.index, p.body, rt.buckets[p.owner].cleanups, rt.log)
  {
    var b := rt.buckets[p.owner];
    var step := EffectStep(p.index, p.body, b.cleanups, rt.log);
    rt.(buckets := rt.buckets[p.owner := b.(cleanups := step.0)], log := step.1)
  }

  /** The effect bodies a log records, in order. */
  function Bodies(log: seq<Event>): seq<nat>
  {
    if |log| == 0 then []
    else (if log[0].EffectRan? then [log[0].body] else []) + Bodies(log[1..])
  }

  /** A body is among a log's bodies exactly when the log records that it ran. */
  lemma {:induction false} BodiesMembers(log: seq<Event>)
    ensures forall t :: t in Bodies(log) <==> EffectRan(t) in log
    decreases |log|
  {
    if |log| > 0 {
      BodiesMembers(log[1..]);
      assert log == [log[0]] + log[1..];
    }
  }

  lemma {:induction false} BodiesAppend(a: seq<Event>, b: seq<Event>)
    ensures Bodies(a + b) == Bodies(a) + Bodies(b)
    decreases |a|
  {
    if |a| > 0 {
      assert (a + b)[1..] == a[1..] + b;
      BodiesAppend(a[1..], b);
    } else {
      assert a + b == b;
    }
  }

  /** The body an effect slot has pending, if any. */
  function PendingBody(slot: EffectSlot): seq<nat> {
    if slot.pending.Some? then [slot.pending.value.body.token] else []
  }

  lemma BodiesChain(log0: seq<Event>, log1: seq<Event>, log2: seq<Event>, first: seq<nat>, rest: seq<nat>)
    requires Bodies(log1) == Bodies(log0) + first
    requires Bodies(log2) == Bodies(log1) + rest
    ensures Bodies(log2) == Bodies(log0) + (first + rest)
  {
  }

  /** The bodies of the pending effects of an effect vector, in slot order. */
  function PendingBodies(effects: seq<EffectSlot>): seq<nat>
  {
    if |effects| == 0 then [] else PendingBody(effects[0]) + PendingBodies(effects[1..])
  }

  /** The pending bodies are exactly the bodies of the slots with a pending closure. */
  lemma {:induction false} PendingBodiesMembers(effects: seq<EffectSlot>)
    ensures forall k :: 0 <= k < |effects| && effects[k].pending.Some? ==>
      effects[k].pending.value.body.token in PendingBodies(effects)
    ensures forall t :: t in PendingBodies(effects) ==>
      exists k :: 0 <= k < |effects| && effects[k].pending.Some? && effects[k].pending.value.body.token == t
    decreases |effects|
  {
    if |effects| > 0 {
      var rest := effects[1..];
      PendingBodiesMembers(rest);
      forall k | 0 < k < |effects| ensures effects[k] == rest[k - 1] { }
      forall t | t in PendingBodies(effects)
        ensures exists k :: 0 <= k < |effects| && effects[k].pending.Some? && effects[k].pending.value.body.token == t
      {
        if t !in PendingBody(effects[0]) {
          var j :| 0 <= j < |rest| && rest[j].pending.Some? && rest[j].pending.value.body.token == t;
          assert effects[j + 1] == rest[j];
        }
      }
    }
  }

  /** Every pending effect of `id`'s bucket from slot `i` on can find its owner's bucket. */
  predicate OwnersPresent(rt: Runtime, id: Id, i: nat)
    requires id in rt.buckets
  {
    forall k :: i <= k < |rt.buckets[id].effects| && rt.buckets[id].effects[k].pending.Some? ==>
      rt.buckets[id].effects[k].pending.value.owner in rt.buckets
  }

  /** `*effect = None`: drops the closure of effect slot `i`, keeping its guard. */
  function ClearPending(rt: Runtime, id: Id, i: nat): (r: Runtime)
    requires id in rt.buckets && i < |rt.buckets[id].effects|
    ensures r == rt.(buckets := r.buckets)
    ensures r.buckets.Keys == rt.buckets.Keys
    ensures forall x :: x in rt.buckets && x != id ==> r.buckets[x] == rt.buckets[x]
    ensures var b := rt.buckets[id];
      r.buckets[id] == b.(effects := b.effects[i := EffectSlot(None, b.effects[i].lastGuard)])
  {
    var b := rt.buckets[id];
    rt.(buckets := rt.buckets[id := b.(effects := b.effects[i := b.effects[i].(pending := None)])])
  }

  /** Clearing a slot twice is clearing it once, and a cleared slot contributes no pending body. */
  lemma ClearPendingIdempotent(rt: Runtime, id: Id, i: nat)
    requires id in rt.buckets && i < |rt.buckets[id].effects|
    ensures ClearPending(ClearPending(rt, id, i), id, i) == ClearPending(rt, id, i)
    ensures PendingBody(ClearPending(rt, id, i).buckets[id].effects[i]) == []
  {
    var r1 := ClearPending(rt, id, i);
    var b1 := r1.buckets[id];
    assert b1.effects[i := EffectSlot(None, b1.effects[i].lastGuard)] == b1.effects;
    assert r1.buckets[id := b1] == r1.buckets;
  }

  /** Running a pending effect adds exactly its body to the bodies the log records. */
  lemma RunEffectBodies(rt: Runtime, p: PendingEffect)
    requires p.owner in rt.buckets
    ensures Bodies(RunEffect(rt, p).log) == Bodies(rt.log) + [p.body.token]
  {
    var cs := rt.buckets[p.owner].cleanups;
    if p.index < |cs| && cs[p.index].Some? {
      BodiesAppend(rt.log, [CleanupRan(cs[p.index].value), EffectRan(p.body.token)]);
      assert [CleanupRan(cs[p.index].value), EffectRan(p.body.token)][1..] == [EffectRan(p.body.token)];
      assert Bodies([EffectRan(p.body.token)]) == [p.body.token];
    } else {
      BodiesAppend(rt.log, [EffectRan(p.body.token)]);
    }
  }

  /** One iteration of the loop of `run_effects_of`: runs the closure pending in slot `i`,
      if any, then clears it and keeps its guard. */
  function RunEffectSlot(rt: Runtime, id: Id, i: nat): (r: Runtime)
    requires id in rt.buckets && i < |rt.buckets[id].effects|
    requires rt.buckets[id].effects[i].pending.Some? ==> rt.buckets[id].effects[i].pending.value.owner in rt.buckets
    ensures r == rt.(buckets := r.buckets, log := r.log)
    ensures r.buckets.Keys == rt.buckets.Keys
    ensures forall x :: x in rt.buckets && x != id ==> SameBesideCleanups(rt.buckets[x], r.buckets[x])
    ensures var b := rt.buckets[id];
      r.buckets[id] == b.(effects := b.effects[i := EffectSlot(None, b.effects[i].lastGuard)],
                          cleanups := r.buckets[id].cleanups)
    ensures Extends(r.log, rt.log)
    ensures Bodies(r.log) == Bodies(rt.log) + PendingBody(rt.buckets[id].effects[i])
    ensures OwnersPresent(rt, id, i + 1) ==> OwnersPresent(r, id, i + 1)
  {
    match rt.buckets[id].effects[i].pending
    case None =>
      ClearPending(rt, id, i)
    case Some(p) =>
      RunEffectBodies(rt, p);
      ClearPending(RunEffect(rt, p), id, i)
  }

  /** The calls one iteration makes and the cleanups it touches: none for an empty slot;
      otherwise the closure's owner's cleanup vector and the log change as `EffectStep`
      says, and no other bucket's cleanups change. */
  lemma RunEffectSlotEvents(rt: Runtime, id: Id, i: nat)
    requires id in rt.buckets && i < |rt.buckets[id].effects|
    requires rt.buckets[id].effects[i].pending.Some? ==> rt.buckets[id].effects[i].pending.value.owner in rt.buckets
    ensures var r := RunEffectSlot(rt, id, i); rt.buckets[id].effects[i].pending.None? ==>
      r.log == rt.log && forall x :: x in rt.buckets ==> r.buckets[x].cleanups == rt.buckets[x].cleanups
    ensures var r, p := RunEffectSlot(rt, id, i), rt.buckets[id].effects[i].pending; p.Some? ==>
      && (r.buckets[p.value.owner].cleanups, r.log)
           == EffectStep(p.value.index, p.value.body, rt.buckets[p.value.owner].cleanups, rt.log)
      && forall x :: x in rt.buckets && x != p.value.owner ==> r.buckets[x].cleanups == rt.buckets[x].cleanups
  {
  }

  /** The loop of `run_effects_of` from slot `i` on: every pending effect runs, in slot
      order, and its closure is cleared while its guard is kept. */
  function RunEffectsFrom(rt: Runtime, id: Id, i: nat): (r: Runtime)
    requires id in rt.buckets && i <= |rt.buckets[id].effects|
    requires OwnersPresent(rt, id, i)
    ensures r == rt.(buckets := r.buckets, log := r.log)
    ensures r.buckets.Keys == rt.buckets.Keys
    ensures forall x :: x in rt.buckets && x != id ==> SameBesideCleanups(rt.buckets[x], r.buckets[x])
    ensures var b, b' := rt.buckets[id], r.buckets[id];
      && SameBesideCleanups(b.(effects := b'.effects), b')
      && |b'.effects| == |b.effects|
      && (forall k :: 0 <= k < i ==> b'.effects[k] == b.effects[k])
      && (forall k :: i <= k < |b.effects| ==> b'.effects[k] == EffectSlot(None, b.effects[k].lastGuard))
    ensures Extends(r.log, rt.log)
    decreases |rt.buckets[id].effects| - i
  {
    if i == |rt.buckets[id].effects| then
      rt
    else
      var rt1 := RunEffectSlot(rt, id, i);
      var r := RunEffectsFrom(rt1, id, i + 1);
      ExtendsTrans(rt.log, rt1.log, r.log);
      r
  }

  /** One unrolling of the loop of `run_effects_of`: if the rest of the loop runs the pending
      bodies of slots `i + 1..`, the loop from `i` runs those of slots `i..`. */
  lemma RunEffectsFromStep(rt: Runtime, id: Id, i: nat)
    requires id in rt.buckets && i < |rt.buckets[id].effects|
    requires OwnersPresent(rt, id, i)
    requires var rt1 := RunEffectSlot(rt, id, i);
      Bodies(RunEffectsFrom(rt1, id, i + 1).log) == Bodies(rt1.log) + PendingBodies(rt1.buckets[id].effects[i + 1..])
    ensures Bodies(RunEffectsFrom(rt, id, i).log) == Bodies(rt.log) + PendingBodies(rt.buckets[id].effects[i..])
  {
    var effects := rt.buckets[id].effects;
    var rt1 := RunEffectSlot(rt, id, i);
    assert effects[i..][1..] == effects[i + 1..];
    assert rt1.buckets[id].effects[i + 1..] == effects[i + 1..];
    BodiesChain(rt.log, rt1.log, RunEffectsFrom(rt1, id, i + 1).log,
                PendingBody(effects[i]), PendingBodies(effects[i + 1..]));
  }

  /** The loop runs the pending bodies of slots `i..` in slot order. */
  lemma {:induction false} RunEffectsFromBodies(rt: Runtime, id: Id, i: nat)
    requires id in rt.buckets && i <= |rt.buckets[id].effects|
    requires OwnersPresent(rt, id, i)
    ensures Bodies(RunEffectsFrom(rt, id, i).log) == Bodies(rt.log) + PendingBodies(rt.buckets[id].effects[i..])
    decreases |rt.buckets[id].effects| - i
  {
    if i == |rt.buckets[id].effects| {
      assert rt.buckets[id].effects[i..] == [];
    } else {
      RunEffectsFromBodies(RunEffectSlot(rt, id, i), id, i + 1);
      RunEffectsFromStep(rt, id, i);
    }
  }

  /** Every closure pending in `id`'s bucket belongs to `id` and to the slot it sits in, as
      `use_effect` builds it for the component that is rendering. */
  predicate OwnPending(rt: Runtime, id: Id)
    requires id in rt.buckets
  {
    forall k :: 0 <= k < |rt.buckets[id].effects| && rt.buckets[id].effects[k].pending.Some? ==>
      rt.buckets[id].effects[k].pending.value.owner == id && rt.buckets[id].effects[k].pending.value.index == k
  }

  /** Reference for `run_effects_of` on a bucket whose closures are its own: the cleanup
      vector and the log once the closures pending in `effects` have run in order, each on
      the cleanup slot of its own index, the first of them sitting in slot `k`. */
  function EffectTrace(effects: seq<EffectSlot>, k: nat, cs: seq<Option<nat>>, log: seq<Event>): (seq<Option<nat>>, seq<Event>)
    decreases |effects|
  {
    if |effects| == 0 then (cs, log)
    else
      var step := if effects[0].pending.Some? then EffectStep(k, effects[0].pending.value.body, cs, log) else (cs, log);
      EffectTrace(effects[1..], k + 1, step.0, step.1)
  }

  /** The loop of `run_effects_of` from slot `i` follows the reference, and touches no other
      bucket, when the closures are the bucket's own. */
  lemma {:induction false} RunEffectsFromTrace(rt: Runtime, id: Id, i: nat)
    requires id in rt.buckets && i <= |rt.buckets[id].effects|
    requires OwnPending(rt, id)
    ensures OwnersPresent(rt, id, i)
    ensures var r := RunEffectsFrom(rt, id, i);
      && (r.buckets[id].cleanups, r.log) == EffectTrace(rt.buckets[id].effects[i..], i, rt.buckets[id].cleanups, rt.log)
      && forall x :: x in rt.buckets && x != id ==> r.buckets[x] == rt.buckets[x]
    decreases |rt.buckets[id].effects| - i
  {
    var effects := rt.buckets[id].effects;
    if i == |effects| {
      assert effects[i..] == [];
    } else {
      var rt1 := RunEffectSlot(rt, id, i);
      RunEffectSlotEvents(rt, id, i);
      assert rt1.buckets[id].effects[i + 1..] == effects[i + 1..];
      assert effects[i..][1..] == effects[i + 1..];
      RunEffectsFromTrace(rt1, id, i + 1);
    }
  }

  /** On mount the cleanup vector ends exactly at the first slot that runs: when every slot
      from `k` on is pending, each body runs in slot order and its cleanup is appended at
      its own index. */
  lemma {:induction false} MountTrace(effects: seq<EffectSlot>, k: nat, cs: seq<Option<nat>>, log: seq<Event>)
    requires |cs| == k
    requires forall j :: 0 <= j < |effects| ==> effects[j].pending.Some?
    ensures var t := EffectTrace(effects, k, cs, log);
      && |t.0| == k + |effects| && t.0[..k] == cs
      && (forall j :: 0 <= j < |effects| ==> t.0[k + j] == Some(effects[j].pending.value.body.cleanup))
      && |t.1| == |log| + |effects| && t.1[..|log|] == log
      && (forall j :: 0 <= j < |effects| ==> t.1[|log| + j] == EffectRan(effects[j].pending.value.body.token))
    decreases |effects|
  {
    if |effects| > 0 {
      var body := effects[0].pending.value.body;
      var cs1, log1 := cs + [Some(body.cleanup)], log + [EffectRan(body.token)];
      assert EffectStep(k, body, cs, log) == (cs1, log1);
      MountTrace(effects[1..], k + 1, cs1, log1);
      var t := EffectTrace(effects, k, cs, log);
      assert t == EffectTrace(effects[1..], k + 1, cs1, log1);
      assert t.0[..k] == t.0[..k + 1][..k];
      assert t.1[..|log|] == t.1[..|log1|][..|log|];
      forall j | 0 <= j < |effects|
        ensures t.0[k + j] == Some(effects[j].pending.value.body.cleanup)
        ensures t.1[|log| + j] == EffectRan(effects[j].pending.value.body.token)
      {
        if j == 0 {
          assert t.0[k] == t.0[..k + 1][k];
          assert t.1[|log|] == t.1[..|log1|][|log|];
        } else {
          assert effects[1..][j - 1] == effects[j];
          assert t.0[k + j] == t.0[(k + 1) + (j - 1)];
          assert t.1[|log| + j] == t.1[|log1| + (j - 1)];
        }
      }
    }
  }

  /** The calls a re-render makes for one effect slot: when a closure is pending, the cleanup
      the slot holds, if any, and then the new body. */
  function RerunSlot(slot: EffectSlot, stored: Option<nat>): seq<Event> {
    if slot.pending.None? then []
    else if stored.Some? then [CleanupRan(stored.value), EffectRan(slot.pending.value.body.token)]
    else [EffectRan(slot.pending.value.body.token)]
  }

  /** Reference for a re-render: the calls of every slot, in slot order. */
  function RerunEvents(effects: seq<EffectSlot>, olds: seq<Option<nat>>): seq<Event>
    requires |olds| == |effects|
    decreases |effects|
  {
    if |effects| == 0 then [] else RerunSlot(effects[0], olds[0]) + RerunEvents(effects[1..], olds[1..])
  }

  /** One slot of a re-render, whose cleanup slot exists: the log gains its calls, and only a
      pending slot's cleanup is cleared. */
  lemma RerunStep(slot: EffectSlot, k: nat, cs: seq<Option<nat>>, log: seq<Event>)
    requires k < |cs|
    ensures var step := if slot.pending.Some? then EffectStep(k, slot.pending.value.body, cs, log) else (cs, log);
      && step.1 == log + RerunSlot(slot, cs[k])
      && step.0 == (if slot.pending.Some? then cs[k := None] else cs)
  {
  }

  /** The first step of the reference trace of a re-render. */
  lemma RerunTraceUnfold(effects: seq<EffectSlot>, k: nat, cs: seq<Option<nat>>, log: seq<Event>)
    requires 0 < |effects| && k < |cs|
    ensures EffectTrace(effects, k, cs, log)
         == EffectTrace(effects[1..], k + 1, if effects[0].pending.Some? then cs[k := None] else cs,
                        log + RerunSlot(effects[0], cs[k]))
  {
    RerunStep(effects[0], k, cs, log);
  }

  /** The first slot of the reference calls of a re-render, read from the cleanup vector. */
  lemma RerunEventsUnfold(effects: seq<EffectSlot>, cs: seq<Option<nat>>, k: nat)
    requires 0 < |effects| && k + |effects| <= |cs|
    ensures RerunEvents(effects, cs[k..k + |effects|])
         == RerunSlot(effects[0], cs[k]) + RerunEvents(effects[1..], cs[k..k + |effects|][1..])
  {
  }

  /** Associativity of `+` on logs, stated apart so that the step of `RerunTraceLog` gets it
      as one fact instead of searching for it. */
  lemma AppendAssoc(a: seq<Event>, b: seq<Event>, c: seq<Event>)
    ensures (a + b) + c == a + (b + c)
  {
  }

  /** Clearing entry `k` leaves the entries after it as they were. */
  lemma ClearedTail(cs: seq<Option<nat>>, k: nat, n: nat, clear: bool)
    requires 0 < n && k + n <= |cs|
    ensures (if clear then cs[k := None] else cs)[k + 1..k + n] == cs[k..k + n][1..]
  {
  }

  /** On a re-render the cleanup vector already reaches every slot, so each pending slot calls
      its stored cleanup and then its new body. */
  lemma {:induction false} RerunTraceLog(effects: seq<EffectSlot>, k: nat, cs: seq<Option<nat>>, log: seq<Event>)
    requires k + |effects| <= |cs|
    ensures EffectTrace(effects, k, cs, log).1 == log + RerunEvents(effects, cs[k..k + |effects|])
    decreases |effects|
  {
    if |effects| == 0 {
      assert cs[k..k] == [];
    } else {
      var here := RerunSlot(effects[0], cs[k]);
      var cs1 := if effects[0].pending.Some? then cs[k := None] else cs;
      RerunTraceUnfold(effects, k, cs, log);
      ClearedTail(cs, k, |effects|, effects[0].pending.Some?);
      RerunTraceLog(effects[1..], k + 1, cs1, log + here);
      RerunEventsUnfold(effects, cs, k);
      AppendAssoc(log, here, RerunEvents(effects[1..], cs[k..k + |effects|][1..]));
    }
  }

  /** On a re-render the cleanup of each pending slot is cleared, and no cleanup is stored. */
  lemma {:induction false} RerunTraceCleanups(effects: seq<EffectSlot>, k: nat, cs: seq<Option<nat>>, log: seq<Event>)
    requires k + |effects| <= |cs|
    ensures var cs' := EffectTrace(effects, k, cs, log).0;
      && |cs'| == |cs|
      && (forall j :: 0 <= j < |cs| && !(k <= j < k + |effects| && effects[j - k].pending.Some?) ==> cs'[j] == cs[j])
      && (forall j :: k <= j < k + |effects| && effects[j - k].pending.Some? ==> cs'[j] == None)
    decreases |effects|
  {
    if |effects| > 0 {
      var step := if effects[0].pending.Some? then EffectStep(k, effects[0].pending.value.body, cs, log) else (cs, log);
      RerunStep(effects[0], k, cs, log);
      RerunTraceCleanups(effects[1..], k + 1, step.0, step.1);
      var cs' := EffectTrace(effects, k, cs, log).0;
      assert cs' == EffectTrace(effects[1..], k + 1, step.0, step.1).0;
      forall j | 0 <= j < |cs|
        ensures !(k <= j < k + |effects| && effects[j - k].pending.Some?) ==> cs'[j] == cs[j]
        ensures k <= j < k + |effects| && effects[j - k].pending.Some? ==> cs'[j] == None
      {
        if k + 1 <= j < k + |effects| {
          assert effects[j - k] == effects[1..][j - (k + 1)];
        }
      }
    }
  }

  /** `first` is called right before `second`, somewhere after the first `from` entries of `log`. */
  predicate CalledRightBefore(log: seq<Event>, from: nat, first: Event, second: Event) {
    exists m :: from <= m && m + 1 < |log| && log[m] == first && log[m + 1] == second
  }

  /** Calls found in `log` are found at the same place after anything is put in front of it. */
  lemma CalledRightBeforeShift(prefix: seq<Event>, log: seq<Event>, from: nat, first: Event, second: Event)
    requires CalledRightBefore(log, from, first, second)
    ensures CalledRightBefore(prefix + log, |prefix| + from, first, second)
  {
    var m :| from <= m && m + 1 < |log| && log[m] == first && log[m + 1] == second;
    assert (prefix + log)[|prefix| + m] == first && (prefix + log)[|prefix| + m + 1] == second;
  }

  /** Within a re-render's events, a slot's stored cleanup is called right before its new body. */
  lemma {:induction false} CleanupBeforeBody(effects: seq<EffectSlot>, olds: seq<Option<nat>>, j: nat)
    requires |olds| == |effects| && j < |effects|
    requires effects[j].pending.Some? && olds[j].Some?
    ensures CalledRightBefore(RerunEvents(effects, olds), 0, CleanupRan(olds[j].value), EffectRan(effects[j].pending.value.body.token))
    decreases |effects|
  {
    var ev := RerunEvents(effects, olds);
    if j == 0 {
      assert ev[0] == CleanupRan(olds[0].value);
      assert ev[1] == EffectRan(effects[0].pending.value.body.token);
    } else {
      CleanupBeforeBody(effects[1..], olds[1..], j - 1);
      var here := RerunSlot(effects[0], olds[0]);
      CalledRightBeforeShift(here, RerunEvents(effects[1..], olds[1..]), 0,
        CleanupRan(olds[j].value), EffectRan(effects[j].pending.value.body.token));
    }
  }

  /** Running effects changes only effect closures, cleanups and the log, so it keeps `Valid`. */
  lemma EffectsKeepValid(rt: Runtime, r: Runtime)
    requires r == rt.(buckets := r.buckets, log := r.log)
    requires r.buckets.Keys == rt.buckets.Keys
    requires forall x :: x in rt.buckets ==>
      && SameBesideCleanups(rt.buckets[x].(effects := r.buckets[x].effects), r.buckets[x])
      && |r.buckets[x].effects| == |rt.buckets[x].effects|
    ensures Valid(rt) ==> Valid(r)
  {
    if Valid(rt) {
      forall x | x in r.buckets
        ensures CursorsInRange(r.buckets[x]) && CellsAllocated(r.buckets[x], r.heap)
      {
        assert r.buckets[x].stateSlots == rt.buckets[x].stateSlots;
      }
    }
  }

  /** With nothing pending there is no body to run. */
  lemma {:induction false} NoPendingBodies(effects: seq<EffectSlot>)
    requires forall k :: 0 <= k < |effects| ==> effects[k].pending.None?
    ensures PendingBodies(effects) == []
    decreases |effects|
  {
    if |effects| > 0 {
      NoPendingBodies(effects[1..]);
    }
  }

  /** A single effect slot runs its body exactly when something is pending. */
  lemma PendingBodiesOfOne(effects: seq<EffectSlot>, p: PendingEffect, g: Option<Value>, pending: bool)
    requires effects == [EffectSlot(if pending then Some(p) else None, g)]
    ensures PendingBodies(effects) == if pending then [p.body.token] else []
  {
    assert effects[1..] == [];
  }

  /** Runs every pending effect of `id`'s bucket in slot order and clears it. */
  function RunEffectsOf(rt: Runtime, id: Id): (r: Runtime)
    requires id in rt.buckets
    requires OwnersPresent(rt, id, 0)
    ensures r == rt.(buckets := r.buckets, log := r.log)
    ensures r.buckets.Keys == rt.buckets.Keys
    ensures forall x :: x in rt.buckets ==> SameBesideCleanups(rt.buckets[x].(effects := r.buckets[x].effects), r.buckets[x])
    ensures forall x :: x in rt.buckets && x != id ==> r.buckets[x].effects == rt.buckets[x].effects
    ensures var b, b' := rt.buckets[id], r.buckets[id];
      && |b'.effects| == |b.effects|
      && (forall k :: 0 <= k < |b.effects| ==> b'.effects[k] == EffectSlot(None, b.effects[k].lastGuard))
    ensures Extends(r.log, rt.log)
    ensures Bodies(r.log) == Bodies(rt.log) + PendingBodies(rt.buckets[id].effects)
    ensures OwnPending(rt, id) ==>
      && (r.buckets[id].cleanups, r.log) == EffectTrace(rt.buckets[id].effects, 0, rt.buckets[id].cleanups, rt.log)
      && forall x :: x in rt.buckets && x != id ==> r.buckets[x] == rt.buckets[x]
    ensures Valid(rt) ==> Valid(r)
  {
    assert rt.buckets[id].effects[0..] == rt.buckets[id].effects;
    RunEffectsFromBodies(rt, id, 0);
    var r := RunEffectsFrom(rt, id, 0);
    EffectsKeepValid(rt, r);
    if OwnPending(rt, id) then
      RunEffectsFromTrace(rt, id, 0);
      r
    else
      r
  }

  /** The cleanups a cleanup vector holds, as the calls they produce, in slot order. */
  function CalledCleanups(cleanups: seq<Option<nat>>): (r: seq<Event>)
    ensures |r| <= |cleanups|
  {
    if |cleanups| == 0 then []
    else (if cleanups[0].Some? then [CleanupRan(cleanups[0].value)] else []) + CalledCleanups(cleanups[1..])
  }

  /** A stored cleanup is called at unmount exactly when the vector holds it. */
  lemma {:induction false} CalledCleanupsMembers(cleanups: seq<Option<nat>>, c: nat)
    ensures CleanupRan(c) in CalledCleanups(cleanups) <==> Some(c) in cleanups
    ensures forall e :: e in CalledCleanups(cleanups) ==> e.CleanupRan?
    decreases |cleanups|
  {
    if |cleanups| > 0 {
      CalledCleanupsMembers(cleanups[1..], c);
      assert cleanups == [cleanups[0]] + cleanups[1..];
    }
  }

  /** When every slot holds a cleanup, the k-th call is the cleanup of slot k. */
  lemma {:induction false} CleanupsRunInSlotOrder(cleanups: seq<Option<nat>>)
    requires forall k :: 0 <= k < |cleanups| ==> cleanups[k].Some?
    ensures |CalledCleanups(cleanups)| == |cleanups|
    ensures forall k :: 0 <= k < |cleanups| ==> CalledCleanups(cleanups)[k] == CleanupRan(cleanups[k].value)
    decreases |cleanups|
  {
    if |cleanups| > 0 {
      CleanupsRunInSlotOrder(cleanups[1..]);
      var r := CalledCleanups(cleanups);
      assert r == [CleanupRan(cleanups[0].value)] + CalledCleanups(cleanups[1..]);
      forall k | 0 <= k < |cleanups|
        ensures r[k] == CleanupRan(cleanups[k].value)
      {
        if k > 0 {
          assert r[k] == CalledCleanups(cleanups[1..])[k - 1];
        }
      }
    }
  }

  /** The `for cleanup in &bucket.cleanups` loop of `reset`, from slot `i` on. */
  function RunCleanups(log: seq<Event>, cleanups: seq<Option<nat>>, i: nat): (r: seq<Event>)
    requires i <= |cleanups|
    ensures r == log + CalledCleanups(cleanups[i..])
    decreases |cleanups| - i
  {
    if i == |cleanups| then
      assert cleanups[i..] == [];
      log
    else
      var call := if cleanups[i].Some? then [CleanupRan(cleanups[i].value)] else [];
      assert cleanups[i..] == [cleanups[i]] + cleanups[i + 1..];
      assert (log + call) + CalledCleanups(cleanups[i + 1..]) == log + (call + CalledCleanups(cleanups[i + 1..]));
      RunCleanups(log + call, cleanups, i + 1)
  }

  // ---------------------------------------------------------------------
  // The render lifecycle
  // ---------------------------------------------------------------------

  /** Unmount: runs every stored cleanup in slot order, then drops the bucket.
      An unknown id gets an empty bucket that is dropped straight away. */
  function Reset(rt: Runtime, id: Id): (r: Runtime)
    ensures r == rt.(buckets := r.buckets, log := r.log)
    ensures r.buckets.Keys == rt.buckets.Keys - {id}
    ensures forall x :: x in r.buckets ==> r.buckets[x] == rt.buckets[x]
    ensures r.log == rt.log + CalledCleanups(if id in rt.buckets then rt.buckets[id].cleanups else [])
    ensures Valid(rt) ==> Valid(r)
  {
    var rt1 := GetCurrentBucket(Push(rt, id)).value;
    var cleanups := rt1.buckets[id].cleanups;
    assert cleanups[0..] == cleanups;
    var rt2 := rt1.(log := RunCleanups(rt1.log, cleanups, 0));
    var r := Pop(ResetBucket(rt2, id));
    assert r.stack == rt.stack;
    r
  }

  /** Begin a render: push the id, make sure it has a bucket, zero its cursors. */
  function BeforeRun(rt: Runtime, id: Id): (r: Runtime)
    ensures r.stack == rt.stack + [id]
    ensures r.buckets.Keys == rt.buckets.Keys + {id}
    ensures forall x :: x in rt.buckets && x != id ==> r.buckets[x] == rt.buckets[x]
    ensures var b, b' := (if id in rt.buckets then rt.buckets[id] else EmptyBucket), r.buckets[id];
      b' == b.(nextStateSlotIdx := 0, nextEffectIdx := 0, nextMemoizationIdx := 0)
    ensures r == rt.(buckets := r.buckets, stack := r.stack)
    ensures Valid(rt) ==> Valid(r)
  {
    var rt1 := Push(rt, id);
    var rt2 := GetCurrentBucket(rt1).value;
    ResetBucketIdx(rt2, id)
  }

  /** End a render: run the id's pending effects, then pop the top of the stack,
      whatever id it holds. */
  function AfterRun(rt: Runtime, id: Id): (r: Runtime)
    requires id in rt.buckets
    requires OwnersPresent(rt, id, 0)
    ensures |rt.stack| > 0 ==> r.stack + [rt.stack[|rt.stack| - 1]] == rt.stack
    ensures |rt.stack| == 0 ==> r.stack == []
    ensures r.buckets.Keys == rt.buckets.Keys
    ensures forall x :: x in rt.buckets ==> SameBesideCleanups(rt.buckets[x].(effects := r.buckets[x].effects), r.buckets[x])
    ensures forall x :: x in rt.buckets && x != id ==> r.buckets[x].effects == rt.buckets[x].effects
    ensures var b, b' := rt.buckets[id], r.buckets[id];
      && |b'.effects| == |b.effects|
      && (forall k :: 0 <= k < |b.effects| ==> b'.effects[k] == EffectSlot(None, b.effects[k].lastGuard))
    ensures Extends(r.log, rt.log)
    ensures Bodies(r.log) == Bodies(rt.log) + PendingBodies(rt.buckets[id].effects)
    ensures OwnPending(rt, id) ==>
      && (r.buckets[id].cleanups, r.log) == EffectTrace(rt.buckets[id].effects, 0, rt.buckets[id].cleanups, rt.log)
      && forall x :: x in rt.buckets && x != id ==> r.buckets[x] == rt.buckets[x]
    ensures r == rt.(buckets := r.buckets, stack := r.stack, log := r.log)
    ensures Valid(rt) ==> Valid(r)
  {
    Pop(RunEffectsOf(rt, id))
  }

  /** What the mount render does to a bucket whose effect slots are all pending and whose
      cleanup vector is empty: the log gains every body in slot order, and the cleanup vector
      holds each body's cleanup at the body's own index. */
  predicate MountOutcome(effects: seq<EffectSlot>, log: seq<Event>, cs': seq<Option<nat>>, log': seq<Event>)
    requires forall k :: 0 <= k < |effects| ==> effects[k].pending.Some?
  {
    && |log'| == |log| + |effects| && log'[..|log|] == log
    && (forall k :: 0 <= k < |effects| ==> log'[|log| + k] == EffectRan(effects[k].pending.value.body.token))
    && |cs'| == |effects|
    && (forall k :: 0 <= k < |effects| ==> cs'[k] == Some(effects[k].pending.value.body.cleanup))
  }

  /** The calls an unmount makes, `calls`, are the cleanups of `effects`' bodies, in slot order. */
  predicate CleanupsInSlotOrder(effects: seq<EffectSlot>, calls: seq<Event>)
    requires forall k :: 0 <= k < |effects| ==> effects[k].pending.Some?
  {
    && |calls| == |effects|
    && (forall k :: 0 <= k < |effects| ==> calls[k] == CleanupRan(effects[k].pending.value.body.cleanup))
  }

  /** The reference trace of a mount has the outcome `MountOutcome` states, and the cleanup
      vector it leaves calls the bodies' cleanups in slot order. */
  lemma MountTraceOutcome(effects: seq<EffectSlot>, log: seq<Event>)
    requires forall k :: 0 <= k < |effects| ==> effects[k].pending.Some?
    ensures var t := EffectTrace(effects, 0, [], log);
      && MountOutcome(effects, log, t.0, t.1)
      && CleanupsInSlotOrder(effects, CalledCleanups(t.0))
  {
    MountTrace(effects, 0, [], log);
    var t := EffectTrace(effects, 0, [], log);
    forall k | 0 <= k < |effects|
      ensures t.0[k] == Some(effects[k].pending.value.body.cleanup)
      ensures t.1[|log| + k] == EffectRan(effects[k].pending.value.body.token)
    {
      assert t.0[k] == t.0[0 + k];
    }
    CleanupsRunInSlotOrder(t.0);
  }

  /** The mount render of a component whose effects all run: `after_run` runs the bodies in
      slot order and stores their cleanups at their own indices, and unmounting the component
      then calls those cleanups in slot order. */
  lemma MountThenUnmount(rt: Runtime, id: Id)
    requires id in rt.buckets && OwnPending(rt, id)
    requires rt.buckets[id].cleanups == []
    requires forall k :: 0 <= k < |rt.buckets[id].effects| ==> rt.buckets[id].effects[k].pending.Some?
    ensures OwnersPresent(rt, id, 0)
    ensures var effects, r := rt.buckets[id].effects, AfterRun(rt, id);
      && MountOutcome(effects, rt.log, r.buckets[id].cleanups, r.log)
      && CleanupsInSlotOrder(effects, Reset(r, id).log[|r.log|..])
  {
    var effects := rt.buckets[id].effects;
    MountTraceOutcome(effects, rt.log);
    var r := AfterRun(rt, id);
    assert Reset(r, id).log[|r.log|..] == CalledCleanups(r.buckets[id].cleanups);
  }

  /** What a re-render does to a bucket's cleanup vector `cs` and to the log, when the vector
      already reaches every effect slot: the log gains the calls of every slot in slot order,
      the pending slots' cleanups are cleared, and nothing else changes. */
  predicate RerunOutcome(effects: seq<EffectSlot>, cs: seq<Option<nat>>, log: seq<Event>, cs': seq<Option<nat>>, log': seq<Event>)
    requires |effects| <= |cs|
  {
    && log' == log + RerunEvents(effects, cs[..|effects|])
    && |cs'| == |cs|
    && (forall j :: 0 <= j < |cs| ==> cs'[j] == (if j < |effects| && effects[j].pending.Some? then None else cs[j]))
  }

  /** The reference trace of a re-render from slot 0 has the outcome `RerunOutcome` states. */
  lemma RerunTraceOutcome(effects: seq<EffectSlot>, cs: seq<Option<nat>>, log: seq<Event>)
    requires |effects| <= |cs|
    ensures var t := EffectTrace(effects, 0, cs, log); RerunOutcome(effects, cs, log, t.0, t.1)
  {
    RerunTraceLog(effects, 0, cs, log);
    RerunTraceCleanups(effects, 0, cs, log);
    assert cs[0..0 + |effects|] == cs[..|effects|];
  }

  /** A re-render, where the cleanup vector already reaches every effect slot: `after_run`
      calls, slot by slot, the stored cleanup of each pending slot and then its new body; the
      pending slots' cleanups are cleared, and no new cleanup is stored. */
  lemma RerenderEffects(rt: Runtime, id: Id)
    requires id in rt.buckets && OwnPending(rt, id)
    requires |rt.buckets[id].effects| <= |rt.buckets[id].cleanups|
    ensures OwnersPresent(rt, id, 0)
    ensures var b, r := rt.buckets[id], AfterRun(rt, id);
      RerunOutcome(b.effects, b.cleanups, rt.log, r.buckets[id].cleanups, r.log)
  {
    var b := rt.buckets[id];
    RerunTraceOutcome(b.effects, b.cleanups, rt.log);
  }

  /** In a re-render, the stored cleanup of a pending slot is called right before its new body. */
  lemma RerenderCleanupBeforeBody(rt: Runtime, id: Id, j: nat)
    requires id in rt.buckets && OwnPending(rt, id)
    requires j < |rt.buckets[id].effects| <= |rt.buckets[id].cleanups|
    requires rt.buckets[id].effects[j].pending.Some? && rt.buckets[id].cleanups[j].Some?
    ensures OwnersPresent(rt, id, 0)
    ensures var b := rt.buckets[id];
      CalledRightBefore(AfterRun(rt, id).log, |rt.log|, CleanupRan(b.cleanups[j].value), EffectRan(b.effects[j].pending.value.body.token))
  {
    var effects, cs := rt.buckets[id].effects, rt.buckets[id].cleanups;
    RerenderEffects(rt, id);
    CleanupBeforeBody(effects, cs[..|effects|], j);
    CalledRightBeforeShift(rt.log, RerunEvents(effects, cs[..|effects|]), 0,
      CleanupRan(cs[j].value), EffectRan(effects[j].pending.value.body.token));
  }
}
