/** The identity remap table: pending transplants of a bucket from an old id
    to a new one, applied together by `CommitMapState`. */
module Remap {
  import opened Values
  import opened HookState

  /** Records `newId -> oldId`, replacing an earlier entry for `newId`. */
  function MapState(rt: Runtime, oldId: Id, newId: Id): (r: Runtime)
    ensures r == rt.(stateMap := r.stateMap)
    ensures r.stateMap.Keys == rt.stateMap.Keys + {newId}
    ensures r.stateMap[newId] == oldId
    ensures forall n :: n in rt.stateMap && n != newId ==> r.stateMap[n] == rt.stateMap[n]
  {
    rt.(stateMap := rt.stateMap[newId := oldId])
  }

  /** Forgets every pending transplant. */
  function ClearMapState(rt: Runtime): (r: Runtime)
    ensures r.stateMap == map[]
    ensures r == rt.(stateMap := map[])
  {
    rt.(stateMap := map[])
  }

  /** Resolves an id through the table, one hop only. */
  function MapId(rt: Runtime, id: Id): (r: Id)
    ensures id in rt.stateMap ==> r == rt.stateMap[id]
    ensures id !in rt.stateMap ==> r == id
  {
    match GetMapped(rt.stateMap, id)
    case Some(oldId) => oldId
    case None => id
  }

  function GetMapped(m: map<Id, Id>, id: Id): Option<Id> {
    if id in m then Some(m[id]) else None
  }

  /** A later `map_state` with the same new id overwrites the earlier one. */
  lemma MapStateOverwrites(rt: Runtime, old1: Id, old2: Id, newId: Id)
    ensures MapState(MapState(rt, old1, newId), old2, newId) == MapState(rt, old2, newId)
    ensures MapId(MapState(MapState(rt, old1, newId), old2, newId), newId) == old2
  {
  }

  /** `map_id` does not follow chains: with `a -> b` and `b -> c` recorded, `a` resolves to `b`. */
  lemma MapIdOneHop(rt: Runtime, a: Id, b: Id, c: Id)
    requires a != b
    ensures var rt' := MapState(MapState(rt, c, b), b, a);
      MapId(rt', a) == b && MapId(rt', b) == c
  {
  }

  /** After `clear_map_state` every id resolves to itself. */
  lemma MapIdAfterClear(rt: Runtime, id: Id)
    ensures MapId(ClearMapState(rt), id) == id
  {
  }

  /** No two new ids share an old id. */
  predicate Injective(sm: map<Id, Id>) {
    forall n1, n2 :: n1 in sm && n2 in sm && n1 != n2 ==> sm[n1] != sm[n2]
  }

  /** The registry after all transplants of an injective table: buckets of ids the
      table mentions as old ids leave; each mapped old bucket reappears under its new id,
      overwriting whatever was there. */
  function Transplant(buckets: map<Id, Bucket>, sm: map<Id, Id>): (r: map<Id, Bucket>)
  {
    var kept := map k | k in buckets && k !in sm.Values :: buckets[k];
    var moved := map n | n in sm && sm[n] in buckets :: buckets[sm[n]];
    kept + moved
  }

  /** The old ids the entries of `ord` name. */
  function Named(sm: map<Id, Id>, ord: seq<Id>): set<Id>
    requires forall n :: n in ord ==> n in sm
  {
    set n | n in ord :: sm[n]
  }

  /** An order listing every new id names every old id of the table. */
  lemma NamedAll(sm: map<Id, Id>, order: seq<Id>)
    requires forall n :: n in order <==> n in sm
    ensures Named(sm, order) == sm.Values
  {
  }

  /** What the loop of `commit_map_state` leaves behind: `rest` is the registry with every
      visited old id removed, `moved` holds the transplanted buckets under their new ids. */
  predicate LoopOutcome(orig: map<Id, Bucket>, sm: map<Id, Id>, rest: map<Id, Bucket>, moved: map<Id, Bucket>)
  {
    && rest.Keys == orig.Keys - sm.Values
    && (forall k :: k in rest ==> rest[k] == orig[k])
    && (forall n :: n in moved ==> n in sm && sm[n] in orig && moved[n] == orig[sm[n]])
    && (forall o :: o in sm.Values && o in orig ==> exists n :: n in moved && sm[n] == o)
    && (Injective(sm) ==> forall n :: n in sm && sm[n] in orig ==> n in moved)
  }

  /** Ids the table does not mention keep their bucket through `rest + moved`. */
  lemma ExtendKeepsUntouched(orig: map<Id, Bucket>, sm: map<Id, Id>, rest: map<Id, Bucket>, moved: map<Id, Bucket>)
    requires LoopOutcome(orig, sm, rest, moved)
    ensures forall k :: k !in sm && k !in sm.Values ==>
      (k in rest + moved <==> k in orig) && (k in orig ==> (rest + moved)[k] == orig[k])
  {
  }

  /** An old id that is not also a new id is gone from `rest + moved`. */
  lemma ExtendDropsOld(orig: map<Id, Bucket>, sm: map<Id, Id>, rest: map<Id, Bucket>, moved: map<Id, Bucket>)
    requires LoopOutcome(orig, sm, rest, moved)
    ensures forall o :: o in sm.Values && o !in sm ==> o !in rest + moved
  {
  }

  /** Every present old bucket lands under some new id that maps to it. */
  lemma ExtendPlacesOld(orig: map<Id, Bucket>, sm: map<Id, Id>, rest: map<Id, Bucket>, moved: map<Id, Bucket>)
    requires LoopOutcome(orig, sm, rest, moved)
    ensures forall o :: o in sm.Values && o in orig ==>
      exists n :: n in sm && sm[n] == o && n in rest + moved && (rest + moved)[n] == orig[o]
  {
    var r := rest + moved;
    forall o | o in sm.Values && o in orig
      ensures exists n :: n in sm && sm[n] == o && n in r && r[n] == orig[o]
    {
      var n :| n in moved && sm[n] == o;
      assert r[n] == orig[o];
    }
  }

  /** Every bucket of `rest + moved` is an untouched old bucket or an arrived one. */
  lemma ExtendOrigins(orig: map<Id, Bucket>, sm: map<Id, Id>, rest: map<Id, Bucket>, moved: map<Id, Bucket>)
    requires LoopOutcome(orig, sm, rest, moved)
    ensures forall k :: k in rest + moved ==>
      || (k in orig && k !in sm.Values && (rest + moved)[k] == orig[k])
      || (k in sm && sm[k] in orig && (rest + moved)[k] == orig[sm[k]])
  {
  }

  /** With an injective table, `rest + moved` is `Transplant`. */
  lemma ExtendInjective(orig: map<Id, Bucket>, sm: map<Id, Id>, rest: map<Id, Bucket>, moved: map<Id, Bucket>)
    requires LoopOutcome(orig, sm, rest, moved)
    ensures Injective(sm) ==> rest + moved == Transplant(orig, sm)
  {
  }

  /** A registry whose buckets all come from a valid runtime keeps it valid. */
  lemma OldBucketsKeepValid(rt: Runtime, r: Runtime)
    requires Valid(rt)
    requires r == rt.(buckets := r.buckets)
    requires forall k :: k in r.buckets ==> exists o :: o in rt.buckets && r.buckets[k] == rt.buckets[o]
    ensures Valid(r)
  {
    forall k | k in r.buckets
      ensures CursorsInRange(r.buckets[k]) && CellsAllocated(r.buckets[k], r.heap)
    {
      var o :| o in rt.buckets && r.buckets[k] == rt.buckets[o];
    }
  }

  /** One iteration of the loop of `commit_map_state`: the bucket of `n`'s old id, if still
      in `rest`, moves to `moved` under `n`. */
  function DrainOne(sm: map<Id, Id>, n: Id, rest: map<Id, Bucket>, moved: map<Id, Bucket>): (map<Id, Bucket>, map<Id, Bucket>)
    requires n in sm
  {
    var o := sm[n];
    if o in rest then (rest - {o}, moved[n := rest[o]]) else (rest, moved)
  }

  /** The rest of the loop, entry by entry. */
  function Drain(sm: map<Id, Id>, ord: seq<Id>, rest: map<Id, Bucket>, moved: map<Id, Bucket>): (map<Id, Bucket>, map<Id, Bucket>)
    requires forall n :: n in ord ==> n in sm
    decreases |ord|
  {
    if |ord| == 0 then (rest, moved)
    else
      var next := DrainOne(sm, ord[0], rest, moved);
      Drain(sm, ord[1..], next.0, next.1)
  }

  /** `rest` loses exactly the old ids the entries name, and keeps the other buckets. */
  lemma {:induction false} DrainRest(sm: map<Id, Id>, ord: seq<Id>, rest: map<Id, Bucket>, moved: map<Id, Bucket>)
    requires forall n :: n in ord ==> n in sm
    ensures var r := Drain(sm, ord, rest, moved).0;
      && r.Keys == rest.Keys - Named(sm, ord)
      && forall k :: k in r ==> r[k] == rest[k]
    decreases |ord|
  {
    if |ord| > 0 {
      var next := DrainOne(sm, ord[0], rest, moved);
      DrainRest(sm, ord[1..], next.0, next.1);
      assert Named(sm, ord) == {sm[ord[0]]} + Named(sm, ord[1..]) by {
        assert forall n :: n in ord <==> n == ord[0] || n in ord[1..];
      }
    }
  }

  /** An entry of `moved` at the end was there at the start or is an entry that took the
      bucket of its old id from `rest`. */
  lemma {:induction false} DrainMoved(sm: map<Id, Id>, ord: seq<Id>, rest: map<Id, Bucket>, moved: map<Id, Bucket>)
    requires forall n :: n in ord ==> n in sm
    ensures var m := Drain(sm, ord, rest, moved).1;
      && moved.Keys <= m.Keys
      && forall n :: n in m ==>
           || (n in moved && m[n] == moved[n])
           || (n in ord && sm[n] in rest && m[n] == rest[sm[n]])
    decreases |ord|
  {
    if |ord| > 0 {
      var next := DrainOne(sm, ord[0], rest, moved);
      DrainMoved(sm, ord[1..], next.0, next.1);
    }
  }

  /** Every old id the entries name whose bucket is in `rest` is taken by some entry. */
  lemma {:induction false} DrainCovers(sm: map<Id, Id>, ord: seq<Id>, rest: map<Id, Bucket>, moved: map<Id, Bucket>)
    requires forall n :: n in ord ==> n in sm
    ensures var m := Drain(sm, ord, rest, moved).1;
      forall n :: n in ord && sm[n] in rest ==> exists t :: t in m && t in sm && sm[t] == sm[n]
    decreases |ord|
  {
    if |ord| > 0 {
      var n0 := ord[0];
      var next := DrainOne(sm, n0, rest, moved);
      DrainCovers(sm, ord[1..], next.0, next.1);
      DrainMoved(sm, ord[1..], next.0, next.1);
      var m := Drain(sm, ord, rest, moved).1;
      forall n | n in ord && sm[n] in rest
        ensures exists t :: t in m && t in sm && sm[t] == sm[n]
      {
        if sm[n] == sm[n0] {
          assert n0 in m && sm[n0] == sm[n];
        } else {
          assert n in ord[1..];
        }
      }
    }
  }

  /** With an injective table, every entry whose old bucket is in `rest` ends in `moved`. */
  lemma {:induction false} DrainInjective(sm: map<Id, Id>, ord: seq<Id>, rest: map<Id, Bucket>, moved: map<Id, Bucket>)
    requires forall n :: n in ord ==> n in sm
    requires Injective(sm)
    ensures var m := Drain(sm, ord, rest, moved).1;
      forall n :: n in ord && sm[n] in rest ==> n in m
    decreases |ord|
  {
    if |ord| > 0 {
      var n0 := ord[0];
      var next := DrainOne(sm, n0, rest, moved);
      DrainInjective(sm, ord[1..], next.0, next.1);
      DrainMoved(sm, ord[1..], next.0, next.1);
      forall n | n in ord[1..] && sm[n] in rest && n != n0
        ensures sm[n] in next.0
      {
      }
    }
  }

  /** The whole loop, started on the registry with nothing moved, leaves `LoopOutcome`. */
  lemma DrainOutcome(orig: map<Id, Bucket>, sm: map<Id, Id>, order: seq<Id>)
    requires forall n :: n in order <==> n in sm
    ensures var (rest, moved) := Drain(sm, order, orig, map[]);
      LoopOutcome(orig, sm, rest, moved)
  {
    NamedAll(sm, order);
    DrainRest(sm, order, orig, map[]);
    DrainMoved(sm, order, orig, map[]);
    DrainCovers(sm, order, orig, map[]);
    if Injective(sm) {
      DrainInjective(sm, order, orig, map[]);
    }
  }

  /** The loop of `commit_map_state`: for each new id in `order`, remove the bucket of its
      old id from the registry, if still there, and keep it aside under the new id. */
  method DrainMapped(orig: map<Id, Bucket>, sm: map<Id, Id>, order: seq<Id>) returns (rest: map<Id, Bucket>, moved: map<Id, Bucket>)
    requires forall n :: n in order <==> n in sm
    requires forall i, j :: 0 <= i < j < |order| ==> order[i] != order[j]
    ensures LoopOutcome(orig, sm, rest, moved)
  {
    rest := orig;
    moved := map[];
    var i := 0;
    while i < |order|
      invariant 0 <= i <= |order|
      invariant Drain(sm, order[i..], rest, moved) == Drain(sm, order, orig, map[])
    {
      var n := order[i];
      var o := sm[n];
      assert order[i..][1..] == order[i + 1..];
      if o in rest {
        moved := moved[n := rest[o]];
        rest := rest - {o};
      }
      i := i + 1;
    }
    assert order[i..] == [];
    DrainOutcome(orig, sm, order);
  }

  /** `commit_map_state`. The table is a hash map, so the order in which its entries are
      visited is a parameter: any order listing every new id once. When two new ids
      share an old id, the first visited takes the bucket; with an injective table the
      result is `Transplant` whatever the order. The table is not cleared. */
  method CommitMapState(rt: Runtime, order: seq<Id>) returns (r: Runtime)
    requires forall n :: n in order <==> n in rt.stateMap
    requires forall i, j :: 0 <= i < j < |order| ==> order[i] != order[j]
    ensures r == rt.(buckets := r.buckets)
    ensures forall k :: k !in rt.stateMap && k !in rt.stateMap.Values ==>
      (k in r.buckets <==> k in rt.buckets) && (k in rt.buckets ==> r.buckets[k] == rt.buckets[k])
    ensures forall o :: o in rt.stateMap.Values && o !in rt.stateMap ==> o !in r.buckets
    ensures forall o :: o in rt.stateMap.Values && o in rt.buckets ==>
      exists n :: n in rt.stateMap && rt.stateMap[n] == o && n in r.buckets && r.buckets[n] == rt.buckets[o]
    ensures forall k :: k in r.buckets ==>
      || (k in rt.buckets && k !in rt.stateMap.Values && r.buckets[k] == rt.buckets[k])
      || (k in rt.stateMap && rt.stateMap[k] in rt.buckets && r.buckets[k] == rt.buckets[rt.stateMap[k]])
    ensures Injective(rt.stateMap) ==> r.buckets == Transplant(rt.buckets, rt.stateMap)
    ensures Valid(rt) ==> Valid(r)
  {
    var rest, moved := DrainMapped(rt.buckets, rt.stateMap, order);
    ExtendKeepsUntouched(rt.buckets, rt.stateMap, rest, moved);
    ExtendDropsOld(rt.buckets, rt.stateMap, rest, moved);
    ExtendPlacesOld(rt.buckets, rt.stateMap, rest, moved);
    ExtendOrigins(rt.buckets, rt.stateMap, rest, moved);
    ExtendInjective(rt.buckets, rt.stateMap, rest, moved);
    r := rt.(buckets := rest + moved);
    if Valid(rt) {
      OldBucketsKeepValid(rt, r);
    }
  }

  /** Two `map_state` calls in opposite directions swap two buckets: removals happen
      before reinsertions, so neither bucket is lost. */
  lemma SwapKeepsBoth(buckets: map<Id, Bucket>, a: Id, b: Id)
    requires a != b && a in buckets && b in buckets
    ensures var sm := map[b := a, a := b];
      && Injective(sm)
      && Transplant(buckets, sm)[b] == buckets[a]
      && Transplant(buckets, sm)[a] == buckets[b]
      && Transplant(buckets, sm).Keys == buckets.Keys
  {
  }

  /** After `map_state(old, new)` and a commit of that one entry, the old bucket is
      reachable at `new` and `old` is gone. */
  lemma SingleRemap(rt: Runtime, oldId: Id, newId: Id)
    requires rt.stateMap == map[] && oldId != newId && oldId in rt.buckets
    ensures var sm := MapState(rt, oldId, newId).stateMap;
      && Injective(sm)
      && newId in Transplant(rt.buckets, sm) && Transplant(rt.buckets, sm)[newId] == rt.buckets[oldId]
      && oldId !in Transplant(rt.buckets, sm)
  {
  }
}
