/** Allocation of small ids: selectors, file descriptors (src/idmap.h). */
module IdMaps {
  import opened Words

  datatype Allocation<+T> = Allocated(id: nat, value: T) | NoFreeId | IdAlreadyTaken | Refused

  /** The ids of live slots, with what they hold. */
  function ModelOf<T>(data: seq<Option<T>>): (m: map<nat, T>)
    ensures forall i: nat :: i in m <==> i < |data| && data[i].Some?
    ensures forall i: nat :: i in m ==> m[i] == data[i].value
  {
    map i: nat | i < |data| && data[i].Some? :: data[i].value
  }

  /** The lowest id at or after `from` that is not a key, below max; None when all of those are taken. */
  function LowestFree(keys: set<nat>, from: nat, max: nat): (r: Option<nat>)
    ensures match r
      case None => forall i :: from <= i < max ==> i in keys
      case Some(id) => from <= id < max && id !in keys && forall i :: from <= i < id ==> i in keys
    decreases max - from
  {
    if from >= max then None else if from !in keys then Some(from) else LowestFree(keys, from + 1, max)
  }

  lemma LowestFreeIs(keys: set<nat>, from: nat, max: nat, id: nat)
    requires from <= id < max && id !in keys && forall i :: from <= i < id ==> i in keys
    ensures LowestFree(keys, from, max) == Some(id)
  {
  }

  class IdMap<T> {
    const max: nat
    var data: seq<Option<T>>

    constructor (max: nat)
      ensures Valid() && this.max == max && Model() == map[]
    {
      this.max, data := max, [];
    }

    predicate Valid()
      reads this
    {
      |data| <= max
    }

    function Model(): map<nat, T>
      reads this
    {
      ModelOf(data)
    }

    /** The lowest id at or after `from` that is used, or free, as asked; None is INVAL. */
    method Search(from: nat, used: bool) returns (r: Option<nat>)
      requires Valid()
      ensures !used ==> r == LowestFree(Model().Keys, from, max)
      ensures used ==> match r
        case None => forall i :: i in Model() ==> i < from
        case Some(id) => from <= id && id in Model() && forall i :: i in Model() && from <= i ==> id <= i
    {
      var i := from;
      while i < |data|
        invariant from <= i
        invariant used ==> forall j :: j in Model() && from <= j ==> i <= j
        invariant !used ==> forall j :: from <= j < i ==> j in Model()
      {
        if data[i].Some? == used {
          if !used {
            LowestFreeIs(Model().Keys, from, max, i);
          }
          return Some(i);
        }
        i := i + 1;
      }
      if !used && i < max {
        LowestFreeIs(Model().Keys, from, max, i);
        return Some(i);
      }
      return None;
    }

    /** operator[] */
    method Lookup(i: nat) returns (r: Option<T>)
      ensures r == if i in Model() then Some(Model()[i]) else None
    {
      if i >= |data| {
        return None;
      }
      return data[i];
    }

    method Emplace(i: nat, creator: nat -> T) returns (value: T)
      requires Valid() && i < max
      modifies this
      ensures Valid() && value == creator(i) && Model() == old(Model())[i := value]
    {
      while |data| < i + 1
        invariant Valid() && Model() == old(Model()) && |data| >= |old(data)| && (|data| <= i + 1 || data == old(data))
        decreases i + 1 - |data|
      {
        data := data + [None];
      }
      value := creator(i);
      data := data[i := Some(value)];
    }

    method AllocStartingAt(from: nat, creator: nat -> T) returns (r: Allocation<T>)
      requires Valid()
      modifies this
      ensures Valid()
      ensures from >= max ==> r == Refused
      ensures from < max ==> r == (match LowestFree(old(Model()).Keys, from, max)
        case None => NoFreeId
        case Some(id) => Allocated(id, creator(id)))
      ensures Model() == if r.Allocated? then old(Model())[r.id := r.value] else old(Model())
    {
      if from >= max {
        return Refused;
      }
      var i := Search(from, false);
      if i.None? {
        return NoFreeId;
      }
      var v := Emplace(i.value, creator);
      return Allocated(i.value, v);
    }

    method AllocAny(creator: nat -> T) returns (r: Allocation<T>)
      requires Valid()
      modifies this
      ensures Valid()
      ensures r == match LowestFree(old(Model()).Keys, 0, max) case None => NoFreeId case Some(id) => Allocated(id, creator(id))
      ensures Model() == if r.Allocated? then old(Model())[r.id := r.value] else old(Model())
    {
      var i := Search(0, false);
      if i.None? {
        return NoFreeId;
      }
      var v := Emplace(i.value, creator);
      return Allocated(i.value, v);
    }

    method AllocExactlyAt(i: nat, creator: nat -> T) returns (r: Allocation<T>)
      requires Valid()
      modifies this
      ensures Valid()
      ensures r == if i >= max then NoFreeId else if i in old(Model()) then IdAlreadyTaken else Allocated(i, creator(i))
      ensures Model() == if r.Allocated? then old(Model())[i := r.value] else old(Model())
    {
      if i >= max {
        return NoFreeId;
      }
      var present := Lookup(i);
      if present.Some? {
        return IdAlreadyTaken;
      }
      var v := Emplace(i, creator);
      return Allocated(i, v);
    }

    /** The object in a used slot changes. */
    method Replace(i: nat, value: T)
      requires Valid() && i in Model()
      modifies this
      ensures Valid() && Model() == old(Model())[i := value]
    {
      data := data[i := Some(value)];
    }

    /** Empties the slot; the object that was in it is let go of, not destroyed. */
    method Free(i: nat)
      requires Valid()
      modifies this
      ensures Valid() && Model() == old(Model()) - {i}
    {
      if i >= |data| {
        return;
      }
      data := data[i := None];
    }

    /** Walk over the live ids, as debug_dump_segments does: each is visited once, in ascending order. */
    method Walk() returns (ids: seq<nat>)
      requires Valid()
      ensures Ascending(ids) && forall i :: i in ids <==> i in Model()
    {
      ids := [];
      var from := 0;
      var next := Search(from, true);
      while next.Some?
        invariant Ascending(ids) && forall k :: 0 <= k < |ids| ==> ids[k] < from
        invariant forall i :: i in ids <==> i in Model() && i < from
        invariant match next
          case None => forall i :: i in Model() ==> i < from
          case Some(id) => from <= id && id in Model() && forall i :: i in Model() && from <= i ==> id <= i
        decreases if next.Some? then |data| - next.value + 1 else 0
      {
        ids := ids + [next.value];
        from := next.value + 1;
        next := Search(from, true);
      }
    }
  }
}
