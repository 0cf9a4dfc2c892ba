/** Scratch buffers and cached bind groups of the GPU kernels (gpu_compute/buffers.rs). */
module ScratchResources {
  import opened Base

  /** A device buffer; scratch buffers are the ones allocated here, and identities are not reused. */
  datatype Buffer = Buffer(scratch: bool, id: nat, size: nat, usage: nat)

  type Pipeline = nat

  /** What a bind group binds. */
  datatype Group = Group(pipeline: Pipeline, buffers: seq<(nat, Buffer)>)

  datatype CachedBindings = CachedBindings(pipeline: Pipeline, buffers: seq<(nat, Buffer)>, group: Group)

  datatype BindingRole = Raster | PolygonProducts | Bitmap | Qd3d | Qd3dIndexed

  /** The device's limits, and the usages that include storage. */
  datatype Device = Device(maxBuffer: nat, maxStorage: nat, storage: set<nat>)
  {
    function Limit(usage: nat): nat { if usage in storage then Min(maxBuffer, maxStorage) else maxBuffer }
  }

  const SLOTS := 9
  const FIRST_BITMAP := 4

  function Capacity(size: nat, limit: nat): (capacity: nat)
    ensures capacity <= limit && (capacity >= size <==> size <= limit)
  {
    Min(NextPowerOfTwo(Max(size, 4)), limit)
  }

  /** The least power of two with room for the size and for four bytes, or the limit where that is less. */
  lemma CapacityIsLeast(size: nat, limit: nat, k: nat)
    requires size <= Pow2(k) && 4 <= Pow2(k) && (k > 0 ==> Pow2(k - 1) < size || Pow2(k - 1) < 4)
    ensures Capacity(size, limit) == if Pow2(k) < limit then Pow2(k) else limit
  {
    DoublesTo(0, k, if size < 4 then 4 else size);
  }

  lemma {:induction false} DoublesTo(i: nat, k: nat, n: nat)
    requires i <= k && n <= Pow2(k) && (k > 0 ==> Pow2(k - 1) < n)
    ensures Doubled(Pow2(i), n) == Pow2(k)
    decreases k - i
  {
    if i < k {
      Pow2Grows(i, k - 1);
      DoublesTo(i + 1, k, n);
    }
  }

  /** Scratch buffers in a list are all current. */
  ghost predicate Current(buffers: seq<(nat, Buffer)>, live: set<Buffer>) {
    forall k :: 0 <= k < |buffers| && buffers[k].1.scratch ==> buffers[k].1 in live
  }

  /** A cached group binds what its entry says, and no scratch buffer that has been replaced. */
  ghost predicate Sound(slots: seq<Option<CachedBindings>>, live: set<Buffer>) {
    forall k :: 0 <= k < |slots| && slots[k].Some? ==>
      var entry := slots[k].value;
      entry.group == Group(entry.pipeline, entry.buffers) && Current(entry.buffers, live)
  }

  /** The bitmap slots hold different pipelines. */
  ghost predicate DistinctBitmaps(slots: seq<Option<CachedBindings>>) {
    |slots| == SLOTS
    && forall j, k :: FIRST_BITMAP <= j < k < SLOTS && slots[j].Some? && slots[k].Some? ==>
         slots[j].value.pipeline != slots[k].value.pipeline
  }

  /** The slot of a role: fixed, or for bitmaps the pipeline's own, else a free one, else the first. */
  ghost predicate SlotOf(slot: nat, slots: seq<Option<CachedBindings>>, role: BindingRole, pipeline: Pipeline) {
    && |slots| == SLOTS && slot < SLOTS
    && match role
       case Raster => slot == 0
       case PolygonProducts => slot == 1
       case Qd3d => slot == 2
       case Qd3dIndexed => slot == 3
       case Bitmap =>
         && FIRST_BITMAP <= slot
         && (forall k :: FIRST_BITMAP <= k < SLOTS && k != slot && slots[k].Some? ==>
               slots[k].value.pipeline != pipeline)
         && (slots[slot].Some? && slots[slot].value.pipeline != pipeline ==>
               slot == FIRST_BITMAP && forall k :: FIRST_BITMAP <= k < SLOTS ==> slots[k].Some?)
  }

  lemma StoreKeepsSlots(slots: seq<Option<CachedBindings>>, live: set<Buffer>, slot: nat, role: BindingRole,
                        entry: CachedBindings)
    requires Sound(slots, live) && DistinctBitmaps(slots) && SlotOf(slot, slots, role, entry.pipeline)
    requires entry.group == Group(entry.pipeline, entry.buffers) && Current(entry.buffers, live)
    ensures Sound(slots[slot := Some(entry)], live) && DistinctBitmaps(slots[slot := Some(entry)])
  {
  }

  class ScratchBuffers {
    const device: Device
    var buffers: map<string, Buffer>
    const bindings: array<Option<CachedBindings>>
    var nextId: nat

    ghost predicate Valid()
      reads this, bindings
    {
      && Sound(bindings[..], buffers.Values) && DistinctBitmaps(bindings[..])
      && (forall role :: role in buffers ==>
            && buffers[role].scratch && buffers[role].id < nextId
            && buffers[role].size <= device.Limit(buffers[role].usage))
      && forall a, b :: a in buffers && b in buffers && a != b ==> buffers[a].id != buffers[b].id
    }

    constructor (device: Device)
      ensures Valid() && fresh(bindings) && buffers == map[] && this.device == device
    {
      this.device := device;
      buffers, nextId := map[], 0;
      bindings := new Option<CachedBindings>[SLOTS](k => None);
    }

    /** Where the role's group is cached. */
    method FindSlot(role: BindingRole, pipeline: Pipeline) returns (slot: nat)
      requires Valid()
      ensures SlotOf(slot, bindings[..], role, pipeline)
    {
      match role
      case Raster => slot := 0;
      case PolygonProducts => slot := 1;
      case Qd3d => slot := 2;
      case Qd3dIndexed => slot := 3;
      case Bitmap =>
        for k := FIRST_BITMAP to SLOTS
          invariant forall j :: FIRST_BITMAP <= j < k && bindings[j].Some? ==> bindings[j].value.pipeline != pipeline
        {
          if bindings[k].Some? && bindings[k].value.pipeline == pipeline {
            return k;
          }
        }
        for k := FIRST_BITMAP to SLOTS
          invariant forall j :: FIRST_BITMAP <= j < k ==> bindings[j].Some?
        {
          if bindings[k].None? {
            return k;
          }
        }
        slot := FIRST_BITMAP;
    }

    /** The group binds exactly the pipeline and buffers asked for, cached or new; only the role's
        slot may change. */
    method BindGroup(role: BindingRole, pipeline: Pipeline, requested: seq<(nat, Buffer)>) returns (group: Group)
      requires Valid() && Current(requested, buffers.Values)
      modifies bindings
      ensures Valid() && group == Group(pipeline, requested)
      ensures exists slot: nat :: SlotOf(slot, old(bindings[..]), role, pipeline)
                && bindings[..] == old(bindings[..])[slot := Some(CachedBindings(pipeline, requested, group))]
    {
      var slot := FindSlot(role, pipeline);
      ghost var slots := bindings[..];
      if bindings[slot].Some? {
        var entry := bindings[slot].value;
        if entry.pipeline == pipeline && entry.buffers == requested {
          assert slots[slot] == Some(CachedBindings(pipeline, requested, entry.group));
          return entry.group;
        }
      }
      group := Group(pipeline, requested);
      StoreKeepsSlots(slots, buffers.Values, slot, role, CachedBindings(pipeline, requested, group));
      bindings[slot] := Some(CachedBindings(pipeline, requested, group));
      assert bindings[..] == slots[slot := Some(CachedBindings(pipeline, requested, group))];
    }

    /** The role's buffer, at least as large as asked for exactly when the device allows that size.
        Growing it drops every cached group; a role never changes its usage. */
    method Get(role: string, size: nat, usage: nat) returns (buffer: Option<Buffer>)
      requires Valid()
      modifies this`buffers, this`nextId, bindings
      ensures Valid()
      ensures buffer.None? <==> role in old(buffers) && old(buffers)[role].usage != usage
      ensures buffer.Some? ==>
                && buffers == old(buffers)[role := buffer.value] && buffer.value.usage == usage
                && (buffer.value.size >= size <==> size <= device.Limit(usage))
      ensures role !in old(buffers) || (buffer.Some? && buffer.value != old(buffers)[role]) ==>
                buffer.Some? && buffer.value.scratch && buffer.value.id >= old(nextId)
                && buffer.value.size == Capacity(size, device.Limit(usage))
      ensures role !in old(buffers) && size <= device.Limit(usage) ==> bindings[..] == old(bindings[..])
      ensures role in old(buffers) && buffer.Some? && buffer.value != old(buffers)[role] ==>
                old(buffers)[role].size < size && forall k :: 0 <= k < SLOTS ==> bindings[k] == None
      ensures role in old(buffers) && (old(buffers)[role].size >= size || buffer.None?) ==>
                buffers == old(buffers) && bindings[..] == old(bindings[..])
    {
      var capacity := Capacity(size, device.Limit(usage));
      if role !in buffers {
        Allocate(role, capacity, usage);
      }
      if buffers[role].usage != usage {
        return None;
      }
      if buffers[role].size < size {
        DropGroups();
        Allocate(role, capacity, usage);
      }
      buffer := Some(buffers[role]);
      assert buffers == old(buffers)[role := buffers[role]];
    }

    method DropGroups()
      requires Valid()
      modifies bindings
      ensures Valid() && forall k :: 0 <= k < SLOTS ==> bindings[k] == None
    {
      for k := 0 to SLOTS
        invariant forall j :: 0 <= j < k ==> bindings[j] == None
      {
        bindings[k] := None;
      }
    }

    /** A new buffer for the role. No cached group may hold the one it replaces. */
    method Allocate(role: string, size: nat, usage: nat)
      requires Valid() && size <= device.Limit(usage)
      requires role in buffers ==> forall k :: 0 <= k < SLOTS ==> bindings[k] == None
      modifies this`buffers, this`nextId
      ensures Valid() && nextId == old(nextId) + 1
      ensures buffers == old(buffers)[role := Buffer(true, old(nextId), size, usage)]
    {
      ghost var before := buffers;
      buffers := buffers[role := Buffer(true, nextId, size, usage)];
      nextId := nextId + 1;
      if role !in before {
        assert before.Values <= buffers.Values by {
          forall b | b in before.Values ensures b in buffers.Values {
            var r :| r in before && before[r] == b;
            assert r in buffers && buffers[r] == b;
          }
        }
      }
    }
  }
}
