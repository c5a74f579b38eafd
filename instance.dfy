/**
 * The `Instance` handle of src/vk/instance.rs. The static table `RAW_INSTANCES` holds at
 * most MAX_INSTANCES wrapped native instances; an `Instance` is an index into it that owns
 * one reference. `from_raw` acquires a slot, `clone` adds a reference, dropping a handle
 * releases one, and the last release destroys the native instance.
 *
 * The private `ArcArray` that file declares performs the same sequential updates as
 * `UnsafeArcArray`, so RAW_INSTANCES is modelled by an `UnsafeArcArray<RawInstance>`.
 */
module VkInstance {
  import opened Wrappers
  import opened ArcArraySpec
  import opened ArcArray

  /** `MAX_INSTANCES`: the capacity of RAW_INSTANCES. */
  const MAX_INSTANCES: nat := 1

  /** `RawInstance`: the wrapped native instance; dropping it destroys that instance. */
  datatype RawInstance = RawInstance(handle: nat)

  /** `Instance`: a handle that owns one reference on slot `id` of RAW_INSTANCES. */
  datatype Instance = Instance(id: nat)

  /** The panic of `from_raw` when every slot is taken. */
  datatype InstanceError = NoFreeSpace

  /** RAW_INSTANCES together with the ids of the handles alive now, one entry per handle. */
  datatype Registry = Registry(table: Table<RawInstance>, handles: multiset<nat>)

  /** The handle protocol's invariant: the table is valid and each slot's count is the number of live handles on it. */
  ghost predicate Consistent(p: Registry)
  {
    && ArcArraySpec.Valid(p.table)
    && |p.table.counts| == MAX_INSTANCES
    && (forall id :: id in p.handles ==> id < MAX_INSTANCES)
    && forall i :: 0 <= i < MAX_INSTANCES ==> p.table.counts[i] == p.handles[i]
  }

  /**
   * `Instance::from_raw`: store `raw` in a free slot and hand out the first handle on it;
   * with a single slot this fails exactly when some handle is alive.
   */
  function FromRawStep(p: Registry, raw: RawInstance): (r: (Registry, Result<Instance, InstanceError>))
    requires Consistent(p)
    ensures Consistent(r.0)
    ensures r.1.Failure? <==> p.handles != multiset{}
    ensures r.1.Failure? ==> r.0 == p
    ensures r.1.Success? ==>
      && r.1.value == Instance(0)
      && r.0.handles == multiset{0}
      && r.0.table.counts == [1] && r.0.table.items == [Some(raw)]
      && r.0.table.log == p.table.log + [Constructed(0, raw)]
  {
    assert p.handles != multiset{} <==> 0 in p.handles by {
      if p.handles != multiset{} {
        var id :| id in p.handles;
      }
    }
    var (t, idx) := Acquire(p.table, raw);
    match idx
    case None => (p, Failure(NoFreeSpace))
    case Some(i) => (Registry(t, p.handles + multiset{i}), Success(Instance(i)))
  }

  /** `Instance::clone`: one more handle on the same slot, counted by its reference count. */
  function CloneStep(p: Registry, h: Instance): (r: (Registry, Instance))
    requires Consistent(p) && h.id in p.handles && p.handles[h.id] < U64_MAX
    ensures Consistent(r.0)
    ensures r.1 == h && r.0.handles == p.handles + multiset{h.id}
    ensures r.0.table.counts[h.id] == p.table.counts[h.id] + 1
    ensures r.0.table.items == p.table.items && r.0.table.log == p.table.log
  {
    IncKeepsValid(p.table, h.id);
    (Registry(Inc(p.table, h.id), p.handles + multiset{h.id}), h)
  }

  /**
   * `Drop for Instance`: release the handle's reference; the wrapped instance is destroyed
   * by this drop exactly when it was the last handle on its slot.
   */
  function DropStep(p: Registry, h: Instance): (r: Registry)
    requires Consistent(p) && h.id in p.handles
    ensures Consistent(r) && r.handles == p.handles - multiset{h.id}
    ensures r.table.counts[h.id] == p.table.counts[h.id] - 1
    ensures p.handles[h.id] == 1 ==>
      && p.table.items[h.id].Some? && r.table.items[h.id] == None
      && r.table.log == p.table.log + [Destroyed(h.id, p.table.items[h.id].value)]
    ensures p.handles[h.id] > 1 ==> r.table.items == p.table.items && r.table.log == p.table.log
  {
    var r := Registry(Dec(p.table, h.id), p.handles - multiset{h.id});
    assert r.table.items == p.table.items <== p.handles[h.id] > 1;
    r
  }

  /** Cloning a handle and dropping the clone leaves RAW_INSTANCES and the live handles as they were. */
  lemma CloneThenDrop(p: Registry, h: Instance)
    requires Consistent(p) && h.id in p.handles && p.handles[h.id] < U64_MAX
    ensures DropStep(CloneStep(p, h).0, h) == p
  {
  }

  /** Once no handle is alive, every native instance ever stored has been destroyed exactly once. */
  lemma NoHandlesAllDestroyed(p: Registry)
    requires Consistent(p) && p.handles == multiset{}
    ensures forall i :: 0 <= i < MAX_INSTANCES ==> Constructions(p.table.log, i) == Destructions(p.table.log, i)
  {
    AllReleasedAllDropped(p.table);
  }

  /** RAW_INSTANCES and the `Instance` handles alive now. */
  class Instances {
    /** `RAW_INSTANCES`. */
    const table: UnsafeArcArray<RawInstance>
    /** The id of every live `Instance`, once per handle. */
    ghost var handles: multiset<nat>

    ghost function State(): Registry
      reads this, table, table.refCounts, table.items
    {
      Registry(table.State(), handles)
    }

    ghost predicate Valid()
      reads this, table, table.refCounts, table.items
    {
      Consistent(State())
    }

    /** The static initializer `ArcArray::new()`: one free slot and no handles. */
    constructor ()
      ensures Valid() && fresh(table) && fresh(table.refCounts) && fresh(table.items)
      ensures State() == Registry(New(MAX_INSTANCES), multiset{})
    {
      table := new UnsafeArcArray<RawInstance>(MAX_INSTANCES);
      handles := multiset{};
    }

    /** `Instance::from_raw`: register `raw` and return the first handle on it, or fail when the table is full. */
    method FromRaw(raw: RawInstance) returns (r: Result<Instance, InstanceError>)
      requires Valid()
      modifies this, table, table.refCounts, table.items
      ensures Valid()
      ensures (State(), r) == FromRawStep(old(State()), raw)
    {
      var idx := table.AcquireAndInit(() => raw);
      match idx {
        case None =>
          r := Failure(NoFreeSpace);
        case Some(i) =>
          handles := handles + multiset{i};
          r := Success(Instance(i));
      }
    }

    /** `Instance::clone`: a new handle with the same id, after one `inc_count`. */
    method Clone(h: Instance) returns (h': Instance)
      requires Valid() && h.id in handles && handles[h.id] < U64_MAX
      modifies this, table.refCounts
      ensures Valid()
      ensures (State(), h') == CloneStep(old(State()), h)
    {
      table.IncCount(h.id);
      handles := handles + multiset{h.id};
      h' := Instance(h.id);
    }

    /** `Drop for Instance`: one `dec_count` on the handle's slot. */
    method Drop(h: Instance)
      requires Valid() && h.id in handles
      modifies this, table, table.refCounts, table.items
      ensures Valid()
      ensures State() == DropStep(old(State()), h)
    {
      table.DecCount(h.id);
      handles := handles - multiset{h.id};
    }

    /** `Instance::get_raw_ref`: a live handle always reads the instance stored in its slot and not yet destroyed. */
    function GetRawRef(h: Instance): (raw: RawInstance)
      reads this, table, table.refCounts, table.items
      requires Valid() && h.id in handles
      ensures LiveValue(table.log, h.id) == Some(raw)
    {
      table.GetRef(h.id)
    }
  }
}
