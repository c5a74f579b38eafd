/**
 * `UnsafeArcArray` of src/arc_array.rs: a fixed-capacity table of N slots whose
 * reference counts and storage cells are updated in place. Each method is proved
 * against the value-level operation of ArcArraySpec that it performs.
 */
module ArcArray {
  import opened Wrappers
  import opened ArcArraySpec

  class UnsafeArcArray<T> {
    /** `ref_counts`: one reference count per slot. */
    const refCounts: array<nat>
    /** `items`: storage for at most one T per slot (`MaybeUninit` read as `Option`). */
    const items: array<Option<T>>
    /** The values constructed and dropped in the slots so far. */
    ghost var log: seq<Event<T>>

    /** The table's contents as a value. */
    ghost function State(): Table<T>
      reads this, refCounts, items
    {
      Table(refCounts[..], items[..], log)
    }

    ghost predicate Valid()
      reads this, refCounts, items
    {
      ArcArraySpec.Valid(State())
    }

    /** `new()`: `n` free slots. */
    constructor (n: nat)
      ensures Valid() && State() == New(n)
      ensures fresh(refCounts) && fresh(items)
    {
      refCounts := new nat[n](_ => 0);
      items := new Option<T>[n](_ => None);
      log := [];
    }

    /**
     * `acquire_and_init`: scan the counts in index order, claim the first zero one by
     * setting it to 1, store `init()` there and return its index; `None` when all are taken.
     * `init` is called only when a slot was claimed.
     */
    method AcquireAndInit(init: () -> T) returns (r: Option<nat>)
      requires Valid()
      modifies this, refCounts, items
      ensures Valid()
      ensures (State(), r) == Acquire(old(State()), init())
    {
      ghost var pre := State();
      for idx := 0 to refCounts.Length
        invariant forall j :: 0 <= j < idx ==> refCounts[j] != 0
      {
        if refCounts[idx] == 0 {
          refCounts[idx] := 1;
          var v := init();
          items[idx] := Some(v);
          log := log + [Constructed(idx, v)];
          assert refCounts[..] == old(refCounts[..])[idx := 1];
          assert items[..] == old(items[..])[idx := Some(v)];
          assert Acquire(pre, v).1 == Some(idx);
          return Some(idx);
        }
      }
      return None;
    }

    /** `get_ref`: the value stored in live slot `i`, which is the value the log says lives there. */
    function GetRef(i: nat): (v: T)
      reads this, refCounts, items
      requires Valid() && i < refCounts.Length && refCounts[i] > 0
      ensures LiveValue(log, i) == Some(v)
    {
      assert SlotValid(State(), i);
      items[i].value
    }

    /** `inc_count`: one more reference on live slot `i`. */
    method IncCount(i: nat)
      requires Valid() && i < refCounts.Length && 0 < refCounts[i] < U64_MAX
      modifies refCounts
      ensures Valid()
      ensures State() == Inc(old(State()), i)
    {
      IncKeepsValid(State(), i);
      refCounts[i] := refCounts[i] + 1;
      assert refCounts[..] == old(refCounts[..])[i := old(refCounts[i]) + 1];
    }

    /** `dec_count`: release one reference on live slot `i`, dropping its value when it was the last. */
    method DecCount(i: nat)
      requires Valid() && i < refCounts.Length && refCounts[i] > 0
      modifies this, refCounts, items
      ensures Valid()
      ensures State() == Dec(old(State()), i)
    {
      ghost var pre := State();
      assert SlotValid(pre, i);
      var prev := refCounts[i];
      refCounts[i] := prev - 1;
      if prev == 1 {
        log := log + [Destroyed(i, items[i].value)];
        items[i] := None;
      }
      assert State() == Dec(pre, i);
    }
  }

  /** The value of the `basic` test: dropping it writes `v` to an external cell. */
  datatype DropSet = DropSet(v: int)

  /**
   * The `basic` test: a value acquired into a table of 11 slots is not dropped by the
   * acquisition or by reading it back, and is dropped by the one matching `dec_count`.
   */
  method Basic() returns (idx: nat, read: DropSet, ghost beforeDec: seq<Event<DropSet>>, ghost afterDec: seq<Event<DropSet>>)
    ensures idx == 0 && read == DropSet(11)
    ensures beforeDec == [Constructed(0, DropSet(11))]
    ensures afterDec == beforeDec + [Destroyed(0, DropSet(11))]
  {
    var arr := new UnsafeArcArray<DropSet>(11);
    var r := arr.AcquireAndInit(() => DropSet(11));
    idx := r.value;
    read := arr.GetRef(idx);
    beforeDec := arr.log;
    arr.DecCount(idx);
    afterDec := arr.log;
  }

  /** The `fill_capacity` test: a table of 3 slots takes three values and refuses a fourth. */
  method FillCapacity() returns (idx1: Option<nat>, idx2: Option<nat>, idx3: Option<nat>, idx4: Option<nat>)
    ensures idx1 == Some(0) && idx2 == Some(1) && idx3 == Some(2)
    ensures idx4 == None
  {
    var arr := new UnsafeArcArray<int>(3);
    idx1 := arr.AcquireAndInit(() => 1);
    assert arr.refCounts[..] == [1, 0, 0];
    ghost var s1 := arr.State();
    idx2 := arr.AcquireAndInit(() => 2);
    assert s1.counts[1] == 0;
    assert arr.refCounts[..] == [1, 1, 0];
    idx3 := arr.AcquireAndInit(() => 3);
    idx4 := arr.AcquireAndInit(() => 4);
  }
}
