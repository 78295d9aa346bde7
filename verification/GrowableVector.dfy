/** What a growable vector holds, as a value: the effect of its operations on contents,
    capacity and the number of relocated elements when nothing throws. */
module VectorGrowth {

  /** An element that was moved from is still a constructed object, without its value. */
  datatype Item<T> = Value(value: T) | MovedFrom

  datatype View<T> = View(contents: seq<Item<T>>, capacity: nat, relocated: nat)

  datatype Op<T> = Push(value: T) | Pop | Clear

  function Init<T>(): View<T> {
    View([], 0, 0)
  }

  function Doubled(capacity: nat): nat {
    if capacity == 0 then 1 else capacity * 2
  }

  function Apply<T>(v: View<T>, op: Op<T>): View<T> {
    match op
    case Push(x) =>
      if |v.contents| == v.capacity then
        View(v.contents + [Value(x)], Doubled(v.capacity), v.relocated + |v.contents|)
      else
        v.(contents := v.contents + [Value(x)])
    case Pop => if v.contents == [] then v else v.(contents := v.contents[..|v.contents| - 1])
    case Clear => v.(contents := [])
  }

  function Run<T>(ops: seq<Op<T>>): View<T> {
    if ops == [] then Init() else Apply(Run(ops[..|ops| - 1]), ops[|ops| - 1])
  }

  function Pushes<T>(ops: seq<Op<T>>): nat {
    if ops == [] then 0 else Pushes(ops[..|ops| - 1]) + if ops[|ops| - 1].Push? then 1 else 0
  }

  /** The largest size reached in a run. */
  function Peak<T>(ops: seq<Op<T>>): nat {
    if ops == [] then 0
    else
      var before := Peak(ops[..|ops| - 1]);
      if before < |Run(ops).contents| then |Run(ops).contents| else before
  }

  predicate PowerOfTwo(n: nat) {
    n == 1 || (n > 1 && n % 2 == 0 && PowerOfTwo(n / 2))
  }

  /** Exact amortised growth, for every run in which nothing throws: the capacity is a power
      of two below twice the largest size reached, and all relocations together are one less. */
  lemma {:induction false} GrowthIsAmortised<T>(ops: seq<Op<T>>)
    ensures var v := Run(ops);
            && |v.contents| <= v.capacity && |v.contents| <= Peak(ops) <= Pushes(ops)
            && (if v.capacity == 0 then v.relocated == 0
                else PowerOfTwo(v.capacity) && v.relocated == v.capacity - 1 && v.capacity < 2 * Peak(ops))
    decreases |ops|
  {
    if ops != [] {
      var before, op := ops[..|ops| - 1], ops[|ops| - 1];
      GrowthIsAmortised(before);
      var v := Run(before);
      if op.Push? && |v.contents| == v.capacity && v.capacity > 0 {
        assert PowerOfTwo(v.capacity * 2 / 2);
      }
    }
  }

  /** Fewer than two relocations per push. */
  lemma RelocationsPerPush<T>(ops: seq<Op<T>>)
    requires Pushes(ops) > 0
    ensures Run(ops).relocated < 2 * Pushes(ops)
  {
    GrowthIsAmortised(ops);
  }

  /** The size after the first j operations. */
  function SizeAfter<T>(ops: seq<Op<T>>, j: nat): nat
    requires j <= |ops|
  {
    |Run(ops[..j]).contents|
  }

  lemma PartOfRun<T>(ops: seq<Op<T>>, j: nat)
    requires j < |ops|
    ensures ops[..j + 1][..j] == ops[..j] && Run(ops[..j + 1]) == Apply(Run(ops[..j]), ops[j])
  {
    assert ops[..j + 1][..j] == ops[..j];
  }

  /** A push makes the vector longer by one, a pop shorter by one if it can, and a clear empty. */
  lemma SizeStep<T>(ops: seq<Op<T>>, j: nat)
    requires j < |ops|
    ensures SizeAfter(ops, j + 1) ==
              match ops[j]
              case Push(_) => SizeAfter(ops, j) + 1
              case Pop => if SizeAfter(ops, j) == 0 then 0 else SizeAfter(ops, j) - 1
              case Clear => 0
  {
    PartOfRun(ops, j);
  }

  /** The push at i put x at position k, and until the step j the vector stayed longer than k. */
  ghost predicate PushedAndKept<T>(ops: seq<Op<T>>, i: nat, k: nat, x: Item<T>, j: nat)
    requires j <= |ops|
  {
    && i < j && ops[i].Push? && x == Value(ops[i].value) && SizeAfter(ops, i) == k
    && forall m | i < m <= j :: SizeAfter(ops, m) > k
  }

  /** Each element is the value of the push that put it there, the last one that found the vector so short. */
  lemma {:induction false} ContentsArePushed<T>(ops: seq<Op<T>>, j: nat, k: nat) returns (i: nat)
    requires j <= |ops| && k < SizeAfter(ops, j)
    ensures PushedAndKept(ops, i, k, Run(ops[..j]).contents[k], j)
  {
    if j > 0 {
      PartOfRun(ops, j - 1);
      if k == SizeAfter(ops, j - 1) {
        i := j - 1;
      } else {
        i := ContentsArePushed(ops, j - 1, k);
      }
    }
  }

  /** A pop takes back the push before it, whatever the growth does in between. */
  lemma PopUndoesPush<T>(ops: seq<Op<T>>, x: T)
    ensures Run(ops + [Push(x)]).contents == Run(ops).contents + [Value(x)]
    ensures Run(ops + [Push(x)] + [Pop]).contents == Run(ops).contents
  {
    assert (ops + [Push(x)])[..|ops|] == ops;
    var pushed := ops + [Push(x)];
    assert (pushed + [Pop])[..|pushed|] == pushed;
  }

  // ---------------------------------------------------------------- when a relocation throws

  /** The old elements after the first k have been moved from, or only copied. */
  function Robbed<T>(contents: seq<Item<T>>, moves: bool, k: nat): (r: seq<Item<T>>)
    requires k <= |contents|
    ensures |r| == |contents|
    ensures forall i | 0 <= i < |r| :: r[i] == if moves && i < k then MovedFrom else contents[i]
  {
    if moves then seq(k, _ => MovedFrom) + contents[k..] else contents
  }

  lemma RobbedOfNothingIff<T>(contents: seq<Item<T>>, moves: bool, k: nat)
    requires k <= |contents|
    ensures Robbed(contents, moves, k) == contents <==>
              (!moves || forall i | 0 <= i < k :: contents[i] == MovedFrom)
  {
    var r := Robbed(contents, moves, k);
    if r == contents {
      assert forall i | 0 <= i < k :: r[i] == contents[i];
    }
  }
}

/** The vector itself: raw memory in which elements are constructed and destroyed one by one. */
module Vectors {
  import opened VectorGrowth

  datatype Slot<T> = Raw | Built(item: Item<T>)

  datatype Outcome = Done | Threw

  /** Which of the calls into the element type and the allocator throw: the allocation, the
      relocation of the element at an index, the construction of the new element. */
  datatype Faults = Faults(alloc: bool, relocateAt: int, construct: bool)

  /** A push has to grow the buffer, and the growth throws. */
  predicate GrowthThrows(size: nat, capacity: nat, faults: Faults) {
    size == capacity && (faults.alloc || 0 <= faults.relocateAt < size)
  }

  /** Exactly when a push that throws has no effect on the contents: a growth that fails after it has
      moved elements must not have moved any that still had its value. */
  predicate StrongGuarantee<T>(contents: seq<Item<T>>, capacity: nat, moves: bool, faults: Faults) {
    GrowthThrows(|contents|, capacity, faults) && !faults.alloc && moves ==>
      forall i | 0 <= i < faults.relocateAt :: contents[i] == MovedFrom
  }

  class Vector<T> {
    const moves: bool  // std::move_if_noexcept yields an rvalue for T

    var data: array?<Slot<T>>
    var size: nat
    var capacity: nat

    ghost var built: nat                    // constructions so far, on all buffers
    ghost var destroyed: nat                // destructions so far, on all buffers
    ghost var relocated: nat                // constructions that relocated an element
    ghost var heap: set<array<Slot<T>>>     // the buffers that are allocated

    /** Exactly the first size slots of the buffer are constructed. */
    ghost predicate Shape()
      reads this, data
    {
      && (data == null <==> capacity == 0)
      && (data != null ==> data.Length == capacity)
      && size <= capacity
      && (forall i | 0 <= i < capacity :: data[i] != Raw <==> i < size)
    }

    /** Besides, the constructed elements are those not destroyed yet, and no other buffer is allocated. */
    ghost predicate Valid()
      reads this, data
    {
      Shape() && built == destroyed + size && heap == (if data == null then {} else {data})
    }

    ghost function Contents(): (c: seq<Item<T>>)
      requires Shape()
      reads this, data
      ensures |c| == size
      ensures forall i | 0 <= i < size :: data[i] == Built(c[i])
    {
      seq(size, i requires 0 <= i < size && Shape() reads this, data => data[i].item)
    }

    ghost function View(): View<T>
      requires Valid()
      reads this, data
    {
      VectorGrowth.View(Contents(), capacity, relocated)
    }

    constructor (moves: bool)
      ensures Valid() && View() == Init() && this.moves == moves
      ensures data == null && built == 0 && destroyed == 0
    {
      this.moves := moves;
      data, size, capacity := null, 0, 0;
      built, destroyed, relocated, heap := 0, 0, 0, {};
      new;
      assert Contents() == [];
    }

    method Clear()
      requires Shape()
      modifies this`size, this`destroyed, data
      ensures Shape() && size == 0 && destroyed == old(destroyed) + old(size)
      ensures data == old(data) && capacity == old(capacity)
      ensures old(Valid()) ==> Valid() && View() == Apply(old(View()), Op.Clear)
    {
      var i := 0;
      while i < size
        invariant 0 <= i <= size == old(size)
        invariant forall j | 0 <= j < capacity :: data[j] == if j < i then Raw else old(data[j])
        invariant destroyed == old(destroyed) + i
      {
        assert data[i] != Raw;  // no element is destroyed twice
        data[i] := Raw;
        destroyed := destroyed + 1;
        i := i + 1;
      }
      size := 0;
    }

    method Deallocate()
      requires Shape() && size == 0 && (data != null ==> data in heap)
      modifies this`data, this`capacity, this`heap
      ensures Shape() && data == null
      ensures heap == old(heap) - (if old(data) == null then {} else {old(data)})
    {
      if data != null {
        heap := heap - {data};
        data := null;
        capacity := 0;
      }
    }

    method Destroy()
      requires Valid()
      modifies this, data
      ensures heap == {} && data == null && size == 0
      ensures built == destroyed == old(built)
      ensures old(data) != null ==> forall i | 0 <= i < old(data).Length :: old(data)[i] == Raw
    {
      Clear();
      Deallocate();
    }

    method PopBack()
      requires Valid()
      modifies this`size, this`destroyed, data
      ensures Valid() && View() == Apply(old(View()), Pop)
      ensures Contents() == old(Contents())[..if old(size) > 0 then old(size) - 1 else 0]
      ensures destroyed == old(destroyed) + if old(size) > 0 then 1 else 0
    {
      if size > 0 {
        size := size - 1;
        assert data[size] != Raw;
        data[size] := Raw;
        destroyed := destroyed + 1;
        assert Contents() == old(Contents())[..size];
      }
    }

    method Reallocate(newCap: nat, faults: Faults) returns (outcome: Outcome)
      requires Valid() && newCap > 0 && newCap >= size
      modifies this, data
      ensures Valid() && size == old(size)
      ensures outcome == if faults.alloc || 0 <= faults.relocateAt < size then Threw else Done
      ensures outcome == Done ==>
                && Contents() == old(Contents()) && capacity == newCap && fresh(data)
                && relocated == old(relocated) + size && built == old(built) + size
      ensures outcome == Threw ==>
                && data == old(data) && capacity == old(capacity)
                && Contents() == old(Robbed(Contents(), moves, if faults.alloc then 0 else faults.relocateAt))
                && built - old(built) == destroyed - old(destroyed)
    {
      if faults.alloc {
        RobbedOfNothingIff(Contents(), moves, 0);
        return Threw;
      }
      var newData := new Slot<T>[newCap](_ => Raw);
      heap := heap + {newData};
      ghost var c := Contents();
      var newSize := RelocateInto(newData, faults);
      if newSize < size {
        DestroyPartly(newData, newSize);
        heap := heap - {newData};
        return Threw;
      }
      Adopt(newData, c);
      return Done;
    }

    /** The end of the original's reallocate: the old elements and the old buffer go, the new ones stay. */
    method Adopt(newData: array<Slot<T>>, ghost c: seq<Item<T>>)
      requires Shape() && newData != data && |c| == size <= newData.Length && newData.Length > 0
      requires built == destroyed + 2 * size && heap == {newData} + if data == null then {} else {data}
      requires forall i | 0 <= i < newData.Length :: newData[i] == if i < size then Built(c[i]) else Raw
      modifies this, data
      ensures Valid() && data == newData && size == old(size) && capacity == newData.Length && Contents() == c
      ensures built == old(built) && relocated == old(relocated)
    {
      var newSize := size;
      Clear();
      Deallocate();
      data, size, capacity := newData, newSize, newData.Length;
    }

    /** The loop of the original's reallocate: relocate elements until one throws. */
    method RelocateInto(newData: array<Slot<T>>, faults: Faults) returns (newSize: nat)
      requires Shape() && newData != data && size <= newData.Length
      requires forall i | 0 <= i < newData.Length :: newData[i] == Raw
      modifies `built, `relocated, newData, data
      ensures Shape()
      ensures newSize == if 0 <= faults.relocateAt < size then faults.relocateAt else size
      ensures forall i | 0 <= i < newData.Length ::
                newData[i] == if i < newSize then old(data[i]) else Raw
      ensures forall i | 0 <= i < capacity ::
                data[i] == if i < newSize && moves then Built(MovedFrom) else old(data[i])
      ensures Contents() == old(Robbed(Contents(), moves, newSize))
      ensures built == old(built) + newSize && relocated == old(relocated) + newSize
    {
      newSize := 0;
      while newSize < size && newSize != faults.relocateAt
        invariant 0 <= newSize <= size && (faults.relocateAt < 0 || newSize <= faults.relocateAt)
        invariant forall i | 0 <= i < newData.Length ::
                    newData[i] == if i < newSize then old(data[i]) else Raw
        invariant forall i | 0 <= i < capacity ::
                    data[i] == if i < newSize && moves then Built(MovedFrom) else old(data[i])
        invariant built == old(built) + newSize && relocated == old(relocated) + newSize
      {
        assert newData[newSize] == Raw && data[newSize] != Raw;
        newData[newSize] := data[newSize];
        if moves {
          data[newSize] := Built(MovedFrom);
        }
        built, relocated := built + 1, relocated + 1;
        newSize := newSize + 1;
      }
    }

    /** The handler of the original's reallocate: destroy what was built in the new buffer. */
    method DestroyPartly(newData: array<Slot<T>>, newSize: nat)
      requires newSize <= newData.Length && newData != data
      requires forall i | 0 <= i < newSize :: newData[i] != Raw
      modifies this`destroyed, newData
      ensures destroyed == old(destroyed) + newSize
      ensures forall i | 0 <= i < newSize :: newData[i] == Raw
    {
      for i := 0 to newSize
        invariant destroyed == old(destroyed) + i
        invariant forall j | 0 <= j < newSize :: newData[j] == if j < i then Raw else old(newData[j])
      {
        assert newData[i] != Raw;
        newData[i] := Raw;
        destroyed := destroyed + 1;
      }
    }

    /** push_back and emplace_back; the argument is a value, not a reference to an element. */
    method EmplaceBack(x: T, faults: Faults) returns (outcome: Outcome)
      requires Valid()
      modifies this, data
      ensures Valid()
      ensures outcome == Threw <==>
                || faults.construct
                || GrowthThrows(old(size), old(capacity), faults)
      ensures outcome == Done ==> View() == Apply(old(View()), Push(x))
      ensures outcome == Done ==> Contents() == old(Contents()) + [Value(x)]
      ensures outcome == Threw ==>
                (Contents() == old(Contents()) <==> old(StrongGuarantee(Contents(), capacity, moves, faults)))
      // a throw while growing takes the values that moving took, nothing else; a later throw takes nothing
      ensures outcome == Threw && GrowthThrows(old(size), old(capacity), faults) ==>
                && data == old(data) && capacity == old(capacity)
                && Contents() == old(Robbed(Contents(), moves, if faults.alloc then 0 else faults.relocateAt))
      ensures outcome == Threw && !GrowthThrows(old(size), old(capacity), faults) ==>
                && Contents() == old(Contents())
                && capacity == if old(size) == old(capacity) then Doubled(old(capacity)) else old(capacity)
    {
      if size == capacity {
        outcome := Reallocate(if capacity == 0 then 1 else capacity * 2, faults);
        if outcome == Threw {
          RobbedOfNothingIff(old(Contents()), moves, if faults.alloc then 0 else faults.relocateAt);
          return;
        }
      }
      if faults.construct {
        return Threw;
      }
      ghost var c := Contents();
      data[size] := Built(Value(x));
      built := built + 1;
      size := size + 1;
      assert Contents() == c + [Value(x)];
      return Done;
    }
  }
}
