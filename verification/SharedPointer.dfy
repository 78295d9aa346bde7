/** Shared ownership without counting: who owns what, and what has been deleted because
    nobody owned it any more. Addresses are numbers; 0 is the null pointer. */
module Ownership {
  import opened Sequences

  /** A pointer object: the object it points to, and the control block it shares. */
  datatype Handle = Handle(ptr: nat, ref: nat)

  const NULL_HANDLE := Handle(0, 0)

  datatype World = World(
    handles: map<nat, Handle>,  // the pointer objects that exist
    deleted: seq<nat>,          // the objects that were deleted, in order
    adopted: set<nat>,          // the objects that were ever handed to a pointer
    next: nat)                  // the address of the next control block
  {
    ghost predicate Owned(p: nat) {
      exists h | h in handles :: handles[h].ptr == p
    }

    /** What goes when h stops owning: its object, if h was the last owner and there is an object. */
    ghost function Leaving(h: nat): seq<nat>
      requires h in handles
    {
      var Handle(ptr, ref) := handles[h];
      if ref != 0 && Owners(handles, ref) == {h} && ptr != 0 then [ptr] else []
    }

    ghost function Drop(h: nat): World
      requires h in handles
    {
      World(handles - {h}, deleted + Leaving(h), adopted, next)
    }

    ghost function Default(h: nat): World {
      this.(handles := handles[h := NULL_HANDLE])
    }

    ghost function Adopt(h: nat, p: nat): World {
      World(handles[h := Handle(p, next)], deleted, adopted + {p}, next + 1)
    }

    ghost function Share(h: nat, from: nat): World
      requires from in handles
    {
      this.(handles := handles[h := handles[from]])
    }

    /** Both assignments of the original share; neither takes anything from its argument. */
    ghost function Assign(h: nat, from: nat): World
      requires h in handles && from in handles
    {
      if h == from then this else Drop(h).Share(h, from)
    }

    /** A pointer's block was allocated, its object was handed over and is not deleted. */
    ghost predicate Sound(h: nat) {
      h in handles ==>
        var Handle(ptr, ref) := handles[h];
        ref < next && (ref == 0 ==> ptr == 0) && (ptr == 0 || ptr in adopted) && ptr !in deleted
    }

    /** Pointers that share a block share the object, and the other way round. */
    ghost predicate Agree(h: nat, h': nat) {
      h in handles && h' in handles ==>
        && (handles[h].ref != 0 && handles[h].ref == handles[h'].ref ==> handles[h].ptr == handles[h'].ptr)
        && (handles[h].ptr != 0 && handles[h].ptr == handles[h'].ptr ==> handles[h].ref == handles[h'].ref)
    }

    /** An object that was handed over is owned or deleted; no other one is deleted. */
    ghost predicate Accounted(p: nat) {
      && (p in deleted ==> p in adopted && p != 0)
      && (p in adopted && p != 0 ==> Owned(p) || p in deleted)
    }

    ghost predicate Inv() {
      && next > 0
      && (forall h: nat :: Sound(h))
      && (forall h: nat, h': nat :: Agree(h, h'))
      && (forall p: nat :: Accounted(p))
      && Distinct(deleted)
    }
  }

  /** The pointers that share a block. */
  ghost function Owners(hs: map<nat, Handle>, ref: nat): set<nat> {
    set h | h in hs && hs[h].ref == ref
  }

  datatype Op =
    | Default(h: nat)
    | Adopt(h: nat, p: nat)
    | Copy(h: nat, from: nat)
    | Assign(h: nat, from: nat)
    | Destroy(h: nat)

  /** New pointers get new addresses, and a raw pointer is handed over at most once. */
  ghost predicate Enabled(w: World, op: Op) {
    match op
    case Default(h) => h !in w.handles
    case Adopt(h, p) => h !in w.handles && (p == 0 || p !in w.adopted)
    case Copy(h, from) => h !in w.handles && from in w.handles
    case Assign(h, from) => h in w.handles && from in w.handles
    case Destroy(h) => h in w.handles
  }

  ghost function Apply(w: World, op: Op): World
    requires Enabled(w, op)
  {
    match op
    case Default(h) => w.Default(h)
    case Adopt(h, p) => w.Adopt(h, p)
    case Copy(h, from) => w.Share(h, from)
    case Assign(h, from) => w.Assign(h, from)
    case Destroy(h) => w.Drop(h)
  }

  const EMPTY := World(map[], [], {}, 1)

  // ---------------------------------------------------------------- every run

  lemma DropKeepsInv(w: World, h: nat)
    requires w.Inv() && h in w.handles
    ensures w.Drop(h).Inv()
  {
    var w', ref := w.Drop(h), w.handles[h].ref;
    assert w.Sound(h) && h in Owners(w.handles, ref);
    forall o: nat
      ensures w'.Sound(o)
    {
      assert w.Sound(o) && w.Agree(h, o);
      assert o in w.handles && w.handles[o].ref == ref ==> o in Owners(w.handles, ref);
    }
    forall o: nat, o': nat
      ensures w'.Agree(o, o')
    {
      assert w.Agree(o, o');
    }
    forall p: nat
      ensures w'.Accounted(p)
    {
      assert w.Accounted(p);
      if p != 0 && w.Owned(p) {
        var o :| o in w.handles && w.handles[o].ptr == p;
        if o != h {
          assert w'.handles[o].ptr == p;
        } else if Owners(w.handles, ref) != {h} {
          var o' :| o' in Owners(w.handles, ref) && o' != h;
          assert w.Agree(h, o') && w.Sound(h) && w'.handles[o'].ptr == p;
        }
      }
    }
  }

  /** A further pointer whose fields are those of another one, or null, or a new object's. */
  lemma NewHandleKeepsInv(w: World, h: nat, w': World)
    requires w.Inv() && h !in w.handles && h in w'.handles && w'.handles == w.handles[h := w'.handles[h]]
    requires w'.deleted == w.deleted && w.adopted <= w'.adopted <= w.adopted + {w'.handles[h].ptr}
    requires w.next <= w'.next && w'.Sound(h)
    requires forall o: nat :: w'.Agree(h, o) && w'.Agree(o, h)
    ensures w'.Inv()
  {
    forall o: nat
      ensures w'.Sound(o)
    {
      assert w.Sound(o);
    }
    forall o: nat, o': nat
      ensures w'.Agree(o, o')
    {
      assert w.Agree(o, o') && w'.Agree(h, o') && w'.Agree(o, h);
    }
    forall p: nat
      ensures w'.Accounted(p)
    {
      assert w.Accounted(p);
      if p != 0 && w.Owned(p) {
        var o :| o in w.handles && w.handles[o].ptr == p;
        assert w'.handles[o].ptr == p;
      } else if p == w'.handles[h].ptr {
        assert w'.Owned(p);
      }
    }
  }

  lemma ShareKeepsInv(w: World, h: nat, from: nat)
    requires w.Inv() && h !in w.handles && from in w.handles
    ensures w.Share(h, from).Inv()
  {
    var w' := w.Share(h, from);
    assert w.Sound(from);
    forall o: nat
      ensures w'.Agree(h, o) && w'.Agree(o, h)
    {
      assert w.Agree(from, o) && w.Agree(o, from);
    }
    NewHandleKeepsInv(w, h, w');
  }

  lemma DefaultKeepsInv(w: World, h: nat)
    requires w.Inv() && h !in w.handles
    ensures w.Default(h).Inv()
  {
    var w' := w.Default(h);
    assert w.Accounted(0);
    forall o: nat
      ensures w'.Agree(h, o) && w'.Agree(o, h)
    {
    }
    NewHandleKeepsInv(w, h, w');
  }

  lemma AdoptKeepsInv(w: World, h: nat, p: nat)
    requires w.Inv() && h !in w.handles && (p == 0 || p !in w.adopted)
    ensures w.Adopt(h, p).Inv()
  {
    var w' := w.Adopt(h, p);
    assert w.Accounted(p);
    forall o: nat
      ensures w'.Agree(h, o) && w'.Agree(o, h)
    {
      assert w.Sound(o);
    }
    NewHandleKeepsInv(w, h, w');
  }

  lemma StepKeepsInv(w: World, op: Op)
    requires w.Inv() && Enabled(w, op)
    ensures Apply(w, op).Inv()
  {
    match op
    case Default(h) => DefaultKeepsInv(w, h);
    case Adopt(h, p) => AdoptKeepsInv(w, h, p);
    case Copy(h, from) => ShareKeepsInv(w, h, from);
    case Assign(h, from) =>
      if h != from {
        DropKeepsInv(w, h);
        ShareKeepsInv(w.Drop(h), h, from);
      }
    case Destroy(h) => DropKeepsInv(w, h);
  }

  ghost predicate IsRun(ops: seq<Op>, ws: seq<World>) {
    && |ws| == |ops| + 1 && ws[0] == EMPTY
    && forall x | 0 <= x < |ops| :: Enabled(ws[x], ops[x]) && Apply(ws[x], ops[x]) == ws[x + 1]
  }

  lemma {:induction false} RunKeepsInv(ops: seq<Op>, ws: seq<World>, x: nat)
    requires IsRun(ops, ws) && x < |ws|
    ensures ws[x].Inv()
  {
    if x > 0 {
      RunKeepsInv(ops, ws, x - 1);
      assert Enabled(ws[x - 1], ops[x - 1]) && Apply(ws[x - 1], ops[x - 1]) == ws[x - 1 + 1];
      StepKeepsInv(ws[x - 1], ops[x - 1]);
    }
  }

  /** At every moment of every run, each object that was handed over is either owned and not
      deleted, or has no owner and was deleted exactly once; nothing else was deleted. */
  lemma DeletedExactlyOnce(ops: seq<Op>, ws: seq<World>, x: nat, p: nat)
    requires IsRun(ops, ws) && x < |ws| && p != 0
    ensures multiset(ws[x].deleted)[p] == if p in ws[x].adopted && !ws[x].Owned(p) then 1 else 0
  {
    var w := ws[x];
    RunKeepsInv(ops, ws, x);
    DistinctCounts(w.deleted, p);
    assert w.Accounted(p);
    if w.Owned(p) {
      var h :| h in w.handles && w.handles[h].ptr == p;
      assert w.Sound(h);
    }
  }

  lemma {:induction false} DistinctCounts(s: seq<nat>, p: nat)
    requires Distinct(s)
    ensures multiset(s)[p] == if p in s then 1 else 0
  {
    if s != [] {
      DistinctCounts(s[1..], p);
      assert s == [s[0]] + s[1..];
    }
  }

  /** An object goes at the very step that takes its last owner. */
  lemma GoesWithItsLastOwner(w: World, op: Op, p: nat)
    requires w.Inv() && Enabled(w, op) && p != 0
    ensures p in Apply(w, op).deleted && p !in w.deleted <==> w.Owned(p) && !Apply(w, op).Owned(p)
  {
    StepKeepsInv(w, op);
    var w' := Apply(w, op);
    assert w.Accounted(p) && w'.Accounted(p);
    if w.Owned(p) {
      var h :| h in w.handles && w.handles[h].ptr == p;
      assert w.Sound(h);
    }
    if w'.Owned(p) {
      var h :| h in w'.handles && w'.handles[h].ptr == p;
      assert w'.Sound(h);
    }
  }
}

/** The original's counting implementation of shared ownership. */
module SharedPointers {
  import opened Ownership

  /** The pointer objects, the control blocks and the objects of a program. */
  class Store {
    var handles: map<nat, Handle>
    var counts: map<nat, int>  // the allocated control blocks
    var objects: set<nat>      // the objects that are handed over and not deleted
    var next: nat
    ghost var deleted: seq<nat>
    ghost var adopted: set<nat>

    ghost function View(): World
      reads this
    {
      World(handles, deleted, adopted, next)
    }

    /** Block b is allocated while some pointer among hs shares it, and counts those. */
    ghost predicate Counted(hs: map<nat, Handle>, b: nat)
      reads `counts
    {
      && (b in counts <==> b != 0 && Owners(hs, b) != {})
      && (b in counts ==> counts[b] == |Owners(hs, b)|)
    }

    ghost predicate Counting(hs: map<nat, Handle>)
      reads `counts
    {
      forall b: nat :: Counted(hs, b)
    }

    /** Object p is allocated from its handing over to its deletion. */
    ghost predicate Stored(p: nat)
      reads `objects, `adopted, `deleted
    {
      p in objects <==> p in adopted && p != 0 && p !in deleted
    }

    ghost predicate AllStored()
      reads `objects, `adopted, `deleted
    {
      forall p: nat :: Stored(p)
    }

    ghost predicate Valid()
      reads this
    {
      View().Inv() && Counting(handles) && AllStored()
    }

    constructor ()
      ensures Valid() && View() == EMPTY
      ensures handles == map[] && objects == {} && deleted == []
    {
      handles, counts, objects, next := map[], map[], {}, 1;
      deleted, adopted := [], {};
    }

    /** h gives up its share; its fields stay as they are. */
    method Release(h: nat)
      requires Valid() && h in handles
      modifies `counts, `objects, `deleted
      ensures Counting(handles - {h}) && deleted == old(deleted) + old(View().Leaving(h))
      ensures AllStored()
    {
      var Handle(ptr, ref) := handles[h];
      assert View().Sound(h) && Stored(ptr) && Counted(handles, ref);
      ghost var last := Owners(handles, ref) == {h};
      OwnersWithout(handles, h, ref);
      if ref != 0 {
        counts := counts[ref := counts[ref] - 1];
        if counts[ref] == 0 {
          if ptr != 0 {
            assert ptr in objects;  // the object is deleted for the first time
            objects := objects - {ptr};
            deleted := deleted + [ptr];
          }
          counts := counts - {ref};
        }
      }
      forall b: nat
        ensures Counted(handles - {h}, b)
      {
        assert old(Counted(handles, b));
        OwnersWithout(handles, h, b);
      }
      forall p: nat
        ensures Stored(p)
      {
        assert old(Stored(p));
      }
    }

    /** Takes the fields of another pointer and counts the new share. */
    method Share(h: nat, from: nat)
      requires Counting(handles - {h}) && from in handles && h != from
      modifies `handles, `counts
      ensures handles == old(handles)[h := old(handles[from])] && Counting(handles)
    {
      var Handle(ptr, ref) := handles[from];
      ghost var rest := handles - {h};
      assert Counted(rest, ref) && from in Owners(rest, ref);
      handles := handles[h := Handle(ptr, ref)];
      if ref != 0 {
        counts := counts[ref := counts[ref] + 1];
      }
      assert handles - {h} == rest;
      forall b: nat
        ensures Counted(handles, b)
      {
        assert old(Counted(handles - {h}, b));
        OwnersWithout(handles, h, b);
      }
    }

    method DefaultConstruct(h: nat)
      requires Valid() && Enabled(View(), Op.Default(h))
      modifies this
      ensures Valid() && View() == Apply(old(View()), Op.Default(h))
      ensures handles == old(handles)[h := Handle(0, 0)]
    {
      DefaultKeepsInv(View(), h);
      handles := handles[h := NULL_HANDLE];
      forall b: nat
        ensures Counted(handles, b)
      {
        assert old(Counted(handles, b));
        assert b != 0 ==> Owners(handles, b) == Owners(old(handles), b);
      }
    }

    method Construct(h: nat, p: nat)
      requires Valid() && Enabled(View(), Op.Adopt(h, p))
      modifies this
      ensures Valid() && View() == Apply(old(View()), Op.Adopt(h, p))
      // a pointer to p with a block of its own
      ensures h in handles && handles == old(handles)[h := handles[h]] && handles[h].ptr == p
      ensures handles[h].ref != 0 && Owners(handles, handles[h].ref) == {h}
    {
      AdoptKeepsInv(View(), h, p);
      handles := handles[h := Handle(p, next)];
      counts := counts[next := 1];
      next := next + 1;
      if p != 0 {
        objects := objects + {p};
      }
      adopted := adopted + {p};
      NewBlockOwners(old(View()), h, p, old(next));
      forall b: nat
        ensures Counted(handles, b)
      {
        assert old(Counted(handles, b));
        NewBlockOwners(old(View()), h, p, b);
      }
      forall q: nat
        ensures Stored(q)
      {
        assert old(Stored(q)) && old(View()).Accounted(q);
      }
    }

    /** The copy constructor, and the move constructor, which copies as well. */
    method CopyConstruct(h: nat, from: nat)
      requires Valid() && Enabled(View(), Op.Copy(h, from))
      modifies this
      ensures Valid() && View() == Apply(old(View()), Op.Copy(h, from))
      // the fields of the other pointer, and one more owner of its block
      ensures handles == old(handles)[h := old(handles[from])] && objects == old(objects)
      ensures Owners(handles, handles[h].ref) == old(Owners(handles, handles[from].ref)) + {h}
      ensures |Owners(handles, handles[h].ref)| == old(|Owners(handles, handles[from].ref)|) + 1
    {
      ShareKeepsInv(View(), h, from);
      assert handles - {h} == handles;
      Share(h, from);
    }

    /** Copy assignment, and move assignment, which copies as well. */
    method Assign(h: nat, from: nat)
      requires Valid() && Enabled(View(), Op.Assign(h, from))
      modifies this
      ensures Valid() && View() == Apply(old(View()), Op.Assign(h, from))
      ensures old(handles[h].ref == handles[from].ref) ==> deleted == old(deleted)
      // the fields of the other pointer, one more owner of its block, and one less of the old one
      ensures handles == old(handles)[h := old(handles[from])]
      ensures Owners(handles, handles[h].ref) == old(Owners(handles, handles[from].ref)) + {h}
      ensures old(handles[h].ref != handles[from].ref) ==>
                Owners(handles, old(handles[h].ref)) == old(Owners(handles, handles[h].ref)) - {h}
    {
      if h != from {
        ghost var w := View();
        DropKeepsInv(w, h);
        ShareKeepsInv(w.Drop(h), h, from);
        SharedStays(w, h, from);
        Release(h);
        Share(h, from);
        assert handles == w.Assign(h, from).handles;
      }
    }

    method Destroy(h: nat)
      requires Valid() && Enabled(View(), Op.Destroy(h))
      modifies this
      ensures Valid() && View() == Apply(old(View()), Op.Destroy(h))
      ensures handles == old(handles) - {h}
    {
      DropKeepsInv(View(), h);
      Release(h);
      handles := handles - {h};
    }

    method UseCount(h: nat) returns (n: int)
      requires Valid() && h in handles
      ensures n == if handles[h].ref == 0 then 0 else |Owners(handles, handles[h].ref)|
    {
      var ref := handles[h].ref;
      assert Counted(handles, ref) && h in Owners(handles, ref);
      n := if ref != 0 then counts[ref] else 0;
    }
  }

  lemma OwnersWithout(hs: map<nat, Handle>, h: nat, ref: nat)
    requires h in hs
    ensures Owners(hs - {h}, ref) == Owners(hs, ref) - {h}
    ensures |Owners(hs - {h}, ref)| == |Owners(hs, ref)| - if hs[h].ref == ref then 1 else 0
  {
    assert Owners(hs - {h}, ref) == Owners(hs, ref) - {h};
  }

  /** The new block has the new pointer as its only owner; the other blocks keep theirs. */
  lemma NewBlockOwners(w: World, h: nat, p: nat, b: nat)
    requires w.Inv() && h !in w.handles
    ensures Owners(w.handles[h := Handle(p, w.next)], b) == if b == w.next then {h} else Owners(w.handles, b)
  {
    assert forall o | o in w.handles :: w.Sound(o);
  }

  /** Nothing leaves when another pointer shares the block. */
  lemma SharedStays(w: World, h: nat, from: nat)
    requires w.Inv() && h in w.handles && from in w.handles && h != from
    ensures w.handles[h].ref == w.handles[from].ref ==> w.Leaving(h) == []
  {
    assert w.handles[h].ref == w.handles[from].ref ==> from in Owners(w.handles, w.handles[h].ref);
  }
}
