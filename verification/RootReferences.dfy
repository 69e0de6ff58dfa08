/** Blocks of three root references each (IL2C.Runtime/src/Core/il2c_allocator.c). */
module RootReferences {
  import opened RefHeaders

  const SLOTS: nat := 3

  function Flat(blocks: seq<seq<Addr>>): seq<Addr> {
    if blocks == [] then [] else blocks[0] + Flat(blocks[1..])
  }

  lemma {:induction false} FlatMember(blocks: seq<seq<Addr>>, a: Addr)
    ensures a in Flat(blocks) <==> exists i :: 0 <= i < |blocks| && a in blocks[i]
  {
    if blocks != [] {
      FlatMember(blocks[1..], a);
      if i :| 0 <= i < |blocks[1..]| && a in blocks[1..][i] { assert a in blocks[i + 1]; }
      if i :| 0 <= i < |blocks| && a in blocks[i] { assert i > 0 ==> a in blocks[1..][i - 1]; }
    }
  }

  /** A list of blocks that holds no object twice. */
  class RootList {
    var blocks: seq<seq<Addr>>

    ghost predicate Valid()
      reads this
    {
      && (forall i :: 0 <= i < |blocks| ==> |blocks[i]| == SLOTS)
      && (forall i, j, k, l ::
            (0 <= i < |blocks| && 0 <= j < |blocks| && 0 <= k < |blocks[i]| && 0 <= l < |blocks[j]| &&
             blocks[i][k] == blocks[j][l] != 0) ==> i == j && k == l)
    }

    ghost predicate Holds(a: Addr)
      reads this
    {
      a != 0 && exists i :: 0 <= i < |blocks| && a in blocks[i]
    }

    lemma FlatHolds()
      ensures forall a :: a != 0 ==> (a in Flat(blocks) <==> Holds(a))
    {
      forall a | a != 0 ensures a in Flat(blocks) <==> Holds(a) {
        FlatMember(blocks, a);
      }
    }

    constructor ()
      ensures Valid() && blocks == []
    {
      blocks := [];
    }

    /** Position of an object, or of the first free slot, or neither. */
    method Find(a: Addr) returns (found: bool, block: nat, slot: nat)
      requires Valid()
      ensures found ==> block < |blocks| && slot < SLOTS && blocks[block][slot] == a
      ensures !found ==> forall i :: 0 <= i < |blocks| ==> a !in blocks[i]
    {
      block := 0;
      while block < |blocks|
        invariant block <= |blocks|
        invariant forall i :: 0 <= i < block ==> a !in blocks[i]
      {
        slot := 0;
        while slot < SLOTS
          invariant slot <= SLOTS
          invariant forall k :: 0 <= k < slot ==> blocks[block][k] != a
        {
          if blocks[block][slot] == a {
            return true, block, slot;
          }
          slot := slot + 1;
        }
        block := block + 1;
      }
      return false, 0, 0;
    }

    /** Registering adds exactly the object; registering it again changes nothing. */
    method Register(a: Addr)
      requires Valid() && a != 0
      modifies this
      ensures Valid()
      ensures forall x :: Holds(x) <==> x == a || old(Holds(x))
      ensures old(Holds(a)) ==> blocks == old(blocks)
    {
      var found, block, slot := Find(a);
      if found { return; }
      var free;
      free, block, slot := Find(0);
      if free {
        var b := blocks[block][slot := a];
        blocks := blocks[block := b];
        assert b[slot] == a;
        forall x ensures Holds(x) <==> x == a || old(Holds(x)) {
          if old(Holds(x)) {
            var i :| 0 <= i < |old(blocks)| && x in old(blocks)[i];
            var k :| 0 <= k < SLOTS && old(blocks)[i][k] == x;
            assert blocks[i][k] == x;
          }
          if x == a { assert a in blocks[block]; }
        }
      } else {
        blocks := [[a, 0, 0]] + blocks;
        forall x ensures Holds(x) <==> x == a || old(Holds(x)) {
          if i :| 0 <= i < |old(blocks)| && x in old(blocks)[i] { assert x in blocks[i + 1]; }
          if i :| 0 <= i < |blocks| && x in blocks[i] { assert i > 0 ==> x in old(blocks)[i - 1]; }
          if x == a { assert a in blocks[0]; }
        }
      }
    }

    /** Unregistering removes exactly the object. */
    method Unregister(a: Addr)
      requires Valid() && a != 0
      modifies this
      ensures Valid()
      ensures forall x :: Holds(x) <==> x != a && old(Holds(x))
    {
      var found, block, slot := Find(a);
      if found {
        var b := blocks[block][slot := 0];
        blocks := blocks[block := b];
        forall x ensures Holds(x) <==> x != a && old(Holds(x)) {
          if x != a && old(Holds(x)) {
            var i :| 0 <= i < |old(blocks)| && x in old(blocks)[i];
            var k :| 0 <= k < SLOTS && old(blocks)[i][k] == x;
            assert blocks[i][k] == x;
          }
        }
      }
    }

    method UnregisterAll()
      modifies this
      ensures Valid() && blocks == []
    {
      while |blocks| > 0
        decreases |blocks|
      {
        blocks := blocks[1..];
      }
    }
  }
}
