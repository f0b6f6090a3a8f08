/**
 The caller's allocator, followed through the life of one block.

 Which block is followed is chosen before anything runs and is arbitrary, so what is proved of it holds of every
 block: it is freed only while live, and it is live exactly as long as somebody holds it.
 */
module Allocator {
  import opened Bytes

  /** How often the watched block is behind one pointer, zero or one times. */
  function Behind(watched: nat, pointer: Option<nat>): nat {
    if pointer == Some(watched) then 1 else 0
  }

  function Occurrences(watched: nat, pointers: seq<Option<nat>>): nat {
    if pointers == [] then 0
    else Occurrences(watched, pointers[..|pointers| - 1]) + Behind(watched, pointers[|pointers| - 1])
  }

  predicate Complete(pointers: seq<Option<nat>>) {
    forall i :: 0 <= i < |pointers| ==> pointers[i].Some?
  }

  lemma OneMore(watched: nat, pointers: seq<Option<nat>>, p: Option<nat>)
    ensures Occurrences(watched, pointers + [p]) == Occurrences(watched, pointers) + Behind(watched, p)
    ensures Complete(pointers + [p]) <==> Complete(pointers) && p.Some?
  {}

  class Heap {
    ghost const watched: nat
    var next: nat
    ghost var live: bool
    ghost var refusals: nat

    ghost predicate Valid()
      reads this
    {
      live ==> watched < next
    }

    /** How many owners the watched block must have. */
    ghost function Live(): nat
      reads `live
    {
      if live then 1 else 0
    }

    constructor (ghost watched: nat)
      ensures Valid() && this.watched == watched && !live
    {
      this.watched, next, live, refusals := watched, 0, false, 0;
    }

    /** A block that is not live, or a refusal. */
    method Alloc() returns (block: Option<nat>)
      requires Valid()
      modifies `next, `live, `refusals
      ensures Valid() && Live() == old(Live()) + Behind(watched, block)
      ensures refusals == old(refusals) + if block.None? then 1 else 0
    {
      var granted: bool := *;
      if !granted {
        refusals := refusals + 1;
        return None;
      }
      block := Some(next);
      live := live || next == watched;
      next := next + 1;
    }

    /** To free a block that is not live would be an error: a verified caller frees no block twice. */
    method Free(block: nat)
      requires Valid() && (block == watched ==> live)
      modifies `live
      ensures Valid() && Live() == old(Live()) - Behind(watched, Some(block))
    {
      live := live && block != watched;
    }

    /** Allocates `count` blocks, going on after a refusal as the caller does. */
    method AllocMany(count: nat) returns (pointers: seq<Option<nat>>)
      requires Valid()
      modifies `next, `live, `refusals
      ensures Valid() && |pointers| == count && Live() == old(Live()) + Occurrences(watched, pointers)
      ensures refusals >= old(refusals) && (refusals == old(refusals) <==> Complete(pointers))
    {
      pointers := [];
      for i := 0 to count
        invariant Valid() && |pointers| == i && Live() == old(Live()) + Occurrences(watched, pointers)
        invariant refusals >= old(refusals) && (refusals == old(refusals) <==> Complete(pointers))
      {
        var p := Alloc();
        OneMore(watched, pointers, p);
        pointers := pointers + [p];
      }
    }

    /** Frees what is behind the pointers that are not null, of all of which the caller is the owner. */
    method FreeMany(pointers: seq<Option<nat>>)
      requires Valid() && Live() >= Occurrences(watched, pointers)
      modifies `live
      ensures Valid() && Live() == old(Live()) - Occurrences(watched, pointers)
    {
      ghost var rest := Live() - Occurrences(watched, pointers);
      var i := |pointers|;
      assert pointers[..i] == pointers;
      while i > 0
        invariant 0 <= i <= |pointers| && Valid() && Live() == rest + Occurrences(watched, pointers[..i])
      {
        i := i - 1;
        assert pointers[..i + 1][..i] == pointers[..i];
        if pointers[i].Some? {
          Free(pointers[i].value);
        }
      }
    }
  }
}
