/**
 The context object: registration, removal, dispatch, the command graph and destruction, over an allocator that may
 refuse any request. At every point the context owns each of its live blocks exactly once.
 */
module RegistryContext {
  import opened Bytes
  import opened Recognisers
  import opened CommandTable
  import opened CommandGraph
  import opened GraphRoom
  import opened JsonBuffer
  import opened Allocator
  import opened StatusCodes
  import opened Registry

  datatype Graph = Graph(block: nat, buffer: Buffer)

  /** The array's contents: the entries, then cleared ones. */
  ghost predicate Holds(all: seq<Slot>, entries: seq<Slot>) {
    |entries| <= |all| && all[..|entries|] == entries && forall i :: |entries| <= i < |all| ==> all[i] == Empty
  }

  class Context {
    const heap: Heap
    const block: nat
    ghost const foreign: nat
    var slots: array?<Slot>
    var slotsBlock: nat
    var count: nat
    var graph: Option<Graph>
    ghost var entries: seq<Slot>

    function Capacity(): nat
      reads `slots
    {
      if slots == null then 0 else slots.Length
    }

    /** The array holds the entries, and nothing after them. */
    ghost predicate Stored()
      reads this, slots
    {
      && |entries| == count <= Capacity() <= CAPACITY_LIMIT
      && (slots != null ==> Holds(slots[..], entries))
    }

    /** The registered commands, in order. */
    ghost function Contents(): (c: seq<Registration>)
      reads `entries
      requires AllHeld(entries)
      ensures |c| == |entries|
    {
      Registrations(entries)
    }

    ghost function StorageBlock(): nat
      reads `slots, `slotsBlock
    {
      Behind(heap.watched, if slots == null then None else Some(slotsBlock))
    }

    ghost function GraphBlock(): nat
      reads `graph
    {
      Behind(heap.watched, if graph.None? then None else Some(graph.value.block))
    }

    /** How often the watched block is the context's own, the array's, the graph's or behind an entry. */
    ghost function Owned(): nat
      reads `entries, `slots, `slotsBlock, `graph
    {
      Behind(heap.watched, Some(block)) + SlotBlocks(heap.watched, entries) + StorageBlock() + GraphBlock()
    }

    /** The watched block is live exactly if somebody else holds it, or it is owned here, or is among `more`; never twice. */
    ghost predicate Owns(more: nat)
      reads `entries, `slots, `slotsBlock, `graph, heap
    {
      heap.Valid() && heap.Live() == foreign + Owned() + more
    }

    ghost predicate Sane(more: nat)
      reads this, slots, heap
    {
      Stored() && Owns(more)
    }

    ghost predicate Admitted()
      reads `entries
    {
      AllHeld(entries) && NamesDiffer(Contents()) && AllAdmitted(Contents())
    }

    ghost predicate Valid()
      reads this, slots, heap
    {
      Sane(0) && Admitted()
    }

    constructor (heap: Heap, block: nat, ghost foreign: nat)
      requires heap.Valid() && heap.Live() == foreign + Behind(heap.watched, Some(block))
      ensures Valid() && Contents() == [] && graph.None? && this.heap == heap && this.foreign == foreign
      ensures slots == null
    {
      this.heap := heap;
      this.block := block;
      this.foreign := foreign;
      slots, slotsBlock, count, graph, entries := null, 0, 0, None, [];
    }

    /** ulk_invalidate_graph */
    method Invalidate()
      requires Owns(0)
      modifies `graph, heap`live
      ensures Owns(0) && graph.None? && heap.refusals == old(heap.refusals)
    {
      if graph.Some? {
        heap.Free(graph.value.block);
        graph := None;
      }
    }

    /** ulk_find_registered */
    method FindRegistered(name: Text) returns (found: Option<nat>)
      requires Stored() && AllHeld(entries)
      ensures found == Find(Contents(), name)
    {
      ghost var c := Contents();
      for i := 0 to count
        invariant Find(c, name) == FindFrom(c, name, i)
      {
        assert slots[..][i] == entries[i];
        if slots[i].registration.descriptor.command == name {
          return Some(i);
        }
      }
      return None;
    }

    // ----- growth -----

    /** ulk_ensure_registry_capacity */
    method EnsureCapacity(required: nat) returns (status: Status)
      requires Sane(0)
      modifies `slots, `slotsBlock, heap`next, heap`live, heap`refusals
      ensures Sane(0) && (slots == old(slots) || fresh(slots))
      ensures status == StatusInvalid <==> required > CAPACITY_LIMIT
      ensures heap.refusals >= old(heap.refusals)
      ensures status == StatusError <==> heap.refusals > old(heap.refusals)
      ensures Capacity() == if status == StatusOk then Grown(old(Capacity()), required) else old(Capacity())
      ensures status == StatusOk ==> required <= Capacity()
    {
      if required <= Capacity() {
        return StatusOk;
      }
      if required > CAPACITY_LIMIT {
        return StatusInvalid;
      }
      var capacity := GrowthLoop(Capacity(), required);
      var ok := Reallocate(capacity);
      status := if ok then StatusOk else StatusError;
    }

    method GrowthLoop(current: nat, required: nat) returns (capacity: nat)
      requires current < required <= CAPACITY_LIMIT
      ensures capacity == Grown(current, required) && required <= capacity <= CAPACITY_LIMIT
    {
      capacity := if current == 0 then INITIAL_CAPACITY else current;
      DoubledMeaning(capacity, required);
      while capacity < required
        invariant 0 < capacity <= CAPACITY_LIMIT && Doubled(capacity, required) == Grown(current, required)
        decreases required - capacity
      {
        if capacity > CAPACITY_LIMIT / 2 {
          capacity := CAPACITY_LIMIT;
          break;
        }
        capacity := capacity * 2;
      }
    }

    method CopySlots(capacity: nat) returns (replacement: array<Slot>)
      requires Stored() && count <= capacity
      ensures fresh(replacement) && replacement.Length == capacity && Holds(replacement[..], entries)
    {
      replacement := new Slot[capacity](_ => Empty);
      for i := 0 to count
        invariant replacement[..i] == entries[..i]
        invariant forall k :: i <= k < capacity ==> replacement[k] == Empty
      {
        assert slots[..][i] == entries[i];
        replacement[i] := slots[i];
      }
    }

    /** The old array, if there is one, goes back to the allocator. */
    method ReleaseStorage(ghost more: nat)
      requires Owns(more)
      modifies heap`live
      ensures heap.Valid() && heap.Live() == foreign + Owned() + more - StorageBlock()
    {
      if slots != null {
        heap.Free(slotsBlock);
      }
    }

    /** One block more, if the allocator grants it. */
    method TakeBlock() returns (granted: Option<nat>)
      requires Sane(0)
      modifies heap`next, heap`live, heap`refusals
      ensures Stored()
      ensures Owns(Behind(heap.watched, granted))
      ensures heap.refusals == old(heap.refusals) + if granted.None? then 1 else 0
    {
      granted := heap.Alloc();
    }

    /** A larger array takes over the entries, if the allocator grants it. */
    method Reallocate(capacity: nat) returns (ok: bool)
      requires Sane(0) && Capacity() < capacity <= CAPACITY_LIMIT
      modifies `slots, `slotsBlock, heap`next, heap`live, heap`refusals
      ensures Sane(0) && (slots == old(slots) || fresh(slots))
      ensures ok ==> heap.refusals == old(heap.refusals) && Capacity() == capacity
      ensures !ok ==> heap.refusals == old(heap.refusals) + 1 && Capacity() == old(Capacity())
    {
      var granted := TakeBlock();
      ok := granted.Some?;
      if ok {
        MoveTo(capacity, granted.value);
      }
    }

    method MoveTo(capacity: nat, newBlock: nat)
      requires Sane(Behind(heap.watched, Some(newBlock))) && Capacity() < capacity <= CAPACITY_LIMIT
      modifies `slots, `slotsBlock, heap`live
      ensures Sane(0) && fresh(slots) && Capacity() == capacity
    {
      var replacement := CopySlots(capacity);
      Adopt(replacement, newBlock);
    }

    method Adopt(replacement: array<Slot>, newBlock: nat)
      requires Owns(Behind(heap.watched, Some(newBlock))) && count == |entries| <= replacement.Length <= CAPACITY_LIMIT
      requires Holds(replacement[..], entries)
      modifies `slots, `slotsBlock, heap`live
      ensures Sane(0) && slots == replacement
    {
      ghost var all := replacement[..];
      ReleaseStorage(Behind(heap.watched, Some(newBlock)));
      assert replacement[..] == all;
      Install(replacement, newBlock);
    }

    method Install(replacement: array<Slot>, newBlock: nat)
      requires heap.Valid()
      requires heap.Live() == foreign + Owned() + Behind(heap.watched, Some(newBlock)) - StorageBlock()
      requires count == |entries| <= replacement.Length <= CAPACITY_LIMIT
      requires Holds(replacement[..], entries)
      modifies `slots, `slotsBlock
      ensures Sane(0) && slots == replacement
    {
      slots, slotsBlock := replacement, newBlock;
    }

    // ----- registration -----

    /** What stands in the way of a registration, in the order the checks are made. */
    ghost predicate Registrable(d: Descriptor, handler: nat)
      reads `entries
      requires AllHeld(entries)
    {
      IsDescriptor(d) && handler != 0 && Find(Contents(), d.command).None? && |entries| + 1 <= CAPACITY_LIMIT
    }

    method AllocTexts() returns (pointers: seq<Option<nat>>)
      requires Sane(0)
      modifies heap`next, heap`live, heap`refusals
      ensures Sane(Occurrences(heap.watched, pointers)) && heap.refusals >= old(heap.refusals)
      ensures Complete(pointers) == (heap.refusals == old(heap.refusals))
    {
      pointers := heap.AllocMany(10);
    }

    method FreeTexts(pointers: seq<Option<nat>>)
      requires Sane(Occurrences(heap.watched, pointers))
      modifies heap`live
      ensures Sane(0)
    {
      heap.FreeMany(pointers);
    }

    /** The ten copies: all of them, or none kept. */
    method CopyTexts() returns (pointers: seq<Option<nat>>, ok: bool)
      requires Sane(0)
      modifies heap`next, heap`live, heap`refusals
      ensures heap.refusals >= old(heap.refusals) && ok == (heap.refusals == old(heap.refusals))
      ensures ok ==> Sane(Occurrences(heap.watched, pointers))
      ensures !ok ==> Sane(0)
    {
      pointers := AllocTexts();
      ok := Complete(pointers);
      if !ok {
        FreeTexts(pointers);
      }
    }

    lemma SlotBlocksSnoc(s: seq<Slot>, slot: Slot)
      requires slot.Held?
      ensures SlotBlocks(heap.watched, s + [slot]) == SlotBlocks(heap.watched, s) + Occurrences(heap.watched, slot.pointers)
    {}

    /** The new entry goes behind the others. */
    method Append(slot: Slot)
      requires slot.Held? && Sane(Occurrences(heap.watched, slot.pointers)) && count < Capacity()
      modifies `count, `entries, slots
      ensures Sane(0) && entries == old(entries) + [slot]
    {
      SlotBlocksSnoc(entries, slot);
      AppendedHolds(slots[..], entries, slot);
      slots[count] := slot;
      count, entries := count + 1, entries + [slot];
    }

    lemma AppendedHolds(all: seq<Slot>, s: seq<Slot>, slot: Slot)
      requires Holds(all, s) && |s| < |all|
      ensures Holds(all[|s| := slot], s + [slot])
    {}

    lemma RegistrationsSnoc(s: seq<Slot>, slot: Slot)
      requires AllHeld(s) && slot.Held?
      ensures AllHeld(s + [slot]) && Registrations(s + [slot]) == Registrations(s) + [slot.registration]
    {}

    lemma AdmittedSnoc(c: seq<Registration>, r: Registration)
      requires NamesDiffer(c) && AllAdmitted(c) && IsDescriptor(r.descriptor) && r.handler != 0
      requires Find(c, r.descriptor.command).None?
      ensures NamesDiffer(c + [r]) && AllAdmitted(c + [r])
    {
      Registered(c, r, r.descriptor.command);
    }

    /** The entry takes its place, and the graph no longer tells the truth. */
    method Insert(r: Registration, pointers: seq<Option<nat>>)
      requires Sane(Occurrences(heap.watched, pointers)) && count < Capacity()
      modifies `count, `entries, `graph, slots, heap`live
      ensures Sane(0) && entries == old(entries) + [Held(r, pointers)] && graph.None?
      ensures slots == old(slots) && heap.refusals == old(heap.refusals)
    {
      Append(Held(r, pointers));
      Drop();
    }

    method Drop()
      requires Sane(0)
      modifies `graph, heap`live
      ensures Sane(0) && graph.None? && heap.refusals == old(heap.refusals)
    {
      Invalidate();
    }

    method RoomAndTexts() returns (status: Status, pointers: seq<Option<nat>>)
      requires Sane(0)
      modifies `slots, `slotsBlock, heap`next, heap`live, heap`refusals
      ensures (slots == old(slots) || fresh(slots)) && heap.refusals >= old(heap.refusals)
      ensures status == StatusInvalid <==> count + 1 > CAPACITY_LIMIT
      ensures status == StatusError <==> heap.refusals > old(heap.refusals)
      ensures status == StatusOk ==> Sane(Occurrences(heap.watched, pointers)) && count < Capacity()
      ensures status != StatusOk ==> Sane(0)
    {
      pointers := [];
      status := EnsureCapacity(count + 1);
      if status == StatusOk {
        var ok;
        pointers, ok := CopyTexts();
        if !ok {
          status := StatusError;
        }
      }
    }

    /** Room and copies first, then the entry: nothing is changed before everything has been granted. */
    method Enrol(r: Registration) returns (status: Status, ghost pointers: seq<Option<nat>>)
      requires Sane(0)
      modifies `slots, `slotsBlock, `count, `entries, `graph, slots, heap`next, heap`live, heap`refusals
      ensures Sane(0) && (slots == old(slots) || fresh(slots))
      ensures status == StatusOk ==> entries == old(entries) + [Held(r, pointers)] && graph.None?
      ensures status != StatusOk ==> entries == old(entries) && graph == old(graph)
      ensures status == StatusInvalid <==> old(count) + 1 > CAPACITY_LIMIT
      ensures status == StatusError <==> heap.refusals > old(heap.refusals)
    {
      var copies;
      status, copies := RoomAndTexts();
      if status == StatusOk {
        Insert(r, copies);
      }
      return status, copies;
    }

    /** ulk_register_internal: appended, or refused with nothing changed but the room set aside. */
    method Register(d: Descriptor, handler: nat, user: nat) returns (status: Status)
      requires Valid()
      modifies this, slots, heap
      ensures Valid() && (slots == old(slots) || fresh(slots))
      ensures status == StatusOk ==> Contents() == old(Contents()) + [Registration(d, handler, user)] && graph.None?
      ensures status != StatusOk ==> Contents() == old(Contents()) && graph == old(graph)
      ensures status == StatusInvalid <==> !old(Registrable(d, handler))
      ensures status == StatusError <==> heap.refusals > old(heap.refusals)
    {
      var ok := ValidateDescriptor(d);
      var found := FindRegistered(d.command);
      if !ok || handler == 0 || found.Some? {
        return StatusInvalid;
      }
      var r := Registration(d, handler, user);
      AdmittedSnoc(Contents(), r);
      ghost var pointers;
      status, pointers := Enrol(r);
      RegistrationsSnoc(old(entries), Held(r, pointers));
    }

    // ----- removal -----

    lemma RemovedHolds(before: seq<Slot>, after: seq<Slot>, s: seq<Slot>, k: nat)
      requires Holds(before, s) && k < |s| && |after| == |before|
      requires after[..k] == before[..k] && after[k..|s| - 1] == before[k + 1..|s|] && after[|s| - 1] == Empty
      requires after[|s|..] == before[|s|..]
      ensures Holds(after, s[..k] + s[k + 1..])
    {}

    /** The entries behind `index` move down by one and the last is cleared. */
    method CloseGap(index: nat)
      requires slots != null && Stored() && index < count
      modifies `count, slots
      ensures slots != null && count == old(count) - 1 && Holds(slots[..], entries[..index] + entries[index + 1..])
    {
      ghost var before, n := slots[..], count;
      for move := index to count - 1
        invariant unchanged(`count) && count == n <= slots.Length && slots.Length == |before|
        invariant slots[..index] == before[..index] && slots[index..move] == before[index + 1..move + 1]
        invariant slots[move..] == before[move..]
      {
        assert slots[move + 1] == slots[move..][1] == before[move + 1];
        assert slots[move..][1..] == slots[move + 1..] && before[move..][1..] == before[move + 1..];
        slots[move] := slots[move + 1];
      }
      assert slots[n - 1..][1..] == slots[n..] && before[n - 1..][1..] == before[n..];
      slots[count - 1] := Empty;
      RemovedHolds(before, slots[..], entries, index);
      count := count - 1;
    }

    method ClearEntry(index: nat)
      requires Sane(0) && AllHeld(entries) && index < count
      modifies heap`live
      ensures Stored() && heap.Valid()
      ensures heap.Live() == foreign + Owned() - Occurrences(heap.watched, entries[index].pointers)
    {
      assert slots[..][index] == entries[index];
      SlotBlocksWithout(heap.watched, entries, index);
      heap.FreeMany(slots[index].pointers);
    }

    method RemoveAt(index: nat)
      requires Sane(0) && AllHeld(entries) && index < count
      modifies `count, `entries, slots, heap`live
      ensures Sane(0) && entries == old(entries[..index] + entries[index + 1..])
    {
      SlotBlocksWithout(heap.watched, entries, index);
      ClearEntry(index);
      CloseGap(index);
      entries := entries[..index] + entries[index + 1..];
    }

    lemma RegistrationsWithout(s: seq<Slot>, k: nat)
      requires AllHeld(s) && k < |s|
      ensures AllHeld(s[..k] + s[k + 1..]) && Registrations(s[..k] + s[k + 1..]) == Without(Registrations(s), k)
    {}

    lemma AdmittedWithout(c: seq<Registration>, k: nat)
      requires NamesDiffer(c) && AllAdmitted(c) && k < |c|
      ensures NamesDiffer(Without(c, k)) && AllAdmitted(Without(c, k))
    {}

    method RemoveEntry(index: nat)
      requires Sane(0) && AllHeld(entries) && index < count
      modifies `count, `entries, `graph, slots, heap`live
      ensures Sane(0) && entries == old(entries[..index] + entries[index + 1..]) && graph.None?
    {
      RemoveAt(index);
      Drop();
    }

    method RemoveRegistration(index: nat)
      requires Valid() && index < count
      modifies `count, `entries, `graph, slots, heap`live
      ensures Valid() && Contents() == old(Without(Contents(), index)) && graph.None?
    {
      RegistrationsWithout(entries, index);
      AdmittedWithout(Contents(), index);
      RemoveEntry(index);
    }

    /** ulk_command_unregister_v1: removed with the order of the others kept, or refused with nothing changed. */
    method Unregister(name: Text) returns (status: Status)
      requires Valid()
      modifies this, slots, heap
      ensures Valid() && slots == old(slots) && heap.refusals == old(heap.refusals)
      ensures status == StatusOk || status == StatusInvalid
      ensures status == StatusOk <==> IsCanonicalCommandId(name) && old(Find(Contents(), name)).Some?
      ensures status == StatusOk ==>
                Contents() == old(Without(Contents(), Find(Contents(), name).value)) && graph.None?
      ensures status == StatusInvalid ==> Contents() == old(Contents()) && graph == old(graph)
    {
      var ok := ScanCanonicalCommandId(name);
      if !ok {
        return StatusInvalid;
      }
      var found := FindRegistered(name);
      if found.None? {
        return StatusInvalid;
      }
      RemoveRegistration(found.value);
      return StatusOk;
    }

    // ----- dispatch -----

    method FindInTable(name: Text) returns (found: Option<nat>)
      ensures found == FindBuiltin(name)
    {
      for i := 0 to BUILTIN_COUNT
        invariant FindBuiltin(name) == FindBuiltinFrom(name, i)
      {
        if name == BuiltinName(i) {
          return Some(i);
        }
      }
      return None;
    }

    /** What ulk_command_execute_v1 hands the request to; an empty name is no request. */
    method Resolve(name: Text) returns (d: Option<Dispatch>)
      requires Valid()
      ensures d == if name == [] then None else Some(Dispatched(Contents(), name))
    {
      if |name| == 0 {
        return None;
      }
      var found := FindRegistered(name);
      if found.Some? {
        assert slots[..][found.value] == entries[found.value];
        var r := slots[found.value].registration;
        return Some(Handler(r.handler, r.user));
      }
      var builtin := FindInTable(name);
      d := Some(if builtin.Some? then BuiltIn(builtin.value) else Unsupported);
    }

    // ----- the command graph -----

    method OverlayOf(i: nat) returns (m: Metadata)
      requires Stored() && AllHeld(entries) && i < BUILTIN_COUNT
      ensures m == Overlay(Contents(), i)
    {
      var found := FindRegistered(BuiltinName(i));
      if found.None? {
        return Builtin(i);
      }
      assert slots[..][found.value] == entries[found.value];
      m := FromRegistration(slots[found.value].registration);
    }

    /** The built-in commands with their replacements, then the registered ones that replace nothing. */
    method ListEntries() returns (listed: seq<Metadata>)
      requires Stored() && AllHeld(entries)
      ensures listed == Entries(Contents())
    {
      ghost var c := Contents();
      listed := [];
      for i := 0 to BUILTIN_COUNT
        invariant |listed| == i && forall k :: 0 <= k < i ==> listed[k] == Overlay(c, k)
      {
        var m := OverlayOf(i);
        listed := listed + [m];
      }
      var extras: seq<Metadata> := [];
      for i := 0 to count
        invariant extras == Extras(c[..i])
      {
        assert slots[..][i] == entries[i];
        assert c[..i + 1][..i] == c[..i];
        var r := slots[i].registration;
        var builtin := FindInTable(r.descriptor.command);
        if builtin.None? {
          extras := extras + [FromRegistration(r)];
        }
      }
      assert c[..count] == c;
      listed := listed + extras;
    }

    method Keep(granted: nat, buffer: Buffer)
      requires Sane(Behind(heap.watched, Some(granted))) && graph.None?
      modifies `graph
      ensures Sane(0) && graph == Some(Graph(granted, buffer))
    {
      graph := Some(Graph(granted, buffer));
    }

    method StoreGraph(listed: seq<Metadata>, capacity: nat) returns (ok: bool)
      requires Sane(0) && graph.None? && capacity == GraphCapacity(listed)
      modifies `graph, heap`next, heap`live, heap`refusals
      ensures Sane(0) && heap.refusals == old(heap.refusals) + if ok then 0 else 1
      ensures if ok then graph.Some? && graph.value.buffer.Valid() && graph.value.buffer.Contents() == GraphText(listed)
              else graph.None?
    {
      var granted := TakeBlock();
      ok := granted.Some?;
      if ok {
        var printed, buffer := PrintGraph(listed, capacity);
        Keep(granted.value, buffer);
      }
    }

    /** ulk_build_command_graph, before the argument that the capacity never overflows. */
    method BuildGraph() returns (status: Status)
      requires Sane(0) && AllHeld(entries)
      modifies `graph, heap`next, heap`live, heap`refusals
      ensures Sane(0) && (status == StatusOk || status == StatusError)
      ensures status == StatusError <==> heap.refusals > old(heap.refusals) || GraphCapacity(Entries(Contents())) > SIZE_MAX
      ensures status == StatusOk ==>
                && graph.Some? && graph.value.buffer.Valid()
                && graph.value.buffer.Contents() == GraphText(Entries(Contents()))
      ensures status == StatusError ==> graph.None?
    {
      Drop();
      var listed := ListEntries();
      status := BuildFrom(listed);
    }

    /** The two passes over the listed entries. */
    method BuildFrom(listed: seq<Metadata>) returns (status: Status)
      requires Sane(0) && graph.None?
      modifies `graph, heap`next, heap`live, heap`refusals
      ensures Sane(0) && (status == StatusOk || status == StatusError)
      ensures status == StatusError <==> heap.refusals > old(heap.refusals) || GraphCapacity(listed) > SIZE_MAX
      ensures status == StatusOk ==>
                graph.Some? && graph.value.buffer.Valid() && graph.value.buffer.Contents() == GraphText(listed)
      ensures status == StatusError ==> graph.None?
    {
      var ok, capacity := CapacityOf(listed);
      if !ok {
        return StatusError;
      }
      ok := StoreGraph(listed, capacity);
      status := if ok then StatusOk else StatusError;
    }

    /** Inspecting the graph fails only if the allocator refuses: no capacity overflows and no append fails. */
    method InspectGraph() returns (status: Status)
      requires Valid()
      modifies this, heap
      ensures Valid() && slots == old(slots) && Contents() == old(Contents())
      ensures status == if heap.refusals > old(heap.refusals) then StatusError else StatusOk
      ensures status == StatusOk ==>
                && graph.Some? && graph.value.buffer.Valid()
                && graph.value.buffer.Contents() == GraphText(Entries(Contents()))
      ensures status == StatusError ==> graph.None?
    {
      CapacityBound(Contents());
      status := BuildGraph();
    }

    // ----- destruction -----

    method FreeEntries()
      requires Sane(0) && AllHeld(entries)
      modifies heap`live
      ensures Stored() && heap.Valid() && heap.Live() == foreign + Owned() - SlotBlocks(heap.watched, entries)
    {
      ghost var w, all := heap.watched, entries;
      for i := 0 to count
        invariant Stored() && entries == all && heap.Valid()
        invariant heap.Live() == foreign + Owned() - SlotBlocks(w, all[..i])
      {
        assert slots[..][i] == entries[i];
        assert all[..i + 1][..i] == all[..i];
        SlotBlocksConcat(w, all[..i + 1], all[i + 1..]);
        assert all == all[..i + 1] + all[i + 1..];
        heap.FreeMany(slots[i].pointers);
      }
      assert all[..count] == all;
    }

    /** ulk_context_destroy_v1: whatever happened before, nothing of the context's is left and nothing is freed twice. */
    method Destroy()
      requires Valid()
      modifies `graph, heap`live
      ensures heap.Valid() && heap.Live() == foreign
    {
      Drop();
      FreeEntries();
      if slots != null {
        heap.Free(slotsBlock);
      }
      heap.Free(block);
    }
  }

  /** ulk_context_create_v1, once the allocator has been accepted. */
  method Create(heap: Heap) returns (context: Context?)
    requires heap.Valid()
    modifies heap
    ensures heap.Valid()
    ensures context == null <==> heap.refusals > old(heap.refusals)
    ensures context == null ==> heap.Live() == old(heap.Live())
    ensures context != null ==> fresh(context) && context.heap == heap && context.slots == null
    ensures context != null ==> context.Valid() && context.Contents() == [] && context.foreign == old(heap.Live())
  {
    ghost var foreign := heap.Live();
    var granted := heap.Alloc();
    if granted.None? {
      return null;
    }
    context := new Context(heap, granted.value, foreign);
  }

  // ----- any life of a context -----

  datatype Request =
    | RegisterRequest(descriptor: Descriptor, handler: nat, user: nat)
    | UnregisterRequest(name: Text)
    | InspectRequest
    | ExecuteRequest(name: Text)

  method Serve(context: Context, request: Request)
    requires context.Valid()
    modifies context, context.slots, context.heap
    ensures context.Valid() && (context.slots == old(context.slots) || fresh(context.slots))
  {
    match request {
      case RegisterRequest(d, handler, user) =>
        var status := context.Register(d, handler, user);
      case UnregisterRequest(name) =>
        var status := context.Unregister(name);
      case InspectRequest =>
        var status := context.InspectGraph();
      case ExecuteRequest(name) =>
        var d := context.Resolve(name);
        if d == Some(BuiltIn(0)) {
          var status := context.InspectGraph();
        }
    }
  }

  /** From creation to destruction, whatever is asked in between and whatever the allocator refuses: nothing leaks. */
  method Life(heap: Heap, requests: seq<Request>)
    requires heap.Valid()
    modifies heap
    ensures heap.Valid() && heap.Live() == old(heap.Live())
  {
    var context := Create(heap);
    if context != null {
      for i := 0 to |requests|
        invariant fresh(context) && (context.slots == null || fresh(context.slots))
        invariant context.heap == heap && context.foreign == old(heap.Live()) && context.Valid()
      {
        Serve(context, requests[i]);
      }
      context.Destroy();
    }
  }
}
