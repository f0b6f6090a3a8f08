/**
 The command registry of a context: an array of entries that grows under a budget and keeps registration order, the
 blocks behind every text, and the graph text it owns.
 */
module Registry {
  import opened Bytes
  import opened Recognisers
  import opened Effects
  import opened Json
  import opened CommandTable
  import opened CommandGraph
  import opened GraphRoom
  import opened JsonBuffer
  import opened Allocator

  const INITIAL_CAPACITY: nat := 8
  const STORAGE_BUDGET: nat := 65536
  const ENTRY_BYTES: nat := 104
  const CAPACITY_LIMIT: nat := STORAGE_BUDGET / ENTRY_BYTES

  /** A cleared entry, or a command with the ten blocks its texts are in. */
  datatype Slot = Empty | Held(registration: Registration, pointers: seq<Option<nat>>)

  // ----- growth -----

  /** The loop of ulk_ensure_registry_capacity. */
  function Doubled(capacity: nat, required: nat): nat
    requires 0 < capacity <= CAPACITY_LIMIT && required <= CAPACITY_LIMIT
    decreases CAPACITY_LIMIT - capacity
  {
    if capacity >= required then capacity
    else if capacity > CAPACITY_LIMIT / 2 then CAPACITY_LIMIT
    else Doubled(capacity * 2, required)
  }

  function Grown(capacity: nat, required: nat): nat
    requires capacity <= CAPACITY_LIMIT && required <= CAPACITY_LIMIT
  {
    if required <= capacity then capacity else Doubled(if capacity == 0 then INITIAL_CAPACITY else capacity, required)
  }

  /** Growth reaches what is required, stays within the budget, and at most doubles what is needed beyond the first eight. */
  lemma {:induction false} DoubledMeaning(capacity: nat, required: nat)
    requires 0 < capacity <= CAPACITY_LIMIT && required <= CAPACITY_LIMIT
    ensures required <= Doubled(capacity, required) <= CAPACITY_LIMIT && capacity <= Doubled(capacity, required)
    ensures Doubled(capacity, required) * ENTRY_BYTES <= STORAGE_BUDGET
    ensures capacity < required ==> Doubled(capacity, required) < 2 * required
    decreases CAPACITY_LIMIT - capacity
  {
    if capacity < required && capacity <= CAPACITY_LIMIT / 2 {
      DoubledMeaning(capacity * 2, required);
    }
  }

  // ----- the blocks of the entries -----

  /** How often the watched block is behind an entry. */
  function SlotBlocks(watched: nat, slots: seq<Slot>): nat {
    if slots == [] then 0
    else SlotBlocks(watched, slots[..|slots| - 1]) +
         match slots[|slots| - 1] { case Empty => 0 case Held(_, pointers) => Occurrences(watched, pointers) }
  }

  lemma {:induction false} SlotBlocksConcat(watched: nat, a: seq<Slot>, b: seq<Slot>)
    ensures SlotBlocks(watched, a + b) == SlotBlocks(watched, a) + SlotBlocks(watched, b)
  {
    if b == [] {
      assert a + b == a;
    } else {
      assert (a + b)[..|a + b| - 1] == a + b[..|b| - 1];
      SlotBlocksConcat(watched, a, b[..|b| - 1]);
    }
  }

  lemma SlotBlocksWithout(watched: nat, slots: seq<Slot>, k: nat)
    requires k < |slots| && slots[k].Held?
    ensures SlotBlocks(watched, slots) ==
            SlotBlocks(watched, slots[..k] + slots[k + 1..]) + Occurrences(watched, slots[k].pointers)
  {
    assert slots == slots[..k] + ([slots[k]] + slots[k + 1..]);
    SlotBlocksConcat(watched, slots[..k], [slots[k]] + slots[k + 1..]);
    SlotBlocksConcat(watched, [slots[k]], slots[k + 1..]);
    SlotBlocksConcat(watched, slots[..k], slots[k + 1..]);
    assert [slots[k]][..0] == [];
  }

  ghost predicate AllHeld(slots: seq<Slot>) {
    forall i :: 0 <= i < |slots| ==> slots[i].Held?
  }

  function Registrations(slots: seq<Slot>): (c: seq<Registration>)
    requires AllHeld(slots)
    ensures |c| == |slots|
  {
    seq(|slots|, i requires 0 <= i < |slots| => slots[i].registration)
  }

  // ----- bounds for the capacity pass -----

  ghost predicate Bounded(m: Metadata) {
    forall k :: 0 <= k < 10 ==> |m.descriptor.Part(k)| <= MAX_DESCRIPTOR_TEXT
  }

  const ENTRY_ROOM_MAX: nat := ROOM + ESCAPE_FACTOR * 11 * MAX_DESCRIPTOR_TEXT

  lemma {:induction false} LengthsBound(m: Metadata, k: nat)
    requires Bounded(m) && k <= 11
    ensures LengthsUpTo(m, k) <= k * MAX_DESCRIPTOR_TEXT
  {
    if k > 0 {
      LengthsBound(m, k - 1);
    }
  }

  lemma {:induction false} EntriesRoomBound(entries: seq<Metadata>)
    requires forall i :: 0 <= i < |entries| ==> Bounded(entries[i])
    ensures EntriesRoom(entries) <= |entries| * ENTRY_ROOM_MAX
  {
    if entries != [] {
      LengthsBound(entries[0], 11);
      EntriesRoomBound(entries[1..]);
    }
  }

  lemma BuiltinBounded(i: nat)
    ensures Bounded(Builtin(i))
  {}

  lemma DescriptorBounded(r: Registration)
    requires IsDescriptor(r.descriptor)
    ensures Bounded(FromRegistration(r))
  {}

  lemma {:induction false} ExtrasCount(c: seq<Registration>)
    ensures |Extras(c)| <= |c|
  {
    if c != [] {
      ExtrasCount(c[..|c| - 1]);
    }
  }

  lemma EntryBounded(c: seq<Registration>, j: nat)
    requires AllAdmitted(c) && NamesDiffer(c) && j < |Entries(c)|
    ensures Bounded(Entries(c)[j])
  {
    var m := Entries(c)[j];
    EntryDescribes(c, j);
    match Dispatched(c, m.descriptor.command) {
      case BuiltIn(i) => BuiltinBounded(i);
      case Handler(h, u) =>
        var r :| r in c && m == FromRegistration(r);
        DescriptorBounded(r);
    }
  }

  lemma AllEntriesRoom(c: seq<Registration>)
    requires AllAdmitted(c) && NamesDiffer(c)
    ensures EntriesRoom(Entries(c)) <= |Entries(c)| * ENTRY_ROOM_MAX
  {
    forall j | 0 <= j < |Entries(c)|
      ensures Bounded(Entries(c)[j])
    {
      EntryBounded(c, j);
    }
    EntriesRoomBound(Entries(c));
  }

  lemma RoomWithinSize(n: nat, room: nat)
    requires n <= 641 && room <= n * ENTRY_ROOM_MAX
    ensures ROOM + room <= SIZE_MAX
  {}

  /** No table within the budget brings the capacity near the largest size. */
  lemma CapacityBound(c: seq<Registration>)
    requires AllAdmitted(c) && NamesDiffer(c) && |c| <= CAPACITY_LIMIT
    ensures GraphCapacity(Entries(c)) <= SIZE_MAX
  {
    AllEntriesRoom(c);
    ExtrasCount(c);
    RoomWithinSize(|Entries(c)|, EntriesRoom(Entries(c)));
  }

  // ----- validation -----

  /** The checks of ulk_register_internal on the descriptor. */
  method ValidateDescriptor(d: Descriptor) returns (ok: bool)
    ensures ok <==> IsDescriptor(d)
  {
    ok := ScanCanonicalCommandId(d.command);
    if !ok || d.command == BuiltinName(0) {
      return false;
    }
    ok := ScanEffects(d.effects);
    if !ok {
      return;
    }
    for k := 2 to 10
      invariant ok && forall j :: 2 <= j < k ==> IsText(d.Part(j))
    {
      ok := ScanText(d.Part(k));
      if !ok {
        return;
      }
    }
  }

  // ----- the capacity pass -----

  method CapacityAdd(capacity: nat, amount: nat) returns (ok: bool, sum: nat)
    requires capacity <= SIZE_MAX
    ensures ok == (capacity + amount <= SIZE_MAX) && sum == if ok then capacity + amount else capacity
  {
    if amount > SIZE_MAX - capacity {
      return false, capacity;
    }
    return true, capacity + amount;
  }

  lemma {:induction false} LengthsGrow(m: Metadata, k: nat, n: nat)
    requires k <= n <= 11
    ensures LengthsUpTo(m, k) <= LengthsUpTo(m, n)
    decreases n
  {
    if k < n {
      LengthsGrow(m, k, n - 1);
    }
  }

  /** ulk_capacity_add_metadata: fails exactly when the sum would not fit a size. */
  method CapacityAddMetadata(capacity: nat, m: Metadata) returns (ok: bool, sum: nat)
    requires capacity <= SIZE_MAX
    ensures ok == (capacity + EntryRoom(m) <= SIZE_MAX) && (ok ==> sum == capacity + EntryRoom(m))
  {
    ok, sum := CapacityAdd(capacity, ROOM);
    if !ok {
      return;
    }
    for k := 0 to 11
      invariant ok && sum == capacity + ROOM + ESCAPE_FACTOR * LengthsUpTo(m, k) <= SIZE_MAX
    {
      LengthsGrow(m, k + 1, 11);
      var length := if k == 10 then |StatusName(m.status)| else |m.descriptor.Part(k)|;
      if length > SIZE_MAX / ESCAPE_FACTOR {
        return false, sum;
      }
      ok, sum := CapacityAdd(sum, length * ESCAPE_FACTOR);
      if !ok {
        return;
      }
    }
  }

  method CapacityOf(entries: seq<Metadata>) returns (ok: bool, capacity: nat)
    ensures ok == (GraphCapacity(entries) <= SIZE_MAX) && (ok ==> capacity == GraphCapacity(entries))
  {
    ok, capacity := true, ROOM;
    for i := 0 to |entries|
      invariant ok && capacity + EntriesRoom(entries[i..]) == GraphCapacity(entries) && capacity <= SIZE_MAX
    {
      assert entries[i..][0] == entries[i] && entries[i..][1..] == entries[i + 1..];
      ok, capacity := CapacityAddMetadata(capacity, entries[i]);
      if !ok {
        return;
      }
    }
  }

  // ----- the printing pass -----

  lemma Printed(entries: seq<Metadata>, i: nat)
    requires i < |entries|
    ensures EntryPrints(entries)[i] == Print(EntryDoc(entries[i]))
  {}

  method PrintEntries(buffer: Buffer, entries: seq<Metadata>) returns (ok: bool)
    requires buffer.Valid()
    modifies buffer`length, buffer.data
    ensures buffer.Valid() && ok == (old(buffer.length) + |Commas(EntryPrints(entries))| < buffer.data.Length)
    ensures ok ==> buffer.Contents() == old(buffer.Contents()) + Commas(EntryPrints(entries))
  {
    ghost var before, parts := buffer.Contents(), EntryPrints(entries);
    ok := true;
    for i := 0 to |entries|
      invariant ok && buffer.Valid() && buffer.Contents() == before + Commas(parts[..i])
    {
      CommasSnoc(parts, i);
      Printed(entries, i);
      Assoc(before, Commas(parts[..i]), Next(parts, i));
      ok := buffer.AppendMetadata(entries[i], i > 0);
      if !ok {
        return;
      }
    }
    assert parts[..|entries|] == parts;
  }

  method PrintPieces(buffer: Buffer, head: Text, entries: seq<Metadata>, tail: Text) returns (ok: bool)
    requires buffer.Valid() && buffer.Contents() == []
    modifies buffer`length, buffer.data
    ensures buffer.Valid() && ok == (|head + Commas(EntryPrints(entries)) + tail| < buffer.data.Length)
    ensures ok ==> buffer.Contents() == head + Commas(EntryPrints(entries)) + tail
  {
    ok := buffer.AppendRaw(head);
    if ok {
      assert buffer.Contents() == [] + head == head;
      ok := PrintEntries(buffer, entries);
      if ok {
        ok := buffer.AppendRaw(tail);
      }
    }
  }

  method PrintFramed(entries: seq<Metadata>, capacity: nat, head: Text, tail: Text, ghost text: Text)
    returns (ok: bool, buffer: Buffer)
    requires text == head + Commas(EntryPrints(entries)) + tail && |text| < capacity
    ensures ok && fresh(buffer) && fresh(buffer.data) && buffer.Valid() && buffer.Contents() == text
  {
    buffer := new Buffer(capacity);
    ok := PrintPieces(buffer, head, entries, tail);
  }

  /** The second pass, into a buffer of the size the first one computed: no append in it can fail. */
  method PrintGraph(entries: seq<Metadata>, capacity: nat) returns (ok: bool, buffer: Buffer)
    requires capacity == GraphCapacity(entries)
    ensures ok && fresh(buffer) && fresh(buffer.data) && buffer.Valid() && buffer.Contents() == GraphText(entries)
  {
    GraphFits(entries);
    GraphPieces(entries);
    ok, buffer := PrintFramed(entries, capacity, GraphHead(), GraphTail(), GraphText(entries));
  }
}
