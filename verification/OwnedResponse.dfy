/** Owned command responses: a borrowed response copied into one block that its new owner releases. */
module OwnedResponse {
  import opened Bytes
  import opened Allocator

  const DEFAULT_MAXIMUM: nat := 1_048_576

  const STATUS_OK := 0
  const STATUS_ERROR := 1
  const STATUS_INVALID_ARGUMENT := 2
  const STATUS_UNSUPPORTED_VERSION := 3

  /** A borrowed view: bytes, or a null pointer with whatever size the caller wrote beside it. */
  datatype View = Bytes(text: Text) | Null(size: nat)

  function SizeOf(v: View): nat { match v { case Bytes(text) => |text| case Null(size) => size } }

  function TextOf(v: View): Text { match v { case Bytes(text) => text case Null(_) => [] } }

  predicate ViewValid(v: View) { v.Null? ==> v.size == 0 }

  datatype Response = Response(status: int, payload: View, code: int, message: View, detail: View)

  /** The three sizes are what a size type holds. */
  predicate SizesFit(r: Response) {
    SizeOf(r.payload) <= SIZE_MAX && SizeOf(r.message) <= SIZE_MAX && SizeOf(r.detail) <= SIZE_MAX
  }

  /** ulk_command_response_validate_v1 */
  predicate ResponseValid(r: Response) {
    STATUS_OK <= r.status <= STATUS_UNSUPPORTED_VERSION &&
    ViewValid(r.payload) && ViewValid(r.message) && ViewValid(r.detail)
  }

  function TotalSize(r: Response): nat { SizeOf(r.payload) + SizeOf(r.message) + SizeOf(r.detail) }

  function AllBytes(r: Response): Text { TextOf(r.payload) + TextOf(r.message) + TextOf(r.detail) }

  /** Which callbacks an allocator structure holds; null callbacks select the default allocator. */
  datatype Callbacks = Callbacks(alloc: bool, free: bool)

  predicate CallbacksValid(requested: Option<Callbacks>) {
    requested.Some? ==> requested.value.alloc == requested.value.free
  }

  /** Which callbacks a response keeps for its release. */
  datatype Kept = NoCallbacks | DefaultCallbacks | CallerCallbacks

  function Selected(requested: Option<Callbacks>): Kept {
    if requested.Some? && requested.value.alloc then CallerCallbacks else DefaultCallbacks
  }

  /** A view of the owner's block: empty views are null, the others a stretch of it. */
  datatype Stretch = Stretch(offset: nat, length: nat)

  method SizeAdd(left: nat, right: nat) returns (sum: Option<nat>)
    requires left <= SIZE_MAX && right <= SIZE_MAX
    ensures sum == if left + right <= SIZE_MAX then Some(left + right) else None
  {
    if left > SIZE_MAX - right {
      return None;
    }
    return Some(left + right);
  }

  /** The three lengths, added with checks: None exactly when the true sum does not fit a size. */
  method CheckedTotal(r: Response) returns (total: Option<nat>)
    requires SizesFit(r)
    ensures total == if TotalSize(r) <= SIZE_MAX then Some(TotalSize(r)) else None
  {
    total := SizeAdd(SizeOf(r.payload), SizeOf(r.message));
    if total.None? {
      return;
    }
    total := SizeAdd(total.value, SizeOf(r.detail));
  }

  /** One memcpy at the moving cursor. */
  method CopyAt(storage: array<Byte>, cursor: nat, text: Text) returns (next: nat)
    requires cursor + |text| <= storage.Length
    modifies storage
    ensures next == cursor + |text|
    ensures storage[..next] == old(storage[..cursor]) + text
  {
    for i := 0 to |text|
      invariant storage[..cursor] == old(storage[..cursor]) && storage[cursor..cursor + i] == text[..i]
    {
      storage[cursor + i] := text[i];
    }
    next := cursor + |text|;
    assert storage[..next] == storage[..cursor] + storage[cursor..next];
  }

  /** The block for a response: the payload, the message and the detail, one after another. */
  method FillStorage(r: Response) returns (storage: array<Byte>)
    ensures fresh(storage) && storage[..] == AllBytes(r)
  {
    storage := new Byte[|AllBytes(r)|](_ => NUL);
    var cursor := CopyAt(storage, 0, TextOf(r.payload));
    cursor := CopyAt(storage, cursor, TextOf(r.message));
    cursor := CopyAt(storage, cursor, TextOf(r.detail));
    assert storage[..cursor] == storage[..];
  }

  lemma Tiles(all: Text, a: Text, b: Text, c: Text)
    requires all == a + b + c
    ensures |all| == |a| + |b| + |c|
    ensures all[0..|a|] == a && all[|a|..|a| + |b|] == b && all[|a| + |b|..|a| + |b| + |c|] == c
  {}

  lemma SizesMatch(r: Response)
    requires ResponseValid(r)
    ensures SizeOf(r.payload) == |TextOf(r.payload)| && SizeOf(r.message) == |TextOf(r.message)|
    ensures SizeOf(r.detail) == |TextOf(r.detail)| && TotalSize(r) == |AllBytes(r)|
  {}

  class Owned {
    var storage: array?<Byte>
    var block: nat
    var kept: Kept
    var status: int
    var code: int
    var payload: Stretch
    var message: Stretch
    var detail: Stretch

    function Stretched(v: Stretch): Text
      reads this, storage
      requires storage == null ==> v.length == 0
      requires storage != null ==> v.offset + v.length <= storage.Length
    {
      if storage == null then [] else storage[v.offset..v.offset + v.length]
    }

    /** The three stretches tile the block: each begins where the one before ends, and they leave nothing over. */
    ghost predicate Tiled()
      reads this, storage
    {
      && payload.offset == 0
      && message.offset == payload.length
      && detail.offset == message.offset + message.length
      && (detail.offset + detail.length == if storage == null then 0 else storage.Length)
      && (storage != null ==> storage.Length > 0 && kept != NoCallbacks)
    }

    ghost predicate Cleared()
      reads this
    {
      storage == null && kept == NoCallbacks && status == STATUS_OK && code == STATUS_OK &&
      payload == message == detail == Stretch(0, 0)
    }

    /** Whether the watched block is this owner's. */
    ghost function Holding(heap: Heap): nat
      reads `storage, `block
    {
      Behind(heap.watched, if storage == null then None else Some(block))
    }

    constructor ()
      ensures Cleared() && Tiled()
    {
      storage, block, kept, status, code := null, 0, NoCallbacks, STATUS_OK, STATUS_OK;
      payload, message, detail := Stretch(0, 0), Stretch(0, 0), Stretch(0, 0);
    }

    /** ulk_owned_response_reset */
    method Reset()
      modifies this
      ensures Cleared() && Tiled()
    {
      storage, block, kept, status, code := null, 0, NoCallbacks, STATUS_OK, STATUS_OK;
      payload, message, detail := Stretch(0, 0), Stretch(0, 0), Stretch(0, 0);
    }

    /** What the owner reads afterwards is what was borrowed. */
    ghost predicate Reads(r: Response)
      reads this, storage
    {
      && Tiled()
      && status == r.status && code == r.code
      && Stretched(payload) == TextOf(r.payload) && Stretched(message) == TextOf(r.message)
      && Stretched(detail) == TextOf(r.detail)
      && (storage != null ==> storage[..] == AllBytes(r))
      && (storage == null <==> TotalSize(r) == 0)
    }

    method Adopt(r: Response, granted: array?<Byte>, newBlock: nat, callbacks: Kept)
      requires ResponseValid(r)
      requires if TotalSize(r) == 0 then granted == null else granted != null && granted[..] == AllBytes(r)
      requires callbacks != NoCallbacks
      modifies this
      ensures Reads(r) && storage == granted && block == newBlock && kept == callbacks
    {
      storage, block, kept, status, code := granted, newBlock, callbacks, r.status, r.code;
      payload := Stretch(0, SizeOf(r.payload));
      message := Stretch(SizeOf(r.payload), SizeOf(r.message));
      detail := Stretch(SizeOf(r.payload) + SizeOf(r.message), SizeOf(r.detail));
      SizesMatch(r);
      if granted != null {
        Tiles(granted[..], TextOf(r.payload), TextOf(r.message), TextOf(r.detail));
      }
    }

    /** Everything a copy needs besides memory. */
    ghost predicate Copyable(r: Response, requested: Option<Callbacks>, maximum: nat) {
      ResponseValid(r) && CallbacksValid(requested) && TotalSize(r) <= maximum && TotalSize(r) <= SIZE_MAX
    }

    /** ulk_command_response_copy_owned_with_limit */
    method Copy(heap: Heap, r: Response, requested: Option<Callbacks>, maximum: nat) returns (result: int)
      requires heap.Valid() && Tiled()
      requires SizesFit(r)
      modifies this, heap
      ensures heap.Valid() && Tiled()
      ensures result == STATUS_OK || result == STATUS_ERROR || result == STATUS_INVALID_ARGUMENT
      ensures result == STATUS_INVALID_ARGUMENT <==>
                old(storage) != null || !Copyable(r, requested, maximum)
      ensures result == STATUS_ERROR <==>
                old(storage) == null && Copyable(r, requested, maximum) && heap.refusals > old(heap.refusals)
      ensures result == STATUS_OK ==> Reads(r) && kept == Selected(requested) && heap.refusals == old(heap.refusals)
      ensures result != STATUS_OK ==> if old(storage) != null then unchanged(this) else Cleared()
      ensures heap.Live() + old(Holding(heap)) == old(heap.Live()) + Holding(heap)
    {
      if storage != null {
        return STATUS_INVALID_ARGUMENT;
      }
      if !ResponseValid(r) || !CallbacksValid(requested) {
        Reset();
        return STATUS_INVALID_ARGUMENT;
      }
      var total := CheckedTotal(r);
      if total.None? || total.value > maximum {
        Reset();
        return STATUS_INVALID_ARGUMENT;
      }
      result := CopyWithin(heap, r, total.value, Selected(requested));
    }

    method CopyWithin(heap: Heap, r: Response, total: nat, callbacks: Kept) returns (result: int)
      requires heap.Valid() && storage == null && ResponseValid(r) && total == TotalSize(r) && callbacks != NoCallbacks
      modifies this, heap
      ensures heap.Valid() && Tiled()
      ensures result == if heap.refusals > old(heap.refusals) then STATUS_ERROR else STATUS_OK
      ensures result == STATUS_OK ==> Reads(r) && kept == callbacks && heap.refusals == old(heap.refusals)
      ensures result == STATUS_ERROR ==> Cleared()
      ensures heap.Live() == old(heap.Live()) + Holding(heap)
    {
      if total == 0 {
        Adopt(r, null, 0, callbacks);
        return STATUS_OK;
      }
      var granted := heap.Alloc();
      if granted.None? {
        Reset();
        return STATUS_ERROR;
      }
      var bytes := FillStorage(r);
      Adopt(r, bytes, granted.value, callbacks);
      return STATUS_OK;
    }

    /** ulk_owned_command_response_release_v1: a second release, or one of an empty owner, does nothing. */
    method Release(heap: Heap)
      requires heap.Valid() && Tiled() && heap.Live() >= Holding(heap)
      modifies this, heap`live
      ensures heap.Valid() && Cleared() && Tiled()
      ensures heap.Live() + old(Holding(heap)) == old(heap.Live()) + Holding(heap)
    {
      if storage != null && kept != NoCallbacks {
        heap.Free(block);
      }
      Reset();
    }
  }

  /** The limit ulk_command_response_copy_owned_with_options_v1 selects; none of its own means the default. */
  function SelectedMaximum(options: Option<nat>): nat {
    if options.None? || options.value == 0 then DEFAULT_MAXIMUM else options.value
  }

  // ----- any run of copies and releases -----

  datatype Step = CopyStep(owner: nat, response: Response, requested: Option<Callbacks>, options: Option<nat>) | ReleaseStep(owner: nat)

  ghost predicate AllDifferent(owners: seq<Owned>) {
    forall i, j :: 0 <= i < j < |owners| ==> owners[i] != owners[j]
  }

  /** For each owner, whether it holds the watched block. */
  ghost function Holdings(owners: seq<Owned>, heap: Heap): (held: seq<nat>)
    reads owners
    ensures |held| == |owners|
  {
    seq(|owners|, i reads owners requires 0 <= i < |owners| => owners[i].Holding(heap))
  }

  function Sum(s: seq<nat>): nat {
    if s == [] then 0 else s[0] + Sum(s[1..])
  }

  lemma {:induction false} SumUpdate(s: seq<nat>, k: nat, v: nat)
    requires k < |s|
    ensures Sum(s[k := v]) + s[k] == Sum(s) + v
    ensures s[k] <= Sum(s)
  {
    if k == 0 {
      assert s[0 := v][1..] == s[1..];
    } else {
      assert s[k := v][1..] == s[1..][k - 1 := v];
      SumUpdate(s[1..], k - 1, v);
    }
  }

  /** What a run starts from and keeps: the watched block is live exactly as often as it is held. */
  ghost predicate InBalance(owners: seq<Owned>, heap: Heap, foreign: nat)
    reads heap, owners, set o | o in owners && o.storage != null :: o.storage
  {
    AllDifferent(owners) && heap.Valid() && heap.Live() == foreign + Sum(Holdings(owners, heap)) &&
    forall o :: o in owners ==> o.Tiled()
  }

  method Act(step: Step, o: Owned, heap: Heap)
    requires heap.Valid() && o.Tiled() && heap.Live() >= o.Holding(heap)
    requires step.CopyStep? ==> SizesFit(step.response)
    modifies o, heap
    ensures heap.Valid() && o.Tiled()
    ensures heap.Live() + old(o.Holding(heap)) == old(heap.Live()) + o.Holding(heap)
  {
    match step {
      case CopyStep(_, response, requested, options) =>
        var result := o.Copy(heap, response, requested, SelectedMaximum(options));
      case ReleaseStep(_) =>
        o.Release(heap);
    }
  }

  method Take(step: Step, owners: seq<Owned>, heap: Heap, ghost foreign: nat)
    requires InBalance(owners, heap, foreign) && step.owner < |owners|
    requires step.CopyStep? ==> SizesFit(step.response)
    modifies owners, heap
    ensures InBalance(owners, heap, foreign)
  {
    var o := owners[step.owner];
    ghost var before := Holdings(owners, heap);
    SumUpdate(before, step.owner, 0);
    Act(step, o, heap);
    SumUpdate(before, step.owner, o.Holding(heap));
    assert Holdings(owners, heap) == before[step.owner := o.Holding(heap)];
  }

  /** Over any run of copies and releases, live blocks and owners holding storage stay in balance. */
  method Run(steps: seq<Step>, owners: seq<Owned>, heap: Heap, ghost foreign: nat)
    requires InBalance(owners, heap, foreign)
    requires forall i :: 0 <= i < |steps| ==> steps[i].owner < |owners|
    requires forall i :: 0 <= i < |steps| && steps[i].CopyStep? ==> SizesFit(steps[i].response)
    modifies owners, heap
    ensures InBalance(owners, heap, foreign)
  {
    for i := 0 to |steps|
      invariant InBalance(owners, heap, foreign)
    {
      Take(steps[i], owners, heap, foreign);
    }
  }
}
