/** The command table: built-in commands overlaid by registered ones, as dispatch and the command graph see it. */
module CommandTable {
  import opened Bytes
  import opened Recognisers
  import opened Effects

  /** The ten texts a command is described by. */
  datatype Descriptor = Descriptor(
    command: Text, effects: Text, requestSchema: Text, responseSchema: Text, resultSchema: Text,
    refusalSchema: Text, dryRun: Text, availability: Text, owner: Text, binding: Text)
  {
    function Part(k: nat): Text {
      match k
      case 0 => command
      case 1 => effects
      case 2 => requestSchema
      case 3 => responseSchema
      case 4 => resultSchema
      case 5 => refusalSchema
      case 6 => dryRun
      case 7 => availability
      case 8 => owner
      case _ => binding
    }
  }

  /** Handlers are opaque; zero is the null pointer. */
  datatype Registration = Registration(descriptor: Descriptor, handler: nat, user: nat)

  datatype HandlerStatus = BuiltInStatus | RegisteredStatus

  datatype Metadata = Metadata(descriptor: Descriptor, status: HandlerStatus)

  function StatusName(s: HandlerStatus): Text { if s.BuiltInStatus? then "builtin" else "registered" }

  // ----- the built-in table -----

  const BUILTIN_COUNT: nat := 11

  function BuiltinName(i: nat): Text {
    match i
    case 0 => "command_graph.inspect"
    case 1 => "product.inspect"
    case 2 => "install_refs.list"
    case 3 => "install_refs.inspect"
    case 4 => "instance.create"
    case 5 => "instance.list"
    case 6 => "profiles.list"
    case 7 => "account_refs.list"
    case 8 => "artifact_sets.list"
    case 9 => "launch_plan.build"
    case _ => "diagnostics.run"
  }

  function BuiltinEffects(i: nat): Text {
    if i <= 1 then "[\"none\"]" else if i == 4 then "[\"workspace_write\"]" else "[\"workspace_read\"]"
  }

  function BuiltinDryRun(i: nat): Text {
    if i == 4 then "preview_or_refusal" else if i == 9 then "preview_only" else "read_only"
  }

  function Builtin(i: nat): Metadata {
    Metadata(
      Descriptor(BuiltinName(i), BuiltinEffects(i), "ulk.command_request.v1", "ulk.command_response.v1", "ulk.result.v1",
                 "ulk.refusal.v1", BuiltinDryRun(i), "available", "universal-launcher", "builtin"),
      BuiltInStatus)
  }

  /** Length and first letter tell the eleven names apart. */
  lemma BuiltinNamesDiffer(i: nat, j: nat)
    requires i < j < BUILTIN_COUNT
    ensures BuiltinName(i) != BuiltinName(j)
  {}

  function FindBuiltinFrom(name: Text, i: nat): (found: Option<nat>)
    requires i <= BUILTIN_COUNT
    ensures found.Some? ==> i <= found.value < BUILTIN_COUNT && BuiltinName(found.value) == name
    ensures found.None? ==> forall j :: i <= j < BUILTIN_COUNT ==> BuiltinName(j) != name
    decreases BUILTIN_COUNT - i
  {
    if i == BUILTIN_COUNT then None
    else if name == BuiltinName(i) then Some(i)
    else FindBuiltinFrom(name, i + 1)
  }

  /** ulk_find_builtin */
  function FindBuiltin(name: Text): Option<nat> { FindBuiltinFrom(name, 0) }

  lemma FindBuiltinIs(i: nat)
    requires i < BUILTIN_COUNT
    ensures FindBuiltin(BuiltinName(i)) == Some(i)
  {
    var found := FindBuiltin(BuiltinName(i)).value;
    if found != i {
      BuiltinNamesDiffer(if found < i then found else i, if found < i then i else found);
    }
  }

  // ----- registrations -----

  ghost predicate IsDescriptor(d: Descriptor) {
    && IsCanonicalCommandId(d.command) && d.command != BuiltinName(0) && IsEffects(d.effects)
    && forall k :: 2 <= k < 10 ==> IsText(d.Part(k))
  }

  function FindFrom(c: seq<Registration>, name: Text, i: nat): (found: Option<nat>)
    requires i <= |c|
    ensures found.Some? ==> i <= found.value < |c| && c[found.value].descriptor.command == name
    ensures found.None? ==> forall j :: i <= j < |c| ==> c[j].descriptor.command != name
    decreases |c| - i
  {
    if i == |c| then None else if c[i].descriptor.command == name then Some(i) else FindFrom(c, name, i + 1)
  }

  /** ulk_find_registered */
  function Find(c: seq<Registration>, name: Text): Option<nat> { FindFrom(c, name, 0) }

  /** Each name is registered once. */
  ghost predicate NamesDiffer(c: seq<Registration>) {
    forall i, j :: 0 <= i < j < |c| ==> c[i].descriptor.command != c[j].descriptor.command
  }

  ghost predicate AllAdmitted(c: seq<Registration>) {
    forall i :: 0 <= i < |c| ==> IsDescriptor(c[i].descriptor) && c[i].handler != 0
  }

  lemma FindIs(c: seq<Registration>, i: nat)
    requires NamesDiffer(c) && i < |c|
    ensures Find(c, c[i].descriptor.command) == Some(i)
  {}

  function Without(c: seq<Registration>, k: nat): (r: seq<Registration>)
    requires k < |c|
    ensures |r| == |c| - 1
  {
    c[..k] + c[k + 1..]
  }

  /** The registration under a name, if there is one: the map the table stands for. */
  function Lookup(c: seq<Registration>, name: Text): Option<Registration> {
    match Find(c, name)
    case None => None
    case Some(i) => Some(c[i])
  }

  lemma LookupOnly(c: seq<Registration>, i: nat)
    requires NamesDiffer(c) && i < |c|
    ensures Lookup(c, c[i].descriptor.command) == Some(c[i])
  {}

  /** Registering adds one binding at the end of the order and changes no other. */
  lemma Registered(c: seq<Registration>, r: Registration, name: Text)
    requires NamesDiffer(c) && Find(c, r.descriptor.command).None?
    ensures NamesDiffer(c + [r])
    ensures Lookup(c + [r], name) == if name == r.descriptor.command then Some(r) else Lookup(c, name)
  {
    var c' := c + [r];
    assert NamesDiffer(c');
    match Find(c', name) {
      case Some(j) =>
        if j < |c| {
          assert c'[j] == c[j];
          LookupOnly(c, j);
        }
      case None =>
        assert forall j :: 0 <= j < |c| ==> c'[j] == c[j];
        assert c'[|c|] == r;
    }
  }

  /** Unregistering removes one binding, keeps the order of the rest and changes none of them. */
  lemma Unregistered(c: seq<Registration>, k: nat, name: Text)
    requires NamesDiffer(c) && k < |c|
    ensures NamesDiffer(Without(c, k))
    ensures Lookup(Without(c, k), name) == if name == c[k].descriptor.command then None else Lookup(c, name)
  {
    var c' := Without(c, k);
    assert forall j :: 0 <= j < |c'| ==> c'[j] == if j < k then c[j] else c[j + 1];
    if name != c[k].descriptor.command && Find(c, name).Some? {
      var i := Find(c, name).value;
      assert c'[if i < k then i else i - 1] == c[i];
    }
    if Find(c', name).Some? {
      var j := Find(c', name).value;
      LookupOnly(c, if j < k then j else j + 1);
    }
  }

  lemma RegisterUnregister(c: seq<Registration>, r: Registration)
    requires NamesDiffer(c) && Find(c, r.descriptor.command).None?
    ensures Find(c + [r], r.descriptor.command) == Some(|c|) && Without(c + [r], |c|) == c
  {
    Registered(c, r, r.descriptor.command);
    FindIs(c + [r], |c|);
  }

  // ----- dispatch and the listed entries -----

  datatype Dispatch = Handler(handler: nat, user: nat) | BuiltIn(index: nat) | Unsupported

  /** What ulk_command_execute_v1 runs for a name. */
  function Dispatched(c: seq<Registration>, name: Text): Dispatch {
    match Find(c, name)
    case Some(k) => Handler(c[k].handler, c[k].user)
    case None =>
      match FindBuiltin(name)
      case Some(i) => BuiltIn(i)
      case None => Unsupported
  }

  function FromRegistration(r: Registration): Metadata { Metadata(r.descriptor, RegisteredStatus) }

  /** A built-in entry, or the registration that replaces it. */
  function Overlay(c: seq<Registration>, i: nat): Metadata {
    match Lookup(c, BuiltinName(i))
    case None => Builtin(i)
    case Some(r) => FromRegistration(r)
  }

  /** The registrations that replace nothing, in order. */
  function Extras(c: seq<Registration>): seq<Metadata> {
    if c == [] then []
    else
      var last := c[|c| - 1];
      Extras(c[..|c| - 1]) + if FindBuiltin(last.descriptor.command).Some? then [] else [FromRegistration(last)]
  }

  /** What the command graph lists, in its order. */
  function Entries(c: seq<Registration>): (entries: seq<Metadata>)
    ensures |entries| == BUILTIN_COUNT + |Extras(c)|
  {
    seq(BUILTIN_COUNT, i requires 0 <= i < BUILTIN_COUNT => Overlay(c, i)) + Extras(c)
  }

  /** The entry describes what would run. */
  ghost predicate Describes(m: Metadata, c: seq<Registration>, d: Dispatch) {
    match d
    case Unsupported => false
    case BuiltIn(i) => i < BUILTIN_COUNT && m == Builtin(i)
    case Handler(h, u) => exists r :: r in c && r.handler == h && r.user == u && m == FromRegistration(r)
  }

  ghost predicate Backed(c: seq<Registration>, m: Metadata) {
    exists r :: r in c && m == FromRegistration(r)
  }

  ghost predicate ExtrasOk(c: seq<Registration>, e: seq<Metadata>) {
    && (forall j :: 0 <= j < |e| ==> FindBuiltin(e[j].descriptor.command).None? && Backed(c, e[j]))
    && (forall r :: r in c && FindBuiltin(r.descriptor.command).None? ==> FromRegistration(r) in e)
    && (forall i, j :: 0 <= i < j < |e| ==> e[i].descriptor.command != e[j].descriptor.command)
  }

  lemma BackedStill(c: seq<Registration>, last: Registration, m: Metadata)
    requires Backed(c, m)
    ensures Backed(c + [last], m)
  {}

  lemma {:induction false} ExtrasMeaning(c: seq<Registration>)
    requires NamesDiffer(c)
    ensures ExtrasOk(c, Extras(c))
  {
    if c != [] {
      var init, last := c[..|c| - 1], c[|c| - 1];
      NamesDifferBefore(c);
      ExtrasMeaning(init);
      assert c == init + [last];
      ExtrasNext(init, last);
    }
  }

  lemma NamesDifferBefore(c: seq<Registration>)
    requires NamesDiffer(c) && c != []
    ensures NamesDiffer(c[..|c| - 1])
  {}

  lemma ExtrasNext(c: seq<Registration>, last: Registration)
    requires NamesDiffer(c + [last]) && ExtrasOk(c, Extras(c))
    ensures ExtrasOk(c + [last], Extras(c + [last]))
  {
    assert (c + [last])[..|c|] == c;
    ExtrasSnoc(c, Extras(c), last);
  }

  lemma ExtrasSnoc(c: seq<Registration>, e: seq<Metadata>, last: Registration)
    requires NamesDiffer(c + [last]) && ExtrasOk(c, e)
    ensures ExtrasOk(c + [last], e + if FindBuiltin(last.descriptor.command).Some? then [] else [FromRegistration(last)])
  {
    forall j | 0 <= j < |e|
      ensures Backed(c + [last], e[j])
    {
      BackedStill(c, last, e[j]);
    }
    if FindBuiltin(last.descriptor.command).Some? {
      assert e + [] == e;
    } else {
      forall r | r in c
        ensures r.descriptor.command != last.descriptor.command
      {
        var i :| 0 <= i < |c| && c[i] == r;
        assert (c + [last])[i] == r && (c + [last])[|c|] == last;
      }
      ExtrasMore(c, e, last);
    }
  }

  lemma ExtrasMore(c: seq<Registration>, e: seq<Metadata>, last: Registration)
    requires ExtrasOk(c, e) && FindBuiltin(last.descriptor.command).None?
    requires forall j :: 0 <= j < |e| ==> Backed(c + [last], e[j])
    requires forall r :: r in c ==> r.descriptor.command != last.descriptor.command
    ensures ExtrasOk(c + [last], e + [FromRegistration(last)])
  {}

  lemma OverlayDescribes(c: seq<Registration>, i: nat)
    requires NamesDiffer(c) && i < BUILTIN_COUNT
    ensures Overlay(c, i).descriptor.command == BuiltinName(i)
    ensures Describes(Overlay(c, i), c, Dispatched(c, BuiltinName(i)))
  {
    FindBuiltinIs(i);
    if Find(c, BuiltinName(i)).Some? {
      assert c[Find(c, BuiltinName(i)).value] in c;
    }
  }

  lemma ExtraDescribes(c: seq<Registration>, j: nat)
    requires NamesDiffer(c) && j < |Extras(c)|
    ensures var m := Extras(c)[j];
            FindBuiltin(m.descriptor.command).None? && Describes(m, c, Dispatched(c, m.descriptor.command))
  {
    ExtrasMeaning(c);
    assert Backed(c, Extras(c)[j]);
    var r :| r in c && Extras(c)[j] == FromRegistration(r);
    var i :| 0 <= i < |c| && c[i] == r;
    FindIs(c, i);
  }

  lemma OverlayAt(c: seq<Registration>, j: nat)
    requires j < BUILTIN_COUNT
    ensures Entries(c)[j] == Overlay(c, j)
  {}

  lemma ExtraAt(c: seq<Registration>, j: nat)
    requires j < |Extras(c)|
    ensures Entries(c)[BUILTIN_COUNT + j] == Extras(c)[j]
  {}

  lemma OverlaidEntryDescribes(c: seq<Registration>, j: nat)
    requires NamesDiffer(c) && j < BUILTIN_COUNT
    ensures Describes(Entries(c)[j], c, Dispatched(c, Entries(c)[j].descriptor.command))
  {
    OverlayAt(c, j);
    OverlayDescribes(c, j);
  }

  /** Every entry of the graph describes exactly what dispatch would run under its name. */
  lemma EntryDescribes(c: seq<Registration>, j: nat)
    requires NamesDiffer(c) && j < |Entries(c)|
    ensures Describes(Entries(c)[j], c, Dispatched(c, Entries(c)[j].descriptor.command))
  {
    if j < BUILTIN_COUNT {
      OverlaidEntryDescribes(c, j);
    } else {
      ExtraAt(c, j - BUILTIN_COUNT);
      ExtraDescribes(c, j - BUILTIN_COUNT);
    }
  }

  /** No command is listed twice. */
  lemma EntriesDiffer(c: seq<Registration>, i: nat, j: nat)
    requires NamesDiffer(c) && i < j < |Entries(c)|
    ensures Entries(c)[i].descriptor.command != Entries(c)[j].descriptor.command
  {
    if i < BUILTIN_COUNT {
      OverlayDescribes(c, i);
      FindBuiltinIs(i);
      if j < BUILTIN_COUNT {
        OverlayDescribes(c, j);
        BuiltinNamesDiffer(i, j);
      } else {
        ExtraDescribes(c, j - BUILTIN_COUNT);
      }
    } else {
      ExtrasMeaning(c);
    }
  }

  lemma BuiltinIsListed(c: seq<Registration>, i: nat)
    requires NamesDiffer(c) && i < BUILTIN_COUNT
    ensures exists m :: m in Entries(c) && m.descriptor.command == BuiltinName(i)
  {
    OverlayAt(c, i);
    OverlayDescribes(c, i);
    assert Entries(c)[i] in Entries(c);
  }

  lemma ExtraIsListed(c: seq<Registration>, k: nat)
    requires NamesDiffer(c) && k < |c| && FindBuiltin(c[k].descriptor.command).None?
    ensures exists m :: m in Entries(c) && m.descriptor.command == c[k].descriptor.command
  {
    ExtrasMeaning(c);
    assert c[k] in c;
    assert FromRegistration(c[k]) in Extras(c);
    assert FromRegistration(c[k]) in Entries(c);
  }

  lemma DispatchedIsListed(c: seq<Registration>, name: Text)
    requires NamesDiffer(c) && Dispatched(c, name) != Unsupported
    ensures exists m :: m in Entries(c) && m.descriptor.command == name
  {
    if FindBuiltin(name).Some? {
      BuiltinIsListed(c, FindBuiltin(name).value);
    } else {
      ExtraIsListed(c, Find(c, name).value);
    }
  }

  /** The graph lists exactly the commands that dispatch. */
  lemma ListedIffDispatched(c: seq<Registration>, name: Text)
    requires NamesDiffer(c)
    ensures Dispatched(c, name) != Unsupported <==> exists m :: m in Entries(c) && m.descriptor.command == name
  {
    if m :| m in Entries(c) && m.descriptor.command == name {
      var j :| 0 <= j < |Entries(c)| && Entries(c)[j] == m;
      EntryDescribes(c, j);
    }
    if Dispatched(c, name) != Unsupported {
      DispatchedIsListed(c, name);
    }
  }
}
