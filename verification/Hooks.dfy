/** The hook nest of a base chain (src/chain.c): hook number, priority, and either
    one device name or a nest of them. */
module Hooks {
  import opened Wrappers
  import opened Bytes
  import opened Netlink
  import opened Messages
  import opened ExprBuild
  import opened Devices

  const NFTA_HOOK_HOOKNUM := 1
  const NFTA_HOOK_PRIORITY := 2
  const NFTA_HOOK_DEV := 3
  const NFTA_HOOK_DEVS := 4
  const HOOK_POLICY := Policy(4, 4, [Unchecked, U32, U32, Text, Unchecked])

  /** The part of a chain that the hook nest carries. */
  datatype Hook = Hook(hooknum: Option<u32>, prio: Option<u32>,
                       dev: Option<CString>, devices: Option<seq<CString>>)

  const NO_HOOK := Hook(None, None, None, None)

  function HookFields(h: Hook): seq<Field> {
    [ FieldU32(NFTA_HOOK_HOOKNUM, h.hooknum),
      FieldU32(NFTA_HOOK_PRIORITY, h.prio),
      FieldText(NFTA_HOOK_DEV, h.dev),
      FieldNest(NFTA_HOOK_DEVS, if h.dev.None? && h.devices.Some? then Some(DeviceAttrs(h.devices.value)) else None) ]
  }

  /** The hook attribute of a chain message: written only for a chain that has both
      a hook number and a priority. */
  function BuiltHook(h: Hook): Option<bytes> {
    if h.hooknum.Some? && h.prio.Some? then Some(Encode(Emit(HookFields(h)))) else None
  }

  function ParseDevices(t: Table): Outcome<Option<seq<CString>>> {
    if NFTA_HOOK_DEVS !in t then Ok(None)
    else
      var names := DeviceNames(Walk(t[NFTA_HOOK_DEVS]));
      if names.Some? then Ok(names) else Rejected
  }

  /** nftnl_chain_parse_hook on a chain that has none of these attributes yet. */
  function ParseHook(b: bytes): Outcome<Hook> {
    var t :- ParseTable(b, HOOK_POLICY);
    var devices :- ParseDevices(t);
    Ok(Hook(GetU32(HOOK_POLICY, t, NFTA_HOOK_HOOKNUM), GetU32(HOOK_POLICY, t, NFTA_HOOK_PRIORITY),
            GetText(t, NFTA_HOOK_DEV), devices))
  }

  /** What a chain message brings across. */
  function Received(h: Hook): Outcome<Hook> {
    var built := BuiltHook(h);
    if built.None? then Ok(NO_HOOK) else ParseHook(built.value)
  }

  ghost predicate HookFits(h: Hook) {
    && (h.dev.Some? ==> |h.dev.value| + 5 <= 0xFFFF)
    && (h.devices.Some? ==> NamesFit(h.devices.value))
    && |Encode(Emit(HookFields(h)))| <= 0xFFFF
  }

  /** A chain message carries its hook exactly when the chain has no hook attribute
      at all, or both a hook number and a priority and not both kinds of devices. */
  lemma HookRoundTrip(h: Hook)
    requires HookFits(h)
    ensures Received(h) == Ok(h)
       <==> h == NO_HOOK || (h.hooknum.Some? && h.prio.Some? && (h.dev.None? || h.devices.None?))
  {
    if h.hooknum.Some? && h.prio.Some? {
      HookParses(h);
    }
  }

  lemma HookParses(h: Hook)
    requires HookFits(h) && h.hooknum.Some? && h.prio.Some?
    ensures ParseHook(BuiltHook(h).value)
         == Ok(Hook(h.hooknum, h.prio, h.dev, if h.dev.None? then h.devices else None))
  {
    hide Encode, Emit, ParseTable, Walk, DeviceNames;
    var fs := HookFields(h);
    FitsInside(Emit(fs));
    TableOfFields(fs, HOOK_POLICY);
    var t := ParseTable(Encode(Emit(fs)), HOOK_POLICY).value;
    assert Get(t, fs[0].typ) == fs[0].payload;
    assert Get(t, fs[1].typ) == fs[1].payload;
    assert Get(t, fs[2].typ) == fs[2].payload;
    assert Get(t, fs[3].typ) == fs[3].payload;
    ReadU32(HOOK_POLICY, t, NFTA_HOOK_HOOKNUM, h.hooknum);
    ReadU32(HOOK_POLICY, t, NFTA_HOOK_PRIORITY, h.prio);
    ReadText(t, NFTA_HOOK_DEV, h.dev);
    if h.dev.None? && h.devices.Some? {
      DevicesRoundTrip(h.devices.value);
    }
  }

  /** The hook nest of nftnl_chain_nlmsg_build_payload.  `list` is the device array
      of the chain. */
  method BuildHook(m: Message, typ: nat, h: Hook, list: DeviceList)
    requires HookFits(h) && (h.devices.Some? ==> list.Holds(h.devices.value))
    requires m.Valid() && (BuiltHook(h).Some? ==> m.Room(NLA_HDRLEN + |BuiltHook(h).value|))
    modifies m`len, m.data
    ensures m.Valid()
    ensures m.Contents() == old(m.Contents())
      + if BuiltHook(h).Some? then AttrBytes(Nest(typ, Emit(HookFields(h)))) else []
  {
    hide Encode, Emit, AttrBytes;
    if h.hooknum.Some? && h.prio.Some? {
      ghost var c, fs := m.Contents(), HookFields(h);
      var nest := m.NestStart(typ);
      ghost var c0 := m.Contents();
      BuildStart(c0, fs);
      PutU32(m, NFTA_HOOK_HOOKNUM, h.hooknum, c0, fs, 0);
      PutU32(m, NFTA_HOOK_PRIORITY, h.prio, c0, fs, 1);
      PutText(m, NFTA_HOOK_DEV, h.dev, c0, fs, 2);
      BuildDevices(m, h, list, c0, fs);
      BuildDone(m, c0, fs);
      OpenNestAppend(c, typ, [], c0, Encode(Emit(fs)));
      CloseNest(c, typ, Emit(fs), m.Contents());
      m.NestEnd(nest);
    }
  }

  /** The devices of a chain without a single device name. */
  method BuildDevices(m: Message, h: Hook, list: DeviceList, ghost c0: bytes, ghost fs: seq<Field>)
    requires fs == HookFields(h) && Building(m, c0, fs, 3)
    requires h.devices.Some? ==> list.Holds(h.devices.value) && NamesFit(h.devices.value)
    modifies m`len, m.data
    ensures Building(m, c0, fs, 4)
  {
    hide Encode, Emit, AttrBytes;
    if h.dev.None? && h.devices.Some? {
      ghost var c, names := m.Contents(), h.devices.value;
      BuildStep(c0, fs, 3, c, c + Encode(EmitOne(fs[3])));
      NestField(NFTA_HOOK_DEVS, DeviceAttrs(names));
      list.BuildDevs(m, NFTA_HOOK_DEVS, names);
    } else {
      SkipStep(m, c0, fs, 3);
    }
  }
}
