/** The device names of base chains and flowtables (src/chain.c, src/flowtable.c): a
    NULL-terminated array that doubles while it is parsed, and the hook nest that
    carries the names. */
module Devices {
  import opened Wrappers
  import opened Bytes
  import opened Netlink
  import opened Messages
  import opened Exprs
  import opened ExprBuild

  const NFTA_DEVICE_NAME := 1

  /** The names in a device nest, or None when it holds another attribute. */
  function DeviceNames(attrs: seq<Attr>): (names: Option<seq<CString>>)
    ensures names.Some? ==> |names.value| == |attrs|
  {
    if attrs == [] then Some([])
    else
      var before, last := DeviceNames(attrs[..|attrs| - 1]), attrs[|attrs| - 1];
      if before.None? || TypeOf(last) != NFTA_DEVICE_NAME then None
      else Some(before.value + [CStr(last.payload)])
  }

  function DeviceAttrs(names: seq<CString>): seq<Attr> {
    if names == [] then []
    else DeviceAttrs(names[..|names| - 1]) + [Attr(NFTA_DEVICE_NAME, Strz(names[|names| - 1]))]
  }

  predicate NamesFit(names: seq<CString>) {
    forall i :: 0 <= i < |names| ==> |names[i]| + 5 <= 0xFFFF
  }

  // ---------- the array ----------

  /** `a` starts with the names; a null pointer follows. */
  ghost predicate Terminated(a: array<Option<CString>>, names: seq<CString>)
    reads a
  {
    && |names| < a.Length
    && (forall i :: 0 <= i < |names| ==> a[i] == Some(names[i]))
    && a[|names|] == None
  }

  /** The rest of `a` holds null pointers only. */
  ghost predicate Padded(a: array<Option<CString>>, names: seq<CString>)
    reads a
  {
    Terminated(a, names) && forall i :: |names| <= i < a.Length ==> a[i] == None
  }

  /** dev_array and dev_array_len of a chain or a flowtable. */
  class DeviceList {
    var devArray: array<Option<CString>>
    var devArrayLen: nat

    constructor ()
      ensures Holds([])
    {
      devArray := new Option<CString>[1](_ => None);
      devArrayLen := 0;
    }

    ghost predicate Holds(names: seq<CString>)
      reads this, devArray
    {
      devArrayLen == |names| && Padded(devArray, names)
    }

    /** nftnl_chain_parse_devs and nftnl_flowtable_parse_devs.  On failure the list
        keeps what it had. */
    method ParseDevs(nest: bytes) returns (ok: bool)
      modifies this
      ensures ok == DeviceNames(Walk(nest)).Some?
      ensures ok ==> Holds(DeviceNames(Walk(nest)).value) && fresh(devArray)
      ensures !ok ==> devArray == old(devArray) && devArrayLen == old(devArrayLen)
    {
      hide Walk, AttrAt, Rest;
      var a := new Option<CString>[8](_ => None);
      var len, size, at := 0, 8, 0;
      ghost var all, seen, todo, names := Walk(nest), [], Walk(nest), [];
      assert Rest(nest, 0) == nest by { RestZero(nest); }
      while AttrAt(nest, at).Some?
        invariant todo == Walk(Rest(nest, at)) && seen + todo == all
        invariant DeviceNames(seen) == Some(names)
        invariant devArray == old(devArray) && devArrayLen == old(devArrayLen)
        invariant fresh(a) && len == |names| < size == a.Length && Padded(a, names)
        decreases |nest| - at
      {
        var (attr, next) := AttrAt(nest, at).value;
        ghost var rest := Walk(Rest(nest, next));
        WalkStep(nest, at, attr, next, todo, rest);
        NamesStep(all, seen, attr, rest);
        if TypeOf(attr) != NFTA_DEVICE_NAME {
          return false;
        }
        a[len] := Some(CStr(attr.payload));
        len := len + 1;
        names := names + [CStr(attr.payload)];
        if len >= size {
          a := Double(a, names);
          size := size * 2;
        }
        seen, todo := seen + [attr], rest;
        at := next;
      }
      WalkEnd(nest, at);
      assert seen + [] == seen;
      devArray := a;
      devArrayLen := len;
      ok := true;
    }

    /** nftnl_chain_set_data and nftnl_flowtable_set_data for the device names: the
        caller's array is scanned up to its null pointer and copied. */
    method SetDevices(data: array<Option<CString>>, ghost names: seq<CString>)
      requires Terminated(data, names)
      modifies this
      ensures Holds(names) && fresh(devArray) && devArray.Length == |names| + 1
    {
      var len := Scan(data);
      assert len == |names| by {
        assert data[|names|].None?;
      }
      var a := new Option<CString>[len + 1](_ => None);
      for i := 0 to len
        invariant forall j :: 0 <= j < i ==> a[j] == Some(names[j])
        invariant forall j :: i <= j < a.Length ==> a[j] == None
      {
        a[i] := data[i];
      }
      devArray := a;
      devArrayLen := len;
    }

    /** The device nest of the builders. */
    method BuildDevs(m: Message, typ: nat, ghost names: seq<CString>)
      requires Holds(names) && NamesFit(names)
      requires m.Valid() && m.Room(|AttrBytes(Nest(typ, DeviceAttrs(names)))|)
      modifies m`len, m.data
      ensures m.Valid()
      ensures m.Contents() == old(m.Contents()) + AttrBytes(Nest(typ, DeviceAttrs(names)))
    {
      hide Encode, AttrBytes;
      ghost var c := m.Contents();
      NestField(typ, DeviceAttrs(names));
      var nest := m.NestStart(typ);
      NoDevices(names);
      for i := 0 to devArrayLen
        invariant m.Valid() && Holds(names)
        invariant OpenNest(c, typ, Encode(DeviceAttrs(names[..i])), m.Contents())
      {
        DeviceStep(names, i);
        OpenNestAppend(c, typ, Encode(DeviceAttrs(names[..i])), m.Contents(),
                       AttrBytes(Attr(NFTA_DEVICE_NAME, Strz(names[i]))));
        m.Put(NFTA_DEVICE_NAME, Strz(devArray[i].value));
      }
      assert names[..devArrayLen] == names;
      CloseNest(c, typ, DeviceAttrs(names), m.Contents());
      m.NestEnd(nest);
    }
  }

  lemma RestZero(b: bytes)
    ensures Rest(b, 0) == b
  {
  }

  /** `while (dev_array[len] != NULL) len++` */
  method Scan(a: array<Option<CString>>) returns (len: nat)
    requires exists i :: 0 <= i < a.Length && a[i].None?
    ensures len < a.Length && a[len].None? && forall i :: 0 <= i < len ==> a[i].Some?
  {
    len := 0;
    while a[len].Some?
      invariant len < a.Length && forall i :: 0 <= i < len ==> a[i].Some?
      decreases a.Length - len
    {
      len := len + 1;
    }
  }

  /** realloc to twice the size; the new half is cleared. */
  method Double(a: array<Option<CString>>, ghost names: seq<CString>) returns (tmp: array<Option<CString>>)
    requires |names| == a.Length > 0 && forall i :: 0 <= i < |names| ==> a[i] == Some(names[i])
    ensures fresh(tmp) && tmp.Length == 2 * a.Length && Padded(tmp, names)
  {
    tmp := new Option<CString>[2 * a.Length];
    for i := 0 to a.Length
      invariant forall j :: 0 <= j < i ==> tmp[j] == a[j]
    {
      tmp[i] := a[i];
    }
    for i := a.Length to tmp.Length
      invariant forall j :: 0 <= j < a.Length ==> tmp[j] == a[j]
      invariant forall j :: a.Length <= j < i ==> tmp[j] == None
    {
      tmp[i] := None;
    }
  }

  lemma {:induction false} NamesStop(a: seq<Attr>, b: seq<Attr>)
    requires DeviceNames(a).None?
    ensures DeviceNames(a + b).None?
  {
    if b == [] {
      assert a + b == a;
    } else {
      NamesStop(a, b[..|b| - 1]);
      assert (a + b)[..|a + b| - 1] == a + b[..|b| - 1];
    }
  }

  /** One turn of the parsing loop. */
  lemma NamesStep(all: seq<Attr>, seen: seq<Attr>, a: Attr, rest: seq<Attr>)
    requires seen + ([a] + rest) == all && DeviceNames(seen).Some?
    ensures (seen + [a]) + rest == all
    ensures DeviceNames(seen + [a]) == if TypeOf(a) != NFTA_DEVICE_NAME then None
                                       else Some(DeviceNames(seen).value + [CStr(a.payload)])
    ensures TypeOf(a) != NFTA_DEVICE_NAME ==> DeviceNames(all).None?
  {
    assert (seen + [a])[..|seen|] == seen;
    assert (seen + [a]) + rest == all;
    if TypeOf(a) != NFTA_DEVICE_NAME {
      NamesStop(seen + [a], rest);
    }
  }

  lemma NoDevices(names: seq<CString>)
    ensures Encode(DeviceAttrs(names[..0])) == []
  {
  }

  /** Writing name number `i`, with room left for the others. */
  lemma DeviceStep(names: seq<CString>, i: nat)
    requires i < |names|
    ensures Encode(DeviceAttrs(names[..i + 1]))
         == Encode(DeviceAttrs(names[..i])) + AttrBytes(Attr(NFTA_DEVICE_NAME, Strz(names[i])))
    ensures |Encode(DeviceAttrs(names[..i + 1]))| <= |Encode(DeviceAttrs(names))|
  {
    hide AttrBytes;
    var a := Attr(NFTA_DEVICE_NAME, Strz(names[i]));
    assert names[..i + 1][..i] == names[..i];
    EncodeConcat(DeviceAttrs(names[..i]), [a]);
    EncodeOne(a);
    DevicesGrow(names, i + 1);
  }

  lemma {:induction false} DevicesGrow(names: seq<CString>, i: nat)
    requires i <= |names|
    ensures |Encode(DeviceAttrs(names[..i]))| <= |Encode(DeviceAttrs(names))|
    decreases |names|
  {
    hide Encode, AttrBytes;
    var n := |names| - 1;
    if i == |names| {
      assert names[..i] == names;
    } else {
      DevicesGrow(names[..n], i);
      assert names[..n][..i] == names[..i];
      EncodeConcat(DeviceAttrs(names[..n]), [Attr(NFTA_DEVICE_NAME, Strz(names[n]))]);
    }
  }

  /** Parsing a built device nest gives the same names in the same order. */
  lemma DevicesRoundTrip(names: seq<CString>)
    requires NamesFit(names)
    ensures DeviceNames(Walk(Encode(DeviceAttrs(names)))) == Some(names)
  {
    NamesOfDevices(names);
    WalkEncode(DeviceAttrs(names));
  }

  lemma {:induction false} NamesOfDevices(names: seq<CString>)
    requires NamesFit(names)
    ensures DeviceNames(DeviceAttrs(names)) == Some(names) && Fits(DeviceAttrs(names))
  {
    if names != [] {
      var n := |names| - 1;
      NamesOfDevices(names[..n]);
      StrzRoundTrip(names[n]);
      var all := DeviceAttrs(names);
      assert all[..|all| - 1] == DeviceAttrs(names[..n]);
      assert names == names[..n] + [names[n]];
    }
  }
}
