/** Netlink attributes (RFC 3549, sections 2.2 and 2.3.2): a 16-bit length that
    counts header and payload, a 16-bit type, the payload, and zero bytes up to
    the next multiple of four.  This module holds the attribute stream as a value
    (`Attr`, `Encode`, `Walk`), the tables of last attributes that the parsing
    callbacks fill (`Collect`), and what connects them. */
module Netlink {
  import opened Wrappers
  import opened Bytes

  const NLA_HDRLEN := 4
  const NFTA_LIST_ELEM := 1

  function Align(n: nat): nat {
    (n + 3) / 4 * 4
  }

  datatype Attr = Attr(typ: u16, payload: bytes)

  /** The type a nest gets: NLA_F_NESTED or-ed into a 16-bit argument. */
  function NestType(typ: nat): u16 {
    if typ % 0x1_0000 >= 0x8000 then typ % 0x1_0000 else typ % 0x1_0000 + 0x8000
  }

  /** The type without its two flag bits. */
  function TypeOf(a: Attr): nat {
    a.typ % 0x4000
  }

  /** Header, payload and padding.  The length field keeps 16 bits only. */
  function AttrBytes(a: Attr): (b: bytes)
    ensures |b| == NLA_HDRLEN + Align(|a.payload|)
  {
    LE16((NLA_HDRLEN + |a.payload|) % 0x1_0000) + LE16(a.typ) + a.payload
    + Zeros(Align(|a.payload|) - |a.payload|)
  }

  function Encode(attrs: seq<Attr>): bytes {
    if attrs == [] then [] else AttrBytes(attrs[0]) + Encode(attrs[1..])
  }

  /** Every attribute starts and ends on a multiple of four. */
  lemma {:induction false} EncodeAligned(attrs: seq<Attr>)
    ensures |Encode(attrs)| % 4 == 0
  {
    hide AttrBytes, Align;
    if attrs != [] {
      EncodeAligned(attrs[1..]);
      AlignIsMultiple(|attrs[0].payload|);
      SumAligned(|AttrBytes(attrs[0])|, |Encode(attrs[1..])|);
    }
  }

  lemma SumAligned(a: nat, b: nat)
    requires a % 4 == 0 && b % 4 == 0
    ensures (a + b) % 4 == 0
  {
  }

  lemma AlignIsMultiple(n: nat)
    ensures Align(n) % 4 == 0 && n <= Align(n) <= n + 3
  {
  }

  /** An attribute is shorter than the stream it is part of. */
  lemma {:induction false} EncodeMember(attrs: seq<Attr>, a: Attr)
    requires a in attrs
    ensures NLA_HDRLEN + |a.payload| <= |Encode(attrs)|
  {
    if a != attrs[0] {
      EncodeMember(attrs[1..], a);
    }
  }

  ghost predicate Fits(attrs: seq<Attr>) {
    forall a <- attrs :: NLA_HDRLEN + |a.payload| <= 0xFFFF
  }

  /** The attributes that mnl_attr_for_each visits: it stops at the end, or at
      the first header that does not describe an attribute inside the buffer. */
  function Walk(b: bytes): seq<Attr>
    decreases |b|
  {
    if |b| < NLA_HDRLEN then []
    else
      var len := GetLE16(b);
      if len < NLA_HDRLEN || len > |b| then []
      else
        [Attr(GetLE16(b[2..]), b[NLA_HDRLEN..len])]
        + Walk(if Align(len) <= |b| then b[Align(len)..] else [])
  }

  lemma {:induction false} WalkShorter(b: bytes)
    ensures forall a <- Walk(b) :: |a.payload| + NLA_HDRLEN <= |b|
    decreases |b|
  {
    if |b| >= NLA_HDRLEN {
      var len := GetLE16(b);
      if NLA_HDRLEN <= len <= |b| {
        WalkShorter(if Align(len) <= |b| then b[Align(len)..] else []);
      }
    }
  }

  lemma {:induction false} EncodeConcat(a: seq<Attr>, b: seq<Attr>)
    ensures Encode(a + b) == Encode(a) + Encode(b)
  {
    if a == [] {
      assert a + b == b;
    } else {
      EncodeConcat(a[1..], b);
      assert (a + b)[1..] == a[1..] + b;
      ConcatAssociative(AttrBytes(a[0]), Encode(a[1..]), Encode(b));
    }
  }

  lemma EncodeOne(a: Attr)
    ensures Encode([a]) == AttrBytes(a)
  {
    assert Encode([a]) == AttrBytes(a) + Encode([]);
  }

  lemma HeaderReads(a: Attr, rest: bytes)
    requires NLA_HDRLEN + |a.payload| <= 0xFFFF
    ensures var b := AttrBytes(a) + rest; var len := NLA_HDRLEN + |a.payload|;
            && GetLE16(b) == len && GetLE16(b[2..]) == a.typ
            && b[NLA_HDRLEN..len] == a.payload
            && Align(len) == |AttrBytes(a)| && b[Align(len)..] == rest
  {
    var b := AttrBytes(a) + rest;
    var len := NLA_HDRLEN + |a.payload|;
    assert b[..2] == LE16(len);
    assert b[2..][..2] == LE16(a.typ);
    assert Align(len) == NLA_HDRLEN + Align(|a.payload|);
  }

  lemma WalkOne(a: Attr, rest: bytes)
    requires NLA_HDRLEN + |a.payload| <= 0xFFFF
    ensures Walk(AttrBytes(a) + rest) == [a] + Walk(rest)
  {
    HeaderReads(a, rest);
  }

  /** Reading back what was written: the walk finds exactly the attributes. */
  lemma {:induction false} WalkEncode(attrs: seq<Attr>)
    requires Fits(attrs)
    ensures Walk(Encode(attrs)) == attrs
  {
    if attrs != [] {
      WalkEncode(attrs[1..]);
      WalkOne(attrs[0], Encode(attrs[1..]));
    }
  }

  /** The payload checks of mnl_attr_validate that the callbacks ask for. */
  datatype Kind = Unchecked | U32 | U64 | Text | Nested

  predicate ValidPayload(k: Kind, payload: bytes) {
    match k
    case Unchecked => true
    case U32 => |payload| == 4
    case U64 => |payload| == 8
    case Text => |payload| > 0
    case Nested => |payload| == 0 || |payload| >= NLA_HDRLEN
  }

  /** One attribute callback: it skips types above `max`, checks the payload of
      the types listed in `kinds`, and stores into a table with `slots + 1` entries. */
  datatype Policy = Policy(max: nat, slots: nat, kinds: seq<Kind>)

  function KindOf(p: Policy, typ: nat): Kind {
    if typ < |p.kinds| then p.kinds[typ] else Unchecked
  }

  type Table = map<nat, bytes>

  function Get(t: Table, typ: nat): Option<bytes> {
    if typ in t then Some(t[typ]) else None
  }

  function Record(t: Table, a: Attr, p: Policy): Outcome<Table> {
    var typ := TypeOf(a);
    if typ > p.max then Ok(t)
    else if !ValidPayload(KindOf(p, typ), a.payload) then Aborted
    else if typ > p.slots then Undefined
    else Ok(t[typ := a.payload])
  }

  ghost predicate Checked(t: Table, p: Policy) {
    forall k <- t :: ValidPayload(KindOf(p, k), t[k])
  }

  function Collect(attrs: seq<Attr>, p: Policy): (r: Outcome<Table>)
    ensures r.Ok? ==> Checked(r.value, p)
    ensures r.Ok? ==> forall k <- r.value :: exists a <- attrs :: a.payload == r.value[k]
    decreases |attrs|
  {
    if attrs == [] then Ok(map[])
    else
      var t :- Collect(attrs[..|attrs| - 1], p);
      var last := attrs[|attrs| - 1];
      var r := Record(t, last, p);
      assert last in attrs;
      r
  }

  /** mnl_attr_parse_nested with such a callback. */
  function ParseTable(b: bytes, p: Policy): (r: Outcome<Table>)
    ensures r.Ok? ==> Checked(r.value, p)
    ensures r.Ok? ==> forall k <- r.value :: |r.value[k]| + NLA_HDRLEN <= |b|
  {
    WalkShorter(b);
    Collect(Walk(b), p)
  }

  /** The value of an attribute of the table, when it is there.  The callback has
      checked the length of the payload. */
  function GetU32(p: Policy, t: Table, typ: nat): Option<u32>
    requires Checked(t, p) && KindOf(p, typ) == U32
  {
    if typ in t then Some(GetBE32(t[typ])) else None
  }

  function GetU64(p: Policy, t: Table, typ: nat): Option<u64>
    requires Checked(t, p) && KindOf(p, typ) == U64
  {
    if typ in t then Some(GetBE64(t[typ])) else None
  }

  function GetText(t: Table, typ: nat): Option<CString> {
    if typ in t then Some(CStr(t[typ])) else None
  }

  /** An attribute that a builder writes only when its flag bit is set. */
  datatype Field = Field(typ: nat, nested: bool, payload: Option<bytes>)

  function FieldU32(typ: nat, v: Option<u32>): Field {
    Field(typ, false, if v.Some? then Some(BE32(v.value)) else None)
  }

  function FieldU64(typ: nat, v: Option<u64>): Field {
    Field(typ, false, if v.Some? then Some(BE64(v.value)) else None)
  }

  function FieldText(typ: nat, v: Option<CString>): Field {
    Field(typ, false, if v.Some? then Some(Strz(v.value)) else None)
  }

  function FieldBytes(typ: nat, v: Option<bytes>): Field {
    Field(typ, false, v)
  }

  function FieldNest(typ: nat, v: Option<seq<Attr>>): Field {
    Field(typ, true, if v.Some? then Some(Encode(v.value)) else None)
  }

  function FieldAttr(f: Field): Attr
    requires f.payload.Some?
  {
    Attr(if f.nested then NestType(f.typ) else f.typ % 0x1_0000, f.payload.value)
  }

  function EmitOne(f: Field): seq<Attr> {
    if f.payload.Some? then [FieldAttr(f)] else []
  }

  function Emit(fs: seq<Field>): seq<Attr> {
    if fs == [] then [] else Emit(fs[..|fs| - 1]) + EmitOne(fs[|fs| - 1])
  }

  lemma {:induction false} EmitAlone(fs: seq<Field>, i: nat)
    requires i < |fs| && (forall j :: 0 <= j < |fs| && j != i ==> fs[j].payload.None?)
    ensures Emit(fs) == EmitOne(fs[i])
  {
    if i < |fs| - 1 {
      EmitAlone(fs[..|fs| - 1], i);
    } else {
      EmitNone(fs[..i]);
    }
  }

  lemma {:induction false} EmitNone(fs: seq<Field>)
    requires forall f <- fs :: f.payload.None?
    ensures Emit(fs) == []
  {
    if fs != [] {
      EmitNone(fs[..|fs| - 1]);
    }
  }

  function LastOf(fs: seq<Field>, typ: nat): Option<bytes> {
    if fs == [] then None
    else
      var f := fs[|fs| - 1];
      if f.typ == typ && f.payload.Some? then f.payload else LastOf(fs[..|fs| - 1], typ)
  }

  ghost predicate Conforms(f: Field, p: Policy) {
    f.typ <= p.max && f.typ <= p.slots && f.typ < 0x4000
    && (f.payload.Some? ==> ValidPayload(KindOf(p, f.typ), f.payload.value))
  }

  lemma CollectOneMore(attrs: seq<Attr>, f: Field, p: Policy)
    requires Conforms(f, p) && f.payload.Some?
    requires Collect(attrs, p).Ok?
    ensures Collect(attrs + [FieldAttr(f)], p)
         == Ok(Collect(attrs, p).value[f.typ := f.payload.value])
  {
    assert (attrs + [FieldAttr(f)])[..|attrs|] == attrs;
    assert TypeOf(FieldAttr(f)) == f.typ;
  }

  /** What the table holds after the attributes of `fs` went through it: for each
      type the payload of the last field of that type that was written. */
  lemma {:induction false} CollectEmit(fs: seq<Field>, p: Policy)
    requires forall f <- fs :: Conforms(f, p)
    ensures Collect(Emit(fs), p).Ok?
    ensures forall k: nat :: Get(Collect(Emit(fs), p).value, k) == LastOf(fs, k)
  {
    if fs != [] {
      var init, f := fs[..|fs| - 1], fs[|fs| - 1];
      assert Conforms(f, p);
      CollectEmit(init, p);
      if f.payload.Some? {
        CollectOneMore(Emit(init), f, p);
      } else {
        assert Emit(fs) == Emit(init);
      }
    }
  }

  ghost predicate Distinct(fs: seq<Field>) {
    forall i, j :: 0 <= i < j < |fs| ==> fs[i].typ != fs[j].typ
  }

  lemma {:induction false} LastOfAlone(fs: seq<Field>, i: nat)
    requires i < |fs|
    requires forall j :: 0 <= j < |fs| && j != i ==> fs[j].typ != fs[i].typ
    ensures LastOf(fs, fs[i].typ) == fs[i].payload
  {
    if i == |fs| - 1 {
      LastOfAbsent(fs[..i], fs[i].typ);
    } else {
      LastOfAlone(fs[..|fs| - 1], i);
    }
  }

  /** A field written later wins over an earlier one of the same type. */
  lemma {:induction false} LastOfLatest(fs: seq<Field>, i: nat)
    requires i < |fs| && fs[i].payload.Some?
    requires forall j :: i < j < |fs| ==> fs[j].typ != fs[i].typ || fs[j].payload.None?
    ensures LastOf(fs, fs[i].typ) == fs[i].payload
  {
    if i < |fs| - 1 {
      LastOfLatest(fs[..|fs| - 1], i);
    }
  }

  lemma {:induction false} LastOfAbsent(fs: seq<Field>, typ: nat)
    requires forall f <- fs :: f.typ != typ || f.payload.None?
    ensures LastOf(fs, typ) == None
  {
    if fs != [] {
      LastOfAbsent(fs[..|fs| - 1], typ);
    }
  }

  /** The case every record codec needs: distinct field types, lengths that fit.
      Then the parsing table gives back every field, set or not. */
  lemma TableOfFields(fs: seq<Field>, p: Policy)
    requires Fits(Emit(fs))
    requires forall f <- fs :: Conforms(f, p)
    requires Distinct(fs)
    ensures ParseTable(Encode(Emit(fs)), p).Ok?
    ensures forall i :: 0 <= i < |fs| ==>
      Get(ParseTable(Encode(Emit(fs)), p).value, fs[i].typ) == fs[i].payload
  {
    WalkEncode(Emit(fs));
    CollectEmit(fs, p);
    forall i | 0 <= i < |fs| ensures LastOf(fs, fs[i].typ) == fs[i].payload {
      LastOfAlone(fs, i);
    }
  }

  /** The attributes of a nest make a valid nested payload. */
  lemma TableNested(attrs: seq<Attr>)
    ensures ValidPayload(Nested, Encode(attrs))
  {
    if attrs != [] {
      assert |AttrBytes(attrs[0])| >= NLA_HDRLEN;
    }
  }

  lemma {:induction false} FieldEmitted(fs: seq<Field>, i: nat)
    requires i < |fs| && fs[i].payload.Some?
    ensures FieldAttr(fs[i]) in Emit(fs)
  {
    if i < |fs| - 1 {
      FieldEmitted(fs[..|fs| - 1], i);
    }
  }

  lemma {:induction false} FitsFields(fs: seq<Field>)
    requires forall f <- fs :: f.payload.Some? ==> NLA_HDRLEN + |f.payload.value| <= 0xFFFF
    ensures Fits(Emit(fs))
  {
    if fs != [] {
      FitsFields(fs[..|fs| - 1]);
    }
  }

  /** The payload of a field is shorter than the whole encoding. */
  lemma FieldInside(fs: seq<Field>, i: nat)
    requires i < |fs| && fs[i].payload.Some?
    ensures |fs[i].payload.value| + NLA_HDRLEN <= |Encode(Emit(fs))|
  {
    FieldEmitted(fs, i);
    EncodeMember(Emit(fs), FieldAttr(fs[i]));
  }

  lemma ReadU32(p: Policy, t: Table, typ: nat, v: Option<u32>)
    requires Checked(t, p) && KindOf(p, typ) == U32
    requires Get(t, typ) == FieldU32(typ, v).payload
    ensures GetU32(p, t, typ) == v
  {
    if v.Some? {
      BE32RoundTrip(v.value);
    }
  }

  lemma ReadU64(p: Policy, t: Table, typ: nat, v: Option<u64>)
    requires Checked(t, p) && KindOf(p, typ) == U64
    requires Get(t, typ) == FieldU64(typ, v).payload
    ensures GetU64(p, t, typ) == v
  {
    if v.Some? {
      BE64RoundTrip(v.value);
    }
  }

  lemma ReadText(t: Table, typ: nat, v: Option<CString>)
    requires Get(t, typ) == FieldText(typ, v).payload
    ensures GetText(t, typ) == v
  {
    if v.Some? {
      StrzRoundTrip(v.value);
    }
  }

  /** A sequence of attributes fits as soon as its whole encoding does. */
  lemma FitsInside(attrs: seq<Attr>)
    requires |Encode(attrs)| <= 0xFFFF
    ensures Fits(attrs)
  {
    forall a <- attrs ensures NLA_HDRLEN + |a.payload| <= 0xFFFF {
      EncodeMember(attrs, a);
    }
  }

  /** The payload of the last attribute of a type. */
  function LastPayload(attrs: seq<Attr>, typ: nat): Option<bytes> {
    if attrs == [] then None
    else
      var a := attrs[|attrs| - 1];
      if TypeOf(a) == typ then Some(a.payload) else LastPayload(attrs[..|attrs| - 1], typ)
  }

  lemma {:induction false} LastPayloadEmit(fs: seq<Field>, typ: nat)
    requires forall i :: 0 <= i < |fs| ==> fs[i].typ < 0x4000
    ensures LastPayload(Emit(fs), typ) == LastOf(fs, typ)
  {
    hide LastPayload, Emit, EmitOne;
    if fs == [] {
      EmitNone(fs);
      LastPayloadNone(typ);
    } else {
      var n := |fs| - 1;
      LastPayloadEmit(fs[..n], typ);
      EmitLast(fs);
      LastPayloadStep(Emit(fs[..n]), fs[n], typ);
    }
  }

  lemma EmitLast(fs: seq<Field>)
    requires fs != []
    ensures Emit(fs) == Emit(fs[..|fs| - 1]) + EmitOne(fs[|fs| - 1])
  {
  }

  lemma LastPayloadStep(attrs: seq<Attr>, f: Field, typ: nat)
    requires f.typ < 0x4000
    ensures LastPayload(attrs + EmitOne(f), typ)
         == if f.typ == typ && f.payload.Some? then f.payload else LastPayload(attrs, typ)
  {
    hide LastPayload, FieldAttr;
    if f.payload.Some? {
      FieldAttrParts(f);
      LastPayloadAppend(attrs, FieldAttr(f), typ);
    } else {
      assert attrs + [] == attrs;
    }
  }

  lemma LastPayloadNone(typ: nat)
    ensures LastPayload([], typ) == None
  {
  }

  lemma FieldAttrParts(f: Field)
    requires f.typ < 0x4000 && f.payload.Some?
    ensures TypeOf(FieldAttr(f)) == f.typ && FieldAttr(f).payload == f.payload.value
  {
  }

  lemma LastPayloadAppend(attrs: seq<Attr>, a: Attr, typ: nat)
    ensures LastPayload(attrs + [a], typ) == if TypeOf(a) == typ then Some(a.payload) else LastPayload(attrs, typ)
  {
    assert (attrs + [a])[..|attrs|] == attrs;
  }

  // ---------- tables that are too small ----------

  /** The callback takes the attribute for a known one, but the table has no entry for
      its type. */
  predicate Overruns(a: Attr, p: Policy) {
    p.slots < TypeOf(a) <= p.max && ValidPayload(KindOf(p, TypeOf(a)), a.payload)
  }

  /** The callback skips or stores the attribute. */
  predicate Handled(a: Attr, p: Policy) {
    TypeOf(a) > p.max || (TypeOf(a) <= p.slots && ValidPayload(KindOf(p, TypeOf(a)), a.payload))
  }

  predicate OverrunAt(attrs: seq<Attr>, p: Policy, i: nat) {
    i < |attrs| && Overruns(attrs[i], p) && forall j :: 0 <= j < i ==> Handled(attrs[j], p)
  }

  lemma {:induction false} CollectHandles(attrs: seq<Attr>, p: Policy)
    ensures Collect(attrs, p).Ok? <==> forall j :: 0 <= j < |attrs| ==> Handled(attrs[j], p)
  {
    if attrs != [] {
      var n := |attrs| - 1;
      CollectHandles(attrs[..n], p);
      CollectLast(attrs, p);
      assert forall j :: 0 <= j < n ==> attrs[..n][j] == attrs[j];
    }
  }

  lemma CollectLast(attrs: seq<Attr>, p: Policy)
    requires attrs != []
    ensures var before := Collect(attrs[..|attrs| - 1], p);
      if before.Ok? then Collect(attrs, p) == Record(before.value, attrs[|attrs| - 1], p)
      else Collect(attrs, p) == before
  {
  }

  lemma {:induction false} OverrunIsUndefined(attrs: seq<Attr>, p: Policy, i: nat)
    requires OverrunAt(attrs, p, i)
    ensures Collect(attrs, p) == Undefined
  {
    var n := |attrs| - 1;
    CollectLast(attrs, p);
    if i < n {
      OverrunIsUndefined(attrs[..n], p, i);
    } else {
      CollectHandles(attrs[..n], p);
    }
  }

  lemma {:induction false} UndefinedOverruns(attrs: seq<Attr>, p: Policy) returns (i: nat)
    requires Collect(attrs, p) == Undefined
    ensures OverrunAt(attrs, p, i)
  {
    var n := |attrs| - 1;
    CollectLast(attrs, p);
    CollectHandles(attrs[..n], p);
    i := n;
    if !Collect(attrs[..n], p).Ok? {
      i := UndefinedOverruns(attrs[..n], p);
    }
  }

  /** Collecting writes outside the table exactly when the first attribute that is
      not skipped or stored is well-formed and has a type behind the end of the table. */
  lemma CollectOverruns(attrs: seq<Attr>, p: Policy)
    ensures Collect(attrs, p) == Undefined <==> exists i: nat :: OverrunAt(attrs, p, i)
  {
    hide Collect, OverrunAt;
    forall i: nat | OverrunAt(attrs, p, i) ensures Collect(attrs, p) == Undefined {
      OverrunIsUndefined(attrs, p, i);
    }
    if Collect(attrs, p) == Undefined {
      var i := UndefinedOverruns(attrs, p);
    }
  }

  /** The first attribute that is not skipped or stored is malformed. */
  predicate MalformedAt(attrs: seq<Attr>, p: Policy, i: nat) {
    && i < |attrs| && TypeOf(attrs[i]) <= p.max && !ValidPayload(KindOf(p, TypeOf(attrs[i])), attrs[i].payload)
    && forall j :: 0 <= j < i ==> Handled(attrs[j], p)
  }

  lemma {:induction false} MalformedIsAborted(attrs: seq<Attr>, p: Policy, i: nat)
    requires MalformedAt(attrs, p, i)
    ensures Collect(attrs, p) == Aborted
  {
    var n := |attrs| - 1;
    CollectLast(attrs, p);
    if i < n {
      MalformedIsAborted(attrs[..n], p, i);
    } else {
      CollectHandles(attrs[..n], p);
    }
  }

  lemma {:induction false} AbortedMalformed(attrs: seq<Attr>, p: Policy) returns (i: nat)
    requires Collect(attrs, p) == Aborted
    ensures MalformedAt(attrs, p, i)
  {
    var n := |attrs| - 1;
    CollectLast(attrs, p);
    CollectHandles(attrs[..n], p);
    i := n;
    if !Collect(attrs[..n], p).Ok? {
      i := AbortedMalformed(attrs[..n], p);
    }
  }

  /** Collecting ends the process exactly when the first attribute that is not skipped or
      stored has a malformed payload. */
  lemma CollectAborts(attrs: seq<Attr>, p: Policy)
    ensures Collect(attrs, p) == Aborted <==> exists i: nat :: MalformedAt(attrs, p, i)
  {
    hide Collect, MalformedAt;
    forall i: nat | MalformedAt(attrs, p, i) ensures Collect(attrs, p) == Aborted {
      MalformedIsAborted(attrs, p, i);
    }
    if Collect(attrs, p) == Aborted {
      var i := AbortedMalformed(attrs, p);
    }
  }

  // ---------- the layout in bytes ----------

  /** An attribute on the wire: length with its four header bytes, cut to 16 bits, type,
      both with the low byte first, the payload, and zero bytes up to a multiple of four. */
  lemma AttrLayout(a: Attr)
    ensures var b, n := AttrBytes(a), |a.payload| + 4;
      && b[0] == n % 65536 % 256 && b[1] == n % 65536 / 256 && b[2] == a.typ % 256 && b[3] == a.typ / 256
      && b[4..n] == a.payload && |b| % 4 == 0 && n <= |b| < n + 4
      && forall i :: n <= i < |b| ==> b[i] == 0
  {
    hide AttrBytes, Align;
    AlignIsMultiple(|a.payload|);
    AttrParts(a, |a.payload| + 4, Zeros(Align(|a.payload|) - |a.payload|));
  }

  lemma AttrParts(a: Attr, n: nat, pad: bytes)
    requires n == |a.payload| + 4 && pad == Zeros(Align(|a.payload|) - |a.payload|)
    ensures AttrBytes(a) == [n % 65536 % 256, n % 65536 / 256, a.typ % 256, a.typ / 256] + a.payload + pad
    ensures forall i :: 0 <= i < |pad| ==> pad[i] == 0
  {
    var len := n % 65536;
    assert LE16(len) + LE16(a.typ) == [len % 256, len / 256, a.typ % 256, a.typ / 256];
  }

  /** A nest gets the flag 0x8000, which the readers take off again together with 0x4000. */
  lemma NestTypeIs(typ: nat, payload: bytes)
    requires typ < 0x4000
    ensures NestType(typ) == typ + 0x8000 && TypeOf(Attr(typ + 0x8000, payload)) == typ == TypeOf(Attr(typ, payload))
  {
  }

  /** A walk stops before the first four bytes that are not the header of an attribute
      inside the buffer. */
  lemma {:induction false} WalkStopsAtJunk(attrs: seq<Attr>, junk: bytes)
    requires Fits(attrs)
    requires |junk| < 4 || var lo: int, hi: int := junk[0], junk[1]; !(4 <= lo + 256 * hi <= |junk|)
    ensures Walk(Encode(attrs) + junk) == attrs
  {
    if attrs == [] {
      assert [] + junk == junk;
    } else {
      WalkStopsAtJunk(attrs[1..], junk);
      WalkOne(attrs[0], Encode(attrs[1..]) + junk);
      ConcatAssociative(AttrBytes(attrs[0]), Encode(attrs[1..]), junk);
    }
  }

  /** What a table holds for a type is the last attribute of that type in the bytes. */
  lemma TableIsLast(b: bytes, p: Policy, typ: nat)
    requires ParseTable(b, p).Ok? && typ <= p.max
    ensures Get(ParseTable(b, p).value, typ) == LastPayload(Walk(b), typ)
  {
    CollectHolds(Walk(b), p, typ);
  }

  lemma {:induction false} CollectHolds(attrs: seq<Attr>, p: Policy, typ: nat)
    requires Collect(attrs, p).Ok? && typ <= p.max
    ensures Get(Collect(attrs, p).value, typ) == LastPayload(attrs, typ)
  {
    if attrs != [] {
      CollectLast(attrs, p);
      CollectHolds(attrs[..|attrs| - 1], p, typ);
    }
  }
}
