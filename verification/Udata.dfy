/** User data attributes (src/udata.c, include/libnftnl/udata.h): a buffer of
    type-length-value triples with one-byte lengths and without padding, nests whose
    length is patched afterwards, and the loop that walks them. */
module Udata {
  import opened Wrappers
  import opened Bytes

  const UDATA_HDRLEN := 2
  const UINT8_MAX := 0xFF

  // ---------- attributes as values ----------

  /** What a caller puts into a buffer: plain values and nests. */
  datatype Entry = Value(typ: byte, value: bytes) | Nest(typ: byte, inner: seq<Entry>)

  /** The value part of an entry. */
  function Body(u: Entry): bytes
    decreases u, 0
  {
    match u
    case Value(_, value) => value
    case Nest(_, inner) => EntriesBytes(inner)
  }

  /** The length byte keeps 8 bits. */
  function Triple(typ: byte, value: bytes): (b: bytes)
    ensures |b| == UDATA_HDRLEN + |value|
  {
    [typ, |value| % 0x100] + value
  }

  function EntriesBytes(us: seq<Entry>): bytes
    decreases us
  {
    if us == [] then []
    else Triple(us[0].typ, Body(us[0])) + EntriesBytes(us[1..])
  }

  /** Every value, and the content of every nest at any depth, has at most 255 bytes. */
  predicate Small(u: Entry)
    decreases u, 0
  {
    |Body(u)| <= UINT8_MAX && (u.Nest? ==> AllSmall(u.inner))
  }

  predicate AllSmall(us: seq<Entry>)
    decreases us
  {
    forall i :: 0 <= i < |us| ==> Small(us[i])
  }

  /** One attribute as the walk sees it. */
  datatype Attribute = Attribute(typ: byte, value: bytes)

  /** nftnl_udata_for_each_data: the attributes it visits, or None when an attribute
      runs past the end of the data. */
  function Walk(b: bytes): (r: Option<seq<Attribute>>)
    ensures r.Some? ==> |r.value| <= |b|
  {
    if b == [] then Some([])
    else if |b| < UDATA_HDRLEN then None
    else
      var next := UDATA_HDRLEN + b[1] as nat;
      if next > |b| then None
      else
        var rest := Walk(b[next..]);
        if rest.None? then None else Some([Attribute(b[0], b[UDATA_HDRLEN..next])] + rest.value)
  }

  // ---------- the buffer ----------

  /** The check of nftnl_udata_put, which looks at the size of the whole buffer. */
  predicate Guard(size: nat, len: nat) {
    len <= UINT8_MAX && len + UDATA_HDRLEN <= size
  }

  lemma GuardIs(size: nat, len: nat)
    ensures Guard(size, len) <==> len <= 255 && len + 2 <= size
  {
  }

  /** The bytes of an attribute: type, length, value. */
  lemma TripleBytes(typ: byte, value: bytes)
    ensures Triple(typ, value)[0] == typ && Triple(typ, value)[1] == |value| % 256 && Triple(typ, value)[2..] == value
  {
  }

  /** The check protects the buffer exactly while it is empty, too small for any
      attribute, or still has room for the longest one. */
  lemma GuardIsRoom(size: nat, end: nat)
    ensures (forall len: nat :: Guard(size, len) ==> end + UDATA_HDRLEN + len <= size)
       <==> end == 0 || size < UDATA_HDRLEN || end + UDATA_HDRLEN + UINT8_MAX <= size
  {
    var len: nat := if size < UDATA_HDRLEN then 0
                    else if size - UDATA_HDRLEN < UINT8_MAX then size - UDATA_HDRLEN else UINT8_MAX;
    assert Guard(size, len) || size < UDATA_HDRLEN;
  }

  lemma HeaderThenValue(data: array<byte>, at: nat, prefix: bytes, typ: byte, value: bytes)
    requires at + UDATA_HDRLEN + |value| <= data.Length && |value| <= UINT8_MAX
    requires data[..at + UDATA_HDRLEN] == prefix + [typ, |value|]
    requires data[at + UDATA_HDRLEN..at + UDATA_HDRLEN + |value|] == value
    ensures data[..at + UDATA_HDRLEN + |value|] == prefix + Triple(typ, value)
  {
    var i, j := at + UDATA_HDRLEN, at + UDATA_HDRLEN + |value|;
    assert data[..j] == data[..i] + data[i..j];
    ConcatAssociative(prefix, [typ, |value|], value);
  }

  /** struct nftnl_udata_buf */
  class Buffer {
    const data: array<byte>
    var end: nat

    /** nftnl_udata_buf_alloc */
    constructor (size: u32)
      ensures Valid() && fresh(data) && data.Length == size && Contents() == []
    {
      data := new byte[size];
      end := 0;
    }

    ghost predicate Valid()
      reads this
    {
      end <= data.Length
    }

    ghost function Contents(): bytes
      reads this, data
      requires Valid()
    {
      data[..end]
    }

    /** memcpy into the buffer */
    method Copy(at: nat, b: bytes)
      requires at + |b| <= data.Length
      modifies data
      ensures data[..at] == old(data[..at]) && data[at..at + |b|] == b
    {
      for i := 0 to |b|
        invariant data[..at] == old(data[..at]) && data[at..at + i] == b[..i]
      {
        data[at + i] := b[i];
      }
    }

    /** nftnl_udata_put */
    method Put(typ: byte, value: bytes) returns (ok: bool)
      requires Valid()
      requires Guard(data.Length, |value|) ==> end + UDATA_HDRLEN + |value| <= data.Length
      modifies this, data
      ensures Valid() && ok == Guard(data.Length, |value|)
      ensures Contents() == old(Contents()) + if ok then Triple(typ, value) else []
    {
      hide Triple;
      var len := |value|;
      if len > UINT8_MAX || data.Length < len + UDATA_HDRLEN {
        return false;
      }
      ghost var before := Contents();
      data[end] := typ;
      data[end + 1] := len;
      assert data[..end + UDATA_HDRLEN] == before + [typ, len];
      Copy(end + UDATA_HDRLEN, value);
      HeaderThenValue(data, end, before, typ, value);
      end := end + UDATA_HDRLEN + len;
      ok := true;
    }

    /** nftnl_udata_put_strz */
    method PutStrz(typ: byte, strz: CString) returns (ok: bool)
      requires Valid()
      requires Guard(data.Length, |strz| + 1) ==> end + UDATA_HDRLEN + |strz| + 1 <= data.Length
      modifies this, data
      ensures Valid() && ok == Guard(data.Length, |strz| + 1)
      ensures Contents() == old(Contents()) + if ok then Triple(typ, Strz(strz)) else []
    {
      ok := Put(typ, Strz(strz));
    }

    /** nftnl_udata_put_u32 */
    method PutU32(typ: byte, x: u32) returns (ok: bool)
      requires Valid() && (Guard(data.Length, 4) ==> end + UDATA_HDRLEN + 4 <= data.Length)
      modifies this, data
      ensures Valid() && ok == Guard(data.Length, 4)
      ensures Contents() == old(Contents()) + if ok then Triple(typ, LE32(x)) else []
    {
      ok := Put(typ, LE32(x));
    }

    /** nftnl_udata_nest_start, which does not look at the result of the put. */
    method NestStart(typ: byte) returns (start: nat)
      requires Valid() && end + UDATA_HDRLEN <= data.Length
      modifies this, data
      ensures Valid() && start == |old(Contents())|
      ensures Contents() == old(Contents()) + [typ, 0]
    {
      start := end;
      var _ := Put(typ, []);
    }

    /** nftnl_udata_nest_end */
    method NestEnd(start: nat, ghost prefix: bytes, ghost typ: byte, ghost body: bytes)
      requires Valid() && Contents() == prefix + [typ, 0] + body && start == |prefix|
      modifies data
      ensures Valid() && Contents() == prefix + Triple(typ, body)
    {
      data[start + 1] := (end - (start + UDATA_HDRLEN)) % 0x100;
      assert data[..end] == old(data[..end])[start + 1 := |body| % 0x100];
    }
  }

  /** A buffer that its own operations fill up to where the check of the next put still
      passes without room for it: 4 bytes, taken by one value of 2. */
  method FillBeyondGuard(typ: byte, value: bytes) returns (buf: Buffer)
    requires |value| == 2
    ensures buf.Valid() && buf.Contents() == Triple(typ, value)
    ensures Guard(buf.data.Length, 0) && buf.end + UDATA_HDRLEN + 0 > buf.data.Length
  {
    buf := new Buffer(4);
    var ok := buf.Put(typ, value);
    assert [] + Triple(typ, value) == Triple(typ, value);
    assert buf.end == |buf.Contents()|;
  }

  /** Any properly bracketed use of the buffer: puts, and nests around such uses. */
  method WriteEntries(buf: Buffer, us: seq<Entry>)
    requires buf.Valid() && buf.end + |EntriesBytes(us)| <= buf.data.Length && ValuesFit(us)
    modifies buf, buf.data
    ensures buf.Valid() && buf.Contents() == old(buf.Contents()) + EntriesBytes(us)
    decreases us
  {
    hide Triple, Body;
    if us != [] {
      ghost var before, first := buf.Contents(), Triple(us[0].typ, Body(us[0]));
      WriteEntry(buf, us[0]);
      WriteEntries(buf, us[1..]);
      ConcatAssociative(before, first, EntriesBytes(us[1..]));
    }
  }

  method WriteEntry(buf: Buffer, u: Entry)
    requires buf.Valid() && buf.end + UDATA_HDRLEN + |Body(u)| <= buf.data.Length && ValueFits(u)
    modifies buf, buf.data
    ensures buf.Valid() && buf.Contents() == old(buf.Contents()) + Triple(u.typ, Body(u))
    decreases u, 0
  {
    ghost var prefix := buf.Contents();
    match u
    case Value(typ, value) =>
      var _ := buf.Put(typ, value);
    case Nest(typ, inner) =>
      var start := buf.NestStart(typ);
      WriteEntries(buf, inner);
      buf.NestEnd(start, prefix, typ, Body(u));
  }

  /** Every plain value has a length that nftnl_udata_put accepts. */
  predicate ValueFits(u: Entry)
    decreases u, 0
  {
    match u
    case Value(_, value) => |value| <= UINT8_MAX
    case Nest(_, inner) => ValuesFit(inner)
  }

  predicate ValuesFit(us: seq<Entry>)
    decreases us
  {
    forall i :: 0 <= i < |us| ==> ValueFits(us[i])
  }

  // ---------- walking ----------

  /** The attributes a callback gets to see, and what the walk returns: it stops at
      the first negative answer. */
  function Visit(attrs: seq<Attribute>, cb: Attribute -> int, ret: int): (r: (int, seq<Attribute>)) {
    if attrs == [] then (ret, [])
    else
      var answer := cb(attrs[0]);
      if answer < 0 then (answer, attrs[..1])
      else
        var (last, seen) := Visit(attrs[1..], cb, answer);
        (last, attrs[..1] + seen)
  }

  /** A visit sees the attributes in order up to the first whose answer is negative, and
      returns the last answer; all of them when no answer is negative. */
  lemma {:induction false} VisitStops(attrs: seq<Attribute>, cb: Attribute -> int, ret: int)
    ensures var (last, seen) := Visit(attrs, cb, ret);
      && seen <= attrs
      && (forall i :: 0 <= i < |seen| - 1 ==> cb(seen[i]) >= 0)
      && last == (if seen == [] then ret else cb(seen[|seen| - 1]))
      && (attrs != [] ==> seen != []) && (seen == attrs || last < 0)
  {
    if attrs != [] && cb(attrs[0]) >= 0 {
      VisitStops(attrs[1..], cb, cb(attrs[0]));
      assert attrs == attrs[..1] + attrs[1..];
    }
  }

  /** The attribute at the front of well-formed data. */
  lemma WalkStep(b: bytes, todo: seq<Attribute>)
    requires b != [] && Walk(b) == Some(todo)
    ensures |b| >= UDATA_HDRLEN && UDATA_HDRLEN + b[1] <= |b| && todo != []
    ensures todo[0] == Attribute(b[0], b[UDATA_HDRLEN..UDATA_HDRLEN + b[1]])
    ensures Walk(b[UDATA_HDRLEN + b[1]..]) == Some(todo[1..])
  {
  }

  /** nftnl_udata_for_each_data with a callback, on well-formed data: one pass over the
      bytes. */
  method ForEachData(data: array<byte>, cb: Attribute -> int) returns (ret: int, seen: seq<Attribute>)
    requires Walk(data[..]).Some?
    ensures (ret, seen) == Visit(Walk(data[..]).value, cb, 0)
  {
    hide Walk;
    ret, seen := 0, [];
    var at := 0;
    ghost var todo := Walk(data[..]).value;
    ghost var all := Visit(todo, cb, 0);
    assert data[at..] == data[..] && seen + all.1 == all.1;
    while data.Length > at
      invariant at <= data.Length && Walk(data[at..]) == Some(todo)
      invariant all == (Visit(todo, cb, ret).0, seen + Visit(todo, cb, ret).1)
      decreases data.Length - at
    {
      WalkStep(data[at..], todo);
      var len: nat := data[at + 1];
      var next := at + UDATA_HDRLEN + len;
      var attr := Attribute(data[at], data[at + UDATA_HDRLEN..next]);
      assert data[at..][UDATA_HDRLEN..UDATA_HDRLEN + len] == attr.value;
      assert data[at..][UDATA_HDRLEN + len..] == data[next..];
      assert todo[..1] == [attr];
      ghost var before := seen;
      seen := seen + [attr];
      ret := cb(attr);
      if ret < 0 {
        return;
      }
      todo := todo[1..];
      assert forall rest :: before + ([attr] + rest) == seen + rest;
      at := next;
    }
    WalkNone(data, at, todo);
    assert seen + [] == seen;
  }

  /** nftnl_udata_parse: the callback sees the attributes in order, up to the first it
      answers with a negative number, and all of them when there is none. */
  method Parse(data: array<byte>, cb: Attribute -> int) returns (ret: int, seen: seq<Attribute>)
    requires Walk(data[..]).Some?
    ensures seen <= Walk(data[..]).value
    ensures forall i :: 0 <= i < |seen| - 1 ==> cb(seen[i]) >= 0
    ensures ret == if seen == [] then 0 else cb(seen[|seen| - 1])
    ensures seen == Walk(data[..]).value || ret < 0
  {
    ret, seen := ForEachData(data, cb);
    VisitStops(Walk(data[..]).value, cb, 0);
  }

  lemma WalkNone(data: array<byte>, at: nat, todo: seq<Attribute>)
    requires at == data.Length && Walk(data[at..]) == Some(todo)
    ensures todo == []
  {
  }

  // ---------- writing and walking ----------

  /** The attributes of a buffer as the walk over it sees them. */
  function Attributes(us: seq<Entry>): seq<Attribute> {
    seq(|us|, i requires 0 <= i < |us| => Attribute(us[i].typ, Body(us[i])))
  }

  /** The walk over `b` sees the entries `us`: as many attributes in the same order,
      with their types and values, and the value of each nest walks again as its
      content, to any depth. */
  ghost predicate Describes(b: bytes, us: seq<Entry>)
    decreases us
  {
    && Walk(b).Some?
    && var ts := Walk(b).value;
       && |ts| == |us|
       && forall i :: 0 <= i < |us| ==> ts[i].typ == us[i].typ && HasBody(ts[i].value, us[i])
  }

  ghost predicate HasBody(value: bytes, u: Entry)
    decreases u, 0
  {
    match u
    case Value(_, v) => value == v
    case Nest(_, inner) => Describes(value, inner)
  }

  lemma WalkNothing()
    ensures Walk([]) == Some([])
  {
  }

  lemma TripleParts(typ: byte, value: bytes, rest: bytes)
    requires |value| <= UINT8_MAX
    ensures var b, next := Triple(typ, value) + rest, UDATA_HDRLEN + |value|;
      b[0] == typ && b[1] == |value| && b[UDATA_HDRLEN..next] == value && b[next..] == rest
  {
  }

  lemma WalkHead(b: bytes, typ: byte, value: bytes, rest: bytes)
    requires |b| == UDATA_HDRLEN + |value| + |rest| && b[0] == typ && b[1] == |value|
    requires b[UDATA_HDRLEN..UDATA_HDRLEN + |value|] == value && b[UDATA_HDRLEN + |value|..] == rest
    requires Walk(rest).Some?
    ensures Walk(b) == Some([Attribute(typ, value)] + Walk(rest).value)
  {
  }

  lemma WalkTriple(typ: byte, value: bytes, rest: bytes)
    requires |value| <= UINT8_MAX && Walk(rest).Some?
    ensures Walk(Triple(typ, value) + rest) == Some([Attribute(typ, value)] + Walk(rest).value)
  {
    hide Walk, Triple;
    var b := Triple(typ, value) + rest;
    TripleParts(typ, value, rest);
    WalkHead(b, typ, value, rest);
  }

  lemma {:induction false} WalkEntries(us: seq<Entry>)
    requires forall i :: 0 <= i < |us| ==> |Body(us[i])| <= UINT8_MAX
    ensures Walk(EntriesBytes(us)) == Some(Attributes(us))
  {
    hide Body, Walk, Triple;
    if us == [] {
      WalkNothing();
    } else {
      WalkEntries(us[1..]);
      WalkTriple(us[0].typ, Body(us[0]), EntriesBytes(us[1..]));
      assert Attributes(us) == [Attribute(us[0].typ, Body(us[0]))] + Attributes(us[1..]);
    }
  }

  lemma {:induction false} WalkedBytes(b: bytes, us: seq<Entry>)
    requires Walk(b) == Some(Attributes(us))
    ensures b == EntriesBytes(us)
    ensures forall i :: 0 <= i < |us| ==> |Body(us[i])| <= UINT8_MAX
  {
    hide Body;
    if us == [] {
      assert Attributes(us) == [];
    } else {
      var all, first := Attributes(us), Attribute(us[0].typ, Body(us[0]));
      assert all[0] == first;
      WalkFront(b, first, all[1..]);
      assert all[1..] == Attributes(us[1..]);
      WalkedBytes(b[UDATA_HDRLEN + |first.value|..], us[1..]);
      assert forall i :: 0 < i < |us| ==> us[i] == us[1..][i - 1];
    }
  }

  lemma WalkFront(b: bytes, first: Attribute, rest: seq<Attribute>)
    requires Walk(b).Some? && Walk(b).value != [] && Walk(b).value[0] == first && Walk(b).value[1..] == rest
    ensures |first.value| <= UINT8_MAX && UDATA_HDRLEN + |first.value| <= |b|
    ensures b == Triple(first.typ, first.value) + b[UDATA_HDRLEN + |first.value|..]
    ensures Walk(b[UDATA_HDRLEN + |first.value|..]) == Some(rest)
  {
    hide Walk;
    if b == [] {
      WalkNothing();
    }
    WalkStep(b, Walk(b).value);
    assert b[..UDATA_HDRLEN] == [b[0], b[1]];
  }

  /** The walk over `b` sees the entries `us` exactly when `b` is what writing `us`
      leaves in the buffer and no value or nest content exceeds 255 bytes. */
  lemma {:induction false} DescribesIff(b: bytes, us: seq<Entry>)
    ensures Describes(b, us) <==> b == EntriesBytes(us) && AllSmall(us)
    decreases us
  {
    hide Walk, EntriesBytes, Triple;
    if Walk(b).Some? && |Walk(b).value| == |us| {
      forall i | 0 <= i < |us| {
        HasBodyIff(Walk(b).value[i].value, us[i]);
      }
      if Describes(b, us) {
        assert Walk(b).value == Attributes(us);
        WalkedBytes(b, us);
      }
    }
    if b == EntriesBytes(us) && AllSmall(us) {
      assert forall i :: 0 <= i < |us| ==> Small(us[i]);
      WalkEntries(us);
    }
  }

  lemma {:induction false} HasBodyIff(value: bytes, u: Entry)
    ensures HasBody(value, u) <==> value == Body(u) && (u.Nest? ==> AllSmall(u.inner))
    decreases u, 0
  {
    match u
    case Value(_, _) =>
    case Nest(_, inner) => DescribesIff(value, inner);
  }
}
