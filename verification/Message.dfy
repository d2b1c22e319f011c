/** The two ends of a netlink message: `Message` is the buffer a builder writes
    into, `ParseNested` the loop that fills a table of attributes. */
module Messages {
  import opened Wrappers
  import opened Bytes
  import opened Netlink

  /** `c` is `prefix`, then the header of a nest whose length field is not yet
      written, then `body`. */
  ghost predicate OpenNest(prefix: bytes, typ: nat, body: bytes, c: bytes) {
    && |c| == |prefix| + NLA_HDRLEN + |body|
    && c[..|prefix|] == prefix
    && c[|prefix| + 2..|prefix| + NLA_HDRLEN] == LE16(NestType(typ))
    && c[|prefix| + NLA_HDRLEN..] == body
  }

  ghost function Patch(c: bytes, at: nat, b: bytes): bytes
    requires at + |b| <= |c|
  {
    c[..at] + b + c[at + |b|..]
  }

  /** What mnl_attr_nest_end stores in the length field of the nest at `start`. */
  ghost function NestLength(c: bytes, start: nat): bytes
    requires start <= |c|
  {
    LE16((|c| - start) % 0x1_0000)
  }

  ghost function Nest(typ: nat, attrs: seq<Attr>): Attr {
    Attr(NestType(typ), Encode(attrs))
  }

  function NestBytes(typ: nat, body: bytes): bytes {
    LE16((NLA_HDRLEN + |body|) % 0x1_0000) + LE16(NestType(typ)) + body
  }

  /** A nest of any length: its header holds the low 16 bits of the length. */
  lemma NestLayout(typ: nat, body: bytes)
    requires typ < 0x4000
    ensures var n := (|body| + 4) % 65536;
      NestBytes(typ, body) == [n % 256, n / 256, typ % 256, 128 + typ / 256] + body
  {
    var n, t := (|body| + 4) % 65536, typ + 0x8000;
    NestTypeIs(typ, body);
    assert LE16(n) + LE16(t) == [n % 256, n / 256, t % 256, t / 256];
  }

  /** A nest needs no padding. */
  lemma NestIsAttr(typ: nat, attrs: seq<Attr>)
    ensures AttrBytes(Nest(typ, attrs)) == NestBytes(typ, Encode(attrs))
  {
    hide Encode, LE16, NestType, Align;
    EncodeAligned(attrs);
    var p := Encode(attrs);
    AlignedAlready(|p|);
    assert NestBytes(typ, p) + [] == NestBytes(typ, p);
  }

  lemma AlignedAlready(n: nat)
    requires n % 4 == 0
    ensures Align(n) == n
  {
  }

  /** The attribute area of a netlink message under construction: `data[..len]`
      has been written.  `len` stands for nlmsg_len. */
  class Message {
    const data: array<byte>
    var len: nat

    constructor (size: nat)
      ensures Valid() && fresh(data) && data.Length == size && Contents() == []
    {
      data := new byte[size];
      len := 0;
    }

    ghost predicate Valid()
      reads this
    {
      len <= data.Length
    }

    ghost function Contents(): bytes
      reads this, data
      requires Valid()
    {
      data[..len]
    }

    ghost predicate Room(n: nat)
      reads this
    {
      len + n <= data.Length
    }

    /** Copies `b` behind what has been written. */
    method Append(b: bytes)
      requires Valid() && Room(|b|)
      modifies this`len, data
      ensures Valid() && Contents() == old(Contents()) + b
    {
      for i := 0 to |b|
        modifies data
        invariant data[..len] == old(data[..len])
        invariant data[len..len + i] == b[..i]
      {
        data[len + i] := b[i];
      }
      len := len + |b|;
    }

    /** mnl_attr_put */
    method Put(typ: nat, payload: bytes)
      requires Valid() && NLA_HDRLEN + |payload| <= 0xFFFF
      requires Room(NLA_HDRLEN + Align(|payload|))
      modifies this`len, data
      ensures Valid()
      ensures Contents() == old(Contents()) + AttrBytes(Attr(typ % 0x1_0000, payload))
    {
      Append(AttrBytes(Attr(typ % 0x1_0000, payload)));
    }

    /** mnl_attr_nest_start: the length field keeps whatever the buffer held. */
    method NestStart(typ: nat) returns (start: nat)
      requires Valid() && Room(NLA_HDRLEN)
      modifies this`len, data
      ensures Valid() && start == |old(Contents())|
      ensures OpenNest(old(Contents()), typ, [], Contents())
    {
      start := len;
      len := len + 2;
      Append(LE16(NestType(typ)));
    }

    /** mnl_attr_nest_end */
    method NestEnd(start: nat)
      requires Valid() && start + NLA_HDRLEN <= len
      modifies data
      ensures Valid()
      ensures Contents() == Patch(old(Contents()), start, NestLength(old(Contents()), start))
    {
      var b := LE16((len - start) % 0x1_0000);
      data[start] := b[0];
      data[start + 1] := b[1];
    }

    /** The length field of the attribute at `start`. */
    method NlaLen(start: nat) returns (n: u16)
      requires Valid() && start + 2 <= len
      ensures n == GetLE16(Contents()[start..])
    {
      var lo: int, hi: int := data[start], data[start + 1];
      n := 256 * hi + lo;
    }

    /** Takes back the last `n` bytes: `nlh->nlmsg_len -= n`. */
    method Retract(n: nat)
      requires Valid() && n <= len
      modifies this`len
      ensures Valid() && Contents() == old(Contents())[..|old(Contents())| - n]
    {
      len := len - n;
    }
  }

  /** The length field of the last attribute of a message. */
  lemma LengthField(c: bytes, a: Attr)
    ensures |c + AttrBytes(a)| >= |c| + 2
    ensures GetLE16((c + AttrBytes(a))[|c|..]) == (NLA_HDRLEN + |a.payload|) % 0x1_0000
  {
    assert (c + AttrBytes(a))[|c|..] == AttrBytes(a);
    assert AttrBytes(a)[..2] == LE16((NLA_HDRLEN + |a.payload|) % 0x1_0000);
  }

  lemma OpenNestSize(prefix: bytes, typ: nat, body: bytes, c: bytes)
    requires OpenNest(prefix, typ, body, c)
    ensures |c| == |prefix| + NLA_HDRLEN + |body|
  {
  }

  lemma OpenNestAppend(prefix: bytes, typ: nat, body: bytes, c: bytes, more: bytes)
    requires OpenNest(prefix, typ, body, c)
    ensures OpenNest(prefix, typ, body + more, c + more)
  {
  }

  /** Closing a nest: patching its length field afterwards writes the same bytes
      as encoding the nest from the inside out. */
  lemma CloseNest(prefix: bytes, typ: nat, attrs: seq<Attr>, c: bytes)
    requires OpenNest(prefix, typ, Encode(attrs), c)
    ensures Patch(c, |prefix|, NestLength(c, |prefix|)) == prefix + AttrBytes(Nest(typ, attrs))
  {
    CloseNestBytes(prefix, typ, Encode(attrs), c);
    NestIsAttr(typ, attrs);
  }

  lemma CloseNestBytes(prefix: bytes, typ: nat, body: bytes, c: bytes)
    requires OpenNest(prefix, typ, body, c)
    ensures Patch(c, |prefix|, NestLength(c, |prefix|))
         == prefix + NestBytes(typ, body)
  {
    var k := |prefix|;
    assert c == prefix + c[k..k + 2] + c[k + 2..k + NLA_HDRLEN] + c[k + NLA_HDRLEN..];
  }

  lemma PatchCommutes(c: bytes, i: nat, x: bytes, j: nat, y: bytes)
    requires i + |x| <= j && j + |y| <= |c|
    ensures Patch(Patch(c, i, x), j, y) == Patch(Patch(c, j, y), i, x)
  {
  }

  /** Two nests that end at the same place may be closed in either order: the
      builders of verdicts close the outer one first. */
  lemma CloseTwoNests(prefix: bytes, outer: nat, inner: nat, attrs: seq<Attr>, c1: bytes, c: bytes)
    requires OpenNest(prefix, outer, [], c1)
    requires OpenNest(c1, inner, Encode(attrs), c)
    ensures var closedOuter := Patch(c, |prefix|, NestLength(c, |prefix|));
            Patch(closedOuter, |c1|, NestLength(closedOuter, |c1|))
            == prefix + AttrBytes(Nest(outer, [Nest(inner, attrs)]))
  {
    PatchCommutes(c, |prefix|, NestLength(c, |prefix|), |c1|, NestLength(c, |c1|));
    CloseNest(c1, inner, attrs, c);
    CloseOuter(prefix, outer, Nest(inner, attrs), c1);
  }

  lemma CloseOuter(prefix: bytes, outer: nat, a: Attr, c1: bytes)
    requires OpenNest(prefix, outer, [], c1)
    ensures var c := c1 + AttrBytes(a);
            Patch(c, |prefix|, NestLength(c, |prefix|)) == prefix + AttrBytes(Nest(outer, [a]))
  {
    EncodeOne(a);
    OpenNestAppend(prefix, outer, [], c1, AttrBytes(a));
    assert [] + AttrBytes(a) == Encode([a]);
    CloseNest(prefix, outer, [a], c1 + AttrBytes(a));
  }

  lemma {:induction false} CollectStops(a: seq<Attr>, b: seq<Attr>, p: Policy)
    requires !Collect(a, p).Ok?
    ensures Collect(a + b, p) == Collect(a, p)
  {
    if b == [] {
      assert a + b == a;
    } else {
      CollectStops(a, b[..|b| - 1], p);
      assert (a + b)[..|a + b| - 1] == a + b[..|b| - 1];
    }
  }

  function Rest(b: bytes, at: nat): bytes {
    if at <= |b| then b[at..] else []
  }

  /** mnl_attr_ok and mnl_attr_next at offset `at`: the attribute there and the
      offset of the next one, or None when the walk ends. */
  function AttrAt(b: bytes, at: nat): (r: Option<(Attr, nat)>)
    ensures r.Some? ==> at < r.value.1 && at < |b|
  {
    if at + NLA_HDRLEN > |b| then None
    else
      var n := GetLE16(b[at..]);
      if n < NLA_HDRLEN || at + n > |b| then None
      else Some((Attr(GetLE16(b[at + 2..]), b[at + NLA_HDRLEN..at + n]), at + Align(n)))
  }

  lemma WalkEnd(b: bytes, at: nat)
    requires AttrAt(b, at).None?
    ensures Walk(Rest(b, at)) == []
  {
  }

  lemma WalkStep(b: bytes, at: nat, a: Attr, next: nat, todo: seq<Attr>, rest: seq<Attr>)
    requires AttrAt(b, at) == Some((a, next))
    requires todo == Walk(Rest(b, at)) && rest == Walk(Rest(b, next))
    ensures todo == [a] + rest
  {
    var r := Rest(b, at);
    var n := GetLE16(r);
    assert r[2..] == b[at + 2..];
    assert r[NLA_HDRLEN..n] == b[at + NLA_HDRLEN..at + n];
    assert Rest(r, Align(n)) == Rest(b, next);
  }

  lemma CollectAppend(seen: seq<Attr>, a: Attr, t: Table, p: Policy)
    requires Collect(seen, p) == Ok(t)
    ensures Collect(seen + [a], p) == Record(t, a, p)
  {
    assert (seen + [a])[..|seen|] == seen;
  }

  /** One turn of the loop below, which has seen the attributes `seen` and looks
      at `a`, with `rest` still to come. */
  lemma ParseStep(all: seq<Attr>, seen: seq<Attr>, todo: seq<Attr>, a: Attr, rest: seq<Attr>,
                  t: Table, p: Policy)
    requires seen + todo == all && todo == [a] + rest
    requires Collect(seen, p) == Ok(t)
    ensures (seen + [a]) + rest == all
    ensures Collect(seen + [a], p) == Record(t, a, p)
    ensures !Record(t, a, p).Ok? ==> Collect(all, p) == Record(t, a, p)
  {
    CollectAppend(seen, a, t, p);
    if !Record(t, a, p).Ok? {
      CollectStops(seen + [a], rest, p);
      assert (seen + [a]) + rest == all;
    }
  }

  /** mnl_attr_parse_nested: one pass over the buffer, the callback on each
      attribute, the process gone at the first malformed payload. */
  method ParseNested(b: bytes, p: Policy) returns (r: Outcome<Table>)
    ensures r == ParseTable(b, p)
  {
    var at := 0;
    var t: Table := map[];
    ghost var all := Walk(b);
    ghost var seen: seq<Attr>, todo := [], all;
    assert Rest(b, 0) == b;
    while AttrAt(b, at).Some?
      invariant todo == Walk(Rest(b, at))
      invariant seen + todo == all
      invariant Collect(seen, p) == Ok(t)
      decreases |b| - at
    {
      var (a, next) := AttrAt(b, at).value;
      ghost var rest := Walk(Rest(b, next));
      WalkStep(b, at, a, next, todo, rest);
      ParseStep(all, seen, todo, a, rest, t, p);
      var recorded := Record(t, a, p);
      if !recorded.Ok? {
        return recorded;
      }
      t := recorded.value;
      seen, todo := seen + [a], rest;
      at := next;
    }
    WalkEnd(b, at);
    assert seen + [] == seen;
    r := Ok(t);
  }
}
