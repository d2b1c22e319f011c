/** Truncating printers: snprintf, the accounting of SNPRINTF_BUFFER_SIZE
    (include/utils.h), and how printers that follow this discipline compose. */
module Printer {
  import opened Bytes
  import opened Texts

  /** The buffer from `at` on, `size` bytes long, shows as much of `text` as fits,
      followed by NUL.  A buffer of size 0 shows nothing. */
  ghost predicate Shows(b: bytes, at: nat, size: nat, text: bytes) {
    size > 0 ==>
      && at + size <= |b|
      && var n := if |text| < size then |text| else size - 1;
         b[at..at + n] == text[..n] && b[at + n] == 0
  }

  /** Only the `size` bytes from `at` on differ. */
  ghost predicate Elsewhere(b0: bytes, b: bytes, at: nat, size: nat) {
    && |b0| == |b|
    && forall i :: 0 <= i < |b| && (i < at || at + size <= i) ==> b[i] == b0[i]
  }

  /** What a printer leaves behind when it printed `text` into `size` bytes at `at`. */
  ghost predicate Printed(b0: bytes, b: bytes, at: nat, size: nat, text: bytes) {
    Shows(b, at, size, text) && Elsewhere(b0, b, at, size)
  }

  /** The text and a NUL when both fit, else the first `size - 1` characters and a NUL;
      every other byte of the buffer stays as it was. */
  lemma PrintedMeans(b0: bytes, b: bytes, at: nat, size: nat, text: bytes)
    requires Printed(b0, b, at, size, text)
    ensures |b| == |b0|
    ensures |text| < size ==> at + size <= |b| && b[at..at + |text|] == text && b[at + |text|] == 0
    ensures 0 < size <= |text| ==>
      at + size <= |b| && b[at..at + size - 1] == text[..size - 1] && b[at + size - 1] == 0
    ensures forall i :: 0 <= i < at && i < |b| ==> b[i] == b0[i]
    ensures forall i :: at + size <= i < |b| ==> b[i] == b0[i]
  {
    assert text[..|text|] == text;
  }

  /** In the middle of a printer: it printed `text` so far.  `offset` counts the full
      length, `remain` what is left of the buffer. */
  ghost predicate Printing(b0: bytes, b: bytes, at: nat, size: nat, text: bytes, offset: nat, remain: nat) {
    && Printed(b0, b, at, size, text)
    && offset == |text|
    && remain == if offset < size then size - offset else 0
  }

  /** snprintf with an expanded format: the full length is returned even when the
      text is truncated. */
  method Snprintf(buf: array<byte>, at: nat, remain: nat, text: CString) returns (ret: int)
    requires remain > 0 ==> at + remain <= buf.Length
    modifies buf
    ensures ret == |text| && Printed(old(buf[..]), buf[..], at, remain, text)
  {
    ret := |text|;
    if remain == 0 {
      return;
    }
    var n := if |text| < remain then |text| else remain - 1;
    for i := 0 to n
      invariant buf[at..at + i] == text[..i]
      invariant Elsewhere(old(buf[..]), buf[..], at, remain)
    {
      buf[at + i] := text[i];
    }
    buf[at + n] := 0;
  }

  /** SNPRINTF_BUFFER_SIZE */
  method Account(ret: int, remain: nat, offset: nat) returns (remain': nat, offset': nat)
    ensures var n := if ret < 0 then 0 else ret;
      offset' == offset + n && remain' == if n > remain then 0 else remain - n
  {
    var n := ret;
    if n < 0 {
      n := 0;
    }
    offset' := offset + n;
    if n > remain {
      n := remain;
    }
    remain' := remain - n;
  }

  lemma PrintingStart(b: bytes, at: nat, size: nat)
    requires Shows(b, at, size, [])
    ensures Printing(b, b, at, size, [], 0, size)
  {
  }

  /** Where a nested printer starts: there is a NUL. */
  lemma NestedStart(b0: bytes, b: bytes, at: nat, size: nat, text: bytes, offset: nat, remain: nat)
    requires Printing(b0, b, at, size, text, offset, remain)
    ensures Shows(b, at + offset, remain, []) && (remain > 0 ==> at + offset + remain <= |b|)
  {
  }

  lemma ElsewhereTwice(b0: bytes, b1: bytes, b2: bytes, at: nat, size: nat, offset: nat, remain: nat)
    requires Elsewhere(b0, b1, at, size) && Elsewhere(b1, b2, at + offset, remain)
    requires remain == if offset < size then size - offset else 0
    ensures Elsewhere(b0, b2, at, size)
    ensures remain == 0 ==> b2 == b1
    ensures at + offset <= |b1| ==> b2[..at + offset] == b1[..at + offset]
  {
  }

  /** The text filled the buffer: nothing more is shown. */
  lemma ShowsFull(b: bytes, at: nat, size: nat, text: bytes, piece: bytes)
    requires Shows(b, at, size, text) && size <= |text|
    ensures Shows(b, at, size, text + piece)
  {
    if size > 0 {
      assert (text + piece)[..size - 1] == text[..size - 1];
    }
  }

  /** The text left room: as much as fits of the piece comes behind it. */
  lemma ShowsMore(b: bytes, at: nat, size: nat, text: bytes, piece: bytes)
    requires |text| < size && at + size <= |b| && b[at..at + |text|] == text
    requires Shows(b, at + |text|, size - |text|, piece)
    ensures Shows(b, at, size, text + piece)
  {
    var all, remain := text + piece, size - |text|;
    var shown := if |piece| < remain then |piece| else remain - 1;
    var n := |text| + shown;
    assert n == if |all| < size then |all| else size - 1;
    assert all[..n] == text + piece[..shown];
    assert b[at..at + n] == b[at..at + |text|] + b[at + |text|..at + n];
  }

  /** Truncating printers compose: a piece printed into what remains extends what the
      whole buffer shows, truncated or not. */
  lemma Compose(b0: bytes, b1: bytes, b2: bytes, at: nat, size: nat, text: bytes, offset: nat, remain: nat,
                piece: bytes)
    requires Printing(b0, b1, at, size, text, offset, remain)
    requires Printed(b1, b2, at + offset, remain, piece)
    ensures Printed(b0, b2, at, size, text + piece)
  {
    ElsewhereTwice(b0, b1, b2, at, size, offset, remain);
    if offset < size {
      assert b2[at..at + offset] == b2[..at + offset][at..] == b1[..at + offset][at..] == b1[at..at + offset];
      assert b1[at..at + offset] == text;
      ShowsMore(b2, at, size, text, piece);
    } else {
      ShowsFull(b1, at, size, text, piece);
    }
  }

  /** One call of snprintf and the accounting behind it. */
  method Print(buf: array<byte>, at: nat, size: nat, offset: nat, remain: nat, piece: CString,
               ghost b0: bytes, ghost text: bytes)
    returns (offset': nat, remain': nat)
    requires Printing(b0, buf[..], at, size, text, offset, remain)
    modifies buf
    ensures Printing(b0, buf[..], at, size, text + piece, offset', remain')
  {
    ghost var b1 := buf[..];
    NestedStart(b0, b1, at, size, text, offset, remain);
    var ret := Snprintf(buf, at + offset, remain, piece);
    remain', offset' := Account(ret, remain, offset);
    Compose(b0, b1, buf[..], at, size, text, offset, remain, piece);
  }

  // ---------- a printer as a sequence of calls ----------

  /** A printer has made the first `i` of its calls. */
  ghost predicate Calling(b0: bytes, b: bytes, at: nat, size: nat, calls: seq<CString>, i: nat,
                          offset: nat, remain: nat) {
    i <= |calls| && Printing(b0, b, at, size, Flat(calls[..i]), offset, remain)
  }

  lemma CallsStart(b: bytes, at: nat, size: nat, calls: seq<CString>)
    requires Shows(b, at, size, [])
    ensures Calling(b, b, at, size, calls, 0, 0, size)
  {
  }

  lemma CallsDone(b0: bytes, b: bytes, at: nat, size: nat, calls: seq<CString>, offset: nat, remain: nat)
    requires Calling(b0, b, at, size, calls, |calls|, offset, remain)
    ensures Printed(b0, b, at, size, Flat(calls)) && offset == |Flat(calls)|
  {
    assert calls[..|calls|] == calls;
  }

  lemma FlatStep(calls: seq<CString>, i: nat)
    requires i < |calls|
    ensures Flat(calls[..i + 1]) == Flat(calls[..i]) + calls[i]
  {
    assert calls[..i + 1][..i] == calls[..i];
  }

  /** A call that is not made. */
  lemma SkipCall(b0: bytes, b: bytes, at: nat, size: nat, calls: seq<CString>, i: nat, offset: nat, remain: nat)
    requires Calling(b0, b, at, size, calls, i, offset, remain)
    requires i < |calls| && calls[i] == []
    ensures Calling(b0, b, at, size, calls, i + 1, offset, remain)
  {
    FlatStep(calls, i);
    assert Flat(calls[..i]) + [] == Flat(calls[..i]);
  }

  /** After a loop that printed what belongs to call `i`. */
  lemma Continue(b0: bytes, b: bytes, at: nat, size: nat, calls: seq<CString>, i: nat, offset: nat, remain: nat)
    requires i < |calls| && Printing(b0, b, at, size, Flat(calls[..i]) + calls[i], offset, remain)
    ensures Calling(b0, b, at, size, calls, i + 1, offset, remain)
  {
    FlatStep(calls, i);
  }

  lemma FlatTwo(base: bytes, a: CString, b: CString)
    ensures base + a + b == base + Flat([a, b])
  {
    var all := [a, b];
    FlatStep(all, 0);
    FlatStep(all, 1);
    assert all[..2] == all && Flat(all[..0]) == [];
    assert base + a + b == base + ([] + a + b);
  }

  lemma FlatThree(base: bytes, a: CString, b: CString, c: CString)
    ensures base + a + b + c == base + Flat([a, b, c])
  {
    var all := [a, b, c];
    FlatStep(all, 0);
    FlatStep(all, 1);
    FlatStep(all, 2);
    assert all[..3] == all && Flat(all[..0]) == [];
    assert Flat(all) == [] + a + b + c;
    assert base + a + b + c == base + ([] + a + b + c);
  }

  /** A call of snprintf. */
  method Call(buf: array<byte>, at: nat, size: nat, offset: nat, remain: nat, piece: CString,
              ghost b0: bytes, ghost calls: seq<CString>, ghost i: nat)
    returns (offset': nat, remain': nat)
    requires Calling(b0, buf[..], at, size, calls, i, offset, remain)
    requires i < |calls| && calls[i] == piece
    modifies buf
    ensures Calling(b0, buf[..], at, size, calls, i + 1, offset', remain')
  {
    FlatStep(calls, i);
    offset', remain' := Print(buf, at, size, offset, remain, piece, b0, Flat(calls[..i]));
  }

  /** A call of snprintf for an attribute that may not be set. */
  method CallWhen(buf: array<byte>, at: nat, size: nat, offset: nat, remain: nat, cond: bool, parts: seq<CString>,
                  ghost b0: bytes, ghost calls: seq<CString>, ghost i: nat)
    returns (offset': nat, remain': nat)
    requires Calling(b0, buf[..], at, size, calls, i, offset, remain)
    requires i < |calls| && calls[i] == When(cond, parts)
    modifies buf
    ensures Calling(b0, buf[..], at, size, calls, i + 1, offset', remain')
  {
    offset', remain' := offset, remain;
    if cond {
      offset', remain' := Call(buf, at, size, offset, remain, Flat(parts), b0, calls, i);
    } else {
      SkipCall(b0, buf[..], at, size, calls, i, offset, remain);
    }
  }

  /** The accounting behind a call of another printer, which took the buffer from
      `b1` to `b2`. */
  method Called(ret: int, offset: nat, remain: nat,
                ghost b0: bytes, ghost b1: bytes, ghost b2: bytes, ghost at: nat, ghost size: nat,
                ghost calls: seq<CString>, ghost i: nat)
    returns (offset': nat, remain': nat)
    requires Calling(b0, b1, at, size, calls, i, offset, remain)
    requires i < |calls| && Printed(b1, b2, at + offset, remain, calls[i])
    requires |calls[i]| == if ret < 0 then 0 else ret
    ensures Calling(b0, b2, at, size, calls, i + 1, offset', remain')
  {
    FlatStep(calls, i);
    offset', remain' := Nested(ret, offset, remain, b0, b1, b2, at, size, Flat(calls[..i]), calls[i]);
  }

  /** The state between two calls, to go on with a loop. */
  lemma Paused(b0: bytes, b: bytes, at: nat, size: nat, calls: seq<CString>, i: nat, offset: nat, remain: nat)
    requires Calling(b0, b, at, size, calls, i, offset, remain)
    ensures i <= |calls| && Printing(b0, b, at, size, Flat(calls[..i]), offset, remain)
  {
  }

  /** The same accounting inside a loop. */
  method Nested(ret: int, offset: nat, remain: nat,
                ghost b0: bytes, ghost b1: bytes, ghost b2: bytes, ghost at: nat, ghost size: nat,
                ghost text: bytes, ghost piece: bytes)
    returns (offset': nat, remain': nat)
    requires Printing(b0, b1, at, size, text, offset, remain)
    requires Printed(b1, b2, at + offset, remain, piece) && |piece| == if ret < 0 then 0 else ret
    ensures Printing(b0, b2, at, size, text + piece, offset', remain')
  {
    Compose(b0, b1, b2, at, size, text, offset, remain, piece);
    remain', offset' := Account(ret, remain, offset);
  }

  lemma NothingPrinted(b: bytes, at: nat, size: nat)
    requires Shows(b, at, size, [])
    ensures Printed(b, b, at, size, [])
  {
  }

  /** Writing the first NUL before printing makes no difference. */
  lemma PrintedBehind(b0: bytes, b1: bytes, b2: bytes, at: nat, size: nat, text: bytes)
    requires Elsewhere(b0, b1, at, size) && Printed(b1, b2, at, size, text)
    ensures Printed(b0, b2, at, size, text)
  {
  }
}
