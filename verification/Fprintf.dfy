/** Writing an object to a stream (src/utils.c): a first pass into a buffer on the
    stack, and a second pass into one of the right size when the first was too short. */
module Fprintf {
  import opened Bytes
  import opened Exprs
  import opened Rules
  import opened Texts
  import opened Printer
  import opened Printers

  const NFTNL_SNPRINTF_BUFSIZ := 4096

  /** The objects of this model that are printed through nftnl_fprintf. */
  datatype Object = ExprObject(expr: Expr, noPrefix: bool) | RuleObject(rule: RuleValue) | SetObject(set_: SetValue)

  /** The text of an object; nothing when its printer refuses the output type. */
  function Text(o: Object, typ: u32): CString {
    if typ != NFTNL_OUTPUT_DEFAULT then []
    else match o
      case ExprObject(e, noPrefix) => ExprText(e, noPrefix)
      case RuleObject(r) => RuleText(r)
      case SetObject(s) => SetText(s)
  }

  /** What the caller of nftnl_fprintf gets back: the printers of rules and sets refuse
      other output types with -1, the printer of expressions with 0. */
  function Result(o: Object, typ: u32): int {
    if typ != NFTNL_OUTPUT_DEFAULT && !o.ExprObject? then -1 else |Text(o, typ)|
  }

  /** A stream: the bytes written so far. */
  class File {
    var written: bytes

    constructor ()
      ensures written == []
    {
      written := [];
    }

    /** fprintf(fp, "%s", buf) */
    method Puts(buf: array<byte>, ghost text: CString) returns (ret: int)
      requires |text| < buf.Length && buf[..|text|] == text && buf[|text|] == 0
      modifies this
      ensures written == old(written) + text && ret == |text|
    {
      ret := 0;
      assert forall i :: 0 <= i < |text| ==> buf[i] == buf[..|text|][i] == text[i] && text[i] in text;
      while buf[ret] != 0
        invariant 0 <= ret <= |text| && written == old(written) + text[..ret]
        decreases |text| - ret
      {
        assert text[..ret + 1] == text[..ret] + [buf[ret]];
        written := written + [buf[ret]];
        ret := ret + 1;
      }
      assert text[..|text|] == text;
    }
  }

  /** The callback that nftnl_fprintf gets for an object. */
  method Callback(buf: array<byte>, size: nat, o: Object, typ: u32) returns (ret: int)
    requires size <= buf.Length
    modifies buf
    ensures ret == Result(o, typ)
    ensures ret > 0 ==> Printed(old(buf[..]), buf[..], 0, size, Text(o, typ))
  {
    hide ExprText, RuleText, SetText, Printed;
    match o
    case ExprObject(e, noPrefix) =>
      if typ != NFTNL_OUTPUT_DEFAULT {
        if size > 0 {
          buf[0] := 0;
        }
        return 0;
      }
      ret := ExprSnprintf(buf, 0, size, e, noPrefix);
    case RuleObject(r) =>
      ret := RuleSnprintf(buf, size, r, typ);
    case SetObject(s) =>
      ret := SetSnprintf(buf, size, s, typ);
  }

  /** nftnl_fprintf writes the complete text of the object, however long, in at most
      two passes: a second one exactly when text and NUL do not fit the first buffer. */
  method FprintfObject(fp: File, o: Object, typ: u32) returns (ret: int, passes: nat)
    modifies fp
    ensures fp.written == old(fp.written) + Text(o, typ)
    ensures typ == 0 ==> ret == |Text(o, typ)|
    ensures typ != 0 ==> ret == (if o.ExprObject? then 0 else -1) && fp.written == old(fp.written)
    ensures passes == if |Text(o, typ)| >= 4096 then 2 else 1
  {
    hide Text;
    Refusal(o, typ);
    var buf := new byte[NFTNL_SNPRINTF_BUFSIZ];
    var bufsiz := NFTNL_SNPRINTF_BUFSIZ;
    ret := Callback(buf, bufsiz, o, typ);
    passes := 1;
    if ret <= 0 {
      NoText(o, typ);
      assert fp.written + [] == fp.written;
      return;
    }
    if ret >= NFTNL_SNPRINTF_BUFSIZ {
      bufsiz := ret + 1;
      buf := new byte[bufsiz];
      ret := Callback(buf, bufsiz, o, typ);
      passes := 2;
    }
    ShowsAll(buf[..], bufsiz, Text(o, typ));
    ret := fp.Puts(buf, Text(o, typ));
  }

  lemma Refusal(o: Object, typ: u32)
    ensures typ != 0 ==> Text(o, typ) == [] && Result(o, typ) == if o.ExprObject? then 0 else -1
  {
  }

  lemma NoText(o: Object, typ: u32)
    requires Result(o, typ) <= 0
    ensures Text(o, typ) == []
  {
  }

  /** A buffer with room for the text and a NUL shows all of it. */
  lemma ShowsAll(b: bytes, size: nat, text: bytes)
    requires Shows(b, 0, size, text) && |text| < size
    ensures |text| < |b| && b[..|text|] == text && b[|text|] == 0
  {
  }

  /** A callback as nftnl_fprintf uses it: for a buffer size, what it returns and what
      it leaves in the buffer. */
  type Callable = nat -> (int, bytes)

  /** The discipline of the printers of the library, and of any other that follows it. */
  ghost predicate Disciplined(cb: Callable, text: CString) {
    forall size: nat :: size > 0 ==>
      && cb(size).0 == |text| && |cb(size).1| == size
      && Shows(cb(size).1, 0, size, text)
  }

  /** nftnl_fprintf with any such callback emits the complete text. */
  method FprintfWith(fp: File, cb: Callable, ghost text: CString) returns (ret: int, passes: nat)
    requires Disciplined(cb, text)
    modifies fp
    ensures fp.written == old(fp.written) + text && ret == |text|
    ensures passes == if |text| >= 4096 then 2 else 1
  {
    var bufsiz := NFTNL_SNPRINTF_BUFSIZ;
    var (length, left) := cb(bufsiz);
    passes := 1;
    if length <= 0 {
      assert fp.written + [] == fp.written;
      return length, passes;
    }
    if length >= NFTNL_SNPRINTF_BUFSIZ {
      bufsiz := length + 1;
      var second := cb(bufsiz);
      left := second.1;
      passes := 2;
    }
    var buf := new byte[bufsiz](i requires 0 <= i < bufsiz && |left| == bufsiz => left[i]);
    assert buf[..] == left;
    ShowsAll(buf[..], bufsiz, text);
    ret := fp.Puts(buf, text);
  }
}
