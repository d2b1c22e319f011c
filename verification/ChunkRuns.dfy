/** Whole dumps of a set: the calls of nftnl_set_elems_nlmsg_build_payload_iter until
    one returns 0 (src/set_elem.c). */
module ChunkRuns {
  import opened Wrappers
  import opened Bytes
  import opened Netlink
  import opened Messages
  import opened SetElems
  import opened ChunkedDump

  /** The elements written by each call of a dump that starts at position `k`, or
      None when a call asks to be repeated without having written an element: the
      same call is then repeated forever. */
  function Dump(es: seq<SetElem>, k: nat): Option<seq<seq<SetElem>>>
    requires k <= |es|
    decreases |es| - k
  {
    var stop := ChunkEnd(es, k);
    if stop == |es| then Some([es[k..]])
    else if stop == k then None
    else
      var rest := Dump(es, stop);
      if rest.None? then None else Some([es[k..stop]] + rest.value)
  }

  function Flatten(chunks: seq<seq<SetElem>>): seq<SetElem> {
    if chunks == [] then [] else chunks[0] + Flatten(chunks[1..])
  }

  /** The length of the list nest around some elements. */
  function ListSize(chunk: seq<SetElem>): nat {
    NLA_HDRLEN + |Encode(ElemNests(chunk, 1))|
  }

  /** The element fits a list of its own. */
  predicate FitsList(e: SetElem) {
    NLA_HDRLEN + ElemSize(e) <= 65535
  }

  predicate AllFit(es: seq<SetElem>) {
    forall e <- es :: FitsList(e)
  }

  /** No chunk but the last has room for the element that starts the next one. */
  predicate Greedy(chunks: seq<seq<SetElem>>) {
    |chunks| <= 1
    || (chunks[1] != [] && ListSize(chunks[0]) + ElemSize(chunks[1][0]) > 65535 && Greedy(chunks[1..]))
  }

  // ---------- one call ----------

  lemma {:induction false} StopFills(es: seq<SetElem>, k: nat, used: nat)
    requires k <= |es| && AllFit(es) && used <= 65535
    ensures var stop := Stop(es, k, used);
      && used + TotalSize(es[k..stop]) <= 65535
      && (stop < |es| ==> used + TotalSize(es[k..stop]) + ElemSize(es[stop]) > 65535)
    decreases |es| - k
  {
    hide ElemSize;
    var stop := Stop(es, k, used);
    assert es[k..k] == [];
    if k < |es| && !Overflows(used, es[k]) {
      assert FitsList(es[k]);
      StopFills(es, k + 1, used + ElemSize(es[k]));
      TotalCons(es[k], es[k + 1..stop]);
      assert es[k..stop] == [es[k]] + es[k + 1..stop];
    } else if k < |es| {
      assert FitsList(es[k]);
    }
  }

  lemma {:induction false} TotalCons(e: SetElem, es: seq<SetElem>)
    ensures TotalSize([e] + es) == ElemSize(e) + TotalSize(es)
  {
    hide ElemSize;
    var all, n := [e] + es, |es|;
    if es == [] {
      assert all[..n] == [];
    } else {
      TotalCons(e, es[..n - 1]);
      assert all[..n] == [e] + es[..n - 1];
    }
  }

  lemma TotalSplit(es: seq<SetElem>, a: nat, b: nat, c: nat)
    requires a <= b <= c <= |es|
    ensures TotalSize(es[a..c]) == TotalSize(es[a..b]) + TotalSize(es[b..c])
    decreases c - b
  {
    hide ElemSize;
    if b < c {
      TotalSplit(es, a, b, c - 1);
      assert es[a..c][..c - a - 1] == es[a..c - 1];
      assert es[b..c][..c - b - 1] == es[b..c - 1];
    } else {
      assert es[b..c] == [];
    }
  }

  lemma TotalOne(es: seq<SetElem>, a: nat)
    requires a < |es|
    ensures TotalSize(es[a..a + 1]) == ElemSize(es[a])
  {
    hide ElemSize;
    assert es[a..a + 1][..0] == [];
  }

  /** Nothing is left of an element that was taken back. */
  lemma TakenBack(e: SetElem, i: nat)
    requires FitsList(e)
    ensures Remains(e, i) == []
  {
    hide ElemSize, ElemNest, AttrBytes;
    ElemNestSize(e, i);
    assert ElemSize(e) % 0x1_0000 == ElemSize(e);
  }

  lemma ChunkWrites(es: seq<SetElem>, k: nat)
    requires k <= |es| && AllFit(es)
    ensures ChunkBody(es, k) == Encode(ElemNests(es[k..ChunkEnd(es, k)], 1))
  {
    hide Encode, ElemNests, ChunkEnd, Remains, FitsList;
    var stop := ChunkEnd(es, k);
    if stop < |es| {
      TakenBack(es[stop], stop - k + 1);
    }
    var body := Encode(ElemNests(es[k..stop], 1));
    assert body + [] == body;
  }

  /** What one call does when every element fits a list of its own: the list nest is
      at most 65535 bytes, at least one element is written, and the element that was
      taken back would not have fitted. */
  lemma ChunkFills(es: seq<SetElem>, k: nat, stop: nat)
    requires k < |es| && AllFit(es) && stop == ChunkEnd(es, k)
    ensures k < stop && ListSize(es[k..stop]) <= 65535
    ensures stop < |es| ==> ListSize(es[k..stop]) + ElemSize(es[stop]) > 65535
  {
    hide Encode, ElemNests, ElemSize, TotalSize;
    StopFills(es, k, NLA_HDRLEN);
    NestsSize(es[k..stop]);
    assert FitsList(es[k]);
  }

  // ---------- the whole dump ----------

  lemma DumpStep(es: seq<SetElem>, k: nat, stop: nat)
    requires k < stop < |es| && stop == ChunkEnd(es, k) && Dump(es, stop).Some?
    ensures Dump(es, k) == Some([es[k..stop]] + Dump(es, stop).value)
  {
  }

  lemma DumpStarts(es: seq<SetElem>, k: nat)
    requires k <= |es| && Dump(es, k).Some?
    ensures var chunks := Dump(es, k).value; chunks != [] && chunks[0] == es[k..ChunkEnd(es, k)]
  {
  }

  /** The elements of the chunks, each once and in order, are the elements of the set. */
  lemma {:induction false} DumpConserves(es: seq<SetElem>, k: nat)
    requires k <= |es| && Dump(es, k).Some?
    ensures Flatten(Dump(es, k).value) == es[k..]
    decreases |es| - k
  {
    hide ChunkEnd;
    var stop := ChunkEnd(es, k);
    if stop < |es| {
      DumpConserves(es, stop);
      assert ([es[k..stop]] + Dump(es, stop).value)[1..] == Dump(es, stop).value;
      assert es[k..] == es[k..stop] + es[stop..];
    } else {
      assert [es[k..]][1..] == [];
    }
  }

  /** A call that starts with the element writes it. */
  predicate Starts(e: SetElem) {
    !Overflows(NLA_HDRLEN, e)
  }

  lemma {:induction false} StopPasses(es: seq<SetElem>, k: nat, used: nat)
    requires k <= |es| && used >= NLA_HDRLEN
    ensures forall j :: k <= j < Stop(es, k, used) ==> Starts(es[j])
    decreases |es| - k
  {
    hide ElemSize;
    if k < |es| && !Overflows(used, es[k]) {
      StopPasses(es, k + 1, used + ElemSize(es[k]));
    }
  }

  /** A dump ends exactly when every element could start a message: its nest, as far
      as its 16-bit length tells, and the list header fit 65535 bytes. */
  lemma {:induction false} DumpEnds(es: seq<SetElem>, k: nat)
    requires k <= |es|
    ensures Dump(es, k).Some?
       <==> forall j :: k <= j < |es| ==> NLA_HDRLEN + ElemSize(es[j]) % 0x1_0000 <= 65535
    decreases |es| - k
  {
    hide ElemSize;
    var stop := ChunkEnd(es, k);
    StopPasses(es, k, NLA_HDRLEN);
    assert forall j :: k <= j < stop ==> Starts(es[j]);
    if k < stop < |es| {
      DumpEnds(es, stop);
    }
  }

  /** When every element fits a list of its own, the dump ends. */
  lemma FittingDumpEnds(es: seq<SetElem>, k: nat)
    requires k <= |es| && AllFit(es)
    ensures Dump(es, k).Some?
  {
    hide ElemSize, Dump;
    forall j | k <= j < |es| ensures NLA_HDRLEN + ElemSize(es[j]) % 0x1_0000 <= 65535 {
      assert FitsList(es[j]);
    }
    DumpEnds(es, k);
  }

  /** Then no chunk is empty, every list nest is at most 65535 bytes, and no call
      stopped while the next element would still have fitted. */
  lemma {:induction false} DumpFills(es: seq<SetElem>, k: nat)
    requires k < |es| && AllFit(es) && Dump(es, k).Some?
    ensures forall chunk <- Dump(es, k).value :: chunk != [] && ListSize(chunk) <= 65535
    ensures Greedy(Dump(es, k).value)
    decreases |es| - k
  {
    hide ChunkEnd, AllFit, ListSize, ElemSize;
    var stop := ChunkEnd(es, k);
    ChunkFills(es, k, stop);
    if stop < |es| {
      DumpFills(es, stop);
      DumpStep(es, k, stop);
      DumpStarts(es, stop);
      ChunkFills(es, stop, ChunkEnd(es, stop));
      var chunks := Dump(es, k).value;
      assert chunks[1..] == Dump(es, stop).value;
      assert chunks[1][0] == es[stop];
    } else {
      assert es[k..] == es[k..stop];
    }
  }

  /** A set needs a single call exactly when all its elements fit one list; that call
      writes what nftnl_set_elems_nlmsg_build_payload writes. */
  lemma SingleCall(es: seq<SetElem>)
    requires es != [] && AllFit(es)
    ensures ChunkEnd(es, 0) == |es| <==> ListSize(es) <= 65535
    ensures ListSize(es) <= 65535 ==>
      ChunkBytes(es, 0) == NestBytes(NFTA_SET_ELEM_LIST_ELEMENTS, Encode(ElemNests(es, 1)))
  {
    hide Encode, ElemNests, ElemSize, ChunkEnd, ChunkBody, AllFit;
    assert es[0..|es|] == es;
    if ListSize(es) <= 65535 {
      ChunkReaches(es, 0, 0, |es|);
      ChunkWrites(es, 0);
    }
    ChunkFills(es, 0, ChunkEnd(es, 0));
  }

  // ---------- no other way takes fewer messages ----------

  /** A call gets at least as far as any list that fits and starts no later. */
  lemma {:induction false} StopReaches(es: seq<SetElem>, k: nat, used: nat, end: nat)
    requires k <= end <= |es| && used + TotalSize(es[k..end]) <= 65535
    ensures end <= Stop(es, k, used)
    decreases |es| - k
  {
    hide ElemSize;
    if k < end {
      TotalCons(es[k], es[k + 1..end]);
      assert es[k..end] == [es[k]] + es[k + 1..end];
      StopReaches(es, k + 1, used + ElemSize(es[k]), end);
    }
  }

  lemma ChunkReaches(es: seq<SetElem>, k: nat, j: nat, end: nat)
    requires j <= k <= end <= |es| && ListSize(es[j..end]) <= 65535
    ensures end <= ChunkEnd(es, k)
  {
    hide Encode, ElemNests, ElemSize;
    NestsSize(es[j..end]);
    TotalSplit(es, j, k, end);
    StopReaches(es, k, NLA_HDRLEN, end);
  }

  /** Filling greedily takes the fewest messages: any way of cutting the elements, in
      order, into lists that fit 65535 bytes has at least as many lists as the dump
      has chunks.  The dump stands at `k`, the other way no further, at `j`. */
  lemma {:induction false} DumpIsShortest(es: seq<SetElem>, k: nat, j: nat, other: seq<seq<SetElem>>)
    requires j <= k < |es| && Dump(es, k).Some?
    requires Flatten(other) == es[j..]
    requires forall part <- other :: ListSize(part) <= 65535
    ensures |Dump(es, k).value| <= |other|
    decreases |other|
  {
    hide ListSize, ChunkEnd;
    var end := j + |other[0]|;
    assert Flatten(other) == other[0] + Flatten(other[1..]);
    assert other[0] == es[j..end] && Flatten(other[1..]) == es[end..];
    var stop := ChunkEnd(es, k);
    if k <= end {
      ChunkReaches(es, k, j, end);
    }
    if stop < |es| {
      DumpIsShortest(es, stop, end, other[1..]);
    }
  }

  /** A way to cut elements, in order, into lists that fit 65535 bytes. */
  predicate Cutting(parts: seq<seq<SetElem>>, es: seq<SetElem>) {
    Flatten(parts) == es && forall part <- parts :: ListSize(part) <= 65535
  }

  /** The dump is such a way, and no other has fewer lists: the minimum is attained. */
  lemma DumpIsMinimal(es: seq<SetElem>)
    requires es != [] && AllFit(es)
    ensures Dump(es, 0).Some? && Cutting(Dump(es, 0).value, es)
    ensures forall other | Cutting(other, es) :: |Dump(es, 0).value| <= |other|
  {
    hide Dump, Flatten, ListSize, AllFit;
    FittingDumpEnds(es, 0);
    DumpConserves(es, 0);
    DumpFills(es, 0);
    assert es[0..] == es;
    forall other | Cutting(other, es) ensures |Dump(es, 0).value| <= |other| {
      DumpIsShortest(es, 0, 0, other);
    }
  }

  // ---------- exactly when a dump is sound ----------

  /** Every call makes progress and writes a list nest whose 16-bit length is its
      real length. */
  predicate Sound(es: seq<SetElem>, k: nat)
    requires k <= |es|
    decreases |es| - k
  {
    var stop := ChunkEnd(es, k);
    && NLA_HDRLEN + |ChunkBody(es, k)| <= 65535
    && (stop == |es| || (k < stop && Sound(es, stop)))
  }

  /** A dump is sound exactly when every element fits a list of its own: an element
      whose nest takes 65532 bytes or more makes it loop forever or write a length
      that is not the real one. */
  lemma SoundIffAllFit(es: seq<SetElem>)
    requires es != []
    ensures Sound(es, 0) <==> AllFit(es)
  {
    hide FitsList;
    if AllFit(es) {
      FitIsSound(es, 0);
    }
    if Sound(es, 0) {
      SoundFits(es, 0);
      assert forall e <- es :: exists j :: 0 <= j < |es| && es[j] == e;
    }
  }

  lemma {:induction false} FitIsSound(es: seq<SetElem>, k: nat)
    requires k < |es| && AllFit(es)
    ensures Sound(es, k)
    decreases |es| - k
  {
    hide ChunkEnd, ChunkBody, Encode, ElemNests, AllFit;
    var stop := ChunkEnd(es, k);
    ChunkFills(es, k, stop);
    ChunkWrites(es, k);
    if stop < |es| {
      FitIsSound(es, stop);
    }
  }

  lemma {:induction false} SoundFits(es: seq<SetElem>, k: nat)
    requires k <= |es| && Sound(es, k)
    ensures forall j :: k <= j < |es| ==> FitsList(es[j])
    decreases |es| - k
  {
    hide ChunkEnd, ChunkBody, FitsList;
    var stop := ChunkEnd(es, k);
    forall j | k <= j < stop
      ensures FitsList(es[j])
    {
      WrittenIsPart(es, k, stop, j);
    }
    if stop < |es| {
      SoundFits(es, stop);
    }
  }

  lemma WrittenIsPart(es: seq<SetElem>, k: nat, stop: nat, j: nat)
    requires k <= j < stop <= |es| && stop == ChunkEnd(es, k)
    requires NLA_HDRLEN + |ChunkBody(es, k)| <= 65535
    ensures FitsList(es[j])
  {
    hide Encode, ElemNests, ElemSize, ChunkEnd, Remains;
    NestsSize(es[k..stop]);
    TotalSplit(es, k, j, stop);
    TotalSplit(es, j, j + 1, stop);
    TotalOne(es, j);
  }

  /** An element that its set cannot dump: 65524 bytes of user data, nothing else. */
  lemma {:induction false} StuckElement(userdata: bytes, es: seq<SetElem>)
    requires |userdata| == 65524
    requires es != [] && es[0] == SetElem(None, None, None, None, None, None, None, None, Some(userdata), None, [])
    ensures ElemTextsFit(es[0]) && ChunkEnd(es, 0) == 0 && Dump(es, 0).None?
  {
    var fs := ElemFields(es[0]);
    EmitAlone(fs, 7);
    EncodeOne(FieldAttr(fs[7]));
    assert ElemSize(es[0]) == 65532;
  }

  // ---------- the running index ----------

  /** The running index of a written element, which becomes the type of its nest,
      stays below the two flag bits of an attribute type. */
  lemma IndexFitsType(es: seq<SetElem>, k: nat, at: nat)
    requires k <= at < |es| && at < ChunkEnd(es, k)
    ensures at - k + 1 <= 16383
    ensures TypeOf(ElemNest(es[at], at - k + 1)) == at - k + 1
  {
    hide Encode, ElemAttrs;
    StopIsNear(es, k, NLA_HDRLEN);
  }

  /** An element nest takes at least 4 bytes, so a list nest of 65535 bytes has room
      for 16382 of them; one more may start below that limit. */
  lemma {:induction false} StopIsNear(es: seq<SetElem>, k: nat, used: nat)
    requires k <= |es|
    ensures var stop := Stop(es, k, used); stop > k ==> used + 4 * (stop - k - 1) <= 65535
    decreases |es| - k
  {
    hide ElemSize;
    if k < |es| && !Overflows(used, es[k]) {
      StopIsNear(es, k + 1, used + ElemSize(es[k]));
    }
  }
}
