/**
 * Value-level reference model of the Builder: the state is a record, every
 * operation a function from the old state to the new one (or to an error,
 * where the runtime panics). The buffer grows from its end toward its start:
 * the state holds the bytes written so far and the free room in front of
 * them (the runtime's head index), and a position in the data is named by
 * its distance from the end (an "offset"), which growth preserves.
 */
module BuilderModel {
  import opened Wire

  const SizeUOffsetT: nat := 4
  const SizeSOffsetT: nat := 4
  const SizeVOffsetT: nat := 2
  const VtableMetadataFields: nat := 2

  /**
   * The builder's fields: the bytes written so far and the room in front of
   * them, the largest alignment used, the open object's slot offsets
   * (0 = absent) and its start offset, the offsets of the vtables written so
   * far, the nesting and finished flags, and the shared-string cache.
   */
  datatype State = State(
    data: seq<Byte>,
    space: nat,
    minAlign: nat,
    vtable: seq<nat>,
    objectEnd: nat,
    vtables: seq<nat>,
    nested: bool,
    finished: bool,
    shared: map<seq<Byte>, nat>)

  /** The bytes written so far: the buffer from its head on. */
  function Data(s: State): seq<Byte>
  {
    s.data
  }

  /** The number of bytes written so far (the builder's Offset). */
  function Offset(s: State): nat
  {
    |s.data|
  }

  /** The length of the whole buffer. */
  function Capacity(s: State): nat
  {
    s.space + |s.data|
  }

  /** r has s's open object and vtable cache. */
  predicate SameObject(s: State, r: State)
  {
    r.vtable == s.vtable && r.objectEnd == s.objectEnd && r.vtables == s.vtables
  }

  /**
   * r differs from s at most in its buffer, head and largest alignment: the
   * open object, the caches and the flags are kept.
   */
  predicate Framed(s: State, r: State)
  {
    SameObject(s, r) && r.nested == s.nested && r.finished == s.finished && r.shared == s.shared
  }

  /**
   * r has closed s's object: the slots are forgotten, and the object's
   * start, the string cache and the flags are kept.
   */
  predicate Closed(s: State, r: State)
  {
    r.vtable == [] && r.objectEnd == s.objectEnd &&
    r.nested == s.nested && r.finished == s.finished && r.shared == s.shared
  }

  /** The w bytes that start at distance e from the end of data. */
  function At(data: seq<Byte>, e: nat, w: nat): seq<Byte>
    requires w <= e <= |data|
  {
    data[|data| - e..|data| - e + w]
  }

  /** Bytes put in front of data leave every end-relative position unchanged. */
  lemma AtPrefix(pre: seq<Byte>, data: seq<Byte>, e: nat, w: nat)
    requires w <= e <= |data|
    ensures At(pre + data, e, w) == At(data, e, w)
  {
    var n := |pre + data|;
    assert (pre + data)[n - e..n - e + w] == data[|data| - e..|data| - e + w];
  }

  // ---------------------------------------------------------------------
  // Creation, reset and growth
  // ---------------------------------------------------------------------

  /** A new builder with room for initialSize bytes (a non-positive size means none). */
  function NewBuilder(initialSize: int): (s: State)
    ensures Data(s) == [] && Offset(s) == 0
    ensures Capacity(s) == if initialSize <= 0 then 0 else initialSize
    ensures s.minAlign == 1 && !s.nested && !s.finished
    ensures s.vtable == [] && s.vtables == [] && s.shared == map[]
  {
    var n := if initialSize <= 0 then 0 else initialSize;
    State([], n, 1, [], 0, [], false, false, map[])
  }

  /**
   * Reset keeps the allocation and forgets everything written, both caches
   * and both flags.
   */
  function Reset(s: State): (r: State)
    ensures Data(r) == [] && Capacity(r) == Capacity(s)
    ensures r.minAlign == 1 && !r.nested && !r.finished
    ensures r.vtable == [] && r.vtables == [] && r.shared == map[]
  {
    s.(data := [], space := Capacity(s), minAlign := 1, vtable := [], vtables := [],
       nested := false, finished := false, shared := map[])
  }

  /** The capacity after one growth step: doubled, or 1 for an empty buffer. */
  function GrownLen(n: nat): (r: nat)
    ensures r > n
  {
    if n == 0 then 1 else 2 * n
  }

  /**
   * One growth step: the old bytes move to the upper end of a buffer of the
   * new capacity, so the data keep their offsets and the room grows.
   */
  function Grow(s: State): (r: State)
    ensures Capacity(r) == GrownLen(Capacity(s)) && r.space > s.space
    ensures Data(r) == Data(s)
    ensures Framed(s, r) && r.minAlign == s.minAlign
  {
    s.(space := s.space + (GrownLen(Capacity(s)) - Capacity(s)))
  }

  /** Grows until more than `need` bytes are free in front of the head. */
  function Reserve(s: State, need: nat): (r: State)
    ensures r.space > need && Data(r) == Data(s)
    ensures Framed(s, r) && r.minAlign == s.minAlign
    decreases if s.space > need then 0 else need + 1 - s.space
  {
    if s.space > need then s else Reserve(Grow(s), need)
  }

  // ---------------------------------------------------------------------
  // Writing in front of the head
  // ---------------------------------------------------------------------

  /** Writes enc immediately in front of the head, in room already reserved. */
  function Place(s: State, enc: seq<Byte>): (r: State)
    requires |enc| <= s.space
    ensures Data(r) == enc + Data(s) && Capacity(r) == Capacity(s)
    ensures Framed(s, r) && r.minAlign == s.minAlign
  {
    s.(data := enc + s.data, space := s.space - |enc|)
  }

  /**
   * Prep: records `size` as an alignment in use, grows the buffer until
   * the padding, one element of `size` and `additional` further bytes fit,
   * and writes the zero padding that makes the offset after the
   * `additional` bytes a multiple of `size`.
   */
  function Prep(s: State, size: nat, additional: nat): (r: State)
    ensures Data(r) == Zeros(PadLen(Offset(s) + additional, size)) + Data(s)
    ensures r.space > size + additional
    ensures r.minAlign == if size > s.minAlign then size else s.minAlign
    ensures Framed(s, r)
  {
    var s1 := s.(minAlign := if size > s.minAlign then size else s.minAlign);
    var pad := PadLen(Offset(s) + additional, size);
    var s2 := Reserve(s1, pad + size + additional);
    Place(s2, Zeros(pad))
  }

  /** Prep step by step: the alignment recorded, the growth, the padding. */
  lemma PrepSteps(s: State, size: nat, additional: nat, s1: State, pad: nat, s2: State)
    requires s1 == s.(minAlign := if size > s.minAlign then size else s.minAlign)
    requires pad == PadLen(Offset(s1) + additional, size) && s2 == Reserve(s1, pad + size + additional)
    ensures pad <= s2.space && Prep(s, size, additional) == Place(s2, Zeros(pad))
  {
  }

  /** For a power-of-two size, Prep leaves the offset after `additional` bytes aligned to it. */
  lemma PrepAligns(s: State, size: nat, additional: nat)
    requires IsPow2(size) && WordModulus % size == 0
    ensures (Offset(Prep(s, size, additional)) + additional) % size == 0
  {
    PadLenAligns(Offset(s) + additional, size);
  }

  /** The raw Place* writes: no room is reserved, so writing below the start fails. */
  function PlaceScalar(s: State, w: nat, v: nat): (r: Result<State>)
    ensures r.Err? <==> w > s.space
    ensures r.Ok? ==> Data(r.value) == LE(v, w) + Data(s)
  {
    if w > s.space then Err(NoSpace) else Ok(Place(s, LE(v, w)))
  }

  /** Pad: n zero bytes, written raw like the Place* family. */
  function Pad(s: State, n: nat): (r: Result<State>)
    ensures r.Err? <==> n > s.space
    ensures r.Ok? ==> Data(r.value) == Zeros(n) + Data(s)
  {
    if n > s.space then Err(NoSpace) else Ok(Place(s, Zeros(n)))
  }

  /**
   * Prepend of a w-byte scalar given by its unsigned bit pattern v: align,
   * then write little-endian. Signed and floating-point values are
   * prepended through their bit patterns.
   */
  function PrependScalar(s: State, w: nat, v: nat): (r: State)
    ensures Data(r) == LE(v, w) + Zeros(PadLen(Offset(s), w)) + Data(s)
    ensures r.minAlign == if w > s.minAlign then w else s.minAlign
    ensures Framed(s, r)
  {
    var p := Prep(s, w, 0);
    Place(p, LE(v, w))
  }

  /** A scalar of power-of-two width ends at an offset that is a multiple of its width. */
  lemma PrependScalarAligns(s: State, w: nat, v: nat)
    requires IsPow2(w) && WordModulus % w == 0
    ensures Offset(PrependScalar(s, w, v)) % w == 0
  {
    PrepAligns(s, w, 0);
    AddMultiple(Offset(Prep(s, w, 0)), w);
  }

  lemma AddMultiple(x: nat, w: nat)
    requires w > 0 && x % w == 0
    ensures (x + w) % w == 0
  {
    DivModUnique(x + w, w, x / w + 1, 0);
  }

  /** A bool is the byte 1 or 0. */
  function BoolByte(x: bool): Byte
  {
    if x then 1 else 0
  }

  /** A signed w-byte integer is prepended as its two's-complement pattern. */
  function PrependSigned(s: State, w: nat, x: int): (r: State)
    requires w > 0 && x + Pow256(w) / 2 >= 0 && x < Pow256(w) / 2
    ensures |Data(r)| >= w && Signed(FromLE(Data(r)[..w]), w) == x
  {
    var u := Unsigned(x, w);
    var r := PrependScalar(s, w, u);
    assert Data(r)[..w] == LE(u, w);
    SignedRoundTrip(x, w);
    r
  }

  /** Reading back the encoding of a signed value gives the value. */
  lemma SignedRoundTrip(x: int, w: nat)
    requires w > 0 && x + Pow256(w) / 2 >= 0 && x < Pow256(w) / 2
    ensures Signed(FromLE(LE(Unsigned(x, w), w)), w) == x
  {
    var u := Unsigned(x, w);
    FromLEOfLE(u, w);
    DivModUnique(u, Pow256(w), 0, u);
    SignedOfUnsigned(x, w);
  }

  /**
   * PrependUOffsetT: aligns to 4, then stores the distance from the stored
   * word to the target. The target must already be written.
   */
  function PrependUOffsetT(s: State, off: nat): (r: Result<State>)
    ensures r.Err? <==> off > Offset(Prep(s, SizeUOffsetT, 0))
    ensures r.Ok? ==> Offset(r.value) >= off
    ensures r.Ok? ==> Data(r.value) == LE(Offset(r.value) - off, 4) + Data(Prep(s, SizeUOffsetT, 0))
  {
    var p := Prep(s, SizeUOffsetT, 0);
    if off > Offset(p) then Err(OffsetOutOfRange)
    else Ok(Place(p, LE(Offset(p) - off + SizeUOffsetT, 4)))
  }

  /** PrependSOffsetT: as PrependUOffsetT, for a signed 32-bit offset. */
  function PrependSOffsetT(s: State, off: int): (r: Result<State>)
    ensures r.Err? <==> Unsigned(off, 4) > Offset(Prep(s, SizeSOffsetT, 0))
    ensures r.Ok? ==>
      Data(r.value) == LE(Unsigned(Offset(r.value) - off, 4), 4) + Data(Prep(s, SizeSOffsetT, 0))
    ensures r.Ok? ==> Offset(r.value) % SizeSOffsetT == 0
    ensures r.Ok? ==> Framed(s, r.value)
  {
    var p := Prep(s, SizeSOffsetT, 0);
    if Unsigned(off, 4) > Offset(p) then Err(OffsetOutOfRange)
    else
      PrepAligns(s, SizeSOffsetT, 0);
      AddMultiple(Offset(p), SizeSOffsetT);
      Ok(Place(p, LE(Unsigned(Offset(p) - off + SizeSOffsetT, 4), 4)))
  }

  /** Overwrites the written bytes from index `at` of the data on, without moving the head. */
  function WriteAt(s: State, at: nat, enc: seq<Byte>): (r: State)
    requires at + |enc| <= |Data(s)|
    ensures Data(r) == Data(s)[..at] + enc + Data(s)[at + |enc|..]
    ensures Framed(s, r) && r.space == s.space && r.minAlign == s.minAlign && Offset(r) == Offset(s)
  {
    s.(data := s.data[..at] + enc + s.data[at + |enc|..])
  }

  // ---------------------------------------------------------------------
  // Objects (tables) and their vtables
  // ---------------------------------------------------------------------

  /** StartObject: opens an object of n slots, all absent; nesting is refused. */
  function StartObject(s: State, n: nat): (r: Result<State>)
    ensures r.Err? <==> s.nested
    ensures r.Ok? ==> r.value.nested && Data(r.value) == Data(s)
    ensures r.Ok? ==> |r.value.vtable| == n && forall i | 0 <= i < n :: r.value.vtable[i] == 0
    ensures r.Ok? ==> r.value.objectEnd == Offset(s)
    ensures r.Ok? ==> r.value.data == s.data && r.value.space == s.space && r.value.minAlign == s.minAlign
    ensures r.Ok? ==> r.value.vtables == s.vtables && r.value.finished == s.finished && r.value.shared == s.shared
  {
    if s.nested then Err(Nested)
    else Ok(s.(nested := true, vtable := Unset(n), objectEnd := Offset(s)))
  }

  /** n slots, none of them set. */
  function Unset(n: nat): (r: seq<nat>)
    ensures |r| == n && forall i | 0 <= i < n :: r[i] == 0
  {
    if n == 0 then [] else Unset(n - 1) + [0]
  }

  /** Slot: records the current offset as the position of slot o. */
  function Slot(s: State, o: nat): (r: Result<State>)
    ensures r.Err? <==> o >= |s.vtable|
    ensures r.Ok? ==> Data(r.value) == Data(s) && |r.value.vtable| == |s.vtable|
    ensures r.Ok? ==> r.value.vtable[o] == Offset(s)
    ensures r.Ok? ==> forall i | 0 <= i < |s.vtable| && i != o :: r.value.vtable[i] == s.vtable[i]
    ensures r.Ok? ==> r.value.data == s.data && r.value.space == s.space && r.value.minAlign == s.minAlign
    ensures r.Ok? ==> r.value.objectEnd == s.objectEnd && r.value.vtables == s.vtables
    ensures r.Ok? ==> r.value.nested == s.nested && r.value.finished == s.finished && r.value.shared == s.shared
  {
    if o >= |s.vtable| then Err(SlotOutOfRange)
    else Ok(s.(vtable := s.vtable[o := Offset(s)]))
  }

  /** Slot o of the open object holds the w bytes enc. */
  predicate Holds(s: State, o: nat, w: nat, enc: seq<Byte>)
  {
    o < |s.vtable| && w <= s.vtable[o] <= Offset(s) && At(Data(s), s.vtable[o], w) == enc
  }

  /**
   * Prepend*Slot: a value equal to the default is not written at all;
   * otherwise it is prepended and its slot recorded.
   */
  function PrependSlot(s: State, o: nat, w: nat, x: nat, d: nat): (r: Result<State>)
    ensures x == d ==> r == Ok(s)
    ensures x != d ==> (r.Err? <==> o >= |s.vtable|)
    ensures x != d && r.Ok? ==> Holds(r.value, o, w, LE(x, w))
    ensures x != d && r.Ok? ==> Data(r.value) == LE(x, w) + Zeros(PadLen(Offset(s), w)) + Data(s)
    ensures x != d && r.Ok? ==> r.value.vtable == s.vtable[o := Offset(r.value)]
    ensures r.Ok? ==> r.value.nested == s.nested && r.value.objectEnd == s.objectEnd
    ensures r.Ok? ==> r.value.vtables == s.vtables && r.value.shared == s.shared
  {
    if x == d then Ok(s)
    else
      var p := PrependScalar(s, w, x);
      assert At(Data(p), Offset(p), w) == LE(x, w);
      Slot(p, o)
  }

  /** Slot o of the open object holds the unsigned 32-bit offset forward to x. */
  predicate PointsTo(s: State, o: nat, x: nat)
  {
    x <= Offset(s) && Holds(s, o, SizeUOffsetT, LE(Offset(s) - x, 4))
  }

  /** Recording slot o at a word just written that points to x. */
  lemma SlotPointsTo(p: State, o: nat, x: nat)
    requires x <= Offset(p) && 4 <= Offset(p) && At(Data(p), Offset(p), 4) == LE(Offset(p) - x, 4)
    ensures Slot(p, o).Ok? ==> PointsTo(Slot(p, o).value, o, x)
  {
  }

  /** PrependUOffsetTSlot: as PrependSlot, for an offset to something already written. */
  function PrependUOffsetTSlot(s: State, o: nat, x: nat, d: nat): (r: Result<State>)
    ensures x == d ==> r == Ok(s)
    ensures x != d && r.Ok? ==> PointsTo(r.value, o, x)
    ensures x != d && o < |s.vtable| && x <= Offset(s) ==> r.Ok?
    ensures x != d && o >= |s.vtable| ==> r.Err?
  {
    if x == d then Ok(s)
    else
      var p :- PrependUOffsetT(s, x);
      assert At(Data(p), Offset(p), 4) == LE(Offset(p) - x, 4);
      SlotPointsTo(p, o, x);
      Slot(p, o)
  }

  /**
   * PrependStructSlot: a struct is written inline, so a non-default struct
   * must sit exactly at the current offset of an open object.
   */
  function PrependStructSlot(s: State, o: nat, x: nat, d: nat): (r: Result<State>)
    ensures x == d ==> r == Ok(s)
    ensures x != d && !s.nested ==> r == Err(NotNested)
    ensures x != d && s.nested && x != Offset(s) ==> r == Err(NotInline)
    ensures x != d && s.nested && x == Offset(s) ==> r == Slot(s, o)
  {
    if x == d then Ok(s)
    else if !s.nested then Err(NotNested)
    else if x != Offset(s) then Err(NotInline)
    else Slot(s, o)
  }

  /** The open object's slots without the trailing absent ones. */
  function Trim(vt: seq<nat>): (r: seq<nat>)
    ensures |r| <= |vt| && r == vt[..|r|]
    ensures r == [] || r[|r| - 1] != 0
    ensures forall i | |r| <= i < |vt| :: vt[i] == 0
  {
    if vt == [] || vt[|vt| - 1] != 0 then vt else Trim(vt[..|vt| - 1])
  }

  /** A vtable entry: the field's distance from the object's start, or 0 when absent. */
  function Entry(slot: nat, objectOffset: nat): nat
  {
    if slot == 0 then 0 else Unsigned(objectOffset - slot, 4)
  }

  /**
   * The vtable's 16-bit words: its own size in bytes, the object's size in
   * bytes, then one entry per slot.
   */
  function VtableWords(t: seq<nat>, objectOffset: nat, objectEnd: nat): (r: seq<nat>)
    ensures |r| == |t| + VtableMetadataFields
    ensures r[0] == (|t| + VtableMetadataFields) * SizeVOffsetT
    ensures r[1] == Unsigned(objectOffset - objectEnd, 4)
    ensures forall i | 0 <= i < |t| :: r[VtableMetadataFields + i] == Entry(t[i], objectOffset)
  {
    [(|t| + VtableMetadataFields) * SizeVOffsetT, Unsigned(objectOffset - objectEnd, 4)]
      + Entries(t, objectOffset)
  }

  /** One vtable entry per slot. */
  function Entries(t: seq<nat>, objectOffset: nat): (r: seq<nat>)
    ensures |r| == |t| && forall i | 0 <= i < |t| :: r[i] == Entry(t[i], objectOffset)
  {
    if t == [] then [] else Entries(t[..|t| - 1], objectOffset) + [Entry(t[|t| - 1], objectOffset)]
  }

  /** 16-bit little-endian words, the first word first. */
  function Words(ws: seq<nat>): (r: seq<Byte>)
    ensures |r| == 2 * |ws|
  {
    if ws == [] then [] else Words(ws[..|ws| - 1]) + LE(ws[|ws| - 1], 2)
  }

  /** Word i of ws sits at bytes 2i and 2i+1. */
  lemma {:induction false} WordsAt(ws: seq<nat>, i: nat)
    requires i < |ws|
    ensures Words(ws)[2 * i..2 * i + 2] == LE(ws[i], 2)
  {
    var init := ws[..|ws| - 1];
    assert Words(ws) == Words(init) + LE(ws[|ws| - 1], 2);
    if i < |ws| - 1 {
      WordsAt(init, i);
      assert Words(ws)[2 * i..2 * i + 2] == Words(init)[2 * i..2 * i + 2];
    }
  }

  /** After an even number of bytes a 16-bit value needs no padding. */
  lemma EvenNoPad(x: nat)
    requires x % 2 == 0
    ensures PadLen(x, SizeVOffsetT) == 0
  {
    assert IsPow2(2);
    PadLenRemainder(x, 2);
    DivModUnique(Neg(x), 2, -(x / 2), 0);
  }

  /** Prepends 16-bit words, the last word first, so that they read in order. */
  function PrependWords(s: State, ws: seq<nat>): (r: State)
    ensures Offset(r) >= Offset(s)
    ensures Framed(s, r)
    decreases |ws|
  {
    if ws == [] then s
    else PrependWords(PrependScalar(s, SizeVOffsetT, ws[|ws| - 1]), ws[..|ws| - 1])
  }

  /** The first j words go in as the j-th word followed by the ones before it. */
  lemma PrependWordsStep(s: State, ws: seq<nat>, j: nat)
    requires 0 < j <= |ws|
    ensures PrependWords(s, ws[..j]) == PrependWords(PrependScalar(s, SizeVOffsetT, ws[j - 1]), ws[..j - 1])
  {
    assert ws[..j][..j - 1] == ws[..j - 1];
  }

  /** After an even offset the words go in without padding, in order. */
  lemma {:induction false} PrependWordsData(s: State, ws: seq<nat>)
    requires Offset(s) % 2 == 0
    ensures Data(PrependWords(s, ws)) == Words(ws) + Data(s)
    decreases |ws|
  {
    if ws != [] {
      var last := ws[|ws| - 1];
      var p := PrependScalar(s, SizeVOffsetT, last);
      EvenNoPad(Offset(s));
      assert Data(p) == LE(last, 2) + Data(s);
      AddMultiple(Offset(s), 2);
      assert Offset(p) == Offset(s) + 2;
      PrependWordsData(p, ws[..|ws| - 1]);
      assert Words(ws) == Words(ws[..|ws| - 1]) + LE(last, 2);
    }
  }

  /** The vtable recorded at offset v consists of exactly the bytes cand. */
  predicate VtableAt(data: seq<Byte>, v: nat, cand: seq<Byte>)
  {
    |cand| <= v <= |data| && At(data, v, |cand|) == cand
  }

  /** Bytes put in front of data keep a vtable found from the end. */
  lemma VtableAtPrefix(pre: seq<Byte>, data: seq<Byte>, e: nat, cand: seq<Byte>)
    requires e <= |data|
    ensures VtableAt(pre + data, e, cand) <==> VtableAt(data, e, cand)
  {
    if |cand| <= e {
      AtPrefix(pre, data, e, |cand|);
    }
  }

  /**
   * The most recently written cached vtable whose bytes equal cand; 0 when
   * there is none.
   */
  function FindVtable(data: seq<Byte>, cache: seq<nat>, cand: seq<Byte>): (r: nat)
    ensures r != 0 ==> r in cache && VtableAt(data, r, cand)
    ensures r == 0 && cand != [] ==> forall v | v in cache :: !VtableAt(data, v, cand)
    ensures r != 0 ==>
      exists i | 0 <= i < |cache| :: cache[i] == r && forall k | i < k < |cache| :: !VtableAt(data, cache[k], cand)
  {
    if cache == [] then 0
    else if VtableAt(data, cache[|cache| - 1], cand) then cache[|cache| - 1]
    else FindVtable(data, cache[..|cache| - 1], cand)
  }

  /** The search returns the newest cached vtable that matches. */
  lemma {:induction false} FindVtableNewest(data: seq<Byte>, cache: seq<nat>, j: nat, cand: seq<Byte>)
    requires j < |cache| && VtableAt(data, cache[j], cand)
    requires forall k | j < k < |cache| :: !VtableAt(data, cache[k], cand)
    ensures FindVtable(data, cache, cand) == cache[j]
    decreases |cache|
  {
    if j < |cache| - 1 {
      var init := cache[..|cache| - 1];
      assert forall k | j < k < |init| :: init[k] == cache[k];
      FindVtableNewest(data, init, j, cand);
    }
  }

  /** With no match in the cache the search returns 0. */
  lemma {:induction false} FindVtableNone(data: seq<Byte>, cache: seq<nat>, cand: seq<Byte>)
    requires forall k | 0 <= k < |cache| :: !VtableAt(data, cache[k], cand)
    ensures FindVtable(data, cache, cand) == 0
    decreases |cache|
  {
    if cache != [] {
      var init := cache[..|cache| - 1];
      assert forall k | 0 <= k < |init| :: init[k] == cache[k];
      FindVtableNone(data, init, cand);
    }
  }

  /** The object after its leading placeholder word for the vtable offset is written. */
  function Opened(s: State): (p: State)
    ensures Data(p) == LE(Unsigned(Offset(p), 4), 4) + Zeros(PadLen(Offset(s), SizeSOffsetT)) + Data(s)
    ensures Offset(p) % SizeSOffsetT == 0 && Offset(p) >= Offset(s) + 4
    ensures Framed(s, p)
  {
    var r := PrependSOffsetT(s, 0);
    assert Unsigned(0, 4) == 0;
    r.value
  }

  /** The bytes of the vtable the open object needs. */
  function Candidate(s: State): (c: seq<Byte>)
    ensures |c| == 2 * (|Trim(s.vtable)| + VtableMetadataFields)
  {
    Words(VtableWords(Trim(s.vtable), Offset(Opened(s)), s.objectEnd))
  }

  /** The cached vtable equal to the candidate, or 0. */
  function Found(s: State): (r: nat)
    ensures r != 0 ==> r in s.vtables && VtableAt(Data(Opened(s)), r, Candidate(s))
    ensures r == 0 ==> forall v | v in s.vtables :: !VtableAt(Data(Opened(s)), v, Candidate(s))
  {
    FindVtable(Data(Opened(s)), s.vtables, Candidate(s))
  }

  /**
   * WriteVtable: writes the placeholder word, then either points it back at
   * an identical cached vtable or writes the vtable in front of the object,
   * points the placeholder forward to it and caches it. Returns the
   * object's offset.
   */
  function WriteVtable(s: State): (r: (State, nat))
    ensures r.1 == Offset(Opened(s))
    ensures Closed(s, r.0)
  {
    if Found(s) == 0 then (WriteNewVtable(s), Offset(Opened(s)))
    else (ShareVtable(s, Found(s)), Offset(Opened(s)))
  }

  /** A miss: the vtable goes in front of the object and into the cache. */
  function WriteNewVtable(s: State): (r: State)
    ensures Data(r) == Candidate(s) + LE(Unsigned(|Candidate(s)|, 4), 4)
        + Zeros(PadLen(Offset(s), SizeSOffsetT)) + Data(s)
    ensures Closed(s, r) && r.vtables == s.vtables + [Offset(r)]
  {
    var p := Opened(s);
    var q := PrependWords(p, VtableWords(Trim(s.vtable), Offset(p), s.objectEnd));
    NewVtableBytes(s, p, q);
    var t := WriteAt(q, Offset(q) - Offset(p), LE(Unsigned(Offset(q) - Offset(p), 4), 4));
    t.(vtables := s.vtables + [Offset(t)], vtable := [])
  }

  /** WriteNewVtable step by step: the placeholder, the words, the backpointer, the cache entry. */
  lemma WriteNewVtableSteps(s: State, p: State, q: State, at: nat, t: State)
    requires p == Opened(s) && q == PrependWords(p, VtableWords(Trim(s.vtable), Offset(p), s.objectEnd))
    requires at == Offset(q) - Offset(p) && at + 4 <= |Data(q)|
    requires t == WriteAt(q, at, LE(Unsigned(at, 4), 4))
    ensures WriteNewVtable(s) == t.(vtables := s.vtables + [Offset(t)], vtable := [])
    ensures t.vtables == s.vtables && Offset(t) == Offset(q)
  {
    NewVtableBytes(s, p, q);
  }

  /**
   * The vtable's words go in front of the object's placeholder word,
   * unpadded, and the placeholder then receives the vtable's size.
   */
  lemma NewVtableBytes(s: State, p: State, q: State)
    requires p == Opened(s) && q == PrependWords(p, VtableWords(Trim(s.vtable), Offset(p), s.objectEnd))
    ensures Framed(s, q) && Offset(p) <= Offset(q) && Offset(q) - Offset(p) + 4 <= |Data(q)|
    ensures Data(WriteAt(q, Offset(q) - Offset(p), LE(Unsigned(Offset(q) - Offset(p), 4), 4)))
      == Candidate(s) + LE(Unsigned(|Candidate(s)|, 4), 4) + Zeros(PadLen(Offset(s), SizeSOffsetT)) + Data(s)
  {
    FourIsEven(Offset(p));
    PrependWordsData(p, VtableWords(Trim(s.vtable), Offset(p), s.objectEnd));
    BackpointerWrite(q, p, Candidate(s), LE(Unsigned(Offset(p), 4), 4), Zeros(PadLen(Offset(s), SizeSOffsetT)), Data(s));
  }

  /** A hit: the object's first word points back at the cached vtable at `existing`. */
  function ShareVtable(s: State, existing: nat): (r: State)
    ensures Data(r) == LE(Unsigned(existing - Offset(Opened(s)), 4), 4)
        + Zeros(PadLen(Offset(s), SizeSOffsetT)) + Data(s)
    ensures Closed(s, r) && r.vtables == s.vtables
  {
    var p := Opened(s);
    var objectOffset := Offset(p);
    var enc := LE(Unsigned(existing - objectOffset, 4), 4);
    var t := WriteAt(p, Offset(p) - objectOffset, enc);
    OverwriteWord(Data(p), LE(Unsigned(objectOffset, 4), 4), Zeros(PadLen(Offset(s), SizeSOffsetT)), Data(s), enc);
    t.(vtable := [])
  }

  /** Overwriting the leading word of w + pad + rest with enc. */
  lemma OverwriteWord(d: seq<Byte>, w: seq<Byte>, pad: seq<Byte>, rest: seq<Byte>, enc: seq<Byte>)
    requires d == w + pad + rest && |w| == 4 && |enc| == 4
    ensures d[..0] + enc + d[4..] == enc + pad + rest
  {
    assert d[4..] == pad + rest;
  }

  /**
   * On a cache hit only the object's first word is written: a backward
   * (negative) offset to the identical vtable; the cache is unchanged.
   */
  lemma EndObjectHit(s: State, t: State, off: nat)
    requires EndObject(s) == Ok((t, off)) && Found(s) != 0
    ensures Data(t) == LE(Unsigned(Found(s) - off, 4), 4) + Zeros(PadLen(Offset(s), SizeSOffsetT)) + Data(s)
    ensures t.vtables == s.vtables && t.vtable == [] && !t.nested
  {
    assert t == WriteVtable(s).0.(nested := false) && off == WriteVtable(s).1;
    assert WriteVtable(s).0 == ShareVtable(s, Found(s));
  }

  /**
   * On a miss the candidate vtable is written directly in front of the
   * object, the object's first word is its forward distance (the vtable's
   * size) and the vtable's offset is cached.
   */
  lemma EndObjectMiss(s: State, t: State, off: nat)
    requires EndObject(s) == Ok((t, off)) && Found(s) == 0
    ensures Data(t) == Candidate(s) + LE(Unsigned(|Candidate(s)|, 4), 4)
        + Zeros(PadLen(Offset(s), SizeSOffsetT)) + Data(s)
    ensures t.vtables == s.vtables + [Offset(t)] && t.vtable == [] && !t.nested
  {
    assert t == WriteVtable(s).0.(nested := false) && off == WriteVtable(s).1;
    assert WriteVtable(s).0 == WriteNewVtable(s);
  }

  /**
   * The forward backpointer overwrites exactly the placeholder word that
   * starts the object p, behind the new vtable cand.
   */
  lemma BackpointerWrite(q: State, p: State, cand: seq<Byte>, mid: seq<Byte>, pad: seq<Byte>, data: seq<Byte>)
    requires Data(q) == cand + Data(p) && Data(p) == mid + pad + data && |mid| == 4
    ensures Offset(p) <= Offset(q) && Offset(q) - Offset(p) + 4 <= |Data(q)|
    ensures Data(WriteAt(q, Offset(q) - Offset(p), LE(Unsigned(Offset(q) - Offset(p), 4), 4)))
      == cand + LE(Unsigned(|cand|, 4), 4) + pad + data
  {
    var enc := LE(Unsigned(Offset(q) - Offset(p), 4), 4);
    assert Data(q) == cand + mid + (pad + data);
    Splice(cand, mid, pad + data, enc);
    assert cand + enc + (pad + data) == cand + enc + pad + data;
  }

  lemma FourIsEven(x: nat)
    requires x % 4 == 0
    ensures x % 2 == 0
  {
    DivModUnique(x, 2, 2 * (x / 4), 0);
  }

  /** Overwriting the middle part of a + b + c with enc of the same length. */
  lemma Splice(a: seq<Byte>, b: seq<Byte>, c: seq<Byte>, enc: seq<Byte>)
    requires |enc| == |b|
    ensures (a + b + c)[..|a|] + enc + (a + b + c)[|a| + |b|..] == a + enc + c
  {
    assert (a + b + c)[..|a|] == a;
    assert (a + b + c)[|a| + |b|..] == c;
  }

  /** EndObject: closes the open object, writing or sharing its vtable. */
  function EndObject(s: State): (r: Result<(State, nat)>)
    ensures r.Err? <==> !s.nested
    ensures r.Ok? ==> r.value == (WriteVtable(s).0.(nested := false), WriteVtable(s).1)
  {
    if !s.nested then Err(NotNested)
    else
      var (t, off) := WriteVtable(s);
      Ok((t.(nested := false), off))
  }

  // ---------------------------------------------------------------------
  // Vectors and strings
  // ---------------------------------------------------------------------

  /**
   * StartVector: opens a vector of n elements of elemSize bytes; pads so that
   * the elements end 4-aligned (where the length word goes) and aligned for
   * `alignment`, and reserves room for all of them.
   */
  function StartVector(s: State, elemSize: nat, n: nat, alignment: nat): (r: Result<(State, nat)>)
    ensures r.Err? <==> s.nested
    ensures r.Ok? ==> r.value.0.nested && r.value.1 == Offset(r.value.0)
    ensures r.Ok? ==> r.value.0.space > elemSize * n
    ensures r.Ok? ==> (Offset(r.value.0) >= Offset(s) &&
      Data(r.value.0) == Zeros(Offset(r.value.0) - Offset(s)) + Data(s))
    ensures r.Ok? ==> SameObject(s, r.value.0) && r.value.0.finished == s.finished && r.value.0.shared == s.shared
    ensures r.Ok? && IsPow2(alignment) && WordModulus % alignment == 0 ==>
      (Offset(r.value.0) + elemSize * n) % alignment == 0 &&
      (alignment <= SizeUOffsetT ==> (Offset(r.value.0) + elemSize * n) % SizeUOffsetT == 0)
  {
    if s.nested then Err(Nested)
    else
      var p := PrepVector(s.(nested := true), elemSize * n, alignment);
      Ok((p, Offset(p)))
  }

  /**
   * StartVector's two Preps: room for k bytes of elements that end aligned
   * for the length word (4) and, for a power-of-two alignment, for it too.
   */
  function PrepVector(s: State, k: nat, alignment: nat): (p: State)
    ensures p.space > k && Framed(s, p)
    ensures Offset(p) >= Offset(s) && Data(p) == Zeros(Offset(p) - Offset(s)) + Data(s)
    ensures IsPow2(alignment) && WordModulus % alignment == 0 ==>
      (Offset(p) + k) % alignment == 0 && (alignment <= SizeUOffsetT ==> (Offset(p) + k) % SizeUOffsetT == 0)
  {
    var p1 := Prep(s, SizeUOffsetT, k);
    ZerosConcat(PadLen(Offset(p1) + k, alignment), PadLen(Offset(s) + k, SizeUOffsetT));
    PrepTwice(s, k, alignment);
    Prep(p1, alignment, k)
  }

  lemma ZerosConcat(a: nat, b: nat)
    ensures Zeros(a) + Zeros(b) == Zeros(a + b)
  {
  }

  /** Prep for a word and then for a power-of-two alignment a, both ahead of k bytes. */
  lemma PrepTwice(t: State, k: nat, a: nat)
    ensures IsPow2(a) && WordModulus % a == 0 ==>
      var p := Prep(Prep(t, SizeUOffsetT, k), a, k);
      (Offset(p) + k) % a == 0 && (a <= SizeUOffsetT ==> (Offset(p) + k) % SizeUOffsetT == 0)
  {
    if IsPow2(a) && WordModulus % a == 0 {
      var p1 := Prep(t, SizeUOffsetT, k);
      PrepOffset(t, SizeUOffsetT, k);
      PrepOffset(p1, a, k);
      TwoPads(Offset(t), k, a, Offset(p1), Offset(Prep(p1, a, k)));
    }
  }

  /** Prep moves the offset by exactly its padding. */
  lemma PrepOffset(s: State, size: nat, additional: nat)
    ensures Offset(Prep(s, size, additional)) == Offset(s) + PadLen(Offset(s) + additional, size)
  {
    assert |Data(Prep(s, size, additional))| == PadLen(Offset(s) + additional, size) + |Data(s)|;
  }

  /**
   * Padding first for 4 and then for a power-of-two alignment a leaves the
   * end of k further bytes aligned to a and, when a is at most 4, to 4.
   */
  lemma TwoPads(o: nat, k: nat, a: nat, o1: nat, o2: nat)
    requires IsPow2(a) && WordModulus % a == 0
    requires o1 == o + PadLen(o + k, SizeUOffsetT) && o2 == o1 + PadLen(o1 + k, a)
    ensures (o2 + k) % a == 0 && (a <= SizeUOffsetT ==> (o2 + k) % SizeUOffsetT == 0)
  {
    assert IsPow2(SizeUOffsetT) by {
      assert IsPow2(2);
    }
    PadLenAligns(o + k, SizeUOffsetT);
    PadLenAligns(o1 + k, a);
    if a <= SizeUOffsetT {
      SmallAlignmentNoPad(o1 + k, a);
    }
  }

  /** An offset aligned to 4 is aligned to 1, 2 and 4, so Prep adds nothing. */
  lemma SmallAlignmentNoPad(x: nat, a: nat)
    requires x % 4 == 0 && IsPow2(a) && a <= 4
    ensures PadLen(x, a) == 0 && x % a == 0
  {
    assert a == 1 || a == 2 || a == 4;
    PadLenRemainder(x, a);
    ModOfMod(x, 4, a);
    ModOfMod(Neg(x), 4, a);
    DivModUnique(Neg(x), 4, -(x / 4), 0);
  }

  /** EndVector: writes the element count in the room StartVector reserved. */
  function EndVector(s: State, n: nat): (r: Result<(State, nat)>)
    ensures !s.nested ==> r == Err(NotNested)
    ensures s.nested && s.space >= SizeUOffsetT ==> r.Ok?
    ensures r.Ok? ==> !r.value.0.nested && r.value.1 == Offset(r.value.0)
    ensures r.Ok? ==> Data(r.value.0) == LE(n, 4) + Data(s)
    ensures r.Ok? ==> SameObject(s, r.value.0) && r.value.0.minAlign == s.minAlign
    ensures r.Ok? ==> r.value.0.finished == s.finished && r.value.0.shared == s.shared
  {
    if !s.nested then Err(NotNested)
    else if s.space < SizeUOffsetT then Err(NoSpace)
    else
      var e := Place(s, LE(n, SizeUOffsetT));
      Ok((e.(nested := false), Offset(e)))
  }

  /**
   * The vector body both CreateString and CreateByteVector write: room for
   * the length word and `body`, `body` itself, then EndVector.
   */
  function WriteVector(s: State, body: seq<Byte>, n: nat): (r: State)
    ensures Data(r) == LE(n, 4) + body + Zeros(PadLen(Offset(s) + |body|, SizeUOffsetT)) + Data(s)
    ensures SameObject(s, r) && !r.nested && r.finished == s.finished && r.shared == s.shared
  {
    var p := Prep(s.(nested := true), SizeUOffsetT, |body|);
    var c := Place(p, body);
    EndVector(c, n).value.0
  }

  /** WriteVector step by step: Prep with the flag set, the body placed, EndVector. */
  lemma WriteVectorSteps(s: State, body: seq<Byte>, n: nat, p: State)
    requires p == Prep(s.(nested := true), SizeUOffsetT, |body|)
    ensures |body| <= p.space
    ensures EndVector(Place(p, body), n).Ok?
    ensures WriteVector(s, body, n) == EndVector(Place(p, body), n).value.0
  {
  }

  /** The length word of a vector written by WriteVector is 4-aligned. */
  lemma WriteVectorAligned(s: State, body: seq<Byte>, n: nat)
    ensures Offset(WriteVector(s, body, n)) % SizeUOffsetT == 0
  {
    var p := Prep(s.(nested := true), SizeUOffsetT, |body|);
    PrepAligns(s.(nested := true), SizeUOffsetT, |body|);
    AddMultiple(Offset(p) + |body|, SizeUOffsetT);
  }

  /**
   * CreateString / CreateByteString: the length word, the bytes and a NUL
   * that the length does not count, padded so that the length word is
   * 4-aligned. Returns the offset of the length word.
   */
  function CreateString(s: State, str: seq<Byte>): (r: Result<(State, nat)>)
    ensures r.Err? <==> s.nested
    ensures r.Ok? ==> r.value.1 == Offset(r.value.0) && !r.value.0.nested
    ensures r.Ok? ==> (Data(r.value.0) ==
      LE(|str|, 4) + str + [0] + Zeros(PadLen(Offset(s) + |str| + 1, SizeUOffsetT)) + Data(s))
    ensures r.Ok? ==> Offset(r.value.0) % SizeUOffsetT == 0
    ensures r.Ok? ==> Offset(s) + |str| + 5 <= Offset(r.value.0) <= Offset(s) + |str| + 8
    ensures r.Ok? ==> Framed(s, r.value.0)
  {
    if s.nested then Err(Nested)
    else
      var t := WriteVector(s, str + [0], |str|);
      WriteVectorAligned(s, str + [0], |str|);
      assert Framed(s, t);
      Ok((t, Offset(t)))
  }

  /** CreateByteVector: as CreateString, without the NUL. */
  function CreateByteVector(s: State, v: seq<Byte>): (r: Result<(State, nat)>)
    ensures r.Err? <==> s.nested
    ensures r.Ok? ==> r.value.1 == Offset(r.value.0) && !r.value.0.nested
    ensures r.Ok? ==> (Data(r.value.0) ==
      LE(|v|, 4) + v + Zeros(PadLen(Offset(s) + |v|, SizeUOffsetT)) + Data(s))
    ensures r.Ok? ==> Offset(r.value.0) % SizeUOffsetT == 0
    ensures r.Ok? ==> Framed(s, r.value.0)
  {
    if s.nested then Err(Nested)
    else
      var t := WriteVector(s, v, |v|);
      WriteVectorAligned(s, v, |v|);
      Ok((t, Offset(t)))
  }

  /**
   * StartVector with alignment 1 pads only for the length word, and leaves
   * room in front of the head for the elements and the word.
   */
  lemma StartVectorAligned(s: State, elemSize: nat, n: nat)
    requires !s.nested && s.minAlign >= 1
    ensures StartVector(s, elemSize, n, 1).Ok?
    ensures var p := StartVector(s, elemSize, n, 1).value.0;
      p == Prep(s.(nested := true), SizeUOffsetT, elemSize * n) && p.space > SizeUOffsetT + elemSize * n
  {
    var k := elemSize * n;
    var p1 := Prep(s.(nested := true), SizeUOffsetT, k);
    assert Reserve(p1, 1 + k) == p1;
    assert Place(p1, Zeros(0)) == p1;
  }

  /**
   * A w-byte scalar prepended where there is room for it and the head is
   * aligned for it already is placed as it is: no padding, no growth.
   */
  lemma PrependInRoom(s: State, w: nat, x: nat)
    requires s.space > w && PadLen(Offset(s), w) == 0 && s.minAlign >= w
    ensures PrependScalar(s, w, x) == Place(s, LE(x, w))
  {
    assert Place(s, Zeros(0)) == s;
  }

  /**
   * CreateSharedString: a string already in the cache is not written again
   * and its offset is returned, even inside an object; otherwise it is
   * written as by CreateString and cached.
   */
  function CreateSharedString(s: State, str: seq<Byte>): (r: Result<(State, nat)>)
    ensures str in s.shared ==> r == Ok((s, s.shared[str]))
    ensures str !in s.shared ==> (r.Err? <==> s.nested)
    ensures str !in s.shared && r.Ok? ==>
      Data(r.value.0) == Data(CreateString(s, str).value.0) && r.value.1 == Offset(r.value.0) &&
      r.value.0.shared == s.shared[str := r.value.1]
  {
    if str in s.shared then Ok((s, s.shared[str]))
    else
      var (t, off) :- CreateString(s, str);
      Ok((t.(shared := t.shared[str := off]), off))
  }

  // ---------------------------------------------------------------------
  // Finishing
  // ---------------------------------------------------------------------

  /**
   * Finish / FinishSizePrefixed: pads for the largest alignment used, writes
   * the root offset and, when asked, the size of everything after the size
   * word itself. Marks the buffer finished.
   */
  function Finish(s: State, root: nat, sizePrefix: bool): (r: Result<State>)
    ensures s.nested ==> r == Err(Nested)
    ensures r.Ok? ==> r.value.finished && !r.value.nested
    ensures r.Ok? ==> r.value.vtables == s.vtables && r.value.shared == s.shared
  {
    if s.nested then Err(Nested)
    else
      var p := Prep(s, s.minAlign, SizeUOffsetT + if sizePrefix then 4 else 0);
      var u :- PrependUOffsetT(p, root);
      if !sizePrefix then Ok(u.(finished := true))
      else if u.space < 4 then Err(NoSpace)
      else Ok(Place(u, LE(Offset(u), 4)).(finished := true))
  }

  /** Finish step by step: the alignment, the root offset, then the optional size word. */
  lemma FinishSteps(s: State, root: nat, sizePrefix: bool, p: State, u: State)
    requires !s.nested && p == Prep(s, s.minAlign, SizeUOffsetT + if sizePrefix then 4 else 0)
    requires PrependUOffsetT(p, root) == Ok(u)
    ensures !sizePrefix ==> Finish(s, root, sizePrefix) == Ok(u.(finished := true))
    ensures sizePrefix && u.space < 4 ==> Finish(s, root, sizePrefix).Err?
    ensures sizePrefix && u.space >= 4 ==>
      Finish(s, root, sizePrefix) == Ok(Place(u, LE(Offset(u), 4)).(finished := true))
  {
  }

  /**
   * A finished buffer starts with the root offset: the distance from it to
   * the root object. A size-prefixed one starts with the number of bytes
   * after the size word, then the root offset.
   */
  lemma FinishLayout(s: State, root: nat, sizePrefix: bool)
    requires Finish(s, root, sizePrefix).Ok?
    ensures var d := Data(Finish(s, root, sizePrefix).value);
      if sizePrefix then
        |d| >= root + 8 && d[..4] == LE(|d| - 4, 4) && d[4..8] == LE(|d| - 4 - root, 4)
      else
        |d| >= root + 4 && d[..4] == LE(|d| - root, 4)
  {
    var a, p, p2, u, hdr := FinishParts(s, root, sizePrefix);
    HeaderLayout(Data(Finish(s, root, sizePrefix).value), hdr, Data(u), Offset(u), root, sizePrefix);
  }

  /**
   * Finish keeps what was written before it: the finished data is the
   * header (root offset, and size word when asked), zero padding, then the
   * earlier data unchanged.
   */
  lemma FinishKeeps(s: State, root: nat, sizePrefix: bool)
    requires Finish(s, root, sizePrefix).Ok?
    ensures var r := Finish(s, root, sizePrefix).value;
      var h := if sizePrefix then 8 else 4;
      Offset(r) >= Offset(s) + h &&
      Data(r) == Data(r)[..h] + Zeros(Offset(r) - Offset(s) - h) + Data(s)
  {
    var a, p, p2, u, hdr := FinishParts(s, root, sizePrefix);
    HeaderOverPadding(s, root, a, p, p2, u, hdr, if sizePrefix then 8 else 4, Finish(s, root, sizePrefix).value);
  }

  /**
   * The states Finish goes through: p after the alignment, p2 after the
   * root word's padding, u after the root word; the finished data are the
   * size word when asked (hdr), then u's data.
   */
  lemma FinishParts(s: State, root: nat, sizePrefix: bool) returns (a: nat, p: State, p2: State, u: State, hdr: seq<Byte>)
    requires Finish(s, root, sizePrefix).Ok?
    ensures a == SizeUOffsetT + (if sizePrefix then 4 else 0)
    ensures p == Prep(s, s.minAlign, a) && p2 == Prep(p, SizeUOffsetT, 0) && PrependUOffsetT(p, root) == Ok(u)
    ensures hdr == if sizePrefix then LE(Offset(u), 4) else []
    ensures Data(Finish(s, root, sizePrefix).value) == hdr + Data(u)
    ensures Offset(u) >= root + 4 && Data(u)[..4] == LE(Offset(u) - root, 4)
  {
    a := SizeUOffsetT + if sizePrefix then 4 else 0;
    p := Prep(s, s.minAlign, a);
    p2 := Prep(p, SizeUOffsetT, 0);
    u := PrependUOffsetT(p, root).value;
    hdr := FinishData(s, root, sizePrefix, p, u);
    RootWordData(p, root, p2, u);
  }

  /** The data after the header words: the root word, its padding, the alignment padding, the earlier data. */
  lemma HeaderOverPadding(s: State, root: nat, a: nat, p: State, p2: State, u: State, hdr: seq<Byte>, h: nat,
                          r: State)
    requires p == Prep(s, s.minAlign, a) && p2 == Prep(p, SizeUOffsetT, 0)
    requires PrependUOffsetT(p, root) == Ok(u) && Data(r) == hdr + Data(u) && h == |hdr| + 4
    ensures Offset(r) >= Offset(s) + h
    ensures Data(r) == Data(r)[..h] + Zeros(Offset(r) - Offset(s) - h) + Data(s)
  {
    ZerosBelow(Data(r), h, hdr, Data(u), LE(Offset(u) - root, 4),
      Data(p2), PadLen(Offset(p) + 0, SizeUOffsetT), Data(p), PadLen(Offset(s) + a, s.minAlign), Data(s));
  }

  /** The finished data: the size word when asked, in front of the data after the root word. */
  lemma FinishData(s: State, root: nat, sizePrefix: bool, p: State, u: State) returns (hdr: seq<Byte>)
    requires !s.nested && p == Prep(s, s.minAlign, SizeUOffsetT + if sizePrefix then 4 else 0)
    requires PrependUOffsetT(p, root) == Ok(u) && Finish(s, root, sizePrefix).Ok?
    ensures hdr == if sizePrefix then LE(Offset(u), 4) else []
    ensures Data(Finish(s, root, sizePrefix).value) == hdr + Data(u)
  {
    FinishSteps(s, root, sizePrefix, p, u);
    hdr := if sizePrefix then LE(Offset(u), 4) else [];
  }

  /** A header, then two runs of zeros, then the old data: one run of zeros between them. */
  lemma ZerosBelow(d: seq<Byte>, h: nat, hdr: seq<Byte>, du: seq<Byte>, w: seq<Byte>, dp2: seq<Byte>,
                   z2: nat, dp: seq<Byte>, z1: nat, ds: seq<Byte>)
    requires h == |hdr| + |w|
    requires d == hdr + du && du == w + dp2 && dp2 == Zeros(z2) + dp && dp == Zeros(z1) + ds
    ensures |d| >= |ds| + h && d == d[..h] + Zeros(|d| - |ds| - h) + ds
  {
    ZerosConcat(z2, z1);
    assert d == (hdr + w) + (Zeros(z2) + Zeros(z1)) + ds;
    assert d[..h] == hdr + w;
  }

  /**
   * Finish aligns the finished buffer: its length is a multiple of 4 and,
   * for a power-of-two minimum alignment, of that alignment.
   */
  lemma FinishAligned(s: State, root: nat, sizePrefix: bool)
    requires Finish(s, root, sizePrefix).Ok?
    ensures Offset(Finish(s, root, sizePrefix).value) % SizeUOffsetT == 0
    ensures IsPow2(s.minAlign) && WordModulus % s.minAlign == 0 ==>
      Offset(Finish(s, root, sizePrefix).value) % s.minAlign == 0
  {
    var a, p, p2, u, hdr := FinishParts(s, root, sizePrefix);
    RootWordOffset(p, root, p2, u);
    PrepPadded(p, p2);
    var m := s.minAlign;
    if IsPow2(m) && WordModulus % m == 0 {
      PrepAligns(s, m, a);
    }
    HeaderEndAligned(Offset(p), Offset(p2), Offset(Finish(s, root, sizePrefix).value), a, m);
  }


  /**
   * The arithmetic of FinishAligned: the root word goes after padding to a
   * multiple of 4 (none when the header start is aligned already), and an
   * optional size word goes in front of it.
   */
  lemma HeaderEndAligned(op: nat, op2: nat, x: nat, a: nat, m: nat)
    requires (a == 4 || a == 8) && x == op2 + 4 + (a - 4)
    requires op2 % 4 == 0 && (op % 4 == 0 ==> op2 == op)
    requires IsPow2(m) && WordModulus % m == 0 ==> (op + a) % m == 0
    ensures x % 4 == 0
    ensures IsPow2(m) && WordModulus % m == 0 ==> x % m == 0
  {
    if IsPow2(m) && WordModulus % m == 0 {
      if m <= 4 {
        SmallAlignmentNoPad(x, m);
      } else {
        Pow2Multiple4(m);
        HeaderAligned(op, a, m);
      }
    }
  }

  /** The root offset word sits right in front of the padding for it. */
  lemma RootWordOffset(p: State, root: nat, p2: State, u: State)
    requires p2 == Prep(p, SizeUOffsetT, 0) && PrependUOffsetT(p, root) == Ok(u)
    ensures Offset(u) == Offset(p2) + 4
  {
    assert Data(u) == LE(Offset(u) - root, 4) + Data(p2);
  }

  /** Prep for a 4-byte word: the offset becomes a multiple of 4, and stays put when it is one. */
  lemma PrepPadded(p: State, p2: State)
    requires p2 == Prep(p, SizeUOffsetT, 0)
    ensures Offset(p2) % 4 == 0
    ensures Offset(p) % 4 == 0 ==> Offset(p2) == Offset(p)
  {
    PrepOffset(p, SizeUOffsetT, 0);
    Pow2Four();
    PadLenAligns(Offset(p), 4);
    if Offset(p) % 4 == 0 {
      SmallAlignmentNoPad(Offset(p), 4);
    }
  }

  /** 4 is a power of two. */
  lemma Pow2Four()
    ensures IsPow2(4)
  {
    assert IsPow2(2);
  }

  /** A header of a bytes (4 or 8) that ends on a multiple of 4 starts on one. */
  lemma HeaderAligned(o: nat, a: nat, m: nat)
    requires (a == 4 || a == 8) && m > 0 && m % 4 == 0 && (o + a) % m == 0
    ensures o % 4 == 0
  {
    ModOfMod(o + a, m, 4);
  }

  /** A power of two above 4 is a multiple of 4. */
  lemma Pow2Multiple4(m: nat)
    requires IsPow2(m) && m > 4
    ensures m % 4 == 0
  {
    assert IsPow2(m / 2) && m / 2 >= 2;
    assert (m / 2) % 2 == 0;
  }

  /** The root offset word leads u's data: the distance from its own end to the root. */
  lemma RootWordData(p: State, root: nat, p2: State, u: State)
    requires p2 == Prep(p, SizeUOffsetT, 0) && PrependUOffsetT(p, root) == Ok(u)
    ensures Offset(u) >= root + 4 && Data(u)[..4] == LE(Offset(u) - root, 4)
  {
    RootWordOffset(p, root, p2, u);
  }

  /** The size word, when present, goes in front of the root offset and counts every byte after itself. */
  lemma HeaderLayout(d: seq<Byte>, hdr: seq<Byte>, du: seq<Byte>, n: nat, root: nat, sizePrefix: bool)
    requires d == hdr + du && |du| == n && hdr == (if sizePrefix then LE(n, 4) else [])
    requires n >= root + 4 && du[..4] == LE(n - root, 4)
    ensures if sizePrefix then
        |d| >= root + 8 && d[..4] == LE(|d| - 4, 4) && d[4..8] == LE(|d| - 4 - root, 4)
      else
        |d| >= root + 4 && d[..4] == LE(|d| - root, 4)
  {
    if sizePrefix {
      assert d[..4] == hdr;
      assert d[4..8] == du[..4];
    }
  }

  /** Without a size prefix, Finish fails only inside an object or for a root not yet written. */
  lemma FinishSucceeds(s: State, root: nat)
    requires !s.nested && root <= Offset(s)
    ensures Finish(s, root, false).Ok?
  {
    var p := Prep(s, s.minAlign, SizeUOffsetT);
    var a := Prep(p, SizeUOffsetT, 0);
    assert Offset(a) >= Offset(s);
  }

  /** FinishedBytes: the written bytes, available only once the buffer is finished. */
  function FinishedBytes(s: State): (r: Result<seq<Byte>>)
    ensures r.Err? <==> !s.finished
    ensures r.Ok? ==> r.value == Data(s)
  {
    if !s.finished then Err(NotFinished) else Ok(Data(s))
  }

  // ---------------------------------------------------------------------
  // Properties across calls
  // ---------------------------------------------------------------------

  /** Slots that are all absent trim to no slots at all. */
  lemma TrimUnset(vt: seq<nat>)
    requires forall i | 0 <= i < |vt| :: vt[i] == 0
    ensures Trim(vt) == []
  {
  }

  /**
   * An object with no set slots, begun at a 4-aligned offset and closed when
   * no identical vtable is cached, writes the vtable [4, 4] (its own size,
   * then the object's size: just its leading word) and a leading word 4
   * pointing forward to it.
   */
  lemma EmptyObject(s: State, t: State, off: nat)
    requires Offset(s) == s.objectEnd && Offset(s) % SizeUOffsetT == 0
    requires forall i | 0 <= i < |s.vtable| :: s.vtable[i] == 0
    requires EndObject(s) == Ok((t, off)) && Found(s) == 0
    ensures Data(t) == [4, 0, 4, 0, 4, 0, 0, 0] + Data(s)
    ensures off == Offset(s) + 4 && Offset(t) == Offset(s) + 8
  {
    TrimUnset(s.vtable);
    assert IsPow2(SizeSOffsetT) by {
      assert IsPow2(2);
    }
    SmallAlignmentNoPad(Offset(s), SizeSOffsetT);
    assert Offset(Opened(s)) == Offset(s) + 4 by {
      assert |Data(Opened(s))| == 4 + PadLen(Offset(s), SizeSOffsetT) + |Data(s)|;
    }
    var ws := VtableWords([], Offset(s) + 4, s.objectEnd);
    assert ws == [4, 4];
    assert Words(ws) == Words([4]) + LE(4, 2);
    assert Words([4]) == Words([]) + LE(4, 2);
    assert Candidate(s) == [4, 0, 4, 0];
    EndObjectMiss(s, t, off);
    assert Unsigned(|Candidate(s)|, 4) == 4;
    assert LE(4, 4) == [4, 0, 0, 0];
  }

  /**
   * After a miss the new vtable starts the data, holding the candidate's
   * bytes, and its offset is cached.
   */
  lemma MissCaches(s: State, t: State, off: nat)
    requires EndObject(s) == Ok((t, off)) && Found(s) == 0
    ensures Offset(t) in t.vtables && VtableAt(Data(t), Offset(t), Candidate(s))
  {
    EndObjectMiss(s, t, off);
    LeadingVtable(Data(t), Candidate(s), LE(Unsigned(|Candidate(s)|, 4), 4),
      Zeros(PadLen(Offset(s), SizeSOffsetT)), Data(s));
  }

  /** Bytes that start the data are found from the end at the data's full length. */
  lemma LeadingVtable(d: seq<Byte>, c: seq<Byte>, x: seq<Byte>, y: seq<Byte>, z: seq<Byte>)
    requires d == c + x + y + z
    ensures VtableAt(d, |d|, c)
  {
    assert d[0..|c|] == c;
  }

  /**
   * Vtable deduplication: a later object u whose candidate equals a vtable
   * still cached and intact behind u's data finds a cached vtable, so
   * EndObject writes only u's leading word, pointing back.
   */
  lemma LaterObjectShares(t: State, u: State, pre: seq<Byte>, v: nat)
    requires v in u.vtables && VtableAt(Data(t), v, Candidate(u)) && Data(u) == pre + Data(t)
    ensures Found(u) != 0
  {
    var lead := LE(Unsigned(Offset(Opened(u)), 4), 4) + Zeros(PadLen(Offset(u), SizeSOffsetT));
    assert Data(Opened(u)) == (lead + pre) + Data(t);
    VtableAtPrefix(lead + pre, Data(t), v, Candidate(u));
  }

  /** On a hit, EndObject writes only the object's leading word, pointing back to the cached vtable. */
  lemma HitWritesWord(u: State)
    requires u.nested && Found(u) != 0
    ensures EndObject(u).Ok?
    ensures Data(EndObject(u).value.0) ==
      LE(Unsigned(Found(u) - Offset(Opened(u)), 4), 4) + Zeros(PadLen(Offset(u), SizeSOffsetT)) + Data(u)
  {
    var (w, off) := EndObject(u).value;
    EndObjectHit(u, w, off);
  }

  /**
   * The shared-string cache is one-to-one and names only offsets already
   * written.
   */
  predicate SharedOk(s: State)
  {
    (forall str | str in s.shared :: s.shared[str] <= Offset(s)) &&
    (forall a, b | a in s.shared && b in s.shared && s.shared[a] == s.shared[b] :: a == b)
  }

  /**
   * CreateSharedString keeps the cache one-to-one: it returns the cached
   * offset of the string, caching a fresh one, beyond all cached offsets,
   * when the string is new, and keeps every other entry.
   */
  lemma CreateSharedKeeps(s: State, str: seq<Byte>)
    requires SharedOk(s) && CreateSharedString(s, str).Ok?
    ensures var (t, off) := CreateSharedString(s, str).value;
      SharedOk(t) && str in t.shared && t.shared[str] == off &&
      forall k | k in s.shared :: k in t.shared && t.shared[k] == s.shared[k]
  {
    if str !in s.shared {
      var (t, off) := CreateSharedString(s, str).value;
      assert Offset(t) == Offset(CreateString(s, str).value.0);
      assert off == Offset(t) > Offset(s);
    }
  }

  /** Two shared strings created in a row get the same offset exactly when they are equal. */
  lemma SharedPair(s: State, a: seq<Byte>, b: seq<Byte>)
    requires SharedOk(s) && !s.nested
    ensures CreateSharedString(s, a).Ok?
    ensures var (t, x) := CreateSharedString(s, a).value;
      CreateSharedString(t, b).Ok? && (x == CreateSharedString(t, b).value.1 <==> a == b)
  {
    CreateSharedKeeps(s, a);
    var (t, x) := CreateSharedString(s, a).value;
    assert !t.nested;
    CreateSharedKeeps(t, b);
  }

  /**
   * The emptied-builder sequence: shared strings a then b, Reset, then b
   * then a; the four offsets returned, in call order.
   */
  function EmptiedOffsets(a: seq<Byte>, b: seq<Byte>): Result<(nat, nat, nat, nat)>
  {
    match CreateSharedString(NewBuilder(0), a)
    case Err(e) => Err(e)
    case Ok((s1, a1)) =>
      match CreateSharedString(s1, b)
      case Err(e) => Err(e)
      case Ok((s2, b1)) =>
        match CreateSharedString(Reset(s2), b)
        case Err(e) => Err(e)
        case Ok((s3, b2)) =>
          match CreateSharedString(s3, a)
          case Err(e) => Err(e)
          case Ok((_, a2)) => Ok((a1, b1, b2, a2))
  }

  /**
   * After Reset the cache is empty, so distinct strings created again in the
   * other order get offsets other than the ones they had before.
   */
  lemma EmptiedBuilder(a: seq<Byte>, b: seq<Byte>)
    requires a != b
    ensures EmptiedOffsets(a, b).Ok?
    ensures var (a1, b1, b2, a2) := EmptiedOffsets(a, b).value; a1 != a2 && b1 != b2
  {
    var s0 := NewBuilder(0);
    FreshShared(s0, a);
    var (s1, a1) := CreateSharedString(s0, a).value;
    FreshShared(s1, b);
    var (s2, b1) := CreateSharedString(s1, b).value;
    var r := Reset(s2);
    FreshShared(r, b);
    var (s3, b2) := CreateSharedString(r, b).value;
    FreshShared(s3, a);
    var (s4, a2) := CreateSharedString(s3, a).value;
    assert EmptiedOffsets(a, b) == Ok((a1, b1, b2, a2));
  }

  /** A string not yet cached is written, outside an object, and cached at its new offset. */
  lemma FreshShared(s: State, str: seq<Byte>)
    requires str !in s.shared && !s.nested
    ensures CreateSharedString(s, str).Ok?
    ensures var (t, off) := CreateSharedString(s, str).value;
      off == Offset(t) && Offset(s) + |str| + 5 <= off <= Offset(s) + |str| + 8 &&
      t.shared == s.shared[str := off] && !t.nested
  {
    var (t, off) := CreateSharedString(s, str).value;
    assert Offset(t) == Offset(CreateString(s, str).value.0);
  }
}
