/**
 * The byte layouts the Go test suite pins down, stated on the model: one
 * lemma per group of checks, each starting from an empty builder (or from
 * the bytes the previous check left) and promising the exact bytes from
 * the head on. The manual byte-vector loop of the CreateByteVector test is
 * written against the Builder class and proved to end where
 * CreateByteVector ends.
 */
module ByteLayout {
  import opened Wire
  import M = BuilderModel
  import opened Runtime
  type State = M.State

  /** The padding before a scalar of width 1, 2, 4 or 8 is the remainder of -used. */
  lemma PadOf(used: nat, size: nat)
    requires size == 1 || size == 2 || size == 4 || size == 8
    ensures PadLen(used, size) == (0 - used) % size
  {
    assert IsPow2(2) && IsPow2(4) && IsPow2(8);
    PadLenRemainder(used, size);
  }

  /** A scalar of width 1, 2, 4 or 8: its bytes, then the padding to its width, in front of the data. */
  lemma Prepended(s: State, w: nat, v: nat, before: seq<Byte>, enc: seq<Byte>, pad: nat, after: seq<Byte>)
    requires w == 1 || w == 2 || w == 4 || w == 8
    requires M.Data(s) == before && enc == LE(v, w) && pad == (0 - |before|) % w
    requires after == enc + Zeros(pad) + before
    ensures M.Data(M.PrependScalar(s, w, v)) == after
  {
    PadOf(M.Offset(s), w);
  }

  /** A bool, then a signed and an unsigned byte: single bytes need no padding. */
  lemma SmallNumbers(e: State)
    requires M.Data(e) == []
    ensures var s0 := M.PrependScalar(e, 1, M.BoolByte(true));
      var s1 := M.PrependScalar(s0, 1, Unsigned(-127, 1));
      M.Data(s0) == [1] && M.Data(s1) == [129, 1] && M.Data(M.PrependScalar(s1, 1, 255)) == [255, 129, 1]
  {
    var s0 := M.PrependScalar(e, 1, M.BoolByte(true));
    var s1 := M.PrependScalar(s0, 1, Unsigned(-127, 1));
    Prepended(e, 1, 1, [], [1], 0, [1]);
    Prepended(s0, 1, 129, [1], [129], 0, [129, 1]);
    Prepended(s1, 1, 255, [129, 1], [255], 0, [255, 129, 1]);
  }

  /** An int16 after three bytes is padded by one zero byte: the first pad. */
  lemma FirstPad(s: State)
    requires M.Data(s) == [255, 129, 1]
    ensures M.Data(M.PrependScalar(s, 2, Unsigned(-32222, 2))) == [0x22, 0x82, 0, 255, 129, 1]
  {
    Prepended(s, 2, 0x8222, [255, 129, 1], [0x22, 0x82], 1, [0x22, 0x82, 0, 255, 129, 1]);
  }

  /** A uint16 after six bytes is aligned already: no pad this time. */
  lemma NoPad(s: State)
    requires M.Data(s) == [0x22, 0x82, 0, 255, 129, 1]
    ensures M.Data(M.PrependScalar(s, 2, 0xFEEE)) == [0xEE, 0xFE, 0x22, 0x82, 0, 255, 129, 1]
  {
    Prepended(s, 2, 0xFEEE, [0x22, 0x82, 0, 255, 129, 1], [0xEE, 0xFE], 0, [0xEE, 0xFE, 0x22, 0x82, 0, 255, 129, 1]);
  }

  /** Two 32-bit words after eight bytes: a negative int32, then a uint32, neither padded. */
  lemma Words32(s: State)
    requires M.Data(s) == [0xEE, 0xFE, 0x22, 0x82, 0, 255, 129, 1]
    ensures var s5 := M.PrependScalar(s, 4, Unsigned(-53687092, 4));
      M.Data(s5) == [204, 204, 204, 252] + M.Data(s) &&
      M.Data(M.PrependScalar(s5, 4, 0x98765432)) == [0x32, 0x54, 0x76, 0x98, 204, 204, 204, 252] + M.Data(s)
  {
    var s5 := M.PrependScalar(s, 4, Unsigned(-53687092, 4));
    assert Unsigned(-53687092, 4) == 0xFCCC_CCCC by {
      assert Pow256(4) == 0x1_0000_0000;
    }
    Bytes32();
    Prepended(s, 4, 0xFCCC_CCCC, M.Data(s), [204, 204, 204, 252], 0, [204, 204, 204, 252] + M.Data(s));
    Prepended(s5, 4, 0x98765432, M.Data(s5), [0x32, 0x54, 0x76, 0x98], 0, [0x32, 0x54, 0x76, 0x98] + M.Data(s5));
  }

  /** One byte of a little-endian encoding: v = 256 * q + r puts r first, then q's bytes. */
  lemma LECons(v: nat, w: nat, q: nat, r: nat)
    requires w > 0 && v == 256 * q + r && r < 256
    ensures LE(v, w) == [r] + LE(q, w - 1)
  {
    DivModUnique(v, 256, q, r);
  }

  /** The two 32-bit patterns of the numbers test, byte by byte. */
  lemma Bytes32()
    ensures LE(0xFCCC_CCCC, 4) == [204, 204, 204, 252]
    ensures LE(0x98765432, 4) == [0x32, 0x54, 0x76, 0x98]
  {
    LECons(0xFCCC_CCCC, 4, 0xFC_CCCC, 0xCC);
    LECons(0xFC_CCCC, 3, 0xFCCC, 0xCC);
    LECons(0xFCCC, 2, 0xFC, 0xCC);
    LECons(0xFC, 1, 0, 0xFC);
    LECons(0x98765432, 4, 0x987654, 0x32);
    LECons(0x987654, 3, 0x9876, 0x54);
    LECons(0x9876, 2, 0x98, 0x76);
    LECons(0x98, 1, 0, 0x98);
  }

  /** The high half of the 64-bit pattern of the numbers test. */
  lemma BytesHigh()
    ensures LE(0x11223344, 4) == [0x44, 0x33, 0x22, 0x11]
  {
    LECons(0x11223344, 4, 0x112233, 0x44);
    LECons(0x112233, 3, 0x1122, 0x33);
    LECons(0x1122, 2, 0x11, 0x22);
    LECons(0x11, 1, 0, 0x11);
  }

  /** The 64-bit pattern of the numbers test, byte by byte. */
  lemma Bytes64()
    ensures LE(0x1122334455667788, 8) == [0x88, 0x77, 0x66, 0x55, 0x44, 0x33, 0x22, 0x11]
  {
    BytesHigh();
    LECons(0x1122334455667788, 8, 0x11223344556677, 0x88);
    LECons(0x11223344556677, 7, 0x112233445566, 0x77);
    LECons(0x112233445566, 6, 0x1122334455, 0x66);
    LECons(0x1122334455, 5, 0x11223344, 0x55);
  }

  /** A uint64 on an empty builder: eight bytes, least significant first. */
  lemma Number64(e: State)
    requires M.Data(e) == []
    ensures M.Data(M.PrependScalar(e, 8, 0x1122334455667788)) == [0x88, 0x77, 0x66, 0x55, 0x44, 0x33, 0x22, 0x11]
  {
    Bytes64();
    Prepended(e, 8, 0x1122334455667788, [], [0x88, 0x77, 0x66, 0x55, 0x44, 0x33, 0x22, 0x11], 0,
      [0x88, 0x77, 0x66, 0x55, 0x44, 0x33, 0x22, 0x11]);
  }

  /** A count below 256 as a length word: the count, then three zero bytes. */
  lemma Word(n: nat)
    requires n < 256
    ensures LE(n, 4) == [n as Byte, 0, 0, 0]
  {
    LECons(n, 4, 0, n);
    LECons(0, 3, 0, 0);
    LECons(0, 2, 0, 0);
    LECons(0, 1, 0, 0);
  }

  /**
   * A vector of k bytes of elements, aligned to 1, opened on an empty
   * builder: the padding that ends the elements on a word, and room left
   * for the elements and the count.
   */
  lemma VectorStart(e: State, elemSize: nat, n: nat)
    requires M.Data(e) == [] && !e.nested && e.minAlign >= 1
    ensures M.StartVector(e, elemSize, n, 1).Ok?
    ensures var p := M.StartVector(e, elemSize, n, 1).value.0;
      M.Data(p) == Zeros(PadLen(elemSize * n, 4)) && p.space > 4 + elemSize * n && p.nested && p.minAlign >= 4
  {
    M.StartVectorAligned(e, elemSize, n);
  }

  /** One byte in a vector on an empty builder: three pad bytes, the byte, then the count. */
  lemma OneByteVector(e: State)
    requires M.Data(e) == [] && !e.nested && e.minAlign >= 1
    ensures M.StartVector(e, 1, 1, 1).Ok?
    ensures var p := M.StartVector(e, 1, 1, 1).value.0;
      var q := M.PrependScalar(p, 1, 1);
      M.Data(p) == [0, 0, 0] && M.Data(q) == [1, 0, 0, 0] &&
      M.EndVector(q, 1).Ok? && M.Data(M.EndVector(q, 1).value.0) == [1, 0, 0, 0, 1, 0, 0, 0]
  {
    VectorStart(e, 1, 1);
    PadOf(1, 4);
    OneByteFill(M.StartVector(e, 1, 1, 1).value.0);
  }

  /** The byte and the count of the one-byte vector, after its three pad bytes. */
  lemma OneByteFill(p: State)
    requires M.Data(p) == [0, 0, 0] && p.space > 5 && p.nested && p.minAlign >= 1
    ensures var q := M.PrependScalar(p, 1, 1);
      M.Data(q) == [1, 0, 0, 0] &&
      M.EndVector(q, 1).Ok? && M.Data(M.EndVector(q, 1).value.0) == [1, 0, 0, 0, 1, 0, 0, 0]
  {
    PadOf(3, 1);
    M.PrependInRoom(p, 1, 1);
    LECons(1, 1, 0, 1);
    Word(1);
  }

  /** Two bytes in a vector: two pad bytes, the bytes in reverse order of prepending, then the count. */
  lemma TwoByteVector(e: State)
    requires M.Data(e) == [] && !e.nested && e.minAlign >= 1
    ensures M.StartVector(e, 1, 2, 1).Ok?
    ensures var p := M.StartVector(e, 1, 2, 1).value.0;
      var q1 := M.PrependScalar(p, 1, 1);
      var q2 := M.PrependScalar(q1, 1, 2);
      M.Data(p) == [0, 0] && M.Data(q1) == [1, 0, 0] && M.Data(q2) == [2, 1, 0, 0] &&
      M.EndVector(q2, 2).Ok? && M.Data(M.EndVector(q2, 2).value.0) == [2, 0, 0, 0, 2, 1, 0, 0]
  {
    VectorStart(e, 1, 2);
    PadOf(2, 4);
    TwoByteFill(M.StartVector(e, 1, 2, 1).value.0);
  }

  /** The bytes and the count of the two-byte vector, after its two pad bytes. */
  lemma TwoByteFill(p: State)
    requires M.Data(p) == [0, 0] && p.space > 6 && p.nested && p.minAlign >= 1
    ensures var q1 := M.PrependScalar(p, 1, 1);
      var q2 := M.PrependScalar(q1, 1, 2);
      M.Data(q1) == [1, 0, 0] && M.Data(q2) == [2, 1, 0, 0] &&
      M.EndVector(q2, 2).Ok? && M.Data(M.EndVector(q2, 2).value.0) == [2, 0, 0, 0, 2, 1, 0, 0]
  {
    BytePlaced(p, 1, [0, 0]);
    TwoByteEnd(M.PrependScalar(p, 1, 1));
  }

  /** A byte prepended in room already reserved, where no padding is needed. */
  lemma BytePlaced(p: State, x: Byte, before: seq<Byte>)
    requires M.Data(p) == before && p.space > 1 && p.minAlign >= 1
    ensures M.Data(M.PrependScalar(p, 1, x)) == [x] + before
    ensures M.PrependScalar(p, 1, x).space == p.space - 1
  {
    PadOf(|before|, 1);
    M.PrependInRoom(p, 1, x);
    LECons(x as nat, 1, 0, x as nat);
  }

  /** The second byte and the count of the two-byte vector. */
  lemma TwoByteEnd(q1: State)
    requires M.Data(q1) == [1, 0, 0] && q1.space > 4 && q1.nested && q1.minAlign >= 1
    ensures var q2 := M.PrependScalar(q1, 1, 2);
      M.Data(q2) == [2, 1, 0, 0] &&
      M.EndVector(q2, 2).Ok? && M.Data(M.EndVector(q2, 2).value.0) == [2, 0, 0, 0, 2, 1, 0, 0]
  {
    BytePlaced(q1, 2, [1, 0, 0]);
    Word(2);
  }

  /** A uint16 prepended in room already reserved, at an even offset. */
  lemma HalfPlaced(p: State, x: nat, before: seq<Byte>, enc: seq<Byte>)
    requires M.Data(p) == before && |before| % 2 == 0 && p.space > 2 && p.minAlign >= 2
    requires enc == LE(x, 2)
    ensures M.Data(M.PrependScalar(p, 2, x)) == enc + before
    ensures M.PrependScalar(p, 2, x).space == p.space - 2
  {
    PadOf(|before|, 2);
    M.PrependInRoom(p, 2, x);
  }

  /** One uint16 in a vector: two pad bytes, the element, then the count. */
  lemma OneHalfVector(e: State)
    requires M.Data(e) == [] && !e.nested && e.minAlign >= 1
    ensures M.StartVector(e, 2, 1, 1).Ok?
    ensures var p := M.StartVector(e, 2, 1, 1).value.0;
      var q := M.PrependScalar(p, 2, 1);
      M.Data(p) == [0, 0] && M.Data(q) == [1, 0, 0, 0] &&
      M.EndVector(q, 1).Ok? && M.Data(M.EndVector(q, 1).value.0) == [1, 0, 0, 0, 1, 0, 0, 0]
  {
    VectorStart(e, 2, 1);
    PadOf(2, 4);
    var p := M.StartVector(e, 2, 1, 1).value.0;
    LECons(1, 2, 0, 1);
    LECons(0, 1, 0, 0);
    HalfPlaced(p, 1, [0, 0], [1, 0]);
    Word(1);
  }

  /** Two uint16 elements fill a word: no padding, the elements, then the count. */
  lemma TwoHalfVector(e: State)
    requires M.Data(e) == [] && !e.nested && e.minAlign >= 1
    ensures M.StartVector(e, 2, 2, 1).Ok?
    ensures var p := M.StartVector(e, 2, 2, 1).value.0;
      var q1 := M.PrependScalar(p, 2, 0xABCD);
      var q2 := M.PrependScalar(q1, 2, 0xDCBA);
      M.Data(p) == [] && M.Data(q1) == [0xCD, 0xAB] && M.Data(q2) == [0xBA, 0xDC, 0xCD, 0xAB] &&
      M.EndVector(q2, 2).Ok? && M.Data(M.EndVector(q2, 2).value.0) == [2, 0, 0, 0, 0xBA, 0xDC, 0xCD, 0xAB]
  {
    VectorStart(e, 2, 2);
    PadOf(4, 4);
    TwoHalfFill(M.StartVector(e, 2, 2, 1).value.0);
  }

  /** The elements and the count of the two-uint16 vector. */
  lemma TwoHalfFill(p: State)
    requires M.Data(p) == [] && p.space > 8 && p.nested && p.minAlign >= 2
    ensures var q1 := M.PrependScalar(p, 2, 0xABCD);
      var q2 := M.PrependScalar(q1, 2, 0xDCBA);
      M.Data(q1) == [0xCD, 0xAB] && M.Data(q2) == [0xBA, 0xDC, 0xCD, 0xAB] &&
      M.EndVector(q2, 2).Ok? && M.Data(M.EndVector(q2, 2).value.0) == [2, 0, 0, 0, 0xBA, 0xDC, 0xCD, 0xAB]
  {
    LECons(0xABCD, 2, 0xAB, 0xCD);
    LECons(0xAB, 1, 0, 0xAB);
    LECons(0xDCBA, 2, 0xDC, 0xBA);
    LECons(0xDC, 1, 0, 0xDC);
    HalfPlaced(p, 0xABCD, [], [0xCD, 0xAB]);
    HalfPlaced(M.PrependScalar(p, 2, 0xABCD), 0xDCBA, [0xCD, 0xAB], [0xBA, 0xDC]);
    Word(2);
  }

  /**
   * A string of fewer than 256 bytes: its length word, its bytes, the NUL
   * and the padding that puts the length word on a word boundary.
   */
  lemma StringLaid(s: State, str: seq<Byte>, pad: nat, after: seq<Byte>)
    requires !s.nested && |str| < 256 && pad == (0 - (M.Offset(s) + |str| + 1)) % 4
    requires after == [|str| as Byte, 0, 0, 0] + str + [0] + Zeros(pad) + M.Data(s)
    ensures M.CreateString(s, str).Ok? && M.Data(M.CreateString(s, str).value.0) == after
  {
    PadOf(M.Offset(s) + |str| + 1, 4);
    Word(|str|);
  }

  /** "foo" on an empty builder: the length 3, the bytes and the NUL fill two words exactly. */
  lemma FooString(e: State)
    requires M.Data(e) == [] && !e.nested
    ensures M.CreateString(e, [102, 111, 111]).Ok?
    ensures M.Data(M.CreateString(e, [102, 111, 111]).value.0) == [3, 0, 0, 0, 102, 111, 111, 0]
  {
    StringLaid(e, [102, 111, 111], 0, [3, 0, 0, 0, 102, 111, 111, 0]);
  }

  /** "moop" after "foo": the length 4, the bytes, the NUL and three pad bytes. */
  lemma MoopString(s: State)
    requires M.Data(s) == [3, 0, 0, 0, 102, 111, 111, 0] && !s.nested
    ensures M.CreateString(s, [109, 111, 111, 112]).Ok?
    ensures M.Data(M.CreateString(s, [109, 111, 111, 112]).value.0) ==
      [4, 0, 0, 0, 109, 111, 111, 112, 0, 0, 0, 0] + M.Data(s)
  {
    assert Zeros(3) == [0, 0, 0];
    StringLaid(s, [109, 111, 111, 112], 3, [4, 0, 0, 0, 109, 111, 111, 112, 0, 0, 0, 0] + M.Data(s));
  }

  /** A string of nine UTF-8 bytes: the NUL and two pad bytes follow them. */
  lemma UnicodeString(e: State)
    requires M.Data(e) == [] && !e.nested
    ensures M.CreateString(e, [230, 151, 165, 230, 156, 172, 232, 170, 158]).Ok?
    ensures M.Data(M.CreateString(e, [230, 151, 165, 230, 156, 172, 232, 170, 158]).value.0) ==
      [9, 0, 0, 0, 230, 151, 165, 230, 156, 172, 232, 170, 158, 0, 0, 0]
  {
    assert Zeros(2) == [0, 0];
    StringLaid(e, [230, 151, 165, 230, 156, 172, 232, 170, 158], 2,
      [9, 0, 0, 0, 230, 151, 165, 230, 156, 172, 232, 170, 158, 0, 0, 0]);
  }

  /** An object with no slots, on an empty builder: the vtable [4, 4] and the word 4 pointing to it. */
  lemma EmptyVtable(e: State)
    requires M.Data(e) == [] && !e.nested && e.vtables == []
    ensures M.StartObject(e, 0).Ok?
    ensures var o := M.StartObject(e, 0).value;
      M.Data(o) == [] && M.EndObject(o).Ok? && M.Data(M.EndObject(o).value.0) == [4, 0, 4, 0, 4, 0, 0, 0]
  {
    var o := M.StartObject(e, 0).value;
    var (t, off) := M.EndObject(o).value;
    M.EmptyObject(o, t, off);
  }

  /**
   * A bool slot given its default is not written: the object closes with
   * the same bytes as one with no slots.
   */
  lemma DefaultBool(e: State)
    requires M.Data(e) == [] && !e.nested && e.vtables == []
    ensures M.StartObject(e, 1).Ok?
    ensures var o := M.StartObject(e, 1).value;
      M.PrependSlot(o, 0, 1, M.BoolByte(false), M.BoolByte(false)) == Ok(o) &&
      M.EndObject(o).Ok? && M.Data(M.EndObject(o).value.0) == [4, 0, 4, 0, 4, 0, 0, 0]
  {
    var o := M.StartObject(e, 1).value;
    var (t, off) := M.EndObject(o).value;
    M.EmptyObject(o, t, off);
  }

  /** A true bool in slot 0 of an object on an empty builder. */
  lemma TrueBoolSlot(e: State)
    requires M.Data(e) == [] && !e.nested && e.vtables == [] && e.minAlign >= 1
    ensures M.StartObject(e, 1).Ok?
    ensures var o := M.StartObject(e, 1).value;
      var r := M.PrependSlot(o, 0, 1, M.BoolByte(true), M.BoolByte(false));
      r.Ok? && M.Data(r.value) == [1] && r.value.vtable == [1] && r.value.objectEnd == 0 &&
      r.value.nested && r.value.vtables == []
  {
    var o := M.StartObject(e, 1).value;
    LECons(1, 1, 0, 1);
    Prepended(o, 1, 1, [], [1], 0, [1]);
  }

  /**
   * Closing the object of the one true bool: the vtable (6 bytes, an
   * object of 8 bytes, the bool at 7), the word 6 pointing forward to it,
   * three pad bytes and the bool.
   */
  lemma TrueBoolObject(s: State)
    requires M.Data(s) == [1] && s.vtable == [1] && s.objectEnd == 0 && s.nested && s.vtables == []
    ensures M.EndObject(s).Ok?
    ensures M.Data(M.EndObject(s).value.0) == [6, 0, 8, 0, 7, 0, 6, 0, 0, 0, 0, 0, 0, 1]
  {
    var (t, off) := M.EndObject(s).value;
    TrueBoolCandidate(s);
    M.EndObjectMiss(s, t, off);
    Word(6);
  }

  /** The object of the one true bool starts 8 bytes in, and no vtable is cached yet. */
  lemma TrueBoolCandidate(s: State)
    requires M.Data(s) == [1] && s.vtable == [1] && s.objectEnd == 0 && s.vtables == []
    ensures M.Candidate(s) == [6, 0, 8, 0, 7, 0] && M.Found(s) == 0
    ensures Zeros(PadLen(M.Offset(s), M.SizeSOffsetT)) == [0, 0, 0]
  {
    PadOf(1, 4);
    assert M.Offset(M.Opened(s)) == 8;
    OneSlotVtable();
  }

  /** The vtable bytes of one slot at distance 7 in an object of 8 bytes. */
  lemma OneSlotVtable()
    ensures M.Words(M.VtableWords(M.Trim([1]), 8, 0)) == [6, 0, 8, 0, 7, 0]
  {
    assert M.Trim([1]) == [1];
    assert M.VtableWords([1], 8, 0) == [6, 8, 7];
    LECons(6, 2, 0, 6);
    LECons(8, 2, 0, 8);
    LECons(7, 2, 0, 7);
    LECons(0, 1, 0, 0);
    assert M.Words([6, 8, 7]) == M.Words([6, 8]) + LE(7, 2);
    assert M.Words([6, 8]) == M.Words([6]) + LE(8, 2);
    assert M.Words([6]) == M.Words([]) + LE(6, 2);
  }

  /**
   * The misuse the runtime refuses: closing an object that was never
   * opened, a string inside an open object, a struct that is not written
   * inline, and the finished bytes of an unfinished buffer.
   */
  lemma Misuse(e: State)
    requires M.Data(e) == [] && !e.nested && !e.finished
    ensures M.EndObject(e) == Err(NotNested)
    ensures M.StartObject(e, 0).Ok?
    ensures M.CreateString(M.StartObject(e, 0).value, [102, 111, 111]) == Err(Nested)
    ensures M.PrependStructSlot(M.StartObject(e, 0).value, 0, 1, 0) == Err(NotInline)
    ensures M.FinishedBytes(e) == Err(NotFinished)
  {
  }

  /**
   * A byte vector written by hand, as the CreateByteVector test does it:
   * StartVector for |v| bytes aligned to 1, the bytes prepended from the
   * last to the first, then EndVector. The builder ends exactly where
   * CreateByteVector would have taken it, and the offset is the same.
   */
  method ManualByteVector(b: Builder, v: seq<Byte>) returns (ok: bool, off: nat)
    requires b.Valid()
    modifies b, b.bytes
    ensures b.Valid()
    ensures ok == M.CreateByteVector(old(b.Model()), v).Ok?
    ensures ok ==> (b.Model(), off) == M.CreateByteVector(old(b.Model()), v).value
  {
    ghost var s := b.Model();
    if b.nested {
      return false, 0;
    }
    M.StartVectorAligned(s, 1, |v|);
    ok, off := b.StartVector(1, |v|, 1);
    ghost var p := b.Model();
    var i := |v|;
    while i > 0
      invariant 0 <= i <= |v| && b.Valid()
      invariant b.bytes == old(b.bytes) || fresh(b.bytes)
      invariant b.Model() == M.Place(p, v[i..])
    {
      PrependByteAt(b, p, v, i);
      i := i - 1;
    }
    ok, off := b.EndVector(|v|);
    M.WriteVectorSteps(s, v, |v|, p);
  }

  /** One turn of the manual loop: v[i - 1] goes in front of the bytes v[i..] already placed. */
  method PrependByteAt(b: Builder, ghost p: State, v: seq<Byte>, i: nat)
    requires b.Valid() && 0 < i <= |v| && p.space > |v| && p.minAlign >= 1
    requires b.Model() == M.Place(p, v[i..])
    modifies b, b.bytes
    ensures b.Valid() && (b.bytes == old(b.bytes) || fresh(b.bytes))
    ensures b.Model() == M.Place(p, v[i - 1..])
  {
    M.PrependInRoom(b.Model(), 1, v[i - 1]);
    assert LE(v[i - 1], 1) == [v[i - 1]];
    b.PrependScalar(1, v[i - 1]);
    PlaceTwice(p, v[i..], [v[i - 1]]);
    assert [v[i - 1]] + v[i..] == v[i - 1..];
  }
}
