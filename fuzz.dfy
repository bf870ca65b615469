/**
 * The low-level fuzz test: objects of `fields` scalar fields, each field's
 * kind drawn from the generator, are built one after another in a single
 * builder; a fresh generator then replays the same draws and every field of
 * every object is read back through its table. The model proves that the
 * read-back never differs from what was written.
 */
module Fuzz {
  import opened Wire
  import opened Table
  import opened ReadBack
  import M = BuilderModel
  import Lcg
  import Runtime

  /** The number of scalar kinds the test draws from. */
  const TestValuesMax: nat := 11

  /** The width in bytes of each kind: bool, int8, uint8, int16, uint16, int32, uint32, int64, uint64, float32, float64. */
  function Width(kind: nat): (w: nat)
    requires kind < TestValuesMax
    ensures w == 1 || w == 2 || w == 4 || w == 8
  {
    if kind <= 2 then 1
    else if kind <= 4 then 2
    else if kind == 5 || kind == 6 || kind == 9 then 4
    else 8
  }

  /**
   * The value the test writes for each kind, as the unsigned bit pattern the
   * runtime stores (floats as their IEEE 754 encoding).
   */
  function Pattern(kind: nat): (p: nat)
    requires kind < TestValuesMax
    ensures 0 < p < Pow256(Width(kind))
  {
    match kind
    case 0 => 1
    case 1 => 0x81
    case 2 => 0xFF
    case 3 => 0x8222
    case 4 => 0xFEEE
    case 5 => 0x3333_3383
    case 6 => 0xFDDD_DDDD
    case 7 => 0x4444_4444_4444_4484
    case 8 => 0xFCCC_CCCC_CCCC_CCCC
    case 9 => 0x4049_0FD0
    case _ => 0x4009_21FB_5444_2EEA
  }

  /**
   * The patterns are the test's values: true, -127, 0xFF, -32222, 0xFEEE,
   * the int32 and int64 read from the bytes 83 33 33 33 and 84 44 ... 44,
   * 0xFDDDDDDD and 0xFCCCCCCCCCCCCCCC. None equals the default 0, so every
   * field is written.
   */
  lemma PatternsAreTestValues()
    ensures Pattern(0) == M.BoolByte(true)
    ensures Signed(Pattern(1), 1) == -127 && Pattern(2) == 0xFF
    ensures Signed(Pattern(3), 2) == -32222 && Pattern(4) == 0xFEEE
    ensures Pattern(5) == FromLE([0x83, 0x33, 0x33, 0x33]) && Pattern(6) == 0xFDDD_DDDD
    ensures Pattern(7) == FromLE([0x84, 0x44, 0x44, 0x44, 0x44, 0x44, 0x44, 0x44])
    ensures Pattern(8) == 0xFCCC_CCCC_CCCC_CCCC
  {
    assert Pow256(1) == 256;
    assert Pow256(2) == 0x1_0000;
  }

  /** The kind of the n-th field written (counting from 0 over all objects). */
  function Kind(n: nat): (k: nat)
    ensures k < TestValuesMax
  {
    Lcg.StateAfter(Lcg.InitialSeed, n + 1) % TestValuesMax
  }

  /** The most bytes one object adds: up to 15 per field and the vtable with the object's leading word. */
  function ObjectBound(fields: nat): nat
  {
    17 * fields + 11
  }

  /** The sizes for which every object stays within the format's limits. */
  predicate Room(start: nat, fields: nat)
  {
    15 * fields + 8 <= 0x1_0000 && start + ObjectBound(fields) <= 0x8000_0000
  }

  /** The n-th field written holds its kind's value, little-endian. */
  predicate FieldHolds(s: M.State, n: nat, j: nat)
  {
    M.Holds(s, j, Width(Kind(n + j)), LE(Pattern(Kind(n + j)), Width(Kind(n + j))))
  }

  /**
   * The open object, started at `start` with `fields` slots, whose first f
   * fields (the n-th to the n+f-1-th drawn) are written and hold their
   * values, the rest unset.
   */
  predicate Filled(s: M.State, start: nat, fields: nat, n: nat, f: nat)
  {
    s.nested && |s.vtable| == fields && f <= fields && s.objectEnd == start &&
    start <= M.Offset(s) <= start + 15 * f &&
    (forall v | v in s.vtables :: v <= M.Offset(s)) &&
    (forall j | 0 <= j < f :: start < s.vtable[j] && FieldHolds(s, n, j)) &&
    (forall j | f <= j < fields :: s.vtable[j] == 0)
  }

  /** No object open, and every cached vtable already written. */
  predicate Idle(s: M.State)
  {
    !s.nested && forall v | v in s.vtables :: v <= M.Offset(s)
  }

  /** `longer` is `shorter` with bytes put in front. */
  predicate Extends(longer: seq<Byte>, shorter: seq<Byte>)
  {
    |shorter| <= |longer| && forall i | 0 <= i < |shorter| :: longer[|longer| - |shorter| + i] == shorter[i]
  }

  lemma ExtendsTrans(a: seq<Byte>, b: seq<Byte>, c: seq<Byte>)
    requires Extends(a, b) && Extends(b, c)
    ensures Extends(a, c)
  {
    forall i | 0 <= i < |c|
      ensures a[|a| - |c| + i] == c[i]
    {
      assert a[|a| - |b| + (|b| - |c| + i)] == b[|b| - |c| + i];
    }
  }

  lemma ExtendsPrefix(pre: seq<Byte>, data: seq<Byte>)
    ensures Extends(pre + data, data)
  {
  }

  /** A longer buffer is its extra bytes followed by the shorter one. */
  lemma ExtendsSplit(longer: seq<Byte>, shorter: seq<Byte>)
    requires Extends(longer, shorter)
    ensures longer == longer[..|longer| - |shorter|] + shorter
  {
    var pre := longer[..|longer| - |shorter|];
    forall i | 0 <= i < |longer|
      ensures longer[i] == (pre + shorter)[i]
    {
      if i >= |pre| {
        assert longer[|longer| - |shorter| + (i - |pre|)] == shorter[i - |pre|];
      }
    }
  }

  /** StartObject on an idle builder opens an object with no field filled. */
  lemma Opening(s: M.State, fields: nat, n: nat)
    requires Idle(s)
    ensures M.StartObject(s, fields).Ok? && Filled(M.StartObject(s, fields).value, M.Offset(s), fields, n, 0)
  {
  }

  /**
   * Writing field f: the slot call succeeds, the new field holds its value,
   * the fields written before still hold theirs, and the data only grows at
   * the front, by at most 15 bytes.
   */
  lemma {:induction false} FillStep(s: M.State, start: nat, fields: nat, n: nat, f: nat, k: nat) returns (r: M.State)
    requires Filled(s, start, fields, n, f) && f < fields && k == Kind(n + f)
    ensures M.PrependSlot(s, f, Width(k), Pattern(k), 0) == Ok(r)
    ensures Filled(r, start, fields, n, f + 1) && Extends(M.Data(r), M.Data(s))
  {
    var w := Width(k);
    r := M.PrependSlot(s, f, w, Pattern(k), 0).value;
    var pre := LE(Pattern(k), w) + Zeros(PadLen(M.Offset(s), w));
    assert M.Data(r) == pre + M.Data(s);
    ExtendsPrefix(pre, M.Data(s));
    forall j | 0 <= j < f
      ensures start < r.vtable[j] && FieldHolds(r, n, j)
    {
      assert r.vtable[j] == s.vtable[j];
      M.AtPrefix(pre, M.Data(s), s.vtable[j], Width(Kind(n + j)));
    }
    assert FieldHolds(r, n, f);
  }

  /** A filled object satisfies what the read-back theorem asks of the builder. */
  lemma {:induction false} FilledWf(s: M.State, start: nat, fields: nat, n: nat)
    requires Filled(s, start, fields, n, fields) && Room(start, fields)
    ensures Wf(s) && Fits(s)
  {
    forall i | 0 <= i < |s.vtable|
      ensures s.vtable[i] == 0 || s.objectEnd <= s.vtable[i] <= M.Offset(s)
    {
      assert FieldHolds(s, n, i);
    }
  }

  /** A field that holds its value is recorded as that value. */
  lemma {:induction false} HeldRecorded(s: M.State, n: nat, j: nat)
    requires FieldHolds(s, n, j) && s.vtable[j] != 0
    ensures Recorded(s, j, Width(Kind(n + j)), 0) == Ok(Pattern(Kind(n + j)))
  {
    var w := Width(Kind(n + j));
    var p := Pattern(Kind(n + j));
    var d := M.Data(s);
    assert d[|d| - s.vtable[j]..|d| - s.vtable[j] + w] == LE(p, w);
    FromLEOfLE(p, w);
    SmallMod(p, Pow256(w));
  }

  /** Field j of the object at off, in buf, reads as the value the n+j-th draw chose. */
  predicate FieldReads(buf: seq<Byte>, off: nat, n: nat, j: nat)
  {
    off <= |buf| &&
    GetSlot(buf, TablePos(buf, off), CalcVOffsetT(j), Width(Kind(n + j)), 0) == Ok(Pattern(Kind(n + j)))
  }

  /** A field that reads back keeps reading back once more bytes are put in front. */
  lemma FieldReadsExtends(longer: seq<Byte>, buf: seq<Byte>, off: nat, n: nat, j: nat)
    requires Extends(longer, buf) && FieldReads(buf, off, n, j)
    ensures FieldReads(longer, off, n, j)
  {
    ExtendsSplit(longer, buf);
    FieldReadsPrefix(longer[..|longer| - |buf|], buf, off, n, j);
  }

  lemma FieldReadsPrefix(pre: seq<Byte>, buf: seq<Byte>, off: nat, n: nat, j: nat)
    requires FieldReads(buf, off, n, j)
    ensures FieldReads(pre + buf, off, n, j)
  {
    var w := Width(Kind(n + j));
    var pos := TablePos(buf, off);
    assert TablePos(pre + buf, off) == |pre| + pos;
    GetSlotPrefix(pre, buf, pos, CalcVOffsetT(j), w, 0);
  }

  /** Ending an object only puts bytes in front of the data. */
  lemma {:induction false} ClosingExtends(s: M.State, t: M.State, off: nat)
    requires Wf(s) && Fits(s) && M.EndObject(s) == Ok((t, off))
    ensures Extends(M.Data(t), M.Data(s))
  {
    var pre, c := Outcome(s, t, off);
    ExtendsPrefix(pre, M.Data(s));
  }

  /**
   * Ending an object closes it, and the vtable it cached, if any, is
   * already written: the builder is idle again.
   */
  lemma {:induction false} ClosingIdle(s: M.State, t: M.State, off: nat)
    requires Wf(s) && M.EndObject(s) == Ok((t, off))
    ensures Idle(t)
  {
    if M.Found(s) == 0 {
      M.EndObjectMiss(s, t, off);
    } else {
      M.EndObjectHit(s, t, off);
    }
  }

  /**
   * Ending an object adds at most its vtable, one 32-bit word and 3 bytes
   * of padding: 2 bytes per slot and 11 more.
   */
  lemma {:induction false} ClosingBound(s: M.State, t: M.State, off: nat)
    requires M.EndObject(s) == Ok((t, off))
    ensures M.Offset(t) <= M.Offset(s) + 2 * |s.vtable| + 11
  {
    assert |M.Candidate(s)| <= 2 * |s.vtable| + 4 by {
      assert |M.Trim(s.vtable)| <= |s.vtable|;
    }
    assert PadLen(M.Offset(s), M.SizeSOffsetT) < 4;
    if M.Found(s) == 0 {
      M.EndObjectMiss(s, t, off);
    } else {
      M.EndObjectHit(s, t, off);
    }
  }

  /** Ending a filled object: every field of the new table reads back as written. */
  lemma {:induction false} ClosingReads(s: M.State, start: nat, fields: nat, n: nat, t: M.State, off: nat)
    requires Filled(s, start, fields, n, fields) && Room(start, fields)
    requires M.EndObject(s) == Ok((t, off))
    ensures forall j | 0 <= j < fields :: FieldReads(M.Data(t), off, n, j)
  {
    FilledWf(s, start, fields, n);
    forall j | 0 <= j < fields
      ensures FieldReads(M.Data(t), off, n, j)
    {
      EndObjectReadBack(s, t, off, j, Width(Kind(n + j)), 0);
      assert FieldHolds(s, n, j);
      HeldRecorded(s, n, j);
    }
  }

  /** The number of fields drawn before the k-th object. */
  function FirstField(k: nat, fields: nat): nat
  {
    k * fields
  }

  /** Field j of the k-th object, whose offset is objs[k], reads back in buf. */
  predicate Stored(buf: seq<Byte>, objs: seq<nat>, fields: nat, k: nat, j: nat)
  {
    k < |objs| && FieldReads(buf, objs[k], FirstField(k, fields), j)
  }

  lemma MulMono(a: nat, b: nat, c: nat)
    requires a <= b
    ensures a * c <= b * c
  {
  }

  lemma MulSucc(i: nat, m: nat)
    ensures (i + 1) * m == i * m + m
  {
  }

  /** choice := l.Next() % testValuesMax: the kind of the n-th field. */
  method DrawKind(l: Lcg.LCG, ghost n: nat) returns (choice: nat, ghost drawn: nat)
    requires l.Valid() && l.state == Lcg.StateAfter(Lcg.InitialSeed, n)
    modifies l
    ensures drawn == n + 1 && l.Valid() && l.state == Lcg.StateAfter(Lcg.InitialSeed, drawn)
    ensures choice == Kind(n)
  {
    var next := l.Next();
    choice := next % TestValuesMax;
    drawn := n + 1;
  }

  /** StartObject(fields) on an idle builder: an open object with no field filled. */
  method OpenObject(b: Runtime.Builder, fields: nat, ghost n: nat)
    requires b.Valid() && Idle(b.Model())
    modifies b
    ensures b.Valid() && b.bytes == old(b.bytes)
    ensures Filled(b.Model(), M.Offset(old(b.Model())), fields, n, 0) && M.Data(b.Model()) == M.Data(old(b.Model()))
  {
    Opening(b.Model(), fields, n);
    var ok := b.StartObject(fields);
  }

  /**
   * The test's switch on the drawn kind: the kind's value goes into slot f
   * with default 0. Field f of the open object then holds it, the earlier
   * fields keep theirs, and the data only grows at the front.
   */
  method PrependDrawn(b: Runtime.Builder, f: nat, choice: nat, ghost start: nat, ghost fields: nat, ghost n: nat, ghost drawn: nat)
    requires b.Valid() && Filled(b.Model(), start, fields, n, f) && f < fields
    requires drawn == n + f && choice == Kind(drawn)
    modifies b, b.bytes
    ensures b.Valid() && (b.bytes == old(b.bytes) || fresh(b.bytes))
    ensures Filled(b.Model(), start, fields, n, f + 1) && Extends(M.Data(b.Model()), M.Data(old(b.Model())))
  {
    ghost var r := FillStep(b.Model(), start, fields, n, f, choice);
    var ok := b.PrependSlot(f, Width(choice), Pattern(choice), 0);
  }

  /**
   * EndObject on a filled object: the builder is idle again, the data grew
   * at the front within the object bound, and every field of the table at
   * the returned offset reads back as written.
   */
  method EndFilled(b: Runtime.Builder, ghost start: nat, ghost fields: nat, ghost n: nat) returns (off: nat)
    requires b.Valid() && Filled(b.Model(), start, fields, n, fields) && Room(start, fields)
    modifies b, b.bytes
    ensures b.Valid() && (b.bytes == old(b.bytes) || fresh(b.bytes))
    ensures Idle(b.Model()) && Extends(M.Data(b.Model()), M.Data(old(b.Model())))
    ensures M.Offset(b.Model()) <= start + ObjectBound(fields)
    ensures forall j | 0 <= j < fields :: FieldReads(M.Data(b.Model()), off, n, j)
  {
    ghost var s := b.Model();
    var ok;
    ok, off := b.EndObject();
    FilledWf(s, start, fields, n);
    ClosingExtends(s, b.Model(), off);
    ClosingIdle(s, b.Model(), off);
    ClosingBound(s, b.Model(), off);
    ClosingReads(s, start, fields, n, b.Model(), off);
  }

  /**
   * The test's inner loop: for each field f, a kind drawn from the
   * generator and its value prepended to slot f.
   */
  method FillFields(b: Runtime.Builder, l: Lcg.LCG, fields: nat, ghost start: nat, ghost n: nat) returns (ghost drawn: nat)
    requires b.Valid() && l.Valid() && l.state == Lcg.StateAfter(Lcg.InitialSeed, n)
    requires Filled(b.Model(), start, fields, n, 0)
    modifies b, b.bytes, l
    ensures drawn == n + fields && l.Valid() && l.state == Lcg.StateAfter(Lcg.InitialSeed, drawn)
    ensures b.Valid() && (b.bytes == old(b.bytes) || fresh(b.bytes))
    ensures Filled(b.Model(), start, fields, n, fields) && Extends(M.Data(b.Model()), M.Data(old(b.Model())))
  {
    ghost var s0 := M.Data(b.Model());
    ExtendsPrefix([], s0);
    var f := 0;
    drawn := n;
    while f < fields
      invariant 0 <= f <= fields && drawn == n + f
      invariant b.Valid() && l.Valid() && l.state == Lcg.StateAfter(Lcg.InitialSeed, drawn)
      invariant b.bytes == old(b.bytes) || fresh(b.bytes)
      invariant Filled(b.Model(), start, fields, n, f) && Extends(M.Data(b.Model()), s0)
    {
      ghost var before := M.Data(b.Model());
      var choice;
      ghost var d := drawn;
      choice, drawn := DrawKind(l, d);
      PrependDrawn(b, f, choice, start, fields, n, d);
      ExtendsTrans(M.Data(b.Model()), before, s0);
      f := f + 1;
    }
  }

  /**
   * One object of the test: StartObject, the drawn fields, then EndObject,
   * whose offset is returned.
   */
  method BuildObject(b: Runtime.Builder, l: Lcg.LCG, fields: nat, ghost n: nat) returns (off: nat, ghost drawn: nat)
    requires b.Valid() && l.Valid() && l.state == Lcg.StateAfter(Lcg.InitialSeed, n)
    requires Idle(b.Model()) && Room(M.Offset(b.Model()), fields)
    modifies b, b.bytes, l
    ensures drawn == n + fields && b.Valid() && l.Valid() && l.state == Lcg.StateAfter(Lcg.InitialSeed, drawn)
    ensures b.bytes == old(b.bytes) || fresh(b.bytes)
    ensures Idle(b.Model()) && Extends(M.Data(b.Model()), M.Data(old(b.Model())))
    ensures M.Offset(b.Model()) <= M.Offset(old(b.Model())) + ObjectBound(fields)
    ensures forall j | 0 <= j < fields :: FieldReads(M.Data(b.Model()), off, n, j)
  {
    ghost var s0 := M.Data(b.Model());
    ghost var start := M.Offset(b.Model());
    OpenObject(b, fields, n);
    drawn := FillFields(b, l, fields, start, n);
    ghost var filled := M.Data(b.Model());
    off := EndFilled(b, start, fields, n);
    ExtendsTrans(M.Data(b.Model()), filled, s0);
  }

  /** The offsets recorded so far, with the object just built, all read back after it was built. */
  lemma {:induction false} StoredStep(before: seq<Byte>, after: seq<Byte>, objs: seq<nat>, objs': seq<nat>,
                                      fields: nat, i: nat, off: nat)
    requires Extends(after, before) && i < |objs| && objs' == objs[i := off]
    requires forall k, j | 0 <= k < i && 0 <= j < fields :: Stored(before, objs, fields, k, j)
    requires forall j | 0 <= j < fields :: FieldReads(after, off, FirstField(i, fields), j)
    ensures forall k, j | 0 <= k < i + 1 && 0 <= j < fields :: Stored(after, objs', fields, k, j)
  {
    forall k, j | 0 <= k < i + 1 && 0 <= j < fields
      ensures Stored(after, objs', fields, k, j)
    {
      if k < i {
        assert Stored(before, objs, fields, k, j);
        FieldReadsExtends(after, before, objs[k], FirstField(k, fields), j);
      }
    }
  }

  lemma FirstFieldNext(i: nat, fields: nat)
    ensures FirstField(i + 1, fields) == FirstField(i, fields) + fields
  {
  }

  /** The first i objects were built: every field of each reads back in buf. */
  predicate Built(buf: seq<Byte>, objs: seq<nat>, fields: nat, i: nat)
  {
    forall k, j | 0 <= k < i && 0 <= j < fields :: Stored(buf, objs, fields, k, j)
  }

  /** One turn of the build loop: the i-th object is built and its offset stored in objects[i]. */
  method BuildNext(b: Runtime.Builder, l: Lcg.LCG, objects: array<nat>, fields: nat, i: nat, ghost n: nat)
    returns (ghost next: nat)
    requires i < objects.Length && n == FirstField(i, fields)
    requires b.Valid() && l.Valid() && l.state == Lcg.StateAfter(Lcg.InitialSeed, n)
    requires Idle(b.Model()) && M.Offset(b.Model()) <= i * ObjectBound(fields)
    requires 15 * fields + 8 <= 0x1_0000 && objects.Length * ObjectBound(fields) <= 0x8000_0000
    requires Built(M.Data(b.Model()), objects[..], fields, i)
    modifies b, b.bytes, l, objects
    ensures next == FirstField(i + 1, fields)
    ensures b.Valid() && l.Valid() && l.state == Lcg.StateAfter(Lcg.InitialSeed, next)
    ensures b.bytes == old(b.bytes) || fresh(b.bytes)
    ensures Idle(b.Model()) && M.Offset(b.Model()) <= (i + 1) * ObjectBound(fields)
    ensures Built(M.Data(b.Model()), objects[..], fields, i + 1)
  {
    ghost var before := M.Data(b.Model());
    ghost var objs := objects[..];
    MulMono(i + 1, objects.Length, ObjectBound(fields));
    MulSucc(i, ObjectBound(fields));
    FirstFieldNext(i, fields);
    var off;
    off, next := BuildObject(b, l, fields, n);
    objects[i] := off;
    StoredStep(before, M.Data(b.Model()), objs, objects[..], fields, i, off);
  }

  /**
   * The build phase of checkFuzz: objects.Length objects, each one's offset
   * stored in objects; afterwards every field of every object reads back.
   */
  method BuildAll(b: Runtime.Builder, l: Lcg.LCG, objects: array<nat>, fields: nat)
    requires b.Valid() && l.Valid() && l.state == Lcg.InitialSeed
    requires Idle(b.Model()) && M.Offset(b.Model()) == 0
    requires 15 * fields + 8 <= 0x1_0000 && objects.Length * ObjectBound(fields) <= 0x8000_0000
    modifies b, b.bytes, l, objects
    ensures b.Valid() && (b.bytes == old(b.bytes) || fresh(b.bytes))
    ensures forall k, j | 0 <= k < objects.Length && 0 <= j < fields :: Stored(M.Data(b.Model()), objects[..], fields, k, j)
  {
    var i := 0;
    ghost var n: nat := 0;
    while i < objects.Length
      invariant 0 <= i <= objects.Length && n == FirstField(i, fields)
      invariant b.Valid() && l.Valid() && l.state == Lcg.StateAfter(Lcg.InitialSeed, n)
      invariant b.bytes == old(b.bytes) || fresh(b.bytes)
      invariant Idle(b.Model()) && M.Offset(b.Model()) <= i * ObjectBound(fields)
      invariant Built(M.Data(b.Model()), objects[..], fields, i)
    {
      n := BuildNext(b, l, objects, fields, i, n);
      i := i + 1;
    }
  }

  /** Every field of the i-th object reads back in any buffer that extends the builder's data. */
  lemma {:induction false} ObjectReads(buf: seq<Byte>, data: seq<Byte>, offs: seq<nat>, fields: nat, i: nat)
    requires Extends(buf, data) && i < |offs|
    requires forall k, j | 0 <= k < |offs| && 0 <= j < fields :: Stored(data, offs, fields, k, j)
    ensures forall j | 0 <= j < fields :: FieldReads(buf, offs[i], FirstField(i, fields), j)
  {
    forall j | 0 <= j < fields
      ensures FieldReads(buf, offs[i], FirstField(i, fields), j)
    {
      assert Stored(data, offs, fields, i, j);
      FieldReadsExtends(buf, data, offs[i], FirstField(i, fields), j);
    }
  }

  /**
   * The read-back of one object: a table at pos in the builder's bytes and,
   * for each field, the getter of the kind drawn again compared with that
   * kind's value. Returns the number of mismatches: none.
   */
  method ReadObject(buf: seq<Byte>, pos: int, l: Lcg.LCG, fields: nat, ghost off: nat, ghost n: nat)
    returns (failures: int, ghost drawn: nat)
    requires l.Valid() && l.state == Lcg.StateAfter(Lcg.InitialSeed, n) && pos == TablePos(buf, off)
    requires forall j | 0 <= j < fields :: FieldReads(buf, off, n, j)
    modifies l
    ensures failures == 0
    ensures drawn == n + fields && l.Valid() && l.state == Lcg.StateAfter(Lcg.InitialSeed, drawn)
  {
    failures := 0;
    drawn := n;
    var j := 0;
    while j < fields
      invariant 0 <= j <= fields && drawn == n + j && failures == 0
      invariant l.Valid() && l.state == Lcg.StateAfter(Lcg.InitialSeed, drawn)
    {
      var choice;
      ghost var d := drawn;
      choice, drawn := DrawKind(l, d);
      var got := GetSlot(buf, pos, CalcVOffsetT(j), Width(choice), 0);
      assert FieldReads(buf, off, n, j);
      if got != Ok(Pattern(choice)) {
        failures := failures + 1;
      }
      j := j + 1;
    }
  }

  /**
   * checkFuzz: builds `count` objects of `fields` drawn fields in one
   * builder, then re-seeds the generator and compares every field, read
   * through a table over the builder's whole array, with the value drawn
   * for it. Returns the number of mismatches: none.
   */
  method CheckFuzz(fields: nat, count: nat) returns (failures: int)
    requires 15 * fields + 8 <= 0x1_0000 && count * ObjectBound(fields) <= 0x8000_0000
    ensures failures == 0
  {
    var b := new Runtime.Builder(0);
    var l := new Lcg.LCG();
    var objects := new nat[count];
    BuildAll(b, l, objects, fields);

    ghost var data := M.Data(b.Model());
    ghost var offs := objects[..];
    var buf := b.bytes[..];
    assert buf[b.head..] == data;
    l := new Lcg.LCG();
    failures := 0;
    var i := 0;
    ghost var n: nat := 0;
    while i < count
      invariant 0 <= i <= count && n == FirstField(i, fields) && failures == 0
      invariant l.Valid() && l.state == Lcg.StateAfter(Lcg.InitialSeed, n)
      invariant objects[..] == offs
    {
      ObjectReads(buf, data, offs, fields, i);
      var missed;
      missed, n := ReadObject(buf, |buf| - objects[i], l, fields, objects[i], n);
      failures := failures + missed;
      FirstFieldNext(i, fields);
      i := i + 1;
    }
  }
}
