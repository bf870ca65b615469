/**
 * The zero-copy reader and in-place mutator: a table is a position in a
 * byte buffer whose first word is a signed distance back to its vtable.
 * Positions are absolute indexes into the whole buffer. The runtime panics
 * on an out-of-range slice; here that is the OutOfBounds error.
 */
module Table {
  import opened Wire

  /** The w-byte little-endian scalar at absolute index `at`. */
  function ReadLE(buf: seq<Byte>, at: int, w: nat): (r: Result<nat>)
    ensures r.Ok? <==> 0 <= at && at + w <= |buf|
  {
    if 0 <= at && at + w <= |buf| then Ok(FromLE(buf[at..at + w])) else Err(OutOfBounds)
  }

  /** A successful read is the value whose w-byte encoding is the bytes read. */
  lemma ReadLEBytes(buf: seq<Byte>, at: int, w: nat)
    ensures ReadLE(buf, at, w).Ok? ==> ReadLE(buf, at, w).value < Pow256(w)
    ensures ReadLE(buf, at, w).Ok? ==> LE(ReadLE(buf, at, w).value, w) == buf[at..at + w]
  {
    if ReadLE(buf, at, w).Ok? {
      FromLEBound(buf[at..at + w]);
      LEOfFromLE(buf[at..at + w]);
    }
  }

  /** The vtable of the table at pos: pos minus the signed word stored at pos. */
  function VtableOf(buf: seq<Byte>, pos: int): (r: Result<int>)
    ensures r.Ok? <==> 0 <= pos && pos + 4 <= |buf|
  {
    var so :- ReadLE(buf, pos, 4);
    Ok(pos - Signed(so, 4))
  }

  /**
   * Table.Offset: the vtable entry at byte vo of the vtable (the field's
   * distance from the table start), or 0 when vo lies beyond the vtable.
   */
  function FieldOffset(buf: seq<Byte>, pos: int, vo: nat): (r: Result<nat>)
    ensures VtableOf(buf, pos).Err? ==> r.Err?
    ensures VtableOf(buf, pos).Ok? ==>
      var vt := VtableOf(buf, pos).value;
      (ReadLE(buf, vt, 2).Err? ==> r.Err?) &&
      (ReadLE(buf, vt, 2).Ok? && vo >= ReadLE(buf, vt, 2).value ==> r == Ok(0)) &&
      (ReadLE(buf, vt, 2).Ok? && vo < ReadLE(buf, vt, 2).value ==>
        (r.Ok? <==> 0 <= vt + vo && vt + vo + 2 <= |buf|) &&
        (r.Ok? ==> r.value < Pow256(2) && LE(r.value, 2) == buf[vt + vo..vt + vo + 2]))
  {
    var vt :- VtableOf(buf, pos);
    var size :- ReadLE(buf, vt, 2);
    if vo < size then
      ReadLEBytes(buf, vt + vo, 2);
      ReadLE(buf, vt + vo, 2)
    else Ok(0)
  }

  /** The position of the table whose offset, counted from the end of buf, is off. */
  function TablePos(buf: seq<Byte>, off: nat): (r: int)
    ensures r <= |buf| && (0 <= r <==> off <= |buf|)
  {
    |buf| - off
  }

  /**
   * Get*Slot: the w-byte field at vtable byte vo, or the default d when the
   * field is absent.
   */
  function GetSlot(buf: seq<Byte>, pos: int, vo: nat, w: nat, d: nat): (r: Result<nat>)
    ensures FieldOffset(buf, pos, vo) == Ok(0) ==> r == Ok(d)
    ensures FieldOffset(buf, pos, vo).Ok? && FieldOffset(buf, pos, vo).value != 0 ==>
      r == ReadLE(buf, pos + FieldOffset(buf, pos, vo).value, w)
    ensures FieldOffset(buf, pos, vo).Err? ==> r.Err?
  {
    var off :- FieldOffset(buf, pos, vo);
    if off == 0 then Ok(d) else ReadLE(buf, pos + off, w)
  }

  /** GetVOffsetTSlot: the vtable entry itself, or d when it is 0 or beyond the vtable. */
  function GetVOffsetTSlot(buf: seq<Byte>, pos: int, vo: nat, d: nat): (r: Result<nat>)
    ensures FieldOffset(buf, pos, vo) == Ok(0) ==> r == Ok(d)
    ensures FieldOffset(buf, pos, vo).Ok? && FieldOffset(buf, pos, vo).value != 0 ==>
      r == FieldOffset(buf, pos, vo)
  {
    var off :- FieldOffset(buf, pos, vo);
    if off == 0 then Ok(d) else Ok(off)
  }

  /** The root table of a finished buffer: offset plus the root word found there. */
  function GetRoot(buf: seq<Byte>, offset: nat): (r: Result<nat>)
    ensures r.Ok? <==> offset + 4 <= |buf|
    ensures r.Ok? ==> r.value == offset + FromLE(buf[offset..offset + 4])
    ensures r.Ok? ==> (offset + 4 <= |buf| && r.value >= offset &&
      LE(r.value - offset, 4) == buf[offset..offset + 4])
  {
    ReadLEBytes(buf, offset, 4);
    var n :- ReadLE(buf, offset, 4);
    Ok(n + offset)
  }

  /** The root table of a size-prefixed buffer: the root word follows the size word. */
  function GetSizePrefixedRoot(buf: seq<Byte>, offset: nat): (r: Result<nat>)
    ensures r.Ok? <==> offset + 8 <= |buf|
    ensures r.Ok? ==> r.value == offset + 4 + FromLE(buf[offset + 4..offset + 8])
    ensures r.Ok? ==> (offset + 8 <= |buf| && r.value >= offset + 4 &&
      LE(r.value - offset - 4, 4) == buf[offset + 4..offset + 8])
  {
    ReadLEBytes(buf, offset + 4, 4);
    var n :- ReadLE(buf, offset + 4, 4);
    Ok(n + offset + 4)
  }

  /** The size word of a size-prefixed buffer. */
  function GetSizePrefix(buf: seq<Byte>, offset: nat): (r: Result<nat>)
    ensures r.Ok? <==> offset + 4 <= |buf|
    ensures r.Ok? ==> r.value == FromLE(buf[offset..offset + 4])
    ensures r.Ok? ==> offset + 4 <= |buf| && LE(r.value, 4) == buf[offset..offset + 4]
  {
    ReadLEBytes(buf, offset, 4);
    ReadLE(buf, offset, 4)
  }

  /** 256^4 is 2^32, the range of a 32-bit offset. */
  lemma Pow256Four()
    ensures Pow256(4) == 0x1_0000_0000
  {
    assert Pow256(2) == 0x1_0000;
  }

  /** A buffer that starts with the 32-bit offset v to its root has its root at v. */
  lemma GetRootOfWord(buf: seq<Byte>, v: nat)
    requires v < 0x1_0000_0000 && |buf| >= 4 && buf[..4] == LE(v, 4)
    ensures GetRoot(buf, 0) == Ok(v)
  {
    Pow256Four();
    FromLEOfLE(v, 4);
    assert buf[0..4] == buf[..4];
  }

  /** A size-prefixed buffer whose second word is the 32-bit offset v has its root at v + 4. */
  lemma GetSizePrefixedRootOfWord(buf: seq<Byte>, v: nat)
    requires v < 0x1_0000_0000 && |buf| >= 8 && buf[4..8] == LE(v, 4)
    ensures GetSizePrefixedRoot(buf, 0) == Ok(v + 4)
  {
    Pow256Four();
    FromLEOfLE(v, 4);
  }

  /** A buffer that starts with the 32-bit word v has the size prefix v. */
  lemma GetSizePrefixOfWord(buf: seq<Byte>, v: nat)
    requires v < 0x1_0000_0000 && |buf| >= 4 && buf[..4] == LE(v, 4)
    ensures GetSizePrefix(buf, 0) == Ok(v)
  {
    Pow256Four();
    FromLEOfLE(v, 4);
    assert buf[0..4] == buf[..4];
  }

  /** Overwrites the bytes at absolute index `at`; outside the buffer it fails. */
  function Write(buf: seq<Byte>, at: int, enc: seq<Byte>): (r: Result<seq<Byte>>)
    ensures r.Ok? <==> 0 <= at && at + |enc| <= |buf|
    ensures r.Ok? ==> |r.value| == |buf|
    ensures r.Ok? ==> forall k | 0 <= k < |buf| ::
      r.value[k] == if at <= k < at + |enc| then enc[k - at] else buf[k]
  {
    if 0 <= at && at + |enc| <= |buf| then Ok(buf[..at] + enc + buf[at + |enc|..])
    else Err(OutOfBounds)
  }

  /**
   * The effect of Mutate*Slot: overwrites a present field and reports true; an absent
   * field (entry 0 or beyond the vtable) is left alone and reports false.
   */
  function SlotMutation(buf: seq<Byte>, pos: int, vo: nat, w: nat, v: nat): (r: Result<(seq<Byte>, bool)>)
    ensures FieldOffset(buf, pos, vo) == Ok(0) ==> r == Ok((buf, false))
    ensures r.Ok? && r.value.1 ==> (FieldOffset(buf, pos, vo).Ok? && FieldOffset(buf, pos, vo).value != 0 &&
      Ok(r.value.0) == Write(buf, pos + FieldOffset(buf, pos, vo).value, LE(v, w)))
  {
    var off :- FieldOffset(buf, pos, vo);
    if off == 0 then Ok((buf, false))
    else
      var b :- Write(buf, pos + off, LE(v, w));
      Ok((b, true))
  }

  /** The byte ranges [a, a + n) and [b, b + m) do not overlap. */
  predicate Disjoint(a: int, n: nat, b: int, m: nat)
  {
    a + n <= b || b + m <= a
  }

  /**
   * The field that slot vo locates is clear of the table's own first word
   * and of the vtable words used to find it.
   */
  predicate Isolated(buf: seq<Byte>, pos: int, vo: nat, w: nat)
  {
    var off := FieldOffset(buf, pos, vo);
    var vt := VtableOf(buf, pos);
    off.Ok? && off.value != 0 && vt.Ok? &&
    Disjoint(pos + off.value, w, pos, 4) &&
    Disjoint(pos + off.value, w, vt.value, 2) &&
    Disjoint(pos + off.value, w, vt.value + vo, 2)
  }

  /** Writing outside a range leaves what is read in that range unchanged. */
  lemma ReadAfterWrite(buf: seq<Byte>, at: int, enc: seq<Byte>, p: int, n: nat)
    requires Write(buf, at, enc).Ok? && Disjoint(at, |enc|, p, n)
    ensures ReadLE(Write(buf, at, enc).value, p, n) == ReadLE(buf, p, n)
  {
    var b := Write(buf, at, enc).value;
    if 0 <= p && p + n <= |buf| {
      assert b[p..p + n] == buf[p..p + n];
    }
  }

  /** A mutated field reads back as the new value, reduced to the field's width. */
  lemma MutateThenGet(buf: seq<Byte>, pos: int, vo: nat, w: nat, v: nat, d: nat)
    requires SlotMutation(buf, pos, vo, w, v).Ok? && Isolated(buf, pos, vo, w)
    ensures SlotMutation(buf, pos, vo, w, v).value.1
    ensures GetSlot(SlotMutation(buf, pos, vo, w, v).value.0, pos, vo, w, d) == Ok(v % Pow256(w))
  {
    var b := MutationWrites(buf, pos, vo, w, v);
    FieldLocated(buf, pos, vo, LE(v, w));
    ReadWritten(buf, pos + FieldOffset(buf, pos, vo).value, LE(v, w));
    FromLEOfLE(v, w);
  }

  /** A write to an isolated field does not move the field. */
  lemma FieldLocated(buf: seq<Byte>, pos: int, vo: nat, enc: seq<Byte>)
    requires Isolated(buf, pos, vo, |enc|)
    requires Write(buf, pos + FieldOffset(buf, pos, vo).value, enc).Ok?
    ensures FieldOffset(Write(buf, pos + FieldOffset(buf, pos, vo).value, enc).value, pos, vo) ==
      FieldOffset(buf, pos, vo)
  {
    ReadsOutside(buf, enc);
    SameFieldOffset(buf, Write(buf, pos + FieldOffset(buf, pos, vo).value, enc).value, pos, vo);
  }

  /** Every read clear of a write sees the bytes from before the write. */
  lemma ReadsOutside(buf: seq<Byte>, enc: seq<Byte>)
    ensures forall at, p, n | Write(buf, at, enc).Ok? && Disjoint(at, |enc|, p, n) ::
      ReadLE(Write(buf, at, enc).value, p, n) == ReadLE(buf, p, n)
  {
    forall at, p, n | Write(buf, at, enc).Ok? && Disjoint(at, |enc|, p, n)
      ensures ReadLE(Write(buf, at, enc).value, p, n) == ReadLE(buf, p, n)
    {
      ReadAfterWrite(buf, at, enc, p, n);
    }
  }

  /** A present field's mutation is the write of its new bytes at the field. */
  lemma MutationWrites(buf: seq<Byte>, pos: int, vo: nat, w: nat, v: nat) returns (b: seq<Byte>)
    requires SlotMutation(buf, pos, vo, w, v).Ok?
    requires FieldOffset(buf, pos, vo).Ok? && FieldOffset(buf, pos, vo).value != 0
    ensures Write(buf, pos + FieldOffset(buf, pos, vo).value, LE(v, w)) == Ok(b)
    ensures SlotMutation(buf, pos, vo, w, v) == Ok((b, true))
  {
    b := Write(buf, pos + FieldOffset(buf, pos, vo).value, LE(v, w)).value;
  }

  /** Reading back the bytes just written gives their value. */
  lemma ReadWritten(buf: seq<Byte>, at: int, enc: seq<Byte>)
    requires Write(buf, at, enc).Ok?
    ensures ReadLE(Write(buf, at, enc).value, at, |enc|) == Ok(FromLE(enc))
  {
    var b := Write(buf, at, enc).value;
    assert b[at..at + |enc|] == enc;
  }

  /** Two buffers that agree on a table's first word and vtable words locate its fields alike. */
  lemma SameFieldOffset(buf: seq<Byte>, b: seq<Byte>, pos: int, vo: nat)
    requires ReadLE(b, pos, 4) == ReadLE(buf, pos, 4)
    requires VtableOf(buf, pos).Ok? ==>
      ReadLE(b, VtableOf(buf, pos).value, 2) == ReadLE(buf, VtableOf(buf, pos).value, 2) &&
      ReadLE(b, VtableOf(buf, pos).value + vo, 2) == ReadLE(buf, VtableOf(buf, pos).value + vo, 2)
    ensures FieldOffset(b, pos, vo) == FieldOffset(buf, pos, vo)
  {
  }

  /** A mutation of one field leaves every field read from elsewhere unchanged. */
  lemma MutateKeepsOthers(buf: seq<Byte>, pos: int, vo: nat, w: nat, v: nat, p: int, n: nat)
    requires SlotMutation(buf, pos, vo, w, v).Ok? && SlotMutation(buf, pos, vo, w, v).value.1
    requires Disjoint(pos + FieldOffset(buf, pos, vo).value, w, p, n)
    ensures ReadLE(SlotMutation(buf, pos, vo, w, v).value.0, p, n) == ReadLE(buf, p, n)
  {
    ReadAfterWrite(buf, pos + FieldOffset(buf, pos, vo).value, LE(v, w), p, n);
  }

  // ---------------------------------------------------------------------
  // Reverting a series of mutations
  // ---------------------------------------------------------------------

  /** One in-place write: a position and the bytes put there. */
  datatype Patch = Patch(at: int, enc: seq<Byte>)

  /** The patches, applied in order; the first that does not fit stops with an error. */
  function ApplyAll(buf: seq<Byte>, ps: seq<Patch>): (r: Result<seq<Byte>>)
    ensures r.Ok? ==> |r.value| == |buf|
    decreases |ps|
  {
    if ps == [] then Ok(buf)
    else
      var b :- Write(buf, ps[0].at, ps[0].enc);
      ApplyAll(b, ps[1..])
  }

  /** Every patch fits the buffer and no two overlap. */
  predicate Separate(ps: seq<Patch>, size: nat)
  {
    (forall i | 0 <= i < |ps| :: 0 <= ps[i].at && ps[i].at + |ps[i].enc| <= size) &&
    (forall i, j | 0 <= i < j < |ps| :: Disjoint(ps[i].at, |ps[i].enc|, ps[j].at, |ps[j].enc|))
  }

  /** The patches that put back what the buffer held where ps writes. */
  function Originals(buf: seq<Byte>, ps: seq<Patch>): (r: seq<Patch>)
    requires Separate(ps, |buf|)
    ensures |r| == |ps|
    ensures forall i | 0 <= i < |ps| :: r[i].at == ps[i].at && |r[i].enc| == |ps[i].enc|
  {
    seq(|ps|, i requires 0 <= i < |ps| => Patch(ps[i].at, buf[ps[i].at..ps[i].at + |ps[i].enc|]))
  }

  /** Byte k after separate patches: the patch covering k, or the old byte. */
  lemma {:induction false} ApplyAllAt(buf: seq<Byte>, ps: seq<Patch>, k: nat)
    requires Separate(ps, |buf|) && k < |buf|
    ensures ApplyAll(buf, ps).Ok?
    ensures forall i | 0 <= i < |ps| && ps[i].at <= k < ps[i].at + |ps[i].enc| ::
      ApplyAll(buf, ps).value[k] == ps[i].enc[k - ps[i].at]
    ensures (forall i | 0 <= i < |ps| :: !(ps[i].at <= k < ps[i].at + |ps[i].enc|)) ==>
      ApplyAll(buf, ps).value[k] == buf[k]
    decreases |ps|
  {
    if ps != [] {
      var b := Write(buf, ps[0].at, ps[0].enc).value;
      assert Separate(ps[1..], |b|) by {
        forall i, j | 0 <= i < j < |ps[1..]|
          ensures Disjoint(ps[1..][i].at, |ps[1..][i].enc|, ps[1..][j].at, |ps[1..][j].enc|)
        {
          assert ps[1..][i] == ps[i + 1] && ps[1..][j] == ps[j + 1];
        }
      }
      ApplyAllAt(b, ps[1..], k);
      forall i | 0 <= i < |ps| && ps[i].at <= k < ps[i].at + |ps[i].enc|
        ensures ApplyAll(buf, ps).value[k] == ps[i].enc[k - ps[i].at]
      {
        if i == 0 {
          forall j | 0 <= j < |ps[1..]|
            ensures !(ps[1..][j].at <= k < ps[1..][j].at + |ps[1..][j].enc|)
          {
            assert ps[1..][j] == ps[j + 1];
            assert Disjoint(ps[0].at, |ps[0].enc|, ps[j + 1].at, |ps[j + 1].enc|);
          }
        } else {
          assert ps[1..][i - 1] == ps[i];
        }
      }
      if forall i | 0 <= i < |ps| :: !(ps[i].at <= k < ps[i].at + |ps[i].enc|) {
        forall j | 0 <= j < |ps[1..]|
          ensures !(ps[1..][j].at <= k < ps[1..][j].at + |ps[1..][j].enc|)
        {
          assert ps[1..][j] == ps[j + 1];
        }
      }
    }
  }

  /**
   * Mutating separate fields and then mutating each back to its original
   * bytes restores the buffer exactly: mutation changes nothing else.
   */
  lemma RevertRestores(buf: seq<Byte>, ps: seq<Patch>)
    requires Separate(ps, |buf|)
    ensures ApplyAll(buf, ps).Ok?
    ensures ApplyAll(ApplyAll(buf, ps).value, Originals(buf, ps)) == Ok(buf)
  {
    var ks := Originals(buf, ps);
    var b := ApplyAllAt0(buf, ps);
    OriginalsSeparate(buf, ps, ks, b);
    var c := ApplyAllAt0(b, ks);
    forall k | 0 <= k < |buf|
      ensures c[k] == buf[k]
    {
      RevertByte(buf, ps, ks, b, k);
    }
    assert c == buf;
  }

  /** The undo patches are as separate as the patches they undo. */
  lemma OriginalsSeparate(buf: seq<Byte>, ps: seq<Patch>, ks: seq<Patch>, b: seq<Byte>)
    requires Separate(ps, |buf|) && ks == Originals(buf, ps) && |b| == |buf|
    ensures Separate(ks, |b|)
  {
    forall i, j | 0 <= i < j < |ks|
      ensures Disjoint(ks[i].at, |ks[i].enc|, ks[j].at, |ks[j].enc|)
    {
      assert Disjoint(ps[i].at, |ps[i].enc|, ps[j].at, |ps[j].enc|);
    }
  }

  /** Byte k after the patches ps and their undo patches ks is byte k of the original. */
  lemma RevertByte(buf: seq<Byte>, ps: seq<Patch>, ks: seq<Patch>, b: seq<Byte>, k: nat)
    requires Separate(ps, |buf|) && ks == Originals(buf, ps) && ApplyAll(buf, ps) == Ok(b)
    requires Separate(ks, |b|) && k < |buf|
    ensures ApplyAll(b, ks).Ok? && ApplyAll(b, ks).value[k] == buf[k]
  {
    ApplyAllAt(buf, ps, k);
    ApplyAllAt(b, ks, k);
    if i :| 0 <= i < |ps| && ps[i].at <= k < ps[i].at + |ps[i].enc| {
      OriginalByte(buf, ps, ks, i, k);
    }
  }

  /** The undo patch for a patch covering byte k puts back the original byte k. */
  lemma OriginalByte(buf: seq<Byte>, ps: seq<Patch>, ks: seq<Patch>, i: nat, k: nat)
    requires Separate(ps, |buf|) && ks == Originals(buf, ps)
    requires i < |ps| && ps[i].at <= k < ps[i].at + |ps[i].enc|
    ensures ks[i].at <= k < ks[i].at + |ks[i].enc| && ks[i].enc[k - ks[i].at] == buf[k]
  {
    assert ks[i] == Patch(ps[i].at, buf[ps[i].at..ps[i].at + |ps[i].enc|]);
  }

  /** ApplyAll succeeds on separate patches; its result, named. */
  function ApplyAllAt0(buf: seq<Byte>, ps: seq<Patch>): (b: seq<Byte>)
    requires Separate(ps, |buf|)
    ensures ApplyAll(buf, ps) == Ok(b) && |b| == |buf|
  {
    if |buf| == 0 then
      NoPatchesFitEmpty(buf, ps);
      ApplyAll(buf, ps).value
    else
      ApplyAllAt(buf, ps, 0);
      ApplyAll(buf, ps).value
  }

  /** Patches that fit an empty buffer write nothing and so always apply. */
  lemma {:induction false} NoPatchesFitEmpty(buf: seq<Byte>, ps: seq<Patch>)
    requires |buf| == 0 && Separate(ps, 0)
    ensures ApplyAll(buf, ps) == Ok(buf)
    decreases |ps|
  {
    if ps != [] {
      assert |ps[0].enc| == 0;
      assert Write(buf, ps[0].at, ps[0].enc) == Ok(buf);
      assert Separate(ps[1..], 0) by {
        forall i, j | 0 <= i < j < |ps[1..]|
          ensures Disjoint(ps[1..][i].at, |ps[1..][i].enc|, ps[1..][j].at, |ps[1..][j].enc|)
        {
          assert ps[1..][i] == ps[i + 1] && ps[1..][j] == ps[j + 1];
        }
      }
      NoPatchesFitEmpty(buf, ps[1..]);
    }
  }

  // ---------------------------------------------------------------------
  // The table view: a buffer and a position, mutated in place
  // ---------------------------------------------------------------------

  /** A table over a shared byte array; mutators write through to the array. */
  class TableView {
    const bytes: array<Byte>
    const pos: int

    constructor (bytes: array<Byte>, pos: int)
      ensures this.bytes == bytes && this.pos == pos
    {
      this.bytes := bytes;
      this.pos := pos;
    }

    /** Overwrites a present field in place; reports whether it was present. */
    method MutateSlot(vo: nat, w: nat, v: nat) returns (r: Result<bool>)
      modifies bytes
      ensures SlotMutation(old(bytes[..]), pos, vo, w, v).Err? ==> r.Err? && bytes[..] == old(bytes[..])
      ensures SlotMutation(old(bytes[..]), pos, vo, w, v).Ok? ==>
        r == Ok(SlotMutation(old(bytes[..]), pos, vo, w, v).value.1) &&
        bytes[..] == SlotMutation(old(bytes[..]), pos, vo, w, v).value.0
    {
      ghost var before := bytes[..];
      var off := FieldOffset(bytes[..], pos, vo);
      if off.Err? {
        return Err(off.error);
      }
      if off.value == 0 {
        return Ok(false);
      }
      var ok := WriteInPlace(pos + off.value, LE(v, w));
      if !ok {
        assert SlotMutation(before, pos, vo, w, v) == Err(OutOfBounds);
        return Err(OutOfBounds);
      }
      assert SlotMutation(before, pos, vo, w, v) == Ok((bytes[..], true));
      return Ok(true);
    }

    /** Mutate* on an absolute position (MutateUOffsetT and the like): a plain write. */
    method Mutate(at: int, w: nat, v: nat) returns (r: Result<bool>)
      modifies bytes
      ensures Write(old(bytes[..]), at, LE(v, w)).Err? ==> r.Err? && bytes[..] == old(bytes[..])
      ensures Write(old(bytes[..]), at, LE(v, w)).Ok? ==>
        r == Ok(true) && bytes[..] == Write(old(bytes[..]), at, LE(v, w)).value
    {
      var ok := WriteInPlace(at, LE(v, w));
      if !ok {
        return Err(OutOfBounds);
      }
      return Ok(true);
    }

    /** Copies enc into the array at `at`, one byte at a time. */
    method WriteInPlace(at: int, enc: seq<Byte>) returns (ok: bool)
      modifies bytes
      ensures ok == Write(old(bytes[..]), at, enc).Ok?
      ensures ok ==> bytes[..] == Write(old(bytes[..]), at, enc).value
      ensures !ok ==> bytes[..] == old(bytes[..])
    {
      if !(0 <= at && at + |enc| <= bytes.Length) {
        return false;
      }
      var i := 0;
      while i < |enc|
        invariant 0 <= i <= |enc|
        invariant forall k | 0 <= k < bytes.Length ::
          bytes[k] == if at <= k < at + i then enc[k - at] else old(bytes[k])
      {
        bytes[at + i] := enc[i];
        i := i + 1;
      }
      ghost var want := Write(old(bytes[..]), at, enc).value;
      assert forall k | 0 <= k < bytes.Length :: bytes[..][k] == want[k];
      return true;
    }
  }
}
