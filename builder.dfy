/**
 * The Builder as the runtime keeps it: one byte array filled from its end
 * toward its start, the head index of the first byte written, and the
 * bookkeeping fields. Every method is proved to move the builder exactly as
 * the value-level model (module BuilderModel) says; a method that the
 * runtime lets panic reports false instead.
 */
module Runtime {
  import opened Wire
  import M = BuilderModel

  /** Placing bytes one call after another is placing them together, the later ones first. */
  lemma PlaceTwice(s: M.State, a: seq<Byte>, b: seq<Byte>)
    requires |a| + |b| <= s.space
    ensures M.Place(M.Place(s, a), b) == M.Place(s, b + a)
  {
    assert b + (a + s.data) == (b + a) + s.data;
  }

  class Builder {
    var bytes: array<Byte>
    var head: nat
    var minalign: nat
    var vtable: seq<nat>
    var objectEnd: nat
    var vtables: seq<nat>
    var nested: bool
    var finished: bool
    var sharedStrings: map<seq<Byte>, nat>

    /** The head lies within the array, and the largest alignment used is at least 1. */
    ghost predicate Valid()
      reads this
    {
      head <= bytes.Length && minalign >= 1
    }

    /** The builder's state: the bytes from the head on, the room in front of them and the fields. */
    function Model(): (s: M.State)
      reads this, bytes
      requires Valid()
      ensures M.Capacity(s) == bytes.Length && M.Offset(s) == bytes.Length - head && s.space == head
    {
      M.State(bytes[head..], head, minalign, vtable, objectEnd, vtables, nested, finished, sharedStrings)
    }

    /** Offset: the number of bytes written so far. */
    function Offset(): nat
      reads this
      requires Valid()
    {
      bytes.Length - head
    }

    /** NewBuilder: an empty builder over an array of initialSize bytes. */
    constructor (initialSize: int)
      ensures Valid() && Model() == M.NewBuilder(initialSize) && fresh(bytes)
    {
      var n := if initialSize <= 0 then 0 else initialSize;
      bytes := new Byte[n](_ => 0);
      head := n;
      minalign := 1;
      vtable := [];
      objectEnd := 0;
      vtables := [];
      nested := false;
      finished := false;
      sharedStrings := map[];
    }

    /** Reset: keeps the array, forgets what was written, both caches and both flags. */
    method Reset()
      requires Valid()
      modifies this
      ensures Valid() && bytes == old(bytes) && Model() == M.Reset(old(Model()))
    {
      head := bytes.Length;
      minalign := 1;
      vtable := [];
      vtables := [];
      nested := false;
      finished := false;
      sharedStrings := map[];
    }

    /**
     * growByteBuffer: a new array of twice the length (1 for an empty one),
     * the old contents copied to its upper end, the head moved with them.
     */
    method GrowByteBuffer()
      requires Valid()
      modifies this
      ensures Valid() && fresh(bytes) && Model() == M.Grow(old(Model()))
    {
      var oldLen := bytes.Length;
      var newLen := M.GrownLen(oldLen);
      var grown := new Byte[newLen](_ => 0);
      var middle := newLen - oldLen;
      var i := 0;
      while i < oldLen
        invariant 0 <= i <= oldLen && unchanged(this)
        invariant grown.Length == middle + oldLen
        invariant forall k | 0 <= k < i :: grown[middle + k] == bytes[k]
      {
        grown[middle + i] := bytes[i];
        i := i + 1;
      }
      ghost var data := bytes[head..];
      ghost var h := head;
      bytes := grown;
      head := head + middle;
      assert bytes[head..] == data by {
        forall k | 0 <= k < |data|
          ensures bytes[head + k] == data[k]
        {
          assert grown[middle + (h + k)] == old(bytes)[h + k];
        }
      }
    }

    /** PlaceByte: writes x in front of the head, without checking for room. */
    method PlaceByte(x: Byte)
      requires Valid() && head > 0
      modifies this, bytes
      ensures Valid() && bytes == old(bytes) && Model() == M.Place(old(Model()), [x])
    {
      ghost var before := bytes[..];
      head := head - 1;
      bytes[head] := x;
      assert bytes[head..] == [x] + before[head + 1..];
    }

    /** The Place* family: writes enc in front of the head, byte by byte from its end. */
    method PlaceBytes(enc: seq<Byte>)
      requires Valid() && |enc| <= head
      modifies this, bytes
      ensures Valid() && bytes == old(bytes) && Model() == M.Place(old(Model()), enc)
    {
      var i := |enc|;
      while i > 0
        invariant 0 <= i <= |enc| && Valid() && bytes == old(bytes)
        invariant head + |enc| - i == old(head)
        invariant Model() == M.Place(old(Model()), enc[i..])
      {
        ghost var s := Model();
        PlaceByte(enc[i - 1]);
        PlaceTwice(old(Model()), enc[i..], [enc[i - 1]]);
        assert [enc[i - 1]] + enc[i..] == enc[i - 1..];
        i := i - 1;
      }
    }

    /** Pad: n zero bytes in front of the head, one PlaceByte at a time; false where the runtime panics, below the start. */
    method Pad(n: nat) returns (ok: bool)
      requires Valid()
      modifies this, bytes
      ensures Valid() && bytes == old(bytes)
      ensures ok == M.Pad(old(Model()), n).Ok?
      ensures ok ==> Model() == M.Pad(old(Model()), n).value
      ensures ok ==> Model() == M.Place(old(Model()), Zeros(n))
      ensures !ok ==> Model() == old(Model())
    {
      if n > head {
        return false;
      }
      var i := 0;
      while i < n
        invariant 0 <= i <= n && Valid() && bytes == old(bytes)
        invariant head + i == old(head)
        invariant Model() == M.Place(old(Model()), Zeros(i))
      {
        PlaceByte(0);
        PlaceTwice(old(Model()), Zeros(i), [0]);
        assert [0] + Zeros(i) == Zeros(i + 1);
        i := i + 1;
      }
      ok := true;
    }

    /**
     * Prep: records the alignment, grows the array until the padding, one
     * element of `size` and `additional` bytes fit in front of the head, then
     * pads.
     */
    method Prep(size: nat, additional: nat)
      requires Valid()
      modifies this, bytes
      ensures Valid() && (bytes == old(bytes) || fresh(bytes))
      ensures Model() == M.Prep(old(Model()), size, additional)
    {
      ghost var s := Model();
      RecordAlignment(size);
      ghost var s1 := Model();
      var alignSize := PadLen(Offset() + additional, size);
      Reserve(alignSize + size + additional);
      ghost var s2 := Model();
      var ok := Pad(alignSize);
      M.PrepSteps(s, size, additional, s1, alignSize, s2);
    }

    /** Records size as an alignment in use: minalign becomes the larger of the two. */
    method RecordAlignment(size: nat)
      requires Valid()
      modifies this
      ensures Valid() && bytes == old(bytes)
      ensures Model() == old(Model()).(minAlign := if size > old(minalign) then size else old(minalign))
    {
      if size > minalign {
        minalign := size;
      }
    }

    /** Prep's growth loop: doubles the array until more than `need` bytes are free in front of the head. */
    method Reserve(need: nat)
      requires Valid()
      modifies this
      ensures Valid() && (bytes == old(bytes) || fresh(bytes))
      ensures Model() == M.Reserve(old(Model()), need)
    {
      while head <= need
        invariant Valid() && (bytes == old(bytes) || fresh(bytes))
        invariant M.Reserve(Model(), need) == M.Reserve(old(Model()), need)
        decreases need + 1 - head
      {
        GrowByteBuffer();
      }
    }

    /** Prepend*: aligns for a w-byte scalar, then writes its little-endian bytes. */
    method PrependScalar(w: nat, v: nat)
      requires Valid()
      modifies this, bytes
      ensures Valid() && (bytes == old(bytes) || fresh(bytes))
      ensures Model() == M.PrependScalar(old(Model()), w, v)
    {
      Prep(w, 0);
      PlaceBytes(LE(v, w));
    }

    /** PrependUOffsetT: false where the runtime panics, for a target not yet written. */
    method PrependUOffsetT(off: nat) returns (ok: bool)
      requires Valid()
      modifies this, bytes
      ensures Valid() && (bytes == old(bytes) || fresh(bytes))
      ensures ok == M.PrependUOffsetT(old(Model()), off).Ok?
      ensures ok ==> Model() == M.PrependUOffsetT(old(Model()), off).value
    {
      Prep(M.SizeUOffsetT, 0);
      if off > Offset() {
        return false;
      }
      PlaceBytes(LE(Offset() - off + M.SizeUOffsetT, 4));
      ok := true;
    }

    /** PrependSOffsetT: as PrependUOffsetT, for a signed 32-bit offset. */
    method PrependSOffsetT(off: int) returns (ok: bool)
      requires Valid()
      modifies this, bytes
      ensures Valid() && (bytes == old(bytes) || fresh(bytes))
      ensures ok == M.PrependSOffsetT(old(Model()), off).Ok?
      ensures ok ==> Model() == M.PrependSOffsetT(old(Model()), off).value
    {
      Prep(M.SizeSOffsetT, 0);
      if Unsigned(off, 4) > Offset() {
        return false;
      }
      PlaceBytes(LE(Unsigned(Offset() - off + M.SizeSOffsetT, 4), 4));
      ok := true;
    }

    /** PlaceScalar: the raw write of a w-byte scalar, refused when it does not fit in front of the head. */
    method PlaceScalar(w: nat, v: nat) returns (ok: bool)
      requires Valid()
      modifies this, bytes
      ensures Valid() && bytes == old(bytes)
      ensures ok == M.PlaceScalar(old(Model()), w, v).Ok?
      ensures ok ==> Model() == M.PlaceScalar(old(Model()), w, v).value
    {
      if w > head {
        return false;
      }
      PlaceBytes(LE(v, w));
      ok := true;
    }

    /** StartObject: opens an object of n absent slots where it is now. */
    method StartObject(n: nat) returns (ok: bool)
      requires Valid()
      modifies this
      ensures Valid() && bytes == old(bytes)
      ensures ok == M.StartObject(old(Model()), n).Ok?
      ensures ok ==> Model() == M.StartObject(old(Model()), n).value
    {
      if nested {
        return false;
      }
      nested := true;
      var slots := [];
      while |slots| < n
        invariant |slots| <= n && forall i | 0 <= i < |slots| :: slots[i] == 0
      {
        slots := slots + [0];
      }
      vtable := slots;
      objectEnd := Offset();
      ok := true;
    }

    /** Slot: records the current offset for slot o of the open object. */
    method Slot(o: nat) returns (ok: bool)
      requires Valid()
      modifies this
      ensures Valid() && bytes == old(bytes)
      ensures ok == M.Slot(old(Model()), o).Ok?
      ensures ok ==> Model() == M.Slot(old(Model()), o).value
    {
      if o >= |vtable| {
        return false;
      }
      vtable := vtable[o := Offset()];
      ok := true;
    }

    /** Prepend*Slot: skips a value equal to its default, otherwise prepends it and records slot o. */
    method PrependSlot(o: nat, w: nat, x: nat, d: nat) returns (ok: bool)
      requires Valid()
      modifies this, bytes
      ensures Valid() && (bytes == old(bytes) || fresh(bytes))
      ensures ok == M.PrependSlot(old(Model()), o, w, x, d).Ok?
      ensures ok ==> Model() == M.PrependSlot(old(Model()), o, w, x, d).value
    {
      if x == d {
        return true;
      }
      PrependScalar(w, x);
      ok := Slot(o);
    }

    /** PrependUOffsetTSlot: as PrependSlot, for an offset to something already written. */
    method PrependUOffsetTSlot(o: nat, x: nat, d: nat) returns (ok: bool)
      requires Valid()
      modifies this, bytes
      ensures Valid() && (bytes == old(bytes) || fresh(bytes))
      ensures ok == M.PrependUOffsetTSlot(old(Model()), o, x, d).Ok?
      ensures ok ==> Model() == M.PrependUOffsetTSlot(old(Model()), o, x, d).value
    {
      if x == d {
        return true;
      }
      ok := PrependUOffsetT(x);
      if !ok {
        return;
      }
      ok := Slot(o);
    }

    /** PrependStructSlot: a struct is written inline, just before its slot is recorded. */
    method PrependStructSlot(o: nat, x: nat, d: nat) returns (ok: bool)
      requires Valid()
      modifies this
      ensures Valid() && bytes == old(bytes)
      ensures ok == M.PrependStructSlot(old(Model()), o, x, d).Ok?
      ensures ok ==> Model() == M.PrependStructSlot(old(Model()), o, x, d).value
    {
      if x == d {
        return true;
      }
      if !nested || x != Offset() {
        return false;
      }
      ok := Slot(o);
    }

    /** WriteAt: overwrites the written bytes from index `at` after the head on, in place. */
    method WriteAt(at: nat, enc: seq<Byte>)
      requires Valid() && at + |enc| <= Offset()
      modifies bytes
      ensures Valid() && Model() == M.WriteAt(old(Model()), at, enc)
    {
      ghost var s := Model();
      var start := head + at;
      var k := 0;
      while k < |enc|
        invariant 0 <= k <= |enc|
        invariant forall j | 0 <= j < k :: bytes[start + j] == enc[j]
        invariant forall j | 0 <= j < bytes.Length && !(start <= j < start + k) :: bytes[j] == old(bytes[j])
      {
        bytes[start + k] := enc[k];
        k := k + 1;
      }
      ghost var target := s.data[..at] + enc + s.data[at + |enc|..];
      assert bytes[head..] == target by {
        forall j | 0 <= j < |target|
          ensures bytes[head..][j] == target[j]
        {
          if at <= j < at + |enc| {
            assert bytes[start + (j - at)] == enc[j - at];
          }
        }
      }
    }

    /** The open object's slot count once the trailing absent slots are dropped. */
    method TrimmedLength() returns (n: nat)
      requires Valid()
      ensures n <= |vtable| && vtable[..n] == M.Trim(vtable)
    {
      n := |vtable|;
      assert vtable[..n] == vtable;
      while n > 0 && vtable[n - 1] == 0
        invariant 0 <= n <= |vtable| && M.Trim(vtable) == M.Trim(vtable[..n])
      {
        assert vtable[..n - 1] == vtable[..n][..n - 1];
        n := n - 1;
      }
    }

    /** Whether the bytes at distance v from the end of the array are exactly cand. */
    predicate MatchesAt(v: nat, cand: seq<Byte>)
      reads this, bytes
      requires Valid()
      ensures MatchesAt(v, cand) <==> M.VtableAt(bytes[head..], v, cand)
    {
      |cand| <= v <= Offset() && bytes[bytes.Length - v..bytes.Length - v + |cand|] == cand
    }

    /** The most recently cached vtable whose bytes equal cand, searched from the newest; 0 for none. */
    method FindVtable(cand: seq<Byte>) returns (existing: nat)
      requires Valid()
      ensures existing == M.FindVtable(bytes[head..], vtables, cand)
    {
      ghost var data := bytes[head..];
      var i := |vtables|;
      while i > 0
        invariant 0 <= i <= |vtables|
        invariant forall k | i <= k < |vtables| :: !M.VtableAt(data, vtables[k], cand)
      {
        i := i - 1;
        if MatchesAt(vtables[i], cand) {
          M.FindVtableNewest(data, vtables, i, cand);
          return vtables[i];
        }
      }
      M.FindVtableNone(data, vtables, cand);
      existing := 0;
    }

    /** Prepends 16-bit words, the last first, so that they read in order. */
    method PrependWords(ws: seq<nat>)
      requires Valid()
      modifies this, bytes
      ensures Valid() && (bytes == old(bytes) || fresh(bytes))
      ensures Model() == M.PrependWords(old(Model()), ws)
    {
      var j := |ws|;
      assert ws[..j] == ws;
      while j > 0
        invariant 0 <= j <= |ws| && Valid() && (bytes == old(bytes) || fresh(bytes))
        invariant M.PrependWords(Model(), ws[..j]) == M.PrependWords(old(Model()), ws)
      {
        PrependWordAt(ws, j);
        j := j - 1;
      }
    }

    /** One step of PrependWords: word j - 1 goes in front. */
    method PrependWordAt(ws: seq<nat>, j: nat)
      requires Valid() && 0 < j <= |ws|
      modifies this, bytes
      ensures Valid() && (bytes == old(bytes) || fresh(bytes))
      ensures M.PrependWords(Model(), ws[..j - 1]) == M.PrependWords(old(Model()), ws[..j])
    {
      M.PrependWordsStep(Model(), ws, j);
      PrependScalar(M.SizeVOffsetT, ws[j - 1]);
    }

    /**
     * WriteVtable: writes the object's placeholder word, then shares an
     * identical cached vtable or writes a new one in front of the object.
     * Returns the object's offset.
     */
    method WriteVtable() returns (off: nat)
      requires Valid()
      modifies this, bytes
      ensures Valid() && (bytes == old(bytes) || fresh(bytes))
      ensures (Model(), off) == M.WriteVtable(old(Model()))
    {
      ghost var s := Model();
      var placed := PrependSOffsetT(0);
      assert Unsigned(0, 4) == 0;
      assert Model() == M.Opened(s);
      off := Offset();
      var n := TrimmedLength();
      var ws := M.VtableWords(vtable[..n], off, objectEnd);
      var existing := FindVtable(M.Words(ws));
      if existing == 0 {
        WriteNew(s, ws);
      } else {
        ShareVtable(s, existing);
      }
    }

    /** A miss: the vtable ws goes in front of the object and into the cache. */
    method WriteNew(ghost s: M.State, ws: seq<nat>)
      requires Valid() && Model() == M.Opened(s)
      requires ws == M.VtableWords(M.Trim(s.vtable), M.Offset(M.Opened(s)), s.objectEnd)
      modifies this, bytes
      ensures Valid() && (bytes == old(bytes) || fresh(bytes))
      ensures Model() == M.WriteNewVtable(s)
    {
      ghost var p := Model();
      var objectOffset := Offset();
      PrependWords(ws);
      ghost var q := Model();
      M.NewVtableBytes(s, p, q);
      var at := Offset() - objectOffset;
      WriteAt(at, LE(Unsigned(at, 4), 4));
      ghost var t := Model();
      M.WriteNewVtableSteps(s, p, q, at, t);
      CacheVtable();
    }

    /** Records the vtable just written, at the current offset, and forgets the slots. */
    method CacheVtable()
      requires Valid()
      modifies this
      ensures Valid() && bytes == old(bytes)
      ensures Model() == old(Model()).(vtables := old(Model()).vtables + [M.Offset(old(Model()))], vtable := [])
    {
      vtables := vtables + [Offset()];
      vtable := [];
    }

    /** A hit: the object's placeholder word points back at the cached vtable at `existing`. */
    method ShareVtable(ghost s: M.State, existing: nat)
      requires Valid() && Model() == M.Opened(s)
      modifies this, bytes
      ensures Valid() && bytes == old(bytes)
      ensures Model() == M.ShareVtable(s, existing)
    {
      var objectOffset := Offset();
      WriteAt(0, LE(Unsigned(existing - objectOffset, 4), 4));
      vtable := [];
    }

    /** EndObject: closes the open object, writing or sharing its vtable; refused outside an object. */
    method EndObject() returns (ok: bool, off: nat)
      requires Valid()
      modifies this, bytes
      ensures Valid() && (bytes == old(bytes) || fresh(bytes))
      ensures ok == M.EndObject(old(Model())).Ok?
      ensures ok ==> (Model(), off) == M.EndObject(old(Model())).value
    {
      if !nested {
        return false, 0;
      }
      off := WriteVtable();
      SetNested(false);
      ok := true;
    }

    /** Sets the nesting flag, which the vector and object methods check. */
    method SetNested(flag: bool)
      requires Valid()
      modifies this
      ensures Valid() && bytes == old(bytes) && Model() == old(Model()).(nested := flag)
    {
      nested := flag;
    }
      /** StartVector: opens a vector of n elements of elemSize bytes, padded and with room reserved. */
    method StartVector(elemSize: nat, n: nat, alignment: nat) returns (ok: bool, off: nat)
      requires Valid()
      modifies this, bytes
      ensures Valid() && (bytes == old(bytes) || fresh(bytes))
      ensures ok == M.StartVector(old(Model()), elemSize, n, alignment).Ok?
      ensures ok ==> (Model(), off) == M.StartVector(old(Model()), elemSize, n, alignment).value
    {
      if nested {
        return false, 0;
      }
      SetNested(true);
      Prep(M.SizeUOffsetT, elemSize * n);
      Prep(alignment, elemSize * n);
      return true, Offset();
    }

    /** EndVector: writes the element count into the room StartVector reserved and closes the vector. */
    method EndVector(n: nat) returns (ok: bool, off: nat)
      requires Valid()
      modifies this, bytes
      ensures Valid() && bytes == old(bytes)
      ensures ok == M.EndVector(old(Model()), n).Ok?
      ensures ok ==> (Model(), off) == M.EndVector(old(Model()), n).value
    {
      if !nested || head < M.SizeUOffsetT {
        return false, 0;
      }
      PlaceBytes(LE(n, M.SizeUOffsetT));
      SetNested(false);
      return true, Offset();
    }

    /**
     * CreateString (and CreateByteString, which is the same on bytes): the
     * NUL, the bytes in front of it, then the length word.
     */
    method CreateString(str: seq<Byte>) returns (ok: bool, off: nat)
      requires Valid()
      modifies this, bytes
      ensures Valid() && (bytes == old(bytes) || fresh(bytes))
      ensures ok == M.CreateString(old(Model()), str).Ok?
      ensures ok ==> (Model(), off) == M.CreateString(old(Model()), str).value
    {
      if nested {
        return false, 0;
      }
      ghost var s := Model();
      SetNested(true);
      Prep(M.SizeUOffsetT, |str| + 1);
      ghost var p := Model();
      PlaceByte(0);
      PlaceBytes(str);
      PlaceTwice(p, [0], str);
      ok, off := EndVector(|str|);
      M.WriteVectorSteps(s, str + [0], |str|, p);
    }

    /** CreateByteVector: as CreateString, without the NUL. */
    method CreateByteVector(v: seq<Byte>) returns (ok: bool, off: nat)
      requires Valid()
      modifies this, bytes
      ensures Valid() && (bytes == old(bytes) || fresh(bytes))
      ensures ok == M.CreateByteVector(old(Model()), v).Ok?
      ensures ok ==> (Model(), off) == M.CreateByteVector(old(Model()), v).value
    {
      if nested {
        return false, 0;
      }
      ghost var s := Model();
      SetNested(true);
      Prep(M.SizeUOffsetT, |v|);
      ghost var p := Model();
      PlaceBytes(v);
      ok, off := EndVector(|v|);
      M.WriteVectorSteps(s, v, |v|, p);
    }

    /** CreateSharedString: a cached string's offset, or the string written and cached. */
    method CreateSharedString(str: seq<Byte>) returns (ok: bool, off: nat)
      requires Valid()
      modifies this, bytes
      ensures Valid() && (bytes == old(bytes) || fresh(bytes))
      ensures ok == M.CreateSharedString(old(Model()), str).Ok?
      ensures ok ==> (Model(), off) == M.CreateSharedString(old(Model()), str).value
    {
      if str in sharedStrings {
        return true, sharedStrings[str];
      }
      ok, off := CreateString(str);
      if ok {
        RecordShared(str, off);
      }
    }

    /** Caches the offset of a string just written. */
    method RecordShared(str: seq<Byte>, off: nat)
      requires Valid()
      modifies this
      ensures Valid() && bytes == old(bytes)
      ensures Model() == old(Model()).(shared := old(Model()).shared[str := off])
    {
      sharedStrings := sharedStrings[str := off];
    }

    /** Finish / FinishSizePrefixed: aligns, writes the root offset and, when asked, the size. */
    method Finish(root: nat, sizePrefix: bool) returns (ok: bool)
      requires Valid()
      modifies this, bytes
      ensures Valid() && (bytes == old(bytes) || fresh(bytes))
      ensures ok == M.Finish(old(Model()), root, sizePrefix).Ok?
      ensures ok ==> Model() == M.Finish(old(Model()), root, sizePrefix).value
    {
      if nested {
        return false;
      }
      ghost var s := Model();
      var prepSize := M.SizeUOffsetT + if sizePrefix then 4 else 0;
      Prep(minalign, prepSize);
      ghost var p := Model();
      ok := PrependUOffsetT(root);
      if !ok {
        return;
      }
      M.FinishSteps(s, root, sizePrefix, p, Model());
      ok := Seal(sizePrefix);
    }

    /** Finish's last steps: the size word when asked for, then the buffer is marked finished. */
    method Seal(sizePrefix: bool) returns (ok: bool)
      requires Valid()
      modifies this, bytes
      ensures Valid() && bytes == old(bytes)
      ensures ok <==> !sizePrefix || old(head) >= 4
      ensures ok && !sizePrefix ==> Model() == old(Model()).(finished := true)
      ensures ok && sizePrefix ==> Model() == M.Place(old(Model()), LE(M.Offset(old(Model())), 4)).(finished := true)
    {
      if sizePrefix {
        if head < 4 {
          return false;
        }
        PlaceBytes(LE(Offset(), 4));
      }
      finished := true;
      ok := true;
    }

    /** FinishedBytes: the bytes from the head on, refused before Finish. */
    method FinishedBytes() returns (ok: bool, r: seq<Byte>)
      requires Valid()
      ensures ok == M.FinishedBytes(Model()).Ok?
      ensures ok ==> r == M.FinishedBytes(Model()).value
    {
      if !finished {
        return false, [];
      }
      return true, bytes[head..];
    }
  }
}
