/**
 * What the builder writes, the reader finds: a field recorded in an open
 * object reads back through the vtable that EndObject writes or shares, an
 * absent field reads as its default, and bytes added in front later do not
 * disturb either.
 */
module ReadBack {
  import opened Wire
  import opened BuilderModel
  import opened Table

  /** calcVOffsetT: the vtable byte that holds slot j, after the two metadata words. */
  function CalcVOffsetT(slot: nat): (r: nat)
    ensures r % SizeVOffsetT == 0 && r >= VtableMetadataFields * SizeVOffsetT
    ensures (r - VtableMetadataFields * SizeVOffsetT) / SizeVOffsetT == slot
  {
    (VtableMetadataFields + slot) * SizeVOffsetT
  }

  /** Distinct slots have distinct vtable bytes. */
  lemma CalcVOffsetTInjective(i: nat, j: nat)
    ensures CalcVOffsetT(i) == CalcVOffsetT(j) <==> i == j
  {
  }

  // ---------------------------------------------------------------------
  // Reads are relative: bytes put in front move nothing
  // ---------------------------------------------------------------------

  lemma ReadLEPrefix(pre: seq<Byte>, buf: seq<Byte>, at: int, w: nat)
    requires ReadLE(buf, at, w).Ok?
    ensures ReadLE(pre + buf, |pre| + at, w) == ReadLE(buf, at, w)
  {
    assert (pre + buf)[|pre| + at..|pre| + at + w] == buf[at..at + w];
  }

  lemma FieldOffsetPrefix(pre: seq<Byte>, buf: seq<Byte>, pos: int, vo: nat)
    requires FieldOffset(buf, pos, vo).Ok?
    ensures FieldOffset(pre + buf, |pre| + pos, vo) == FieldOffset(buf, pos, vo)
  {
    ReadLEPrefix(pre, buf, pos, 4);
    var vt := VtableOf(buf, pos).value;
    assert VtableOf(pre + buf, |pre| + pos) == Ok(|pre| + vt);
    ReadLEPrefix(pre, buf, vt, 2);
    if vo < ReadLE(buf, vt, 2).value {
      ReadLEPrefix(pre, buf, vt + vo, 2);
    }
  }

  /**
   * A field that reads successfully from a table reads the same once more
   * bytes are written in front of the buffer (the table's position moves by
   * as many bytes).
   */
  lemma GetSlotPrefix(pre: seq<Byte>, buf: seq<Byte>, pos: int, vo: nat, w: nat, d: nat)
    requires GetSlot(buf, pos, vo, w, d).Ok?
    ensures GetSlot(pre + buf, |pre| + pos, vo, w, d) == GetSlot(buf, pos, vo, w, d)
  {
    FieldOffsetPrefix(pre, buf, pos, vo);
    var off := FieldOffset(buf, pos, vo).value;
    if off != 0 {
      ReadLEPrefix(pre, buf, pos + off, w);
    }
  }

  // ---------------------------------------------------------------------
  // Reading a vtable
  // ---------------------------------------------------------------------

  lemma SmallMod(x: nat, m: nat)
    requires x < m
    ensures x % m == x
  {
    DivModUnique(x, m, 0, x);
  }

  /** Word i of the words stored at vt reads back as that word, reduced to 16 bits. */
  lemma ReadWord(buf: seq<Byte>, vt: nat, ws: seq<nat>, i: nat)
    requires vt + 2 * |ws| <= |buf| && buf[vt..vt + 2 * |ws|] == Words(ws) && i < |ws|
    ensures ReadLE(buf, vt + 2 * i, 2) == Ok(ws[i] % 0x1_0000)
  {
    WordBytes(ws, i);
    var v := buf[vt..vt + 2 * |ws|];
    assert v[2 * i] == buf[vt + 2 * i];
    assert v[2 * i + 1] == buf[vt + 2 * i + 1];
    assert buf[vt + 2 * i] as int == ws[i] % 256 && buf[vt + 2 * i + 1] as int == (ws[i] / 256) % 256;
    ReadTwo(buf, vt, i);
    LowWord(ws[i]);
  }

  /** The low 16 bits of x are its low byte and 256 times its second byte. */
  lemma LowWord(x: nat)
    ensures x % 0x1_0000 == x % 256 + 256 * ((x / 256) % 256)
  {
    DivModCombine(x, 256);
  }
  /** The two bytes of word i: its low byte, then its high byte. */
  lemma WordBytes(ws: seq<nat>, i: nat)
    requires i < |ws|
    ensures 2 * i + 1 < |Words(ws)|
    ensures Words(ws)[2 * i] == ws[i] % 256 && Words(ws)[2 * i + 1] == (ws[i] / 256) % 256
  {
    WordsAt(ws, i);
    var e := Words(ws)[2 * i..2 * i + 2];
    assert e[0] == Words(ws)[2 * i] && e[1] == Words(ws)[2 * i + 1];
    assert LE(ws[i], 2) == [ws[i] % 256] + LE(ws[i] / 256, 1);
    assert LE(ws[i] / 256, 1) == [(ws[i] / 256) % 256] + LE(ws[i] / 256 / 256, 0);
  }
  /** A 16-bit read of word i after vt is the low byte plus 256 times the high byte. */
  lemma ReadTwo(buf: seq<Byte>, vt: nat, i: nat)
    requires vt + 2 * i + 2 <= |buf|
    ensures ReadLE(buf, vt + 2 * i, 2) == Ok(buf[vt + 2 * i] as int + 256 * buf[vt + 2 * i + 1] as int)
  {
    var e := buf[vt + 2 * i..vt + 2 * i + 2];
    assert e[1..][1..] == [];
    assert FromLE(e[1..]) == buf[vt + 2 * i + 1];
  }

  /**
   * Table.Offset as read from the vtable bytes c alone: the entry at byte vo,
   * or 0 when vo lies beyond the size the vtable's first word gives.
   */
  function VtableField(c: seq<Byte>, vo: nat): Result<nat>
  {
    var size :- ReadLE(c, 0, 2);
    if vo < size then ReadLE(c, vo, 2) else Ok(0)
  }

  /** A read inside a stored copy of c reads c. */
  lemma ReadLEWithin(buf: seq<Byte>, lo: nat, c: seq<Byte>, k: nat, w: nat)
    requires lo + |c| <= |buf| && buf[lo..lo + |c|] == c && k + w <= |c|
    ensures ReadLE(buf, lo + k, w) == ReadLE(c, k, w)
  {
    SubSlice(buf, lo, lo + |c|, k, k + w);
  }

  lemma SubSlice(a: seq<Byte>, lo: nat, hi: nat, i: nat, j: nat)
    requires lo <= hi <= |a| && i <= j <= hi - lo
    ensures a[lo..hi][i..j] == a[lo + i..lo + j]
  {
    forall k | 0 <= k < j - i
      ensures a[lo..hi][i..j][k] == a[lo + i..lo + j][k]
    {
      assert a[lo..hi][i..j][k] == a[lo..hi][i + k] == a[lo + i + k];
    }
  }

  /** The bytes of buf from index vt on start with c. */
  predicate LeadsTo(buf: seq<Byte>, vt: int, c: seq<Byte>)
  {
    0 <= vt && vt + |c| <= |buf| && buf[vt..vt + |c|] == c
  }

  /** A table whose first word leads to a copy of the vtable c locates its fields as c says. */
  lemma TableField(buf: seq<Byte>, pos: int, c: seq<Byte>, vo: nat)
    requires VtableOf(buf, pos).Ok? && LeadsTo(buf, VtableOf(buf, pos).value, c)
    requires VtableField(c, vo).Ok?
    ensures FieldOffset(buf, pos, vo) == VtableField(c, vo)
  {
    var vt := VtableOf(buf, pos).value;
    ReadLEWithin(buf, vt, c, 0, 2);
    if vo < ReadLE(c, 0, 2).value {
      ReadLEWithin(buf, vt, c, vo, 2);
    }
  }

  /**
   * The vtable of the trimmed slots ts: slot j is found at its entry when j
   * is within the vtable and is absent otherwise.
   */
  lemma VtableFieldOfWords(ts: seq<nat>, oo: nat, objectEnd: nat, c: seq<Byte>, j: nat)
    requires c == Words(VtableWords(ts, oo, objectEnd))
    requires (|ts| + VtableMetadataFields) * SizeVOffsetT < 0x1_0000 && InReach(ts, oo)
    ensures VtableField(c, CalcVOffsetT(j)) == Ok(if j < |ts| && ts[j] != 0 then oo - ts[j] else 0)
  {
    var ws := VtableWords(ts, oo, objectEnd);
    var vsize := (|ts| + VtableMetadataFields) * SizeVOffsetT;
    assert c[0..0 + 2 * |ws|] == Words(ws);
    ReadWord(c, 0, ws, 0);
    SmallMod(vsize, 0x1_0000);
    assert ReadLE(c, 0, 2) == Ok(vsize);
    if j < |ts| {
      ReadWord(c, 0, ws, VtableMetadataFields + j);
      assert CalcVOffsetT(j) == 2 * (VtableMetadataFields + j);
      if ts[j] != 0 {
        assert Entry(ts[j], oo) == oo - ts[j];
        SmallMod(oo - ts[j], 0x1_0000);
      }
    }
  }

  // ---------------------------------------------------------------------
  // EndObject, read back
  // ---------------------------------------------------------------------

  /**
   * The builder's bookkeeping: the open object starts within the data, its
   * recorded slots lie inside it, and the cached vtables are already written.
   */
  predicate Wf(s: State)
  {
    s.objectEnd <= Offset(s) &&
    (forall i | 0 <= i < |s.vtable| :: s.vtable[i] == 0 || s.objectEnd <= s.vtable[i] <= Offset(s)) &&
    (forall v | v in s.vtables :: v <= Offset(s))
  }
  /**
   * The sizes the format can express: the open object (with its leading
   * word) fits 16-bit vtable entries, its vtable has fewer than 2^15 words,
   * and the buffer stays under 2 GB, the runtime's limit, so every signed
   * 32-bit vtable distance is exact.
   */
  predicate Fits(s: State)
  {
    Offset(s) + 8 <= s.objectEnd + 0x1_0000 &&
    Offset(s) + 8 <= 0x8000_0000 &&
    (|s.vtable| + VtableMetadataFields) * SizeVOffsetT < 0x1_0000
  }
  /**
   * What slot j of the open object should read as: the default d when the
   * slot was never set or lies beyond the object's slots, otherwise the w
   * bytes recorded at the slot's offset.
   */
  function Recorded(s: State, j: nat, w: nat, d: nat): Result<nat>
  {
    if j >= |s.vtable| || s.vtable[j] == 0 then Ok(d)
    else ReadLE(Data(s), Offset(s) - s.vtable[j], w)
  }
  /** A set slot is at least as far from the end as the width read from it. */
  predicate Readable(s: State, j: nat, w: nat)
  {
    j < |s.vtable| && s.vtable[j] != 0 ==> w <= s.vtable[j]
  }
  /** The object's leading word starts 4 to 7 bytes before the data written so far. */
  lemma OpenedOffset(s: State)
    ensures Offset(s) + 4 <= Offset(Opened(s)) <= Offset(s) + 7
  {
    assert |Data(Opened(s))| == 4 + PadLen(Offset(s), SizeSOffsetT) + |Data(s)|;
  }
  /** Every set slot of the open object lies less than 2^16 bytes behind its leading word. */
  predicate InReach(ts: seq<nat>, oo: nat)
  {
    forall i | 0 <= i < |ts| :: ts[i] == 0 || ts[i] < oo < ts[i] + 0x1_0000
  }
  /** Trimming keeps every slot's bounds and the vtable's size limit. */
  lemma TrimBounds(vs: seq<nat>, ts: seq<nat>, oo: nat)
    requires ts == Trim(vs)
    requires (|vs| + VtableMetadataFields) * SizeVOffsetT < 0x1_0000
    requires InReach(vs, oo)
    ensures (|ts| + VtableMetadataFields) * SizeVOffsetT < 0x1_0000
    ensures InReach(ts, oo)
  {
    forall i | 0 <= i < |ts|
      ensures ts[i] == 0 || ts[i] < oo < ts[i] + 0x1_0000
    {
      assert ts[i] == vs[i];
    }
  }
  /** Slot j of the trimmed vtable is set exactly when it is set in the full one. */
  lemma TrimEntry(vs: seq<nat>, ts: seq<nat>, oo: nat, j: nat)
    requires ts == Trim(vs)
    ensures (if j < |ts| && ts[j] != 0 then oo - ts[j] else 0) ==
      (if j < |vs| && vs[j] != 0 then oo - vs[j] else 0)
  {
    if j < |ts| {
      assert ts[j] == vs[j];
    }
  }
  /** The open object's slots all lie within 16-bit reach of its leading word. */
  lemma OpenedInReach(s: State)
    requires Wf(s) && Fits(s)
    ensures InReach(s.vtable, Offset(Opened(s)))
  {
    OpenedOffset(s);
  }

  /** Slot j of the slots vs, looked up in the vtable written for them. */
  lemma SlotInVtable(vs: seq<nat>, oo: nat, objectEnd: nat, j: nat)
    requires (|vs| + VtableMetadataFields) * SizeVOffsetT < 0x1_0000 && InReach(vs, oo)
    ensures VtableField(Words(VtableWords(Trim(vs), oo, objectEnd)), CalcVOffsetT(j)) ==
      Ok(if j < |vs| && vs[j] != 0 then oo - vs[j] else 0)
  {
    var ts := Trim(vs);
    TrimBounds(vs, ts, oo);
    TrimEntry(vs, ts, oo, j);
    VtableFieldOfWords(ts, oo, objectEnd, Words(VtableWords(ts, oo, objectEnd)), j);
  }

  /** Slot j of the open object, looked up in its candidate vtable. */
  lemma CandidateEntry(s: State, j: nat)
    requires (|s.vtable| + VtableMetadataFields) * SizeVOffsetT < 0x1_0000
    requires InReach(s.vtable, Offset(Opened(s)))
    ensures VtableField(Candidate(s), CalcVOffsetT(j)) ==
      Ok(if j < |s.vtable| && s.vtable[j] != 0 then Offset(Opened(s)) - s.vtable[j] else 0)
  {
    SlotInVtable(s.vtable, Offset(Opened(s)), s.objectEnd, j);
  }

  /**
   * buf holds the open object's data after `pre`; the table at pos starts
   * oo bytes from the end, and its vtable gives slot j the distance from the
   * table to the slot's recorded offset, or 0 for an unset slot.
   */
  predicate Laid(s: State, buf: seq<Byte>, pre: seq<Byte>, pos: int, oo: nat, j: nat)
  {
    buf == pre + Data(s) && |buf| == pos + oo &&
    (j < |s.vtable| && s.vtable[j] != 0 ==> s.vtable[j] <= Offset(s) < oo) &&
    FieldOffset(buf, pos, CalcVOffsetT(j)) ==
      Ok(if j < |s.vtable| && s.vtable[j] != 0 then oo - s.vtable[j] else 0)
  }

  /**
   * A buffer holding the open object's data after `pre`, in which slot j of
   * the table at pos, oo bytes from the end, locates the field recorded for
   * it or is absent: every slot reads as recorded.
   */
  lemma ReadThroughVtable(s: State, buf: seq<Byte>, pre: seq<Byte>, pos: int, oo: nat, j: nat, w: nat, d: nat)
    requires Laid(s, buf, pre, pos, oo, j) && Readable(s, j, w)
    ensures GetSlot(buf, pos, CalcVOffsetT(j), w, d) == Recorded(s, j, w, d)
  {
    if j < |s.vtable| && s.vtable[j] != 0 {
      var slot := s.vtable[j];
      var at := Offset(s) - slot;
      assert pos + (oo - slot) == |pre| + at;
      ReadLEPrefix(pre, Data(s), at, w);
    }
  }

  /**
   * EndObject's table, read back through the vtable it wrote or shares:
   * each recorded field reads as the bytes recorded for it, and a slot that
   * was never set, or lies beyond the object's slots, reads as the default.
   */
  lemma EndObjectReadBack(s: State, t: State, off: nat, j: nat, w: nat, d: nat)
    requires Wf(s) && Fits(s) && Readable(s, j, w) && EndObject(s) == Ok((t, off))
    ensures off <= Offset(t) && GetSlot(Data(t), TablePos(Data(t), off), CalcVOffsetT(j), w, d) == Recorded(s, j, w, d)
  {
    var pre := ReadBackFacts(s, t, off, j);
    ReadThroughVtable(s, Data(t), pre, TablePos(Data(t), off), Offset(Opened(s)), j, w, d);
  }

  /** What EndObject leaves for slot j: the old data at the end, and the slot's entry. */
  lemma ReadBackFacts(s: State, t: State, off: nat, j: nat) returns (pre: seq<Byte>)
    requires Wf(s) && Fits(s) && EndObject(s) == Ok((t, off))
    ensures off <= Offset(t) && Laid(s, Data(t), pre, TablePos(Data(t), off), Offset(Opened(s)), j)
  {
    var c;
    pre, c := Outcome(s, t, off);
    SlotOfTable(s, Data(t), TablePos(Data(t), off), c, j);
    OpenedOffset(s);
  }

  /** Slot j of a table whose first word leads to the candidate vtable. */
  lemma SlotOfTable(s: State, buf: seq<Byte>, pos: int, c: seq<Byte>, j: nat)
    requires Wf(s) && Fits(s) && c == Candidate(s)
    requires VtableOf(buf, pos).Ok? && LeadsTo(buf, VtableOf(buf, pos).value, c)
    ensures FieldOffset(buf, pos, CalcVOffsetT(j)) ==
      Ok(if j < |s.vtable| && s.vtable[j] != 0 then Offset(Opened(s)) - s.vtable[j] else 0)
  {
    OpenedInReach(s);
    CandidateEntry(s, j);
    TableField(buf, pos, c, CalcVOffsetT(j));
  }

  /**
   * EndObject's outcome, hit or miss: the old data follows `pre`, and the
   * table's first word leads to a copy of the candidate vtable c.
   */
  lemma Outcome(s: State, t: State, off: nat) returns (pre: seq<Byte>, c: seq<Byte>)
    requires Wf(s) && Fits(s) && EndObject(s) == Ok((t, off))
    ensures c == Candidate(s)
    ensures off <= Offset(t) && Data(t) == pre + Data(s) && |Data(t)| == TablePos(Data(t), off) + Offset(Opened(s))
    ensures VtableOf(Data(t), TablePos(Data(t), off)).Ok?
    ensures LeadsTo(Data(t), VtableOf(Data(t), TablePos(Data(t), off)).value, c)
  {
    c := Candidate(s);
    if Found(s) == 0 {
      pre := MissOutcome(s, t, off, c);
    } else {
      pre := HitOutcome(s, t, off, c);
    }
  }

  /** The object's offset EndObject returns: its leading word's. */
  lemma EndObjectOffset(s: State, t: State, off: nat)
    requires EndObject(s) == Ok((t, off))
    ensures off == Offset(Opened(s)) == 4 + PadLen(Offset(s), SizeSOffsetT) + Offset(s)
  {
    assert |Data(Opened(s))| == 4 + PadLen(Offset(s), SizeSOffsetT) + |Data(s)|;
  }

  /**
   * A miss: the new vtable starts the data, the table follows it and its
   * first word points forward to it, and the old data is untouched.
   */
  lemma MissOutcome(s: State, t: State, off: nat, c: seq<Byte>) returns (pre: seq<Byte>)
    requires Fits(s) && EndObject(s) == Ok((t, off)) && Found(s) == 0 && c == Candidate(s)
    ensures off <= Offset(t) && Data(t) == pre + Data(s) && |Data(t)| == TablePos(Data(t), off) + Offset(Opened(s))
    ensures VtableOf(Data(t), TablePos(Data(t), off)).Ok?
    ensures LeadsTo(Data(t), VtableOf(Data(t), TablePos(Data(t), off)).value, c)
  {
    var word := LE(Unsigned(|c|, 4), 4);
    var pad := Zeros(PadLen(Offset(s), SizeSOffsetT));
    EndObjectMiss(s, t, off);
    EndObjectOffset(s, t, off);
    pre := c + word + pad;
    MissVtableOf(Data(t), c, word, pad, Data(s), off);
  }

  /**
   * A hit: the table starts the data, its first word points back at the
   * cached vtable, and the old data is untouched.
   */
  lemma HitOutcome(s: State, t: State, off: nat, c: seq<Byte>) returns (pre: seq<Byte>)
    requires Wf(s) && Fits(s) && EndObject(s) == Ok((t, off)) && Found(s) != 0 && c == Candidate(s)
    ensures off <= Offset(t) && Data(t) == pre + Data(s) && |Data(t)| == TablePos(Data(t), off) + Offset(Opened(s))
    ensures VtableOf(Data(t), TablePos(Data(t), off)).Ok?
    ensures LeadsTo(Data(t), VtableOf(Data(t), TablePos(Data(t), off)).value, c)
  {
    var pad, existing := HitLayout(s, t, off);
    FoundFacts(s);
    OpenedOffset(s);
    pre := LE(Unsigned(existing - off, 4), 4) + pad;
    HitVtableOf(Data(t), Data(Opened(s)), LE(Unsigned(existing - off, 4), 4), pad, Data(s), off, existing, c);
  }

  /** A hit's bytes: the leading word and padding in front of the old data, before and after sharing. */
  lemma HitLayout(s: State, t: State, off: nat) returns (pad: seq<Byte>, existing: nat)
    requires EndObject(s) == Ok((t, off)) && Found(s) != 0
    ensures existing == Found(s) && pad == Zeros(PadLen(Offset(s), SizeSOffsetT))
    ensures Data(t) == LE(Unsigned(existing - off, 4), 4) + pad + Data(s)
    ensures Data(Opened(s)) == LE(Unsigned(off, 4), 4) + pad + Data(s) && off == |Data(Opened(s))|
  {
    pad := Zeros(PadLen(Offset(s), SizeSOffsetT));
    existing := Found(s);
    EndObjectOffset(s, t, off);
    assert Data(Opened(s)) == LE(Unsigned(Offset(Opened(s)), 4), 4) + pad + Data(s);
    EndObjectHit(s, t, off);
  }

  /** A cache hit is a vtable already written, holding the candidate's bytes. */
  lemma FoundFacts(s: State)
    requires Wf(s) && Found(s) != 0
    ensures VtableAt(Data(Opened(s)), Found(s), Candidate(s)) && Found(s) <= Offset(s)
  {
  }

  /** A miss: the table's first word is the vtable's size, so the vtable starts the data. */
  lemma MissVtableOf(buf: seq<Byte>, cand: seq<Byte>, word: seq<Byte>, pad: seq<Byte>, data: seq<Byte>, off: nat)
    requires buf == cand + word + pad + data && word == LE(Unsigned(|cand|, 4), 4)
    requires off == 4 + |pad| + |data| && |cand| < 0x8000_0000
    ensures buf == (cand + word + pad) + data && |buf| == TablePos(buf, off) + off
    ensures VtableOf(buf, TablePos(buf, off)).Ok?
    ensures LeadsTo(buf, VtableOf(buf, TablePos(buf, off)).value, cand)
  {
    assert buf[|cand|..|cand| + 4] == word;
    VtableOfWord(buf, TablePos(buf, off), |cand|);
    assert buf[0..0 + |cand|] == cand;
  }

  /**
   * A hit: the table's first word is the negative distance back to the
   * cached vtable, which lies in the bytes after the table's first word.
   */
  lemma HitVtableOf(buf: seq<Byte>, before: seq<Byte>, word: seq<Byte>, pad: seq<Byte>, data: seq<Byte>,
                    off: nat, existing: nat, cand: seq<Byte>)
    requires buf == word + pad + data && before == LE(Unsigned(off, 4), 4) + pad + data
    requires word == LE(Unsigned(existing - off, 4), 4) && off == |before| && off <= 0x8000_0000
    requires VtableAt(before, existing, cand) && existing <= |data|
    ensures buf == (word + pad) + data && |buf| == TablePos(buf, off) + off
    ensures VtableOf(buf, TablePos(buf, off)).Ok?
    ensures LeadsTo(buf, VtableOf(buf, TablePos(buf, off)).value, cand)
  {
    var rest := pad + data;
    Regroup(word, pad, data);
    Regroup(LE(Unsigned(off, 4), 4), pad, data);
    HitBytes(buf, before, LE(Unsigned(off, 4), 4), word, rest, existing, cand);
    assert |buf| == off && TablePos(buf, off) == 0;
    HitWord(buf, off, existing);
    LeadsToAt(buf, existing, cand);
  }

  /** Concatenation regroups. */
  lemma Regroup(a: seq<Byte>, b: seq<Byte>, c: seq<Byte>)
    ensures (a + b) + c == a + (b + c)
  {
  }

  /** The table's first word starts the data, and the cached vtable is still in place behind it. */
  lemma HitBytes(buf: seq<Byte>, before: seq<Byte>, lead: seq<Byte>, word: seq<Byte>, rest: seq<Byte>,
                 existing: nat, cand: seq<Byte>)
    requires buf == word + rest && before == lead + rest && |lead| == |word| == 4
    requires VtableAt(before, existing, cand) && existing <= |rest|
    ensures buf[0..4] == word && VtableAt(buf, existing, cand)
  {
    VtableAtPrefix(lead, rest, existing, cand);
    VtableAtPrefix(word, rest, existing, cand);
  }

  /** A table off bytes from the end whose first word points back to the vtable existing bytes from the end. */
  lemma HitWord(buf: seq<Byte>, off: nat, existing: nat)
    requires 4 <= off <= |buf| && existing <= off <= 0x8000_0000
    requires buf[TablePos(buf, off)..TablePos(buf, off) + 4] == LE(Unsigned(existing - off, 4), 4)
    ensures VtableOf(buf, TablePos(buf, off)) == Ok(|buf| - existing)
  {
    VtableOfWord(buf, TablePos(buf, off), existing - off);
  }

  /** A table whose first word holds the signed distance x to its vtable. */
  lemma VtableOfWord(buf: seq<Byte>, pos: int, x: int)
    requires 0 <= pos && pos + 4 <= |buf| && buf[pos..pos + 4] == LE(Unsigned(x, 4), 4)
    requires -0x8000_0000 <= x < 0x8000_0000
    ensures VtableOf(buf, pos).Ok? && VtableOf(buf, pos).value == pos - x
  {
    FromLEOfLE(Unsigned(x, 4), 4);
    SmallMod(Unsigned(x, 4), Pow256(4));
    SignedOfUnsigned(x, 4);
  }

  /** The bytes e from the end of buf, addressed from its start. */
  lemma LeadsToAt(buf: seq<Byte>, e: nat, cand: seq<Byte>)
    requires VtableAt(buf, e, cand)
    ensures LeadsTo(buf, |buf| - e, cand)
  {
  }

  /** Loading the root of a finished buffer reaches the root table Finish was given. */
  lemma FinishedRoot(s: State, root: nat, t: State)
    requires Finish(s, root, false) == Ok(t) && |Data(t)| < 0x1_0000_0000
    ensures GetRoot(Data(t), 0) == Ok(TablePos(Data(t), root))
  {
    FinishLayout(s, root, false);
    GetRootOfWord(Data(t), |Data(t)| - root);
  }

  /** The two header words of a size-prefixed buffer read back as its prefix and its root. */
  lemma SizePrefixedWords(d: seq<Byte>, root: nat)
    requires |d| < 0x1_0000_0000 && |d| >= root + 8
    requires d[..4] == LE(|d| - 4, 4) && d[4..8] == LE(|d| - 4 - root, 4)
    ensures GetSizePrefix(d, 0) == Ok(|d| - 4)
    ensures GetSizePrefixedRoot(d, 0) == Ok(TablePos(d, root))
  {
    GetSizePrefixOfWord(d, |d| - 4);
    GetSizePrefixedRootOfWord(d, |d| - 4 - root);
  }

  /**
   * A size-prefixed finished buffer: the prefix is the length of the rest,
   * and loading the root past it reaches the root table Finish was given.
   */
  lemma SizePrefixedRoot(s: State, root: nat, t: State)
    requires Finish(s, root, true) == Ok(t) && |Data(t)| < 0x1_0000_0000
    ensures GetSizePrefix(Data(t), 0) == Ok(|Data(t)| - 4)
    ensures GetSizePrefixedRoot(Data(t), 0) == Ok(TablePos(Data(t), root))
  {
    FinishLayout(s, root, true);
    SizePrefixedWords(Data(Finish(s, root, true).value), root);
  }
}
