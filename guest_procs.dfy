/**
 * The two 68k routines the bridge synthesises in guest memory: fixed byte
 * templates whose immediate operands are patched, big-endian, at fixed offsets
 * before the routine is run.
 */
module GuestProcs {
  import opened MacMemory

  /** The 68k RTS opcode that ends both routines (M68K_RTS). */
  const M68K_RTS: U16 := 0x4e75

  /**
   * subq.w #4,sp; move.w #varID,-(sp); move.l #$84020008,-(sp);
   * ScriptUtil (_GetScriptManagerVariable); move.l (a7)+,d0; rts
   */
  const ScriptUtilTemplate: seq<Byte> := [
    0x59, 0x4f,
    0x3f, 0x3c, 0x00, 0x00,
    0x2f, 0x3c, 0x84, 0x02, 0x00, 0x08,
    0xa8, 0xb5,
    0x20, 0x1f,
    M68K_RTS / 256, M68K_RTS % 256
  ]

  /** Offset of the word immediate that carries the Script Manager selector. */
  const VarIdOffset: nat := 4

  /**
   * subq.l #4,sp; ZeroScrap; move.l #length,-(sp); move.l #type,-(sp);
   * move.l #outbuf,-(sp); PutScrap; addq.l #4,sp; rts
   */
  const ScrapTemplate: seq<Byte> := [
    0x59, 0x8f,
    0xa9, 0xfc,
    0x2f, 0x3c, 0, 0, 0, 0,
    0x2f, 0x3c, 0, 0, 0, 0,
    0x2f, 0x3c, 0, 0, 0, 0,
    0xa9, 0xfe,
    0x58, 0x8f,
    M68K_RTS / 256, M68K_RTS % 256
  ]

  /** Offsets of the three long immediates of the PutScrap call. */
  const LengthOffset: nat := 6
  const TypeOffset: nat := 12
  const BufferOffset: nat := 18

  /**
   * The ScriptUtil template: 18 bytes, a zero placeholder for the selector
   * at 4..5, the ScriptUtil trap word 0xa8b5 at 12..13, and RTS at the end.
   */
  lemma ScriptUtilTemplateLayout()
    ensures |ScriptUtilTemplate| == 18
    ensures ScriptUtilTemplate[VarIdOffset..VarIdOffset + 2] == [0, 0]
    ensures FromBigEndian16(ScriptUtilTemplate[12..14]) == 0xa8b5
    ensures FromBigEndian16(ScriptUtilTemplate[16..18]) == M68K_RTS
  {
  }

  /**
   * The ZeroScrap+PutScrap template: 28 bytes, ZeroScrap (0xa9fc) at 2..3,
   * zero placeholders for the three longs, PutScrap (0xa9fe) at 22..23, and
   * RTS at the end.
   */
  lemma ScrapTemplateLayout()
    ensures |ScrapTemplate| == 28
    ensures FromBigEndian16(ScrapTemplate[2..4]) == 0xa9fc
    ensures ScrapTemplate[LengthOffset..LengthOffset + 4] == [0, 0, 0, 0]
    ensures ScrapTemplate[TypeOffset..TypeOffset + 4] == [0, 0, 0, 0]
    ensures ScrapTemplate[BufferOffset..BufferOffset + 4] == [0, 0, 0, 0]
    ensures FromBigEndian16(ScrapTemplate[22..24]) == 0xa9fe
    ensures FromBigEndian16(ScrapTemplate[26..28]) == M68K_RTS
  {
    var t := ScrapTemplate;
    assert t[2] == 0xa9;
    assert t[3] == 0xfc;
    assert t[22] == 0xa9;
    assert t[23] == 0xfe;
    assert t[6] == 0;
  }

  /** Whether offset i lies in the field of the given width at the given offset. */
  predicate InField(i: int, offset: int, width: int)
  {
    offset <= i < offset + width
  }

  /**
   * The ScriptUtil routine as it stands in guest memory once the selector is
   * patched in: the template everywhere except bytes 4..5, which hold varID.
   */
  function PatchedScriptUtil(varID: U16): (r: seq<Byte>)
    ensures |r| == |ScriptUtilTemplate|
    ensures r[VarIdOffset..VarIdOffset + 2] == BigEndian16(varID)
    ensures FromBigEndian16(r[VarIdOffset..VarIdOffset + 2]) == varID
  {
    BigEndian16RoundTrip(varID);
    Splice(ScriptUtilTemplate, VarIdOffset, BigEndian16(varID))
  }

  /**
   * The ZeroScrap+PutScrap routine once patched: the template everywhere
   * except the length at 6..9, the type at 12..15 and the buffer address at
   * 18..21, each a big-endian long that reads back as the value stored.
   */
  function PatchedScrap(length: U32, scrapType: U32, buffer: U32): (r: seq<Byte>)
    ensures |r| == |ScrapTemplate|
    ensures r[LengthOffset..LengthOffset + 4] == BigEndian32(length)
    ensures r[TypeOffset..TypeOffset + 4] == BigEndian32(scrapType)
    ensures r[BufferOffset..BufferOffset + 4] == BigEndian32(buffer)
    ensures FromBigEndian32(r[LengthOffset..LengthOffset + 4]) == length
    ensures FromBigEndian32(r[TypeOffset..TypeOffset + 4]) == scrapType
    ensures FromBigEndian32(r[BufferOffset..BufferOffset + 4]) == buffer
  {
    BigEndian32RoundTrip(length);
    BigEndian32RoundTrip(scrapType);
    BigEndian32RoundTrip(buffer);
    var r1 := Splice(ScrapTemplate, LengthOffset, BigEndian32(length));
    var r2 := Splice(r1, TypeOffset, BigEndian32(scrapType));
    SpliceOutside(r1, TypeOffset, BigEndian32(scrapType), LengthOffset, LengthOffset + 4);
    SpliceOutside(r2, BufferOffset, BigEndian32(buffer), LengthOffset, LengthOffset + 4);
    SpliceOutside(r2, BufferOffset, BigEndian32(buffer), TypeOffset, TypeOffset + 4);
    Splice(r2, BufferOffset, BigEndian32(buffer))
  }

  /** Outside the selector field the patched ScriptUtil routine is the template. */
  lemma PatchedScriptUtilElsewhere(varID: U16, i: int)
    requires 0 <= i < |ScriptUtilTemplate| && !InField(i, VarIdOffset, 2)
    ensures PatchedScriptUtil(varID)[i] == ScriptUtilTemplate[i]
  {
  }

  /** Outside the three long immediates the patched scrap routine is the template. */
  lemma PatchedScrapElsewhere(length: U32, scrapType: U32, buffer: U32, i: int)
    requires 0 <= i < |ScrapTemplate|
    requires !InField(i, LengthOffset, 4) && !InField(i, TypeOffset, 4) && !InField(i, BufferOffset, 4)
    ensures PatchedScrap(length, scrapType, buffer)[i] == ScrapTemplate[i]
  {
  }

  /**
   * Host2Mac_memcpy of the template followed by WriteMacInt16 at offset 4
   * leaves exactly PatchedScriptUtil(varID) at the routine's address.
   */
  lemma ScriptUtilWrittenAt(m: Memory, a: int, varID: U16)
    ensures PeekBytes(PokeBytes(PokeBytes(m, a, ScriptUtilTemplate), a + VarIdOffset, BigEndian16(varID)),
                      a, |ScriptUtilTemplate|)
         == PatchedScriptUtil(varID)
  {
    var m1 := PokeBytes(m, a, ScriptUtilTemplate);
    PeekAfterPoke(m, a, ScriptUtilTemplate);
    PeekAfterInnerPoke(m1, a, VarIdOffset, BigEndian16(varID), |ScriptUtilTemplate|);
  }

  /**
   * Host2Mac_memcpy of the template followed by the three WriteMacInt32 calls
   * leaves exactly PatchedScrap(length, type, buffer) at the routine's address.
   */
  lemma ScrapWrittenAt(m: Memory, a: int, length: U32, scrapType: U32, buffer: U32)
    ensures PeekBytes(PokeBytes(PokeBytes(PokeBytes(PokeBytes(m, a, ScrapTemplate),
                        a + LengthOffset, BigEndian32(length)),
                        a + TypeOffset, BigEndian32(scrapType)),
                        a + BufferOffset, BigEndian32(buffer)),
                      a, |ScrapTemplate|)
         == PatchedScrap(length, scrapType, buffer)
  {
    var n := |ScrapTemplate|;
    var m1 := PokeBytes(m, a, ScrapTemplate);
    var m2 := PokeBytes(m1, a + LengthOffset, BigEndian32(length));
    var m3 := PokeBytes(m2, a + TypeOffset, BigEndian32(scrapType));
    PeekAfterPoke(m, a, ScrapTemplate);
    PeekAfterInnerPoke(m1, a, LengthOffset, BigEndian32(length), n);
    PeekAfterInnerPoke(m2, a, TypeOffset, BigEndian32(scrapType), n);
    PeekAfterInnerPoke(m3, a, BufferOffset, BigEndian32(buffer), n);
  }
}
