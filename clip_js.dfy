/**
 * The clipboard bridge of the Basilisk II JS port, over an abstract emulator.
 * One Emulator object holds everything the bridge reads or changes: guest RAM,
 * the guest heap, the reentrancy flag we_put_this_data, the host clipboard and
 * a log of what was done.  Each method is proved to change these fields exactly
 * as the function of the same name in module Bridge says.
 */
module ClipJs {
  import opened Wrappers
  import opened MacMemory
  import opened ClipText
  import opened ScriptEncoding
  import opened GuestProcs
  import opened Bridge

  class Emulator {
    const env: Env
    var mem: Memory
    var heapNext: int
    var wePutThisData: bool
    var hostClipboard: Option<string>
    var log: seq<Event>
    var guestScrap: map<U32, seq<Byte>>

    /** The fields as one value, the argument and result of the Bridge functions. */
    function Snap(): (s: State)
      reads this
    {
      State(mem, heapNext, wePutThisData, hostClipboard, log, guestScrap)
    }

    /** A machine whose heap starts at heapBase, with the given host clipboard. */
    constructor (env: Env, heapBase: int, clipboard: Option<string>)
      ensures this.env == env
      ensures Snap() == State(map[], heapBase, false, clipboard, [], map[])
    {
      this.env := env;
      mem := map[];
      heapNext := heapBase;
      wePutThisData := false;
      hostClipboard := clipboard;
      log := [];
      guestScrap := map[];
    }

    // -------------------------------------------------------------------------
    // The emulator's primitives, as the bridge uses them

    /** Execute68kTrap(0xa71e, &r) with r.d[0] = size; the result is r.a[0]. */
    method NewPtrSysClear(size: U32) returns (ptr: int)
      modifies this
      ensures Snap() == Allocate(env, old(Snap()), size).0 && ptr == Allocate(env, old(Snap()), size).1
    {
      if 0 < heapNext && heapNext + size <= env.heapLimit {
        ptr := heapNext;
        mem := PokeBytes(mem, ptr, Zeros(size));
        heapNext := heapNext + size;
      } else {
        ptr := 0;
      }
      log := log + [Event.NewPtrSysClear(size, ptr)];
    }

    /** Execute68kTrap(0xa01f, &r) with r.a[0] = ptr. */
    method DisposePtr(ptr: int)
      modifies this
      ensures Snap() == Dispose(old(Snap()), ptr)
    {
      log := log + [Event.DisposePtr(ptr)];
    }

    /** Host2Mac_memcpy (and memcpy through Mac2HostAddr): bytes copied to addr. */
    method Host2MacMemcpy(addr: int, bytes: seq<Byte>)
      modifies this
      ensures Snap() == Store(old(Snap()), addr, bytes)
    {
      mem := PokeBytes(mem, addr, bytes);
    }

    method WriteMacInt16(addr: int, v: U16)
      modifies this
      ensures Snap() == Store(old(Snap()), addr, BigEndian16(v))
    {
      mem := PokeBytes(mem, addr, BigEndian16(v));
    }

    method WriteMacInt32(addr: int, v: U32)
      modifies this
      ensures Snap() == Store(old(Snap()), addr, BigEndian32(v))
    {
      mem := PokeBytes(mem, addr, BigEndian32(v));
    }

    /** workerApi.setClipboardText(text) on the host side. */
    method HostSetClipboardText(text: string)
      modifies this
      ensures Snap() == SetHostText(old(Snap()), text)
    {
      hostClipboard := Some(text);
      log := log + [SetClipboardText(text)];
    }

    /** Execute68k of the ScriptUtil routine; the result is r.d[0]. */
    method ExecuteScriptUtil(addr: int) returns (d0: U32)
      modifies this
      ensures Snap() == RunScriptUtil(env, old(Snap()), addr).0 && d0 == RunScriptUtil(env, old(Snap()), addr).1
    {
      var code := PeekBytes(mem, addr, |ScriptUtilTemplate|);
      log := log + [Execute68k(addr, code, wePutThisData)];
      d0 := ToU32(env.scriptVariable(FromBigEndian16(code[VarIdOffset..VarIdOffset + 2])));
    }

    /**
     * Execute68k of the ZeroScrap+PutScrap routine: the guest's traps run on
     * the immediates they find in the code, and may call back into the bridge.
     */
    method ExecuteScrapRoutine(addr: int)
      modifies this
      ensures Snap() == RunScrapRoutine(env, old(Snap()), addr)
    {
      var code := PeekBytes(mem, addr, |ScrapTemplate|);
      var length := ToI32(FromBigEndian32(code[LengthOffset..LengthOffset + 4]));
      var scrapType := FromBigEndian32(code[TypeOffset..TypeOffset + 4]);
      var buffer := FromBigEndian32(code[BufferOffset..BufferOffset + 4]);
      var data := PeekBytes(mem, buffer, length);
      log := log + [Execute68k(addr, code, wePutThisData)];
      guestScrap := map[scrapType := data];
      if env.forwardsPutScrap {
        ZeroScrap();
        PutScrap(scrapType, data, length);
      }
    }

    // -------------------------------------------------------------------------
    // The bridge

    /** GetMacScriptManagerVariable(varID). */
    method GetMacScriptManagerVariable(varID: U16) returns (ret: int)
      modifies this
      ensures Snap() == QueryScriptVariable(env, old(Snap()), varID).0 && ret == QueryScriptVariable(env, old(Snap()), varID).1
    {
      ret := QueryFailed;
      var procArea := NewPtrSysClear(|ScriptUtilTemplate|);
      if procArea != 0 {
        Host2MacMemcpy(procArea, ScriptUtilTemplate);
        WriteMacInt16(procArea + VarIdOffset, varID);
        var d0 := ExecuteScriptUtil(procArea);
        ret := ToI32(d0);
        DisposePtr(procArea);
      }
    }

    /** getEncodingFunctions(). */
    method GetEncodingFunctions() returns (enc: Encoding)
      modifies this
      ensures Snap() == ActiveEncoding(env, old(Snap())).0 && enc == ActiveEncoding(env, old(Snap())).1
    {
      var script := GetMacScriptManagerVariable(smMacSysScript);
      var region := GetMacScriptManagerVariable(smMacRegionCode);
      if script == smJapanese && region == verJapan {
        return MacJapanese;
      }
      return MacRoman;
    }

    /** The host side of getClipboardText(): nothing, or the text's C string. */
    method GetClipboardText() returns (text: Option<string>)
      ensures text == HostText(hostClipboard)
    {
      match hostClipboard
      case None => text := None;
      case Some(t) =>
        if t == "" {
          text := None;
        } else {
          text := Some(t[..CStrLen(t, '\0')]);
        }
    }

    method ClipInit()
      ensures Snap() == old(Snap())
    {
    }

    method ClipExit()
      ensures Snap() == old(Snap())
    {
    }

    /** A Mac application reads the clipboard. */
    method GetScrap(scrapType: U32)
      modifies this
      ensures Snap() == Bridge.GetScrap(env, old(Snap()), scrapType)
    {
      if scrapType != TEXT {
        return;
      }
      var clipboardText := GetClipboardText();
      if clipboardText.None? {
        return;
      }
      var enc := GetEncodingFunctions();
      var data := ConvertForGuest(enc, clipboardText.value);
      PushScrap(scrapType, data);
    }

    /**
     * The host side of the conversion: the converted C string copied into a
     * fresh buffer, its line feeds rewritten in place up to the NUL.
     */
    method ConvertForGuest(enc: Encoding, text: string) returns (data: CBuffer)
      ensures data == ScrapData(env, enc, text)
    {
      var encoded := env.utf8ToMac(enc, text);
      var buf := new Byte[|encoded|](i requires 0 <= i < |encoded| => encoded[i]);
      assert buf[..] == encoded;
      var length := CStrLen(buf[..], 0);
      NormalizeLineEndings(buf, length);
      data := buf[..length];
    }

    /**
     * The second half of GetScrap: hand the converted bytes to the guest's
     * Scrap Manager through a synthesised ZeroScrap+PutScrap routine.
     */
    method PushScrap(scrapType: U32, data: CBuffer)
      modifies this
      ensures Snap() == Bridge.PushScrap(env, old(Snap()), scrapType, data)
    {
      var scrapArea := NewPtrSysClear(|data|);
      if scrapArea == 0 {
        return;
      }
      Host2MacMemcpy(scrapArea, data);
      CallScrapRoutine(scrapType, |data|, scrapArea);
    }

    /** Build the routine in a fresh block, run it under the guard, release both blocks. */
    method CallScrapRoutine(scrapType: U32, length: U32, scrapArea: U32)
      modifies this
      ensures Snap() == Bridge.CallScrapRoutine(env, old(Snap()), scrapType, length, scrapArea)
    {
      ghost var s0 := Snap();
      var procArea := NewPtrSysClear(|ScrapTemplate|);
      InstallScrapRoutine(procArea, length, scrapType, scrapArea);
      wePutThisData := true;
      ghost var installed := Snap();
      assert installed == Bridge.InstallScrapRoutine(Allocate(env, s0, |ScrapTemplate|).0, procArea,
                                                     length, scrapType, scrapArea).(guard := true);
      ExecuteScrapRoutine(procArea);
      DisposePtr(procArea);
      DisposePtr(scrapArea);
    }

    method InstallScrapRoutine(procArea: int, length: U32, scrapType: U32, scrapArea: U32)
      modifies this
      ensures Snap() == Bridge.InstallScrapRoutine(old(Snap()), procArea, length, scrapType, scrapArea)
    {
      Host2MacMemcpy(procArea, ScrapTemplate);
      WriteMacInt32(procArea + LengthOffset, length);
      WriteMacInt32(procArea + TypeOffset, scrapType);
      WriteMacInt32(procArea + BufferOffset, scrapArea);
    }

    /** ZeroScrap(): called before a Mac application writes the clipboard; nothing to do. */
    method ZeroScrap()
      ensures Snap() == old(Snap())
    {
    }

    /** A Mac application wrote the clipboard: length bytes of scrap, of the given type. */
    method PutScrap(scrapType: U32, scrap: seq<Byte>, length: I32)
      requires length <= |scrap|
      modifies this
      ensures Snap() == Bridge.PutScrap(env, old(Snap()), scrapType, scrap, length)
    {
      if wePutThisData {
        wePutThisData := false;
        return;
      }
      if length <= 0 {
        return;
      }
      if scrapType == TEXT {
        ForwardText(scrap[..length]);
      }
    }

    /** The 'TEXT' case: workerApi.setClipboardText of the converted bytes. */
    method ForwardText(bytes: seq<Byte>)
      modifies this
      ensures Snap() == Bridge.ForwardText(env, old(Snap()), bytes)
    {
      var enc := GetEncodingFunctions();
      var converted := env.macToUtf8(enc, bytes);
      var length := CStrLen(converted, '\0');
      HostSetClipboardText(converted[..length]);
    }
  }
}
