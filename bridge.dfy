/**
 * The state of the emulated machine as far as the clipboard bridge touches it,
 * the environment it cannot see into, and one function per operation giving
 * the state after it from the state before.  The methods of ClipJs.Emulator
 * are proved to change their fields exactly as these functions say.
 */
module Bridge {
  import opened Wrappers
  import opened MacMemory
  import opened ClipText
  import opened ScriptEncoding
  import opened GuestProcs

  /** FOURCC('T','E','X','T'), the only scrap type the bridge handles. */
  const TEXT: U32 := 0x5445_5854

  /** The A-line traps the bridge calls through Execute68kTrap. */
  const NewPtrSysClearTrap: U16 := 0xa71e
  const DisposePtrTrap: U16 := 0xa01f

  /**
   * A host buffer.  The JS port is built for wasm32, where size_t is 32 bits,
   * so no buffer reaches 2^32 bytes and its length fits a 68k register.
   */
  type CBuffer = s: seq<Byte> | |s| < TWO_32

  /**
   * What the bridge calls but cannot see into:
   * heapLimit     the top of the guest heap; NewPtrSysClear fails (returns 0)
   *               for a block that would pass it;
   * scriptVariable  what the guest's _GetScriptManagerVariable answers per selector;
   * utf8ToMac, macToUtf8  the conversion tables, uninterpreted;
   * forwardsPutScrap  whether the guest's PutScrap trap, run by the synthesised
   *               routine, calls back into the bridge's PutScrap.
   */
  datatype Env = Env(
    heapLimit: U32,
    scriptVariable: int -> int,
    utf8ToMac: (Encoding, string) -> CBuffer,
    macToUtf8: (Encoding, seq<Byte>) -> string,
    forwardsPutScrap: bool)

  /** What the bridge makes happen: guest traps, guest routines, host setText calls. */
  datatype Event =
    | NewPtrSysClear(size: U32, ptr: int)
    | DisposePtr(ptr: int)
    | Execute68k(addr: int, code: seq<Byte>, guarded: bool)
    | SetClipboardText(text: string)

  /**
   * mem         guest RAM;
   * heapNext    where the guest heap hands out its next block;
   * guard       we_put_this_data;
   * host        the host clipboard;
   * log         every event so far;
   * guestScrap  the guest Scrap Manager's contents, type to data.
   */
  datatype State = State(
    mem: Memory,
    heapNext: int,
    guard: bool,
    host: Option<string>,
    log: seq<Event>,
    guestScrap: map<U32, seq<Byte>>)

  // ---------------------------------------------------------------------------
  // The emulator's primitives

  /** The pointer NewPtrSysClear returns for a block of size bytes. */
  function AllocResult(env: Env, s: State, size: U32): (p: int)
    ensures p == 0 || (0 < p && p + size <= env.heapLimit)
    ensures p != 0 <==> 0 < s.heapNext && s.heapNext + size <= env.heapLimit
  {
    if 0 < s.heapNext && s.heapNext + size <= env.heapLimit then s.heapNext else 0
  }

  /**
   * Execute68kTrap(0xa71e) with d0 = size: a cleared block, or 0 when the
   * heap is exhausted.  The call is logged either way.
   */
  function Allocate(env: Env, s: State, size: U32): (r: (State, int))
    ensures r.1 == AllocResult(env, s, size)
    ensures r.0.log == s.log + [NewPtrSysClear(size, r.1)]
    ensures r.0.guard == s.guard && r.0.host == s.host && r.0.guestScrap == s.guestScrap
    ensures r.1 == 0 ==> r.0 == s.(log := r.0.log)
    ensures r.1 != 0 ==> r.0.heapNext == r.1 + size && PeekBytes(r.0.mem, r.1, size) == Zeros(size)
  {
    var p := AllocResult(env, s, size);
    var logged := s.(log := s.log + [NewPtrSysClear(size, p)]);
    if p == 0 then (logged, 0)
    else
      PeekAfterPoke(s.mem, p, Zeros(size));
      (logged.(mem := PokeBytes(s.mem, p, Zeros(size)), heapNext := p + size), p)
  }

  /**
   * Execute68kTrap(0xa01f) with a0 = p: the block goes back to the guest
   * heap.  Only the call is recorded: the bump heap never reuses a block,
   * and the block's bytes stay as they are.
   */
  function Dispose(s: State, p: int): (r: State)
    ensures r.log == s.log + [DisposePtr(p)]
    ensures r == s.(log := r.log)
  {
    s.(log := s.log + [DisposePtr(p)])
  }

  /** Host2Mac_memcpy, WriteMacInt16 and WriteMacInt32: bytes stored at addr. */
  function Store(s: State, addr: int, bs: seq<Byte>): (r: State)
    ensures r == s.(mem := PokeBytes(s.mem, addr, bs))
    ensures PeekBytes(r.mem, addr, |bs|) == bs
  {
    PeekAfterPoke(s.mem, addr, bs);
    s.(mem := PokeBytes(s.mem, addr, bs))
  }

  /**
   * Execute68k of the ScriptUtil routine at p: the guest fetches the selector
   * from the word immediate of the code it finds there and leaves the Script
   * Manager's answer, as a 32-bit register, in d0.
   */
  function RunScriptUtil(env: Env, s: State, p: int): (r: (State, U32))
    ensures r.0 == s.(log := s.log + [Execute68k(p, PeekBytes(s.mem, p, |ScriptUtilTemplate|), s.guard)])
  {
    var code := PeekBytes(s.mem, p, |ScriptUtilTemplate|);
    var varID := FromBigEndian16(code[VarIdOffset..VarIdOffset + 2]);
    (s.(log := s.log + [Execute68k(p, code, s.guard)]), ToU32(env.scriptVariable(varID)))
  }

  /** workerApi.setClipboardText: the host clipboard now holds text, and the call is logged. */
  function SetHostText(s: State, text: string): (r: State)
    ensures r.host == Some(text) && r.log == s.log + [SetClipboardText(text)]
    ensures r == s.(host := r.host, log := r.log)
  {
    s.(host := Some(text), log := s.log + [SetClipboardText(text)])
  }

  // ---------------------------------------------------------------------------
  // The bridge

  /**
   * GetMacScriptManagerVariable: allocate an 18-byte block; on failure answer
   * -1; otherwise install the ScriptUtil routine with varID patched in, run it,
   * dispose the block and answer d0 read as a signed int.
   */
  function QueryScriptVariable(env: Env, s: State, varID: U16): (r: (State, int))
    ensures r.0.guard == s.guard && r.0.host == s.host && r.0.guestScrap == s.guestScrap
  {
    var a := Allocate(env, s, |ScriptUtilTemplate|);
    var p := a.1;
    if p == 0 then (a.0, QueryFailed)
    else
      var run := RunScriptUtil(env, Store(Store(a.0, p, ScriptUtilTemplate), p + VarIdOffset, BigEndian16(varID)), p);
      (Dispose(run.0, p), ToI32(run.1))
  }

  /** getEncodingFunctions: query the system script, then the region, then choose. */
  function ActiveEncoding(env: Env, s: State): (r: (State, Encoding))
    ensures r.0.guard == s.guard && r.0.host == s.host && r.0.guestScrap == s.guestScrap
  {
    var script := QueryScriptVariable(env, s, smMacSysScript);
    var region := QueryScriptVariable(env, script.0, smMacRegionCode);
    (region.0, SelectEncoding(script.1, region.1))
  }

  /**
   * getClipboardText as GetScrap sees it: nothing when the host clipboard has
   * no text or empty text, otherwise the text up to its first NUL (the C
   * string's strlen).
   */
  function HostText(host: Option<string>): (r: Option<string>)
    ensures r.Some? <==> host.Some? && host.value != ""
    ensures r.Some? ==> r.value <= host.value && '\0' !in r.value
    ensures r.Some? ==> |r.value| == |host.value| || host.value[|r.value|] == '\0'
  {
    match host
    case None => None
    case Some(t) => if t == "" then None else Some(t[..CStrLen(t, '\0')])
  }

  /**
   * What GetScrap copies into the guest: the converted buffer up to its
   * terminating NUL, with every line feed rewritten to a carriage return.
   */
  function ScrapData(env: Env, enc: Encoding, text: string): (data: CBuffer)
    ensures LF !in data
    ensures var buf := env.utf8ToMac(enc, text);
            (|data| == CStrLen(buf, 0) &&
             forall i :: 0 <= i < |data| ==> data[i] != 0 && (buf[i] == LF ==> data[i] == CR) &&
                                             (buf[i] != LF ==> data[i] == buf[i]))
  {
    var buf := env.utf8ToMac(enc, text);
    LfToCr(buf[..CStrLen(buf, 0)])
  }

  /**
   * PutScrap: an echo of a bridge-initiated write only clears the guard;
   * a non-positive length or a type other than 'TEXT' is ignored; a text is
   * converted with the active encoding and handed to the host clipboard.
   */
  function PutScrap(env: Env, s: State, scrapType: U32, scrap: seq<Byte>, length: I32): (r: State)
    requires length <= |scrap|
    ensures s.guard ==> r == s.(guard := false)
    ensures !s.guard && (length <= 0 || scrapType != TEXT) ==> r == s
    ensures !s.guard ==> !r.guard && r.guestScrap == s.guestScrap
  {
    if s.guard then s.(guard := false)
    else if length <= 0 then s
    else if scrapType != TEXT then s
    else ForwardText(env, s, scrap[..length])
  }

  /**
   * The text setText receives: UTF8ToString of mac_to_utf8's C string, that
   * is the converted text up to its first NUL.
   */
  function HostTextOf(env: Env, enc: Encoding, bytes: seq<Byte>): (text: string)
    ensures var full := env.macToUtf8(enc, bytes);
            text <= full && '\0' !in text && (|text| == |full| || full[|text|] == '\0')
  {
    var full := env.macToUtf8(enc, bytes);
    full[..CStrLen(full, '\0')]
  }

  /**
   * PutScrap's 'TEXT' case: the bytes converted with the active encoding
   * become the host clipboard's text through one setText call.
   */
  function ForwardText(env: Env, s: State, bytes: seq<Byte>): (r: State)
    ensures r.guard == s.guard && r.guestScrap == s.guestScrap
  {
    var a := ActiveEncoding(env, s);
    SetHostText(a.0, HostTextOf(env, a.1, bytes))
  }

  /**
   * Execute68k of the ZeroScrap+PutScrap routine at p: the guest fetches
   * length, type and buffer address from the immediates of the code it finds
   * there, replaces its scrap by that data and, when its PutScrap trap
   * forwards to the bridge, calls PutScrap with the same arguments.
   */
  function RunScrapRoutine(env: Env, s: State, p: int): (r: State)
    ensures s.guard ==> r.host == s.host && r.guard == !env.forwardsPutScrap
  {
    var code := PeekBytes(s.mem, p, |ScrapTemplate|);
    var length := ToI32(FromBigEndian32(code[LengthOffset..LengthOffset + 4]));
    var scrapType := FromBigEndian32(code[TypeOffset..TypeOffset + 4]);
    var buffer := FromBigEndian32(code[BufferOffset..BufferOffset + 4]);
    var data := PeekBytes(s.mem, buffer, length);
    var s1 := s.(log := s.log + [Execute68k(p, code, s.guard)], guestScrap := map[scrapType := data]);
    if env.forwardsPutScrap then PutScrap(env, s1, scrapType, data, length) else s1
  }

  /**
   * The second half of GetScrap: allocate the scrap block (stop if that
   * fails), copy the data in and hand it to the guest's Scrap Manager.
   */
  function PushScrap(env: Env, s: State, scrapType: U32, data: CBuffer): (r: State)
    ensures r.host == s.host
  {
    var a := Allocate(env, s, |data|);
    if a.1 == 0 then a.0
    else CallScrapRoutine(env, Store(a.0, a.1, data), scrapType, |data|, a.1)
  }

  /**
   * The routine's part of GetScrap: allocate its block without checking the
   * result, install it with length, type and scrap address patched in, set
   * the guard, run it, and dispose the routine's block, then the scrap block.
   */
  function CallScrapRoutine(env: Env, s: State, scrapType: U32, length: U32, scrap: U32): (r: State)
    ensures r.host == s.host
  {
    var a := Allocate(env, s, |ScrapTemplate|);
    var s1 := InstallScrapRoutine(a.0, a.1, length, scrapType, scrap);
    Dispose(Dispose(RunScrapRoutine(env, s1.(guard := true), a.1), a.1), scrap)
  }

  /** Host2Mac_memcpy of the template to proc, then the three WriteMacInt32 patches. */
  function InstallScrapRoutine(s: State, proc: int, length: U32, scrapType: U32, scrap: U32): (r: State)
    ensures r == s.(mem := r.mem)
    ensures PeekBytes(r.mem, proc, |ScrapTemplate|) == PatchedScrap(length, scrapType, scrap)
  {
    ScrapWrittenAt(s.mem, proc, length, scrapType, scrap);
    Store(Store(Store(Store(s, proc, ScrapTemplate), proc + LengthOffset, BigEndian32(length)),
                      proc + TypeOffset, BigEndian32(scrapType)),
          proc + BufferOffset, BigEndian32(scrap))
  }

  /**
   * GetScrap: only 'TEXT' with text on the host does anything; then the
   * encoding is resolved, the text converted and normalised, and pushed.
   */
  function GetScrap(env: Env, s: State, scrapType: U32): (r: State)
    ensures scrapType != TEXT || HostText(s.host).None? ==> r == s
    ensures r.host == s.host
  {
    if scrapType != TEXT then s
    else match HostText(s.host)
      case None => s
      case Some(text) =>
        var a := ActiveEncoding(env, s);
        PushScrap(env, a.0, scrapType, ScrapData(env, a.1, text))
  }
}
