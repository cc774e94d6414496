# Clipboard bridge of the Basilisk II JS port, in Dafny

This project models the clipboard bridge of the Emscripten build of Basilisk II
(`BasiliskII/src/Unix/JS/clip_js.cpp`) and proves what it does. The bridge
connects the emulated classic Mac OS Scrap Manager with the browser's
clipboard.

- **GetScrap** runs when a Mac application reads the clipboard. It takes the
  host text and converts it to MacRoman or MacJapanese, choosing by the guest
  Script Manager's system script and region. It rewrites line feeds to
  carriage returns and copies the bytes into a fresh guest block. It then
  builds a small 68k routine that calls ZeroScrap and PutScrap. The
  reentrancy flag `we_put_this_data` is raised, the routine is run, and both
  blocks are disposed.
- **PutScrap** runs when the guest writes the clipboard. It forwards 'TEXT'
  to the host, unless the flag says the write is the echo of GetScrap's own
  routine.
- **GetMacScriptManagerVariable** does the Script Manager query. It builds an
  18-byte ScriptUtil routine in guest memory and runs it.

The modules follow the program's structure.

| module | file | what it holds |
|---|---|---|
| `MacMemory` | `mac_memory.dfy` | 68k integer widths and their truncations; big-endian 16/32-bit layout and its round trip; guest RAM as a byte map with store/load lemmas |
| `ClipText` | `clip_text.dfy` | `strlen`; the LF→CR rewrite as a function, and the in-place loop of GetScrap as a method on an array |
| `ScriptEncoding` | `script_encoding.dfy` | the Script Manager constants and the encoding choice of `getEncodingFunctions` |
| `GuestProcs` | `guest_procs.dfy` | the two 68k routine templates, their patch offsets, and the patched routines |
| `Bridge` | `bridge.dfy` | the machine state, the environment the bridge cannot see into, and one function per operation giving the next state |
| `ClipJs` | `clip_js.dfy` | class `Emulator`: the same state as fields, and one method per source function or step of one, each proved to change its fields exactly as the `Bridge` function of that name says |
| `BridgeProperties` | `properties.dfy` | the properties: the query outcome, the encoding choice, the PutScrap cases, GetScrap's trap sequence and guard discipline, echo suppression, and that every block allocated is disposed |

Things the bridge calls but cannot see into are parameters. They make up an
`Env` value:

- the top of the guest heap;
- the guest Script Manager's answers;
- the two conversion tables, as uninterpreted functions;
- whether the guest's PutScrap trap calls back into the bridge.

The guest heap is a bump allocator below that top. NewPtrSysClear returns 0
when a block does not fit. Every trap, every routine run and every host
`setText` is appended to a log. Two observers are defined on that log:

- `HostWrites` gives the texts handed to the host;
- `LiveBlocks` gives the guest blocks allocated and not yet disposed.

The file-level flag `we_put_this_data` (clip_js.cpp:17) is the field
`wePutThisData` of `ClipJs.Emulator` and the field `guard` of `Bridge.State`.
Its initial value, false, is the constructor's.

### A reentrancy flag left set

The comment on the flag (clip_js.cpp:15-16) says it means "the data was put
by GetScrap()". GetScrap sets the flag (clip_js.cpp:165) and only PutScrap
clears it (clip_js.cpp:190-193). When the guest's PutScrap trap does not call
back, the flag stays set, and the next genuine guest write is dropped as if
GetScrap had put it. The model follows the code:

- `CallScrapRoutineGuard` and `GetScrapTrace` prove that the flag is left
  down exactly when the guest calls back;
- `StuckGuardSwallowsNextPut` proves the swallowed write.

## Model

| member | source | states |
|---|---|---|
| MacMemory.ToU32 | BasiliskII/src/Unix/JS/clip_js.cpp:47 | a value as a 32-bit register holds it: unchanged when it fits, otherwise congruent to it modulo 2^32 |
| MacMemory.ToI32 | BasiliskII/src/Unix/JS/clip_js.cpp:47 | `int ret = r.d[0]`: the two's-complement reading of d0, equal to it below 2^31, negative above, and truncating back to it |
| MacMemory.BigEndian16 | BasiliskII/src/Unix/JS/clip_js.cpp:45 | WriteMacInt16's layout of a word: two bytes, which `BigEndian16RoundTrip` and `FromBigEndian16Inverse` show to be a bijection with the 16-bit values |
| MacMemory.BigEndian32 | BasiliskII/src/Unix/JS/clip_js.cpp:162-164 | WriteMacInt32's layout of a long: four bytes, which `BigEndian32RoundTrip` and `FromBigEndian32Inverse` show to be a bijection with the 32-bit values |
| MacMemory.BigEndian16RoundTrip | BasiliskII/src/Unix/JS/clip_js.cpp:45 | a word stored big-endian by WriteMacInt16 reads back as the same value |
| MacMemory.FromBigEndian16Inverse | BasiliskII/src/Unix/JS/clip_js.cpp:45 | every two bytes are the big-endian layout of the word `FromBigEndian16` reads from them |
| MacMemory.FromBigEndian32Inverse | BasiliskII/src/Unix/JS/clip_js.cpp:162-164 | every four bytes are the big-endian layout of the long `FromBigEndian32` reads from them |
| MacMemory.BigEndian32RoundTrip | BasiliskII/src/Unix/JS/clip_js.cpp:162-164 | a long stored big-endian by WriteMacInt32 reads back as the same value |
| MacMemory.PeekOfPoke | BasiliskII/src/Unix/JS/clip_js.cpp:121 | after a store of bytes (`PokeBytes`, as memcpy and Host2Mac_memcpy do), an address inside the stored range holds the stored byte and every other address holds what it held |
| MacMemory.Zeros | BasiliskII/src/Unix/JS/clip_js.cpp:41 | the contents of a block fresh from NewPtrSysClear: n bytes, every one zero |
| MacMemory.PeekAfterPoke | BasiliskII/src/Unix/JS/clip_js.cpp:44 | after Host2Mac_memcpy, the bytes at the destination are exactly the ones copied |
| MacMemory.PeekAfterDisjointPoke | BasiliskII/src/Unix/JS/clip_js.cpp:161-164 | a store leaves every byte range it does not overlap unchanged |
| MacMemory.PeekAfterInnerPoke | BasiliskII/src/Unix/JS/clip_js.cpp:45 | a store inside a range replaces exactly the stored part of that range and nothing else |
| ClipText.CStrLen | BasiliskII/src/Unix/JS/clip_js.cpp:103 | strlen: every element before the result is nonzero, and the result is the buffer's end or the index of a NUL |
| ClipText.LineBreakToMac | BasiliskII/src/Unix/JS/clip_js.cpp:106-107 | one step of the loop: the byte is never LF afterwards, and a byte that was not LF is kept |
| ClipText.LfToCr | BasiliskII/src/Unix/JS/clip_js.cpp:104-109 | same length; each LF becomes CR and every other byte stays; no LF is left |
| ClipText.NormalizeLineEndings | BasiliskII/src/Unix/JS/clip_js.cpp:103-109 | the in-place loop leaves the first n bytes equal to `LfToCr` of what they were, and the rest untouched |
| ScriptEncoding.SelectEncoding | BasiliskII/src/Unix/JS/clip_js.cpp:63-68 | MacJapanese if and only if script is 1 and region is 14; MacRoman otherwise, in particular whenever a query answered -1 |
| GuestProcs.ScriptUtilTemplateLayout | BasiliskII/src/Unix/JS/clip_js.cpp:32-39 | the ScriptUtil template is 18 bytes, with a zero placeholder for the selector at 4..5, the trap word 0xa8b5 at 12..13 and RTS at 16..17 |
| GuestProcs.ScrapTemplateLayout | BasiliskII/src/Unix/JS/clip_js.cpp:125-152 | the ZeroScrap/PutScrap template is 28 bytes, with ZeroScrap (0xa9fc) at 2..3, zero placeholders at 6..9, 12..15 and 18..21, PutScrap (0xa9fe) at 22..23 and RTS at 26..27 |
| GuestProcs.PatchedScriptUtil | BasiliskII/src/Unix/JS/clip_js.cpp:32-45 | the 18-byte ScriptUtil routine with varID big-endian at bytes 4..5, reading back as varID |
| GuestProcs.PatchedScriptUtilElsewhere | BasiliskII/src/Unix/JS/clip_js.cpp:32-39 | outside bytes 4..5 the patched ScriptUtil routine is the template |
| GuestProcs.ScriptUtilWrittenAt | BasiliskII/src/Unix/JS/clip_js.cpp:44-45 | the memcpy of the template and then WriteMacInt16 at +4 leave exactly the patched routine in guest memory |
| GuestProcs.PatchedScrap | BasiliskII/src/Unix/JS/clip_js.cpp:125-164 | the 28-byte routine holding length, type and buffer address as big-endian longs at 6..9, 12..15 and 18..21, each reading back as the value stored |
| GuestProcs.PatchedScrapElsewhere | BasiliskII/src/Unix/JS/clip_js.cpp:125-152 | outside those three fields the patched routine is the template |
| GuestProcs.ScrapWrittenAt | BasiliskII/src/Unix/JS/clip_js.cpp:161-164 | the memcpy of the template and then the three WriteMacInt32 calls leave exactly the patched routine in guest memory |
| Bridge.AllocResult | BasiliskII/src/Unix/JS/clip_js.cpp:40-42 | NewPtrSysClear's answer: nonzero exactly when a block of that size fits in the heap, and then a block below the heap's top |
| Bridge.Allocate | BasiliskII/src/Unix/JS/clip_js.cpp:40-42 | the trap is logged; on failure nothing else changes; on success the block is zero-filled and the heap moves past it |
| Bridge.Dispose | BasiliskII/src/Unix/JS/clip_js.cpp:48-49 | DisposePtr is logged and changes nothing else |
| Bridge.Store | BasiliskII/src/Unix/JS/clip_js.cpp:44 | the stored bytes can be read back at the address |
| Bridge.RunScriptUtil | BasiliskII/src/Unix/JS/clip_js.cpp:46-47 | running the routine logs it with the code found in memory, and changes nothing else |
| Bridge.QueryScriptVariable | BasiliskII/src/Unix/JS/clip_js.cpp:29-52 | a query never touches the guard, the host clipboard or the guest's scrap |
| Bridge.ActiveEncoding | BasiliskII/src/Unix/JS/clip_js.cpp:59-69 | resolving the encoding never touches the guard, the host clipboard or the guest's scrap |
| Bridge.HostText | BasiliskII/src/Unix/JS/clip_js.cpp:79-98 | there is text exactly when the host clipboard holds a nonempty string; it is that string's prefix up to its first NUL |
| Bridge.ScrapData | BasiliskII/src/Unix/JS/clip_js.cpp:100-109 | the converted buffer up to its NUL, with no LF; each LF became CR and every other byte is kept |
| Bridge.PutScrap | BasiliskII/src/Unix/JS/clip_js.cpp:188-207 | with the guard up, only the guard is cleared; otherwise a non-positive length or a non-'TEXT' type changes nothing, and the guard stays down |
| Bridge.HostTextOf | BasiliskII/src/Unix/JS/clip_js.cpp:200-201 | the text setText receives: mac_to_utf8's result up to its first NUL, as UTF8ToString reads the C string, so it holds no NUL and is a prefix of that result |
| Bridge.ForwardText | BasiliskII/src/Unix/JS/clip_js.cpp:197-200 | the 'TEXT' case leaves the guard and the guest's scrap as they were |
| Bridge.SetHostText | BasiliskII/src/Unix/JS/clip_js.cpp:199-200 | the host clipboard holds the text, one setText is logged, and nothing else changes |
| Bridge.RunScrapRoutine | BasiliskII/src/Unix/JS/clip_js.cpp:166 | run with the guard up, the routine leaves the host clipboard alone, and leaves the guard down exactly when the guest's PutScrap called back |
| Bridge.InstallScrapRoutine | BasiliskII/src/Unix/JS/clip_js.cpp:161-164 | only guest memory changes, and the routine's block then holds exactly the patched routine |
| Bridge.CallScrapRoutine | BasiliskII/src/Unix/JS/clip_js.cpp:153-172 | building and running the routine never changes the host clipboard |
| Bridge.PushScrap | BasiliskII/src/Unix/JS/clip_js.cpp:111-172 | handing the data to the guest never changes the host clipboard |
| Bridge.GetScrap | BasiliskII/src/Unix/JS/clip_js.cpp:91-179 | with a type other than 'TEXT', or no host text, nothing at all changes (no trap, no write, same guard); the host clipboard is never changed |
| BridgeProperties.HostWritesAppend | BasiliskII/src/Unix/JS/clip_js.cpp:199-200 | the host writes of two logs in sequence are those of the first, then those of the second |
| BridgeProperties.HostWritesGuestOnly | BasiliskII/src/Unix/JS/clip_js.cpp:40-49 | events that are traps or routine runs add no host write |
| BridgeProperties.ReplayAppend | BasiliskII/src/Unix/JS/clip_js.cpp:41-49 | the live blocks after two runs of events are found by replaying them one run after the other |
| BridgeProperties.ReplayOneBlock | BasiliskII/src/Unix/JS/clip_js.cpp:41-49 | allocating a block, running a routine in it and disposing it leaves the live blocks as they were |
| BridgeProperties.ReplayTwoBlocks | BasiliskII/src/Unix/JS/clip_js.cpp:114-172 | GetScrap's two nested blocks, disposed inner first and then outer, leave the live blocks as they were, even when the inner allocation gave 0 |
| BridgeProperties.GuestAnswer | BasiliskII/src/Unix/JS/clip_js.cpp:47 | the reported d0 equals the guest's answer whenever that answer fits a signed long |
| BridgeProperties.QueryWithoutBlock | BasiliskII/src/Unix/JS/clip_js.cpp:40-43 | with no room for 18 bytes the query answers -1, and nothing but the failed allocation is logged |
| BridgeProperties.QueryWithBlock | BasiliskII/src/Unix/JS/clip_js.cpp:40-51 | with room, the query answers the guest's d0. It logs exactly NewPtrSysClear(18), the patched routine run at that block, and DisposePtr of the same block; the heap moves by 18, and the block holds the patched routine |
| BridgeProperties.QueryMovesHeap | BasiliskII/src/Unix/JS/clip_js.cpp:40-50 | the query moves the heap by 18 when its block fits and leaves it where it was otherwise |
| BridgeProperties.QueryLeavesOtherBytes | BasiliskII/src/Unix/JS/clip_js.cpp:40-50 | the query changes no guest byte outside its 18-byte block, and none at all when the allocation fails |
| BridgeProperties.QueryKeepsHostAndHeap | BasiliskII/src/Unix/JS/clip_js.cpp:29-52 | a query makes no host write and disposes every block it allocates |
| BridgeProperties.EncodingIsJapaneseIff | BasiliskII/src/Unix/JS/clip_js.cpp:59-69 | MacJapanese if and only if both queries got a block and the guest answered 1 for the system script and 14 for the region |
| BridgeProperties.EncodingLeavesOtherBytes | BasiliskII/src/Unix/JS/clip_js.cpp:59-61 | the two queries change no guest byte below the heap's old next address or beyond the 36 bytes above it |
| BridgeProperties.EncodingKeepsHostAndHeap | BasiliskII/src/Unix/JS/clip_js.cpp:59-61 | resolving the encoding makes no host write and disposes every block it allocates |
| BridgeProperties.PutScrapForwardsText | BasiliskII/src/Unix/JS/clip_js.cpp:197-200 | a genuine positive-length 'TEXT' write sets the host clipboard to mac_to_utf8 of the first length bytes, cut by UTF8ToString at its first NUL, so the host text holds no NUL. It is exactly one more host write, and the guard stays down |
| BridgeProperties.HostTextStopsAtNul | BasiliskII/src/Unix/JS/clip_js.cpp:200 | a conversion that yields "a\0b" is handed to setText as "a" |
| BridgeProperties.ForwardedTextStopsAtNul | BasiliskII/src/Unix/JS/clip_js.cpp:200-201 | a guest 'TEXT' write whose conversion is "a\0b" sets the host clipboard to "a" |
| BridgeProperties.PutScrapEcho | BasiliskII/src/Unix/JS/clip_js.cpp:190-193 | with the guard up, whatever the type and length: the guard is cleared, and the host clipboard and the log are unchanged |
| BridgeProperties.PutScrapWritesAtMostOnce | BasiliskII/src/Unix/JS/clip_js.cpp:188-207 | every PutScrap ends with the guard down and disposes what it allocates. It makes one host write of the new text for a genuine positive 'TEXT' write; otherwise it makes none and leaves the host clipboard unchanged |
| BridgeProperties.AllocateLeavesOtherBytes | BasiliskII/src/Unix/JS/clip_js.cpp:154 | NewPtrSysClear clears only the block it hands out |
| BridgeProperties.InstallLeavesOtherBytes | BasiliskII/src/Unix/JS/clip_js.cpp:161-164 | installing the routine changes no byte outside its 28 |
| BridgeProperties.PushEventsBalanced | BasiliskII/src/Unix/JS/clip_js.cpp:114-172 | GetScrap's traps and routine after the queries make no host write, and leave the live blocks as they were |
| BridgeProperties.RunPatchedScrapRoutineTrace | BasiliskII/src/Unix/JS/clip_js.cpp:165-166 | run with the guard up, the patched routine is logged once, as patched and guarded; the guard is left down exactly when the guest called back |
| BridgeProperties.RunPatchedScrapRoutineScrap | BasiliskII/src/Unix/JS/clip_js.cpp:166 | the patched routine leaves the guest's scrap holding exactly the length bytes at the buffer address |
| BridgeProperties.CallScrapRoutineTrace | BasiliskII/src/Unix/JS/clip_js.cpp:153-172 | rest of GetScrap, in order: NewPtrSysClear(28), which is unchecked; the patched routine run with the guard up; DisposePtr of the routine's block, then of the scrap block |
| BridgeProperties.CallScrapRoutineGuard | BasiliskII/src/Unix/JS/clip_js.cpp:165-166 | the guard is left down exactly when the guest's PutScrap called back; the host clipboard is unchanged |
| BridgeProperties.CallScrapRoutineScrap | BasiliskII/src/Unix/JS/clip_js.cpp:153-166 | the guest's scrap ends up holding the length bytes at the scrap address, if the routine's block does not overlap them |
| BridgeProperties.PushScrapTrace | BasiliskII/src/Unix/JS/clip_js.cpp:111-172 | with a scrap block, the five events of the read path are logged in the source's order. The guard is left down exactly when the guest called back |
| BridgeProperties.PushScrapDelivers | BasiliskII/src/Unix/JS/clip_js.cpp:111-166 | the guest's scrap holds exactly the converted data |
| BridgeProperties.PushScrapKeepsHostAndHeap | BasiliskII/src/Unix/JS/clip_js.cpp:111-172 | the push makes no host write and disposes every block it allocates, whether the scrap allocation succeeds or not |
| BridgeProperties.GetScrapStopsWithoutScrapBlock | BasiliskII/src/Unix/JS/clip_js.cpp:111-119 | if the scrap allocation fails, only that failed trap follows the queries: no guest write, no routine and the same guard |
| BridgeProperties.GetScrapTrace | BasiliskII/src/Unix/JS/clip_js.cpp:91-179 | a 'TEXT' read logs the queries, then the five events of the read path, with the guard up while the routine runs. The guard is left down exactly when the guest called back |
| BridgeProperties.GetScrapDelivers | BasiliskII/src/Unix/JS/clip_js.cpp:100-166 | the guest's scrap holds exactly the converted, LF-free text |
| BridgeProperties.GetScrapKeepsHostAndHeap | BasiliskII/src/Unix/JS/clip_js.cpp:91-179 | echo suppression: no GetScrap makes a host write or changes the host clipboard, and every block it allocates is disposed |
| BridgeProperties.StuckGuardSwallowsNextPut | BasiliskII/src/Unix/JS/clip_js.cpp:165-193 | when the guest does not call back the guard stays up, and the next genuine 'TEXT' write from the guest never reaches the host |
| BridgeProperties.ForwardedEchoSuppressed | BasiliskII/src/Unix/JS/clip_js.cpp:165-193 | when the guest calls back, GetScrap makes no host write, leaves the host clipboard alone and ends with the guard down |
| BridgeProperties.TwoLinesReachGuest | BasiliskII/src/Unix/JS/clip_js.cpp:100-109 | "hello\nworld" with an ASCII encoding is converted to "hello\rworld" |
| ClipJs.Emulator.constructor | BasiliskII/src/Unix/JS/clip_js.cpp:17 | a fresh machine with the caller's environment, heap start and host clipboard, empty memory, no events, no guest scrap, and `we_put_this_data` false |
| ClipJs.Emulator.NewPtrSysClear | BasiliskII/src/Unix/JS/clip_js.cpp:40-42 | changes the fields as `Bridge.Allocate` and returns its pointer |
| ClipJs.Emulator.DisposePtr | BasiliskII/src/Unix/JS/clip_js.cpp:48-49 | changes the fields as `Bridge.Dispose` |
| ClipJs.Emulator.Host2MacMemcpy | BasiliskII/src/Unix/JS/clip_js.cpp:44 | changes the fields as `Bridge.Store` |
| ClipJs.Emulator.WriteMacInt16 | BasiliskII/src/Unix/JS/clip_js.cpp:45 | stores the big-endian word |
| ClipJs.Emulator.WriteMacInt32 | BasiliskII/src/Unix/JS/clip_js.cpp:162-164 | stores the big-endian long |
| ClipJs.Emulator.ExecuteScriptUtil | BasiliskII/src/Unix/JS/clip_js.cpp:46-47 | changes the fields as `Bridge.RunScriptUtil` and returns its d0 |
| ClipJs.Emulator.ExecuteScrapRoutine | BasiliskII/src/Unix/JS/clip_js.cpp:166 | changes the fields as `Bridge.RunScrapRoutine`, calling back into ZeroScrap and PutScrap when the guest forwards |
| ClipJs.Emulator.HostSetClipboardText | BasiliskII/src/Unix/JS/clip_js.cpp:199-200 | changes the fields as `Bridge.SetHostText` |
| ClipJs.Emulator.GetMacScriptManagerVariable | BasiliskII/src/Unix/JS/clip_js.cpp:29-52 | changes the fields as `Bridge.QueryScriptVariable` and returns its answer |
| ClipJs.Emulator.GetEncodingFunctions | BasiliskII/src/Unix/JS/clip_js.cpp:59-69 | changes the fields as `Bridge.ActiveEncoding` and returns its encoding |
| ClipJs.Emulator.GetClipboardText | BasiliskII/src/Unix/JS/clip_js.cpp:79-88 | returns `Bridge.HostText` of the host clipboard |
| ClipJs.Emulator.ClipInit | BasiliskII/src/Unix/JS/clip_js.cpp:71-73 | changes nothing |
| ClipJs.Emulator.ClipExit | BasiliskII/src/Unix/JS/clip_js.cpp:75-77 | changes nothing |
| ClipJs.Emulator.GetScrap | BasiliskII/src/Unix/JS/clip_js.cpp:91-179 | changes the fields as `Bridge.GetScrap` |
| ClipJs.Emulator.ConvertForGuest | BasiliskII/src/Unix/JS/clip_js.cpp:100-109 | the encoded copy, rewritten in place by the LF loop up to its NUL, is `Bridge.ScrapData` |
| ClipJs.Emulator.PushScrap | BasiliskII/src/Unix/JS/clip_js.cpp:111-172 | changes the fields as `Bridge.PushScrap` |
| ClipJs.Emulator.CallScrapRoutine | BasiliskII/src/Unix/JS/clip_js.cpp:153-172 | changes the fields as `Bridge.CallScrapRoutine` |
| ClipJs.Emulator.InstallScrapRoutine | BasiliskII/src/Unix/JS/clip_js.cpp:161-164 | changes the fields as `Bridge.InstallScrapRoutine` |
| ClipJs.Emulator.ZeroScrap | BasiliskII/src/Unix/JS/clip_js.cpp:182-184 | changes nothing |
| ClipJs.Emulator.PutScrap | BasiliskII/src/Unix/JS/clip_js.cpp:187-207 | changes the fields as `Bridge.PutScrap` |
| ClipJs.Emulator.ForwardText | BasiliskII/src/Unix/JS/clip_js.cpp:197-200 | changes the fields as `Bridge.ForwardText` |

## Left out

- The JavaScript side (`EM_JS getClipboardText`, `EM_ASM` with `workerApi.setClipboardText`) is foreign code. The host clipboard is a field, and `setText` is a logged event.
- Real 68k execution of `Execute68k` and `Execute68kTrap` is not modelled: no registers, no stack, no trap dispatch. NewPtrSysClear is a bump allocator that returns 0 when the block would pass the heap's top. DisposePtr is logged and reclaims nothing. The ScriptUtil routine's answer is `Env.scriptVariable` of the selector the guest finds in the code. The PutScrap routine replaces the guest's scrap with the data the code points at. It calls back into the bridge's ZeroScrap and PutScrap when `Env.forwardsPutScrap` holds.
- The MacRoman and MacJapanese tables (`BasiliskII/src/Unix/mac_encodings.h`, a typedef and a prototype) are uninterpreted functions in `Env`. No round trip is claimed.
- `M68K_RTS` comes from `emul_op.h`, which is not part of this model. It is taken to be 0x4e75, the 68k RTS opcode.
- The host `malloc`/`free` of the C strings is not modelled, because host memory is outside the state. So the leak of the encoded buffer when the scrap allocation fails is not modelled either. The model's GetScrap stops at that point, as the source does.
- The debug logging `D(bug(...))` and `FOURCCstr` are left out, because they have no effect.
- GetScrap's `handle` and `offset` arguments are left out, because the source never uses them.
- PutScrap's scrap pointer is the byte sequence it points at, read at the call. PutScrap requires `length` to be at most that sequence's length, because the source reads `length` bytes through the pointer.
- NewPtrSysClear of 0 bytes returns the heap's next address without moving it. When the converted text is empty (the host text starts with NUL, or its conversion starts with a 0 byte), the routine's block is then the scrap block. The real Memory Manager hands out distinct blocks. No proved property depends on the two being distinct.
- The routine's block is never checked for 0. The model keeps this, so a failed allocation writes the routine at address 0, runs it there and disposes 0.
- BridgeProperties.CallScrapRoutineScrap: states the guest's scrap only when the routine's block does not overlap the scrap bytes, and the length is below 2^31. An overlap happens when that block was 0 and the scrap data starts below 28; above 2^31 the routine's length reads back negative.
- BridgeProperties.GetScrapDelivers: carries the same two conditions as CallScrapRoutineScrap.
- BridgeProperties.PushScrapDelivers: carries the same two conditions as CallScrapRoutineScrap.
- A host buffer is shorter than 2^32 bytes, because the JS port is built for wasm32 and its `size_t` is 32 bits. This is why the length fits the 32-bit immediate.
