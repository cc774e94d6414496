/**
 * What the bridge promises, proved about the Bridge functions (and so, through
 * the methods' postconditions, about ClipJs.Emulator): the outcome of a Script
 * Manager query, the choice of encoding, the PutScrap cases, the exact trap
 * sequence of GetScrap with its guard discipline, and that a bridge-initiated
 * write never reaches the host clipboard.
 */
module BridgeProperties {
  import opened Wrappers
  import opened MacMemory
  import opened ClipText
  import opened ScriptEncoding
  import opened GuestProcs
  import opened Bridge

  // ---------------------------------------------------------------------------
  // Observers

  /** The texts handed to the host's setText, oldest first. */
  function HostWrites(log: seq<Event>): (w: seq<string>)
    ensures |w| <= |log|
  {
    if log == [] then []
    else
      var e := log[|log| - 1];
      HostWrites(log[..|log| - 1]) + if e.SetClipboardText? then [e.text] else []
  }

  /** Four events logged one at a time are the four logged together. */
  lemma AppendFour(log: seq<Event>, a: Event, b: Event, c: Event, d: Event)
    ensures log + [a] + [b] + [c] + [d] == log + [a, b, c, d]
  {
  }

  /** One event logged, then four together, are the five logged together. */
  lemma AppendOneThenFour(log: seq<Event>, x: Event, a: Event, b: Event, c: Event, d: Event)
    ensures log + [x] + [a, b, c, d] == log + [x, a, b, c, d]
  {
  }

  /** An event that is not a host setText call. */
  predicate GuestOnly(e: Event)
  {
    !e.SetClipboardText?
  }

  lemma {:induction false} HostWritesAppend(a: seq<Event>, b: seq<Event>)
    ensures HostWrites(a + b) == HostWrites(a) + HostWrites(b)
    decreases |b|
  {
    if b == [] {
      assert a + b == a;
    } else {
      var b' := b[..|b| - 1];
      assert (a + b)[..|a + b| - 1] == a + b';
      HostWritesAppend(a, b');
    }
  }

  /** Appending events none of which is a setText adds no host write. */
  lemma {:induction false} HostWritesGuestOnly(log: seq<Event>, events: seq<Event>)
    requires forall i :: 0 <= i < |events| ==> GuestOnly(events[i])
    ensures HostWrites(log + events) == HostWrites(log)
    decreases |events|
  {
    if events == [] {
      assert log + events == log;
    } else {
      var e' := events[..|events| - 1];
      assert (log + events)[..|log + events| - 1] == log + e';
      HostWritesGuestOnly(log, e');
    }
  }

  /**
   * The guest heap's bookkeeping after one event: an allocation that
   * succeeded adds its block, a disposal removes it (disposing the null
   * pointer releases nothing).
   */
  function LiveAfter(live: multiset<int>, e: Event): (after: multiset<int>)
  {
    match e
    case NewPtrSysClear(_, p) => if p != 0 then live + multiset{p} else live
    case DisposePtr(p) => if p != 0 then live - multiset{p} else live
    case _ => live
  }

  /** The blocks live after replaying events, oldest first, from the given ones. */
  function Replay(live: multiset<int>, events: seq<Event>): (after: multiset<int>)
    decreases |events|
  {
    if events == [] then live else Replay(LiveAfter(live, events[0]), events[1..])
  }

  /** The blocks the bridge has allocated and not yet disposed. */
  function LiveBlocks(log: seq<Event>): (live: multiset<int>)
  {
    Replay(multiset{}, log)
  }

  lemma {:induction false} ReplayAppend(live: multiset<int>, a: seq<Event>, b: seq<Event>)
    ensures Replay(live, a + b) == Replay(Replay(live, a), b)
    decreases |a|
  {
    if a == [] {
      assert a + b == b;
    } else {
      assert (a + b)[0] == a[0];
      assert (a + b)[1..] == a[1..] + b;
      ReplayAppend(LiveAfter(live, a[0]), a[1..], b);
    }
  }

  lemma ReplayStep(live: multiset<int>, events: seq<Event>)
    requires events != []
    ensures Replay(live, events) == Replay(LiveAfter(live, events[0]), events[1..])
  {
  }

  /** A host setText leaves the live blocks as they were. */
  lemma ReplayHostWrite(live: multiset<int>, text: string)
    ensures Replay(live, [SetClipboardText(text)]) == live
  {
    ReplayStep(live, [SetClipboardText(text)]);
  }

  /** An allocation that failed, alone, leaves the live blocks as they were. */
  lemma ReplayFailedAllocation(live: multiset<int>, size: U32)
    ensures Replay(live, [Event.NewPtrSysClear(size, 0)]) == live
  {
    ReplayStep(live, [Event.NewPtrSysClear(size, 0)]);
  }

  /**
   * A block allocated, used by one routine and disposed (or, when the
   * allocation failed, the null pointer used and disposed) leaves the live
   * blocks as they were.
   */
  lemma ReplayOneBlock(live: multiset<int>, size: U32, p: int, e: Event)
    requires !e.NewPtrSysClear? && !e.DisposePtr?
    ensures Replay(live, [Event.NewPtrSysClear(size, p), e, Event.DisposePtr(p)]) == live
  {
    var l1 := if p != 0 then live + multiset{p} else live;
    ReplayStep(live, [Event.NewPtrSysClear(size, p), e, Event.DisposePtr(p)]);
    ReplayStep(l1, [e, Event.DisposePtr(p)]);
    ReplayStep(l1, [Event.DisposePtr(p)]);
    assert p != 0 ==> l1 - multiset{p} == live;
  }

  /**
   * GetScrap's two blocks: the scrap block sa and the routine's block pa
   * (which may be 0) are allocated, the routine runs, and pa then sa are
   * disposed, which leaves the live blocks as they were.
   */
  lemma ReplayTwoBlocks(live: multiset<int>, n: U32, sa: int, m: U32, pa: int, e: Event)
    requires sa != 0 && !e.NewPtrSysClear? && !e.DisposePtr?
    ensures Replay(live, [Event.NewPtrSysClear(n, sa), Event.NewPtrSysClear(m, pa), e,
                          Event.DisposePtr(pa), Event.DisposePtr(sa)]) == live
  {
    var l1 := live + multiset{sa};
    var inner := [Event.NewPtrSysClear(m, pa), e, Event.DisposePtr(pa)];
    assert [Event.NewPtrSysClear(n, sa), Event.NewPtrSysClear(m, pa), e, Event.DisposePtr(pa), Event.DisposePtr(sa)]
        == [Event.NewPtrSysClear(n, sa)] + inner + [Event.DisposePtr(sa)];
    ReplayStep(live, [Event.NewPtrSysClear(n, sa)] + inner + [Event.DisposePtr(sa)]);
    assert ([Event.NewPtrSysClear(n, sa)] + inner + [Event.DisposePtr(sa)])[1..] == inner + [Event.DisposePtr(sa)];
    ReplayAppend(l1, inner, [Event.DisposePtr(sa)]);
    ReplayOneBlock(l1, m, pa, e);
    ReplayStep(l1, [Event.DisposePtr(sa)]);
    assert l1 - multiset{sa} == live;
  }

  /**
   * d0 as GetMacScriptManagerVariable reports it: the guest's answer
   * truncated to a 32-bit register and read back as a signed int, which is
   * the answer itself whenever it fits.
   */
  function GuestAnswer(env: Env, varID: U16): (v: I32)
    ensures -TWO_31 <= env.scriptVariable(varID) < TWO_31 ==> v == env.scriptVariable(varID)
  {
    var x := env.scriptVariable(varID);
    assert 0 <= x < TWO_31 ==> ToU32(x) == x;
    assert -TWO_31 <= x < 0 ==> ToU32(x) == x + TWO_32;
    ToI32(ToU32(x))
  }

  // ---------------------------------------------------------------------------
  // GetMacScriptManagerVariable

  /** With no room for the 18-byte routine the query answers -1 and only logs the attempt. */
  lemma QueryWithoutBlock(env: Env, s: State, varID: U16)
    requires AllocResult(env, s, |ScriptUtilTemplate|) == 0
    ensures QueryScriptVariable(env, s, varID).1 == QueryFailed
    ensures QueryScriptVariable(env, s, varID).0
         == s.(log := s.log + [Event.NewPtrSysClear(|ScriptUtilTemplate|, 0)])
  {
  }

  /**
   * With room on the heap the query takes the block at the heap's next
   * address, runs the template patched with varID there, disposes the block
   * and answers the guest's d0.
   */
  lemma QueryWithBlock(env: Env, s: State, varID: U16)
    requires AllocResult(env, s, |ScriptUtilTemplate|) != 0
    ensures QueryScriptVariable(env, s, varID).1 == GuestAnswer(env, varID)
    ensures QueryScriptVariable(env, s, varID).0.log
         == s.log + [Event.NewPtrSysClear(|ScriptUtilTemplate|, s.heapNext),
                     Execute68k(s.heapNext, PatchedScriptUtil(varID), s.guard),
                     Event.DisposePtr(s.heapNext)]
    ensures QueryScriptVariable(env, s, varID).0.heapNext == s.heapNext + |ScriptUtilTemplate|
    ensures PeekBytes(QueryScriptVariable(env, s, varID).0.mem, s.heapNext, |ScriptUtilTemplate|)
         == PatchedScriptUtil(varID)
  {
    var a := Allocate(env, s, |ScriptUtilTemplate|);
    var p := a.1;
    var s2 := Store(Store(a.0, p, ScriptUtilTemplate), p + VarIdOffset, BigEndian16(varID));
    ScriptUtilWrittenAt(a.0.mem, p, varID);
    var code := PeekBytes(s2.mem, p, |ScriptUtilTemplate|);
    assert code == PatchedScriptUtil(varID);
    assert FromBigEndian16(code[VarIdOffset..VarIdOffset + 2]) == varID;
    var run := RunScriptUtil(env, s2, p);
    assert run.1 == ToU32(env.scriptVariable(varID));
    assert run.0.log == a.0.log + [Execute68k(p, code, s.guard)];
  }

  /** A query moves the heap past its block when it got one, and not at all otherwise. */
  lemma QueryMovesHeap(env: Env, s: State, varID: U16)
    ensures QueryScriptVariable(env, s, varID).0.heapNext
         == if AllocResult(env, s, |ScriptUtilTemplate|) != 0 then s.heapNext + |ScriptUtilTemplate| else s.heapNext
  {
    if AllocResult(env, s, |ScriptUtilTemplate|) != 0 {
      QueryWithBlock(env, s, varID);
    }
  }

  /** A query writes no guest byte outside the 18-byte block it obtained. */
  lemma QueryLeavesOtherBytes(env: Env, s: State, varID: U16, b: int, n: nat)
    requires var p := AllocResult(env, s, |ScriptUtilTemplate|);
             p == 0 || b + n <= p || p + |ScriptUtilTemplate| <= b
    ensures PeekBytes(QueryScriptVariable(env, s, varID).0.mem, b, n) == PeekBytes(s.mem, b, n)
  {
    var a := Allocate(env, s, |ScriptUtilTemplate|);
    var p := a.1;
    if p != 0 {
      AllocateLeavesOtherBytes(env, s, |ScriptUtilTemplate|, b, n);
      var m1 := PokeBytes(a.0.mem, p, ScriptUtilTemplate);
      PeekAfterDisjointPoke(a.0.mem, p, ScriptUtilTemplate, b, n);
      PeekAfterDisjointPoke(m1, p + VarIdOffset, BigEndian16(varID), b, n);
    }
  }

  /**
   * Resolving the encoding writes no guest byte outside the two 18-byte
   * blocks at the heap's next address.
   */
  lemma EncodingLeavesOtherBytes(env: Env, s: State, b: int, n: nat)
    requires b + n <= s.heapNext || s.heapNext + 2 * |ScriptUtilTemplate| <= b
    ensures PeekBytes(ActiveEncoding(env, s).0.mem, b, n) == PeekBytes(s.mem, b, n)
  {
    var q1 := QueryScriptVariable(env, s, smMacSysScript);
    QueryLeavesOtherBytes(env, s, smMacSysScript, b, n);
    QueryMovesHeap(env, s, smMacSysScript);
    QueryLeavesOtherBytes(env, q1.0, smMacRegionCode, b, n);
  }

  /** A query never writes the host clipboard and disposes every block it allocates. */
  lemma QueryKeepsHostAndHeap(env: Env, s: State, varID: U16)
    ensures HostWrites(QueryScriptVariable(env, s, varID).0.log) == HostWrites(s.log)
    ensures LiveBlocks(QueryScriptVariable(env, s, varID).0.log) == LiveBlocks(s.log)
  {
    var p := AllocResult(env, s, |ScriptUtilTemplate|);
    var events;
    if p == 0 {
      events := [Event.NewPtrSysClear(|ScriptUtilTemplate|, 0)];
      ReplayFailedAllocation(LiveBlocks(s.log), |ScriptUtilTemplate|);
    } else {
      QueryWithBlock(env, s, varID);
      var e := Execute68k(s.heapNext, PatchedScriptUtil(varID), s.guard);
      events := [Event.NewPtrSysClear(|ScriptUtilTemplate|, s.heapNext), e, Event.DisposePtr(s.heapNext)];
      ReplayOneBlock(LiveBlocks(s.log), |ScriptUtilTemplate|, s.heapNext, e);
    }
    assert QueryScriptVariable(env, s, varID).0.log == s.log + events;
    HostWritesGuestOnly(s.log, events);
    ReplayAppend(multiset{}, s.log, events);
  }

  // ---------------------------------------------------------------------------
  // getEncodingFunctions

  /**
   * The Japanese pair is chosen exactly when both queries get a block (the
   * heap has room for two routines) and the guest answers 1 for the system
   * script and 14 for the region; a query that fails falls back to MacRoman.
   */
  lemma EncodingIsJapaneseIff(env: Env, s: State)
    ensures ActiveEncoding(env, s).1 == MacJapanese <==>
            (0 < s.heapNext && s.heapNext + 2 * |ScriptUtilTemplate| <= env.heapLimit &&
             GuestAnswer(env, smMacSysScript) == smJapanese &&
             GuestAnswer(env, smMacRegionCode) == verJapan)
  {
    var q1 := QueryScriptVariable(env, s, smMacSysScript);
    if AllocResult(env, s, |ScriptUtilTemplate|) == 0 {
      QueryWithoutBlock(env, s, smMacSysScript);
    } else {
      QueryWithBlock(env, s, smMacSysScript);
      if AllocResult(env, q1.0, |ScriptUtilTemplate|) == 0 {
        QueryWithoutBlock(env, q1.0, smMacRegionCode);
      } else {
        QueryWithBlock(env, q1.0, smMacRegionCode);
      }
    }
  }

  /** Resolving the encoding never writes the host clipboard and disposes every block it allocates. */
  lemma EncodingKeepsHostAndHeap(env: Env, s: State)
    ensures HostWrites(ActiveEncoding(env, s).0.log) == HostWrites(s.log)
    ensures LiveBlocks(ActiveEncoding(env, s).0.log) == LiveBlocks(s.log)
  {
    var q1 := QueryScriptVariable(env, s, smMacSysScript);
    QueryKeepsHostAndHeap(env, s, smMacSysScript);
    QueryKeepsHostAndHeap(env, q1.0, smMacRegionCode);
  }

  // ---------------------------------------------------------------------------
  // PutScrap

  /**
   * A genuine text write from the guest: exactly one setText, of the scrap's
   * first length bytes converted with the active encoding, and the guard
   * stays down.
   */
  lemma PutScrapForwardsText(env: Env, s: State, scrap: seq<Byte>, length: I32)
    requires length <= |scrap|
    requires !s.guard && 0 < length
    ensures PutScrap(env, s, TEXT, scrap, length).host
         == Some(HostTextOf(env, ActiveEncoding(env, s).1, scrap[..length]))
    ensures HostWrites(PutScrap(env, s, TEXT, scrap, length).log)
         == HostWrites(s.log) + [HostTextOf(env, ActiveEncoding(env, s).1, scrap[..length])]
    ensures var t := PutScrap(env, s, TEXT, scrap, length).host.value;
            var full := env.macToUtf8(ActiveEncoding(env, s).1, scrap[..length]);
            '\0' !in t && t <= full && (|t| == |full| || full[|t|] == '\0')
    ensures !PutScrap(env, s, TEXT, scrap, length).guard
  {
    var a := ActiveEncoding(env, s);
    var text := HostTextOf(env, a.1, scrap[..length]);
    EncodingKeepsHostAndHeap(env, s);
    HostWritesAppend(a.0.log, [SetClipboardText(text)]);
  }

  /** UTF8ToString stops at the first NUL: "a\0b" is read as "a". */
  lemma HostTextStopsAtNul(env: Env, enc: Encoding, bytes: seq<Byte>)
    requires env.macToUtf8(enc, bytes) == "a\0b"
    ensures HostTextOf(env, enc, bytes) == "a"
  {
    var full := "a\0b";
    assert full[1..] == "\0b";
    assert CStrLen(full, '\0') == 1;
  }

  /**
   * A converted text with an embedded NUL reaches the host only up to that
   * NUL: "a\0b" is handed over as "a".
   */
  lemma ForwardedTextStopsAtNul(env: Env, s: State)
    requires !s.guard
    requires env.macToUtf8(ActiveEncoding(env, s).1, [97, 0, 98]) == "a\0b"
    ensures PutScrap(env, s, TEXT, [97, 0, 98], 3).host == Some("a")
  {
    var bytes: seq<Byte> := [97, 0, 98];
    assert bytes[..3] == bytes;
    HostTextStopsAtNul(env, ActiveEncoding(env, s).1, bytes);
    PutScrapForwardsText(env, s, bytes, 3);
  }

  /** The echo of the bridge's own write: the guard is cleared and nothing is logged. */
  lemma PutScrapEcho(env: Env, s: State, scrapType: U32, scrap: seq<Byte>, length: I32)
    requires length <= |scrap|
    requires s.guard
    ensures var r := PutScrap(env, s, scrapType, scrap, length);
            !r.guard && r.host == s.host && r.log == s.log
  {
  }

  /**
   * Every PutScrap leaves the guard down and makes at most one host write:
   * the new clipboard text, and only for a genuine positive-length 'TEXT'
   * write; it disposes every block it allocates.
   */
  lemma PutScrapWritesAtMostOnce(env: Env, s: State, scrapType: U32, scrap: seq<Byte>, length: I32)
    requires length <= |scrap|
    ensures var r := PutScrap(env, s, scrapType, scrap, length);
            (!r.guard && LiveBlocks(r.log) == LiveBlocks(s.log) &&
             (if !s.guard && 0 < length && scrapType == TEXT
              then HostWrites(r.log) == HostWrites(s.log) + [r.host.value]
              else HostWrites(r.log) == HostWrites(s.log) && r.host == s.host))
  {
    if !s.guard && 0 < length && scrapType == TEXT {
      var a := ActiveEncoding(env, s);
      var text := HostTextOf(env, a.1, scrap[..length]);
      PutScrapForwardsText(env, s, scrap, length);
      EncodingKeepsHostAndHeap(env, s);
      ReplayAppend(multiset{}, a.0.log, [SetClipboardText(text)]);
      ReplayHostWrite(LiveBlocks(a.0.log), text);
    } else {
      assert PutScrap(env, s, scrapType, scrap, length).log == s.log;
    }
  }

  // ---------------------------------------------------------------------------
  // GetScrap

  /** NewPtrSysClear clears only the block it hands out. */
  lemma AllocateLeavesOtherBytes(env: Env, s: State, size: U32, b: int, n: nat)
    requires var p := AllocResult(env, s, size); p == 0 || b + n <= p || p + size <= b
    ensures PeekBytes(Allocate(env, s, size).0.mem, b, n) == PeekBytes(s.mem, b, n)
  {
    var p := AllocResult(env, s, size);
    if p != 0 {
      PeekAfterDisjointPoke(s.mem, p, Zeros(size), b, n);
    }
  }

  /** InstallScrapRoutine touches only the routine's 28 bytes. */
  lemma InstallLeavesOtherBytes(s: State, proc: int, length: U32, scrapType: U32, scrap: U32,
                                b: int, n: nat)
    requires b + n <= proc || proc + |ScrapTemplate| <= b
    ensures PeekBytes(InstallScrapRoutine(s, proc, length, scrapType, scrap).mem, b, n)
         == PeekBytes(s.mem, b, n)
  {
    var m1 := PokeBytes(s.mem, proc, ScrapTemplate);
    var m2 := PokeBytes(m1, proc + LengthOffset, BigEndian32(length));
    var m3 := PokeBytes(m2, proc + TypeOffset, BigEndian32(scrapType));
    PeekAfterDisjointPoke(s.mem, proc, ScrapTemplate, b, n);
    PeekAfterDisjointPoke(m1, proc + LengthOffset, BigEndian32(length), b, n);
    PeekAfterDisjointPoke(m2, proc + TypeOffset, BigEndian32(scrapType), b, n);
    PeekAfterDisjointPoke(m3, proc + BufferOffset, BigEndian32(scrap), b, n);
  }

  /**
   * After the scrap block at sa is filled, the routine's block is the next
   * one on the heap, or 0 (unchecked) when the heap has no room for it.
   */
  function RoutineBlock(env: Env, sa: int, size: nat): (pa: int)
  {
    if sa + size + |ScrapTemplate| <= env.heapLimit then sa + size else 0
  }

  /** The events of GetScrap after the encoding queries, once the scrap block sa exists. */
  function PushEvents(env: Env, sa: int, scrapType: U32, size: U32): (events: seq<Event>)
    requires 0 <= sa < TWO_32
  {
    var pa := RoutineBlock(env, sa, size);
    [Event.NewPtrSysClear(size, sa),
     Event.NewPtrSysClear(|ScrapTemplate|, pa),
     Execute68k(pa, PatchedScrap(size, scrapType, sa), true),
     Event.DisposePtr(pa),
     Event.DisposePtr(sa)]
  }

  /** GetScrap's events after the queries issue no setText and leave the live blocks as they were. */
  lemma PushEventsBalanced(live: multiset<int>, env: Env, sa: int, scrapType: U32, size: U32)
    requires 0 < sa < TWO_32
    ensures Replay(live, PushEvents(env, sa, scrapType, size)) == live
    ensures forall i :: 0 <= i < |PushEvents(env, sa, scrapType, size)| ==>
              GuestOnly(PushEvents(env, sa, scrapType, size)[i])
  {
    var pa := RoutineBlock(env, sa, size);
    ReplayTwoBlocks(live, size, sa, |ScrapTemplate|, pa, Execute68k(pa, PatchedScrap(size, scrapType, sa), true));
  }

  /**
   * The patched routine run with the guard up: it is logged once as it stands
   * in memory, and the guard is left down exactly when the guest's PutScrap
   * called back.
   */
  lemma RunPatchedScrapRoutineTrace(env: Env, s: State, p: int, length: U32, scrapType: U32, sa: U32)
    requires s.guard
    requires PeekBytes(s.mem, p, |ScrapTemplate|) == PatchedScrap(length, scrapType, sa)
    ensures RunScrapRoutine(env, s, p).log == s.log + [Execute68k(p, PatchedScrap(length, scrapType, sa), true)]
    ensures RunScrapRoutine(env, s, p).guard == !env.forwardsPutScrap
  {
  }

  /**
   * The patched routine leaves the guest's scrap holding the length bytes at
   * sa, as long as the length reads back as a non-negative signed long.
   */
  lemma RunPatchedScrapRoutineScrap(env: Env, s: State, p: int, length: U32, scrapType: U32, sa: U32)
    requires s.guard && length < TWO_31
    requires PeekBytes(s.mem, p, |ScrapTemplate|) == PatchedScrap(length, scrapType, sa)
    ensures RunScrapRoutine(env, s, p).guestScrap == map[scrapType := PeekBytes(s.mem, sa, length)]
  {
  }

  /**
   * The routine's part of GetScrap: its block is allocated and logged, the
   * patched routine runs once with the guard up, then the routine's block
   * and the scrap block are disposed, in that order.
   */
  lemma CallScrapRoutineTrace(env: Env, s: State, scrapType: U32, length: U32, sa: U32)
    ensures CallScrapRoutine(env, s, scrapType, length, sa).log
         == s.log + [Event.NewPtrSysClear(|ScrapTemplate|, AllocResult(env, s, |ScrapTemplate|)),
                     Execute68k(AllocResult(env, s, |ScrapTemplate|), PatchedScrap(length, scrapType, sa), true),
                     Event.DisposePtr(AllocResult(env, s, |ScrapTemplate|)),
                     Event.DisposePtr(sa)]
  {
    var a := Allocate(env, s, |ScrapTemplate|);
    var pa := a.1;
    var s1 := InstallScrapRoutine(a.0, pa, length, scrapType, sa).(guard := true);
    RunPatchedScrapRoutineTrace(env, s1, pa, length, scrapType, sa);
    AppendFour(s.log, Event.NewPtrSysClear(|ScrapTemplate|, pa), Execute68k(pa, PatchedScrap(length, scrapType, sa), true),
               Event.DisposePtr(pa), Event.DisposePtr(sa));
  }

  /**
   * The guard around the routine run: raised before it, and left down
   * exactly when the guest's PutScrap called back; the host clipboard is
   * not touched.
   */
  lemma CallScrapRoutineGuard(env: Env, s: State, scrapType: U32, length: U32, sa: U32)
    ensures CallScrapRoutine(env, s, scrapType, length, sa).guard == !env.forwardsPutScrap
    ensures CallScrapRoutine(env, s, scrapType, length, sa).host == s.host
  {
    var a := Allocate(env, s, |ScrapTemplate|);
    var s1 := InstallScrapRoutine(a.0, a.1, length, scrapType, sa).(guard := true);
    RunPatchedScrapRoutineTrace(env, s1, a.1, length, scrapType, sa);
  }

  /**
   * What the guest's Scrap Manager is left holding: the length bytes at sa,
   * provided the routine's block does not overlap them and the length reads
   * back as a positive signed long.
   */
  lemma CallScrapRoutineScrap(env: Env, s: State, scrapType: U32, length: U32, sa: U32)
    requires length < TWO_31
    requires sa + length <= AllocResult(env, s, |ScrapTemplate|) ||
             AllocResult(env, s, |ScrapTemplate|) + |ScrapTemplate| <= sa
    ensures CallScrapRoutine(env, s, scrapType, length, sa).guestScrap
         == map[scrapType := PeekBytes(s.mem, sa, length)]
  {
    var a := Allocate(env, s, |ScrapTemplate|);
    var pa := a.1;
    AllocateLeavesOtherBytes(env, s, |ScrapTemplate|, sa, length);
    var s1 := InstallScrapRoutine(a.0, pa, length, scrapType, sa);
    InstallLeavesOtherBytes(a.0, pa, length, scrapType, sa, sa, length);
    RunPatchedScrapRoutineScrap(env, s1.(guard := true), pa, length, scrapType, sa);
  }

  /**
   * The second half of GetScrap once the scrap block exists (at the heap's
   * next address): the traps and the routine run in the source's order; the
   * guard is left down exactly when the guest's PutScrap called back.
   */
  lemma PushScrapTrace(env: Env, s: State, scrapType: U32, data: CBuffer)
    requires AllocResult(env, s, |data|) != 0
    ensures PushScrap(env, s, scrapType, data).log == s.log + PushEvents(env, s.heapNext, scrapType, |data|)
    ensures PushScrap(env, s, scrapType, data).guard == !env.forwardsPutScrap
  {
    var a := Allocate(env, s, |data|);
    var sa := a.1;
    var s2 := Store(a.0, sa, data);
    var pa := RoutineBlock(env, sa, |data|);
    assert AllocResult(env, s2, |ScrapTemplate|) == pa;
    CallScrapRoutineTrace(env, s2, scrapType, |data|, sa);
    CallScrapRoutineGuard(env, s2, scrapType, |data|, sa);
    AppendOneThenFour(s.log, Event.NewPtrSysClear(|data|, sa), Event.NewPtrSysClear(|ScrapTemplate|, pa),
                      Execute68k(pa, PatchedScrap(|data|, scrapType, sa), true),
                      Event.DisposePtr(pa), Event.DisposePtr(sa));
  }

  /**
   * When the routine's block did not overlap the data and the length fits a
   * signed long, the guest's scrap ends up holding exactly the data.
   */
  lemma PushScrapDelivers(env: Env, s: State, scrapType: U32, data: CBuffer)
    requires AllocResult(env, s, |data|) != 0
    requires RoutineBlock(env, s.heapNext, |data|) != 0 || |ScrapTemplate| <= s.heapNext
    requires |data| < TWO_31
    ensures PushScrap(env, s, scrapType, data).guestScrap == map[scrapType := data]
  {
    var a := Allocate(env, s, |data|);
    var sa := a.1;
    var s2 := Store(a.0, sa, data);
    assert AllocResult(env, s2, |ScrapTemplate|) == RoutineBlock(env, sa, |data|);
    CallScrapRoutineScrap(env, s2, scrapType, |data|, sa);
  }

  /** A 'TEXT' read with text on the host is the encoding queries followed by PushScrap. */
  lemma GetScrapPushes(env: Env, s: State, text: string)
    requires HostText(s.host) == Some(text)
    ensures GetScrap(env, s, TEXT)
         == PushScrap(env, ActiveEncoding(env, s).0, TEXT, ScrapData(env, ActiveEncoding(env, s).1, text))
  {
  }

  /**
   * When the scrap block cannot be allocated GetScrap stops right there:
   * after the encoding queries only the failed allocation is logged, no byte
   * of guest memory is written, no routine is built and the guard is untouched.
   */
  lemma GetScrapStopsWithoutScrapBlock(env: Env, s: State, text: string)
    requires HostText(s.host) == Some(text)
    requires AllocResult(env, ActiveEncoding(env, s).0,
                         |ScrapData(env, ActiveEncoding(env, s).1, text)|) == 0
    ensures GetScrap(env, s, TEXT)
         == ActiveEncoding(env, s).0.(log := ActiveEncoding(env, s).0.log +
              [Event.NewPtrSysClear(|ScrapData(env, ActiveEncoding(env, s).1, text)|, 0)])
    ensures GetScrap(env, s, TEXT).guard == s.guard
  {
  }

  /**
   * A Mac application reading 'TEXT' while the host has text: after the two
   * encoding queries, the converted and normalised text is handed to the
   * guest's Scrap Manager through the patched routine run with the guard up;
   * the guard is left down exactly when the guest's PutScrap called back.
   */
  lemma GetScrapTrace(env: Env, s: State, text: string)
    requires HostText(s.host) == Some(text)
    requires AllocResult(env, ActiveEncoding(env, s).0,
                         |ScrapData(env, ActiveEncoding(env, s).1, text)|) != 0
    ensures GetScrap(env, s, TEXT).log
         == ActiveEncoding(env, s).0.log +
            PushEvents(env, ActiveEncoding(env, s).0.heapNext, TEXT, |ScrapData(env, ActiveEncoding(env, s).1, text)|)
    ensures GetScrap(env, s, TEXT).guard == !env.forwardsPutScrap
  {
    var a := ActiveEncoding(env, s);
    GetScrapPushes(env, s, text);
    PushScrapTrace(env, a.0, TEXT, ScrapData(env, a.1, text));
  }

  /**
   * ... and the guest's scrap then holds exactly that text, with no line
   * feed left in it, unless the routine's block was never obtained and its
   * bytes at address 0 overlap the data.
   */
  lemma GetScrapDelivers(env: Env, s: State, text: string)
    requires HostText(s.host) == Some(text)
    requires AllocResult(env, ActiveEncoding(env, s).0, |ScrapData(env, ActiveEncoding(env, s).1, text)|) != 0
    requires |ScrapData(env, ActiveEncoding(env, s).1, text)| < TWO_31
    requires RoutineBlock(env, ActiveEncoding(env, s).0.heapNext, |ScrapData(env, ActiveEncoding(env, s).1, text)|) != 0 ||
             |ScrapTemplate| <= ActiveEncoding(env, s).0.heapNext
    ensures GetScrap(env, s, TEXT).guestScrap == map[TEXT := ScrapData(env, ActiveEncoding(env, s).1, text)]
    ensures LF !in GetScrap(env, s, TEXT).guestScrap[TEXT]
  {
    var a := ActiveEncoding(env, s);
    var data := ScrapData(env, a.1, text);
    GetScrapPushes(env, s, text);
    PushScrapDelivers(env, a.0, TEXT, data);
  }

  /** PushScrap issues no setText and disposes every block it allocates. */
  lemma PushScrapKeepsHostAndHeap(env: Env, s: State, scrapType: U32, data: CBuffer)
    ensures HostWrites(PushScrap(env, s, scrapType, data).log) == HostWrites(s.log)
    ensures LiveBlocks(PushScrap(env, s, scrapType, data).log) == LiveBlocks(s.log)
  {
    var events;
    if AllocResult(env, s, |data|) == 0 {
      events := [Event.NewPtrSysClear(|data|, 0)];
      ReplayFailedAllocation(LiveBlocks(s.log), |data|);
    } else {
      PushScrapTrace(env, s, scrapType, data);
      events := PushEvents(env, s.heapNext, scrapType, |data|);
      PushEventsBalanced(LiveBlocks(s.log), env, s.heapNext, scrapType, |data|);
    }
    assert PushScrap(env, s, scrapType, data).log == s.log + events;
    HostWritesGuestOnly(s.log, events);
    ReplayAppend(multiset{}, s.log, events);
  }

  /**
   * Echo suppression: whatever the guest does with the routine, GetScrap
   * never calls the host's setText and never changes the host clipboard;
   * and every block it allocates is disposed again.
   */
  lemma GetScrapKeepsHostAndHeap(env: Env, s: State, scrapType: U32)
    ensures GetScrap(env, s, scrapType).host == s.host
    ensures HostWrites(GetScrap(env, s, scrapType).log) == HostWrites(s.log)
    ensures LiveBlocks(GetScrap(env, s, scrapType).log) == LiveBlocks(s.log)
  {
    if scrapType == TEXT && HostText(s.host).Some? {
      var text := HostText(s.host).value;
      var a := ActiveEncoding(env, s);
      GetScrapPushes(env, s, text);
      EncodingKeepsHostAndHeap(env, s);
      PushScrapKeepsHostAndHeap(env, a.0, TEXT, ScrapData(env, a.1, text));
    }
  }

  /**
   * The guard left standing: when the guest's PutScrap does not call back,
   * GetScrap leaves we_put_this_data set, and the next genuine text write
   * from the guest is swallowed as if it were the echo.
   */
  lemma StuckGuardSwallowsNextPut(env: Env, s: State, text: string, scrap: seq<Byte>, length: I32)
    requires !env.forwardsPutScrap
    requires length <= |scrap|
    requires HostText(s.host) == Some(text)
    requires AllocResult(env, ActiveEncoding(env, s).0,
                         |ScrapData(env, ActiveEncoding(env, s).1, text)|) != 0
    ensures GetScrap(env, s, TEXT).guard
    ensures PutScrap(env, GetScrap(env, s, TEXT), TEXT, scrap, length).host == s.host
    ensures HostWrites(PutScrap(env, GetScrap(env, s, TEXT), TEXT, scrap, length).log) == HostWrites(s.log)
  {
    GetScrapTrace(env, s, text);
    GetScrapKeepsHostAndHeap(env, s, TEXT);
  }

  /**
   * The echo suppressed: when the guest's PutScrap calls back, GetScrap
   * makes no host write, leaves the host clipboard alone and ends with the
   * guard down.
   */
  lemma ForwardedEchoSuppressed(env: Env, s: State, text: string)
    requires env.forwardsPutScrap
    requires HostText(s.host) == Some(text)
    requires AllocResult(env, ActiveEncoding(env, s).0,
                         |ScrapData(env, ActiveEncoding(env, s).1, text)|) != 0
    ensures !GetScrap(env, s, TEXT).guard
    ensures GetScrap(env, s, TEXT).host == s.host
    ensures HostWrites(GetScrap(env, s, TEXT).log) == HostWrites(s.log)
  {
    GetScrapTrace(env, s, text);
    GetScrapKeepsHostAndHeap(env, s, TEXT);
  }

  /**
   * A two-line host text whose encoding is plain ASCII reaches the guest
   * with its line feed turned into a carriage return.
   */
  lemma TwoLinesReachGuest(env: Env, enc: Encoding)
    requires env.utf8ToMac(enc, "hello\nworld") == [104, 101, 108, 108, 111, 10, 119, 111, 114, 108, 100]
    ensures ScrapData(env, enc, "hello\nworld") == [104, 101, 108, 108, 111, 13, 119, 111, 114, 108, 100]
  {
  }
}
