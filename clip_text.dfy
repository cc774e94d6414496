/**
 * Byte-level text handling of the clipboard bridge: the length of a
 * NUL-terminated C string, and the conversion of the host's line feeds to
 * the carriage returns the classic Mac OS uses as its line break.
 */
module ClipText {
  import opened MacMemory

  const LF: Byte := 10
  const CR: Byte := 13

  /**
   * strlen: the number of elements before the first terminator, or the whole
   * buffer when it holds none.
   */
  function CStrLen<T(==)>(s: seq<T>, nul: T): (n: nat)
    ensures n <= |s|
    ensures forall i :: 0 <= i < n ==> s[i] != nul
    ensures n < |s| ==> s[n] == nul
  {
    if s == [] || s[0] == nul then 0 else 1 + CStrLen(s[1..], nul)
  }

  /** The LF-to-CR rewrite of a single byte. */
  function LineBreakToMac(b: Byte): (r: Byte)
    ensures r != LF
    ensures b != LF ==> r == b
  {
    if b == LF then CR else b
  }

  /**
   * The buffer with every line feed replaced by a carriage return: same
   * length, no line feed left, every other byte where it was.
   */
  function LfToCr(s: seq<Byte>): (r: seq<Byte>)
    ensures |r| == |s|
    ensures forall i :: 0 <= i < |s| ==> r[i] == if s[i] == LF then CR else s[i]
    ensures LF !in r
  {
    if s == [] then [] else [LineBreakToMac(s[0])] + LfToCr(s[1..])
  }

  /**
   * The loop of GetScrap: rewrites 10 to 13 in place over the first n bytes
   * of the encoded buffer and leaves the rest of the buffer alone.
   */
  method NormalizeLineEndings(buf: array<Byte>, n: nat)
    requires n <= buf.Length
    modifies buf
    ensures buf[..n] == LfToCr(old(buf[..n]))
    ensures buf[n..] == old(buf[n..])
  {
    var i := 0;
    while i < n
      invariant 0 <= i <= n
      invariant forall k :: 0 <= k < i ==> buf[k] == LineBreakToMac(old(buf[k]))
      invariant forall k :: i <= k < buf.Length ==> buf[k] == old(buf[k])
    {
      if buf[i] == LF {
        buf[i] := CR;
      }
      i := i + 1;
    }
  }
}
