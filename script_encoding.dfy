/**
 * The choice of legacy text encoding from the guest's Script Manager state:
 * MacJapanese for a Japanese system script on a Japanese system, MacRoman
 * otherwise.  The conversion tables themselves are not modelled; the bridge
 * receives them as uninterpreted functions (see Bridge.Env).
 */
module ScriptEncoding {

  /** The two EncodingFunctions pairs the bridge can return. */
  datatype Encoding = MacRoman | MacJapanese

  /** Script Manager variable selectors passed to GetScriptManagerVariable. */
  const smMacSysScript: int := 18
  const smMacRegionCode: int := 40

  /** Script and region codes that select the Japanese pair. */
  const smJapanese: int := 1
  const verJapan: int := 14

  /** The value GetMacScriptManagerVariable reports when it could not query the guest. */
  const QueryFailed: int := -1

  /**
   * The decision of getEncodingFunctions: the Japanese pair exactly when both
   * codes are the Japanese ones, so a failed query always falls back to MacRoman.
   */
  function SelectEncoding(script: int, region: int): (e: Encoding)
    ensures e == MacJapanese <==> script == smJapanese && region == verJapan
    ensures e == MacRoman <==> !(script == smJapanese && region == verJapan)
    ensures script == QueryFailed || region == QueryFailed ==> e == MacRoman
  {
    if script == smJapanese && region == verJapan then MacJapanese else MacRoman
  }
}
