/**
 * The library's own error numbers (`emc.h`) and their descriptions
 * (`emc_errno_str` in `utility.c`). Each of the twelve names gets the
 * custom value `EMC_CUSTOM_ERRNO - k` only when the platform's `errno.h`
 * does not define it already; which names the platform defines is the
 * parameter `native`, and the C library's `strerror` is the parameter
 * `strerror`.
 */
module Utility {
  import opened CInt
  import opened Config

  datatype Code = EUsers | ENoPlug | ERebind | ENoSock | ENoLive | EQueue
                | EMode | ENoExist | ENoDevice | EInval | ENoMem | ETime

  /** The position `k` of each name in `emc.h`. */
  function Rank(c: Code): (k: int)
    ensures 1 <= k <= 12
  {
    match c
    case EUsers => 1 case ENoPlug => 2 case ERebind => 3 case ENoSock => 4
    case ENoLive => 5 case EQueue => 6 case EMode => 7 case ENoExist => 8
    case ENoDevice => 9 case EInval => 10 case ENoMem => 11 case ETime => 12
  }

  /** The custom value a name gets when the platform leaves it undefined. */
  function Custom(c: Code): (v: int)
    ensures EMC_CUSTOM_ERRNO - 12 <= v <= EMC_CUSTOM_ERRNO - 1 < 0
  {
    EMC_CUSTOM_ERRNO - Rank(c)
  }

  /** The custom values are pairwise distinct. */
  lemma CustomDistinct(c: Code, d: Code)
    requires c != d
    ensures Custom(c) != Custom(d)
  {
  }

  /** The description `emc_errno_str` gives a name whose custom value is in use. */
  function Text(c: Code): string
  {
    match c
    case EUsers => "Too many plug"
    case ENoPlug => "No plug found"
    case ERebind => "Rebind plug"
    case ENoSock => "Invalid socket"
    case ENoLive => "Invalid connection"
    case EQueue => "Push queue error"
    case EMode => "Mismatched mode"
    case ENoExist => "Connection no exists"
    case ENoDevice => "No device found"
    case EInval => "Invalid argument"
    case ENoMem => "Out of memory"
    case ETime => "Timer expired"
  }

  /** The case of the `switch` that `errn` selects: a name compiled in (not native) whose custom value it is. */
  function CaseOf(errn: int, native: set<Code>): (r: Option<Code>)
    ensures r.Some? ==> r.value !in native && Custom(r.value) == errn
    ensures r.None? ==> forall c :: c !in native ==> Custom(c) != errn
  {
    if EUsers !in native && errn == Custom(EUsers) then Some(EUsers)
    else if ENoPlug !in native && errn == Custom(ENoPlug) then Some(ENoPlug)
    else if ERebind !in native && errn == Custom(ERebind) then Some(ERebind)
    else if ENoSock !in native && errn == Custom(ENoSock) then Some(ENoSock)
    else if ENoLive !in native && errn == Custom(ENoLive) then Some(ENoLive)
    else if EQueue !in native && errn == Custom(EQueue) then Some(EQueue)
    else if EMode !in native && errn == Custom(EMode) then Some(EMode)
    else if ENoExist !in native && errn == Custom(ENoExist) then Some(ENoExist)
    else if ENoDevice !in native && errn == Custom(ENoDevice) then Some(ENoDevice)
    else if EInval !in native && errn == Custom(EInval) then Some(EInval)
    else if ENoMem !in native && errn == Custom(ENoMem) then Some(ENoMem)
    else if ETime !in native && errn == Custom(ETime) then Some(ETime)
    else None
  }

  /** `emc_errno_str`: a custom code's description, anything else through `strerror`. */
  function ErrnoStr(errn: int, native: set<Code>, strerror: int -> string): (s: string)
    ensures forall c :: c !in native && Custom(c) == errn ==> s == Text(c)
    ensures (forall c :: c !in native ==> Custom(c) != errn) ==> s == strerror(errn)
  {
    match CaseOf(errn, native)
    case Some(c) => Text(c)
    case None => strerror(errn)
  }
}
