# AddressSanitizer string and memory interceptors, modelled in Dafny

This project models the core of AddressSanitizer's interceptors
(`compiler-rt/lib/asan/asan_interceptors.cc`). These are the wrappers the
run-time places around the C library's memory and string routines. Before it
calls the real routine, each wrapper checks the memory the call will touch
against the shadow, the set of poisoned addresses:

- a range check probes the first and the last byte of a range (and nothing
  in between);
- an overlap check aborts when a source and a destination overlap;
- `ENSURE_ASAN_INITED` fails its CHECK while `__asan_init` is running, and
  runs `__asan_init` when it has not run yet.

Some wrappers run unchecked while initialization is running. `strcmp` then
answers with the run-time's own `internal_strcmp`. The run-time's
`internal_*` helpers and the `mlock` shims are part of the model too.

The model has these parts:

- `CString` (`cstring.dfy`): memory is a sequence of bytes (0..255), and a
  read outside the image reads 0. It defines C strings (`StrLen`, `StrNLen`,
  `Str`) and the byte comparisons `CharCmp` and `CharCaseCmp`. It also holds
  the comparison scan shared by `memcmp`, `strcmp`, `strncmp`, `strcasecmp`
  and `strncasecmp`: `StopIndex` is the first index where the scan stops,
  under a byte rule, a string rule or a case-folding rule.
- `Shadow` (`shadow.dfy`): the checking macros as lists of checks
  (`AccessMemoryRange`, `ReadRange`, `WriteRange`, `CheckRangesOverlap`).
  `Execute` runs a list of checks against the poisoned addresses: it records
  every probe and stops at the first report or overlap abort.
- `Libc` (`libc.dfy`): what the real C routines answer and write. The
  wrappers defer to these.
- `Internal` (`internal.dfy`, `scans.dfy`): the `internal_*` helpers, and
  the comparison loops of the wrappers, as methods with loops. Each is
  proved against a specification function. Whether plain `char` is signed is
  a parameter.
- `Interceptors` (`interceptors.dfy`): each wrapper as a step function from
  the run-time's state to an outcome and a new state. The outcome is
  returned, aborted with a report or an overlap error, or a failed CHECK in
  `ENSURE_ASAN_INITED`. `Intercept` dispatches a call to its wrapper and
  `Real` gives the real routine's answer.
- `Runtime` (`runtime.dfy`): the run-time as objects.
  - `Asan` holds memory, shadow, flags, initialization state and the probe
    trace. Its checking-macro methods and its wrapper methods update it step
    by step, and each wrapper method is proved to end exactly where its step
    function says.
  - `MlockShims` holds the one-shot `printed` flag of `MlockIsUnsupported`.
- `WrapperProperties` (`properties.dfy`) proves what the wrappers promise:
  - every wrapper conforms to the real routine (same answer and memory when
    it returns, memory untouched when it aborts, every report names a
    poisoned address it probed). The real comparison routines are modelled
    by the value the wrappers' own loops compute, so for them "same answer"
    means the same sign (see "## Left out");
  - on clean memory each wrapper returns the real answer after probing
    exactly the planned endpoints;
  - what each wrapper does while initialization is running, and with the
    flags off;
  - the quirks listed below.

Behaviour of the code as written that the model keeps:

- The `memcpy` and `memmove` wrappers check the source `from` as a write
  and the destination `to` as a read (`MemcpyDestinationReportedAsRead`).
- `memcpy` skips its overlap test when `to == from`. `strcpy` has no such
  exemption, so `strcpy(p, p)` always aborts (`StrcpyOntoItselfAborts`).
- `RangesOverlap` counts an empty range lying strictly inside the other as
  overlapping, although no byte is shared (`EmptyRangeInsideOverlaps`).
- The `strcat` overlap test covers only `strlen(to) + 1` bytes at `to`. A
  source that starts after them, inside the bytes the copy writes, is not
  caught (`StrcatOverlapMissed`).
- `memcmp`, `strcmp`, `strncmp`, `strcasecmp` and `strncasecmp` check their
  operands whatever `FLAG_replace_str` says.
- `strcmp` and `strncmp` never run `ENSURE_ASAN_INITED`.
- `internal_memchr` and `internal_memcmp` compare plain `char`s. Where
  `char` is signed, a byte above 127 never matches a non-negative `c`
  (`MemchrMissesHighByteWhenSigned`), and the order of bytes across 128 is
  reversed (`PlainMemcmpSignedFlips`). `internal_strcmp` converts to
  `unsigned`, which keeps the byte order either way (`WidenKeepsOrder`).
- The wrappers' own comparison loops return -1, 0 or 1 (`CharCmp`), or
  the difference of the lower-cased bytes (`CharCaseCmp`).

## Model

| member | source | states |
|---|---|---|
| CString.StrLen | compiler-rt/lib/asan/asan_interceptors.cc:106-110 | the length is the index of the first NUL: the byte there is 0 and every earlier byte is not |
| CString.StrLenFromTerminator | compiler-rt/lib/asan/asan_interceptors.cc:106-110 | any index with a NUL and no NUL before it is the length |
| CString.TerminatedIff | compiler-rt/lib/asan/asan_interceptors.cc:106-110 | a string is terminated exactly when some byte of the image at or after its start is NUL |
| CString.Str | compiler-rt/lib/asan/asan_interceptors.cc:106-110 | the bytes of a string: `strlen` of them, none NUL |
| CString.StrNLen | compiler-rt/lib/asan/asan_interceptors.cc:112-121 | at most `maxlen`, no NUL before it, and a NUL at it when it is below `maxlen` |
| CString.WidenKeepsOrder | compiler-rt/lib/asan/asan_interceptors.cc:161-171 | converting a plain `char` to `unsigned` keeps the order, the equality and the zero test of bytes, signed `char` or not |
| CString.WidenValue | compiler-rt/lib/asan/asan_interceptors.cc:163-164 | the `unsigned` value of a byte is the byte, or its sign extension modulo 2^32 when `char` is signed and the byte is above 127 |
| CString.ToLowerZero | compiler-rt/lib/asan/asan_interceptors.cc:307-311 | lower-casing maps NUL and only NUL to NUL |
| CString.StopIndex | compiler-rt/lib/asan/asan_interceptors.cc:313-327 | the first index below `n` where the comparison scan stops, or `n` when it does not stop |
| CString.FirstStopUnique | compiler-rt/lib/asan/asan_interceptors.cc:313-327 | any index with the first-stop property is `StopIndex` |
| CString.StopWithinStrings | compiler-rt/lib/asan/asan_interceptors.cc:391-403 | a string scan stops at or before the terminator of each operand |
| CString.EqualBytesIffSlices | compiler-rt/lib/asan/asan_interceptors.cc:313-327 | byte-wise equality of `n` bytes is equality of the two slices |
| CString.ByteScanFullIff | compiler-rt/lib/asan/asan_interceptors.cc:313-327 | the `memcmp` loop runs all `size` bytes exactly when the operands are equal on them |
| CString.StringScanZeroIff | compiler-rt/lib/asan/asan_interceptors.cc:489-505 | the `strncmp` loop ends on an equal pair exactly when the operands agree on `min(size, strlen(s1) + 1)` bytes |
| CString.CaseScanZeroIff | compiler-rt/lib/asan/asan_interceptors.cc:475-487 | the `strncasecmp` loop ends on a pair equal up to case exactly when the operands agree up to case on `min(n, strlen(s1) + 1)` bytes |
| CString.StrCmpZeroIff | compiler-rt/lib/asan/asan_interceptors.cc:161-171 | `strcmp` answers 0 exactly when both strings have the same length and the same bytes |
| CString.StrCmpZeroIffBytes | compiler-rt/lib/asan/asan_interceptors.cc:161-171 | `strcmp` answers 0 exactly when the operands agree on the first string and its terminator |
| CString.EqualThroughTerminator | compiler-rt/lib/asan/asan_interceptors.cc:161-171 | agreeing on the first string and its terminator is having equal strings |
| CString.StrCmpFirstDifference | compiler-rt/lib/asan/asan_interceptors.cc:161-171 | `strcmp` answers by the first differing pair of bytes, compared as unsigned |
| CString.StrCmpAntisymmetric | compiler-rt/lib/asan/asan_interceptors.cc:161-171 | swapping the operands of `strcmp` negates the answer |
| Shadow.Execute | compiler-rt/lib/asan/asan_interceptors.cc:49-54 | running a list of checks probes at most one address per check |
| Shadow.ExecuteAppend | compiler-rt/lib/asan/asan_interceptors.cc:64-70 | checks run in order: a second list runs only when the first did not fail, and the probes add up |
| Shadow.AccessMemoryRangeProbes | compiler-rt/lib/asan/asan_interceptors.cc:64-78 | an empty range probes nothing; otherwise the range fails exactly when its first or last byte is poisoned, and the report names the first of those, as a one-byte access of the range's kind |
| Shadow.InteriorPoisonUndetected | compiler-rt/lib/asan/asan_interceptors.cc:61-70 | poison strictly inside a range whose ends are clean is not reported |
| Shadow.RangesOverlapIffSharedByte | compiler-rt/lib/asan/asan_interceptors.cc:83-86 | two non-empty ranges overlap exactly when they share a byte |
| Shadow.RangesOverlapSymmetric | compiler-rt/lib/asan/asan_interceptors.cc:83-86 | the overlap test is symmetric |
| Shadow.EmptyRangeInsideOverlaps | compiler-rt/lib/asan/asan_interceptors.cc:83-86 | an empty range strictly inside another counts as overlapping it, though no byte is shared |
| Shadow.SelfOverlap | compiler-rt/lib/asan/asan_interceptors.cc:83-86 | a range overlaps itself exactly when it is non-empty; two empty ranges never overlap |
| Shadow.TouchesAppend | compiler-rt/lib/asan/asan_interceptors.cc:64-78 | the planned probes of two lists of checks are those of the first, then those of the second |
| Shadow.RangeTouches | compiler-rt/lib/asan/asan_interceptors.cc:64-78 | a range check plans the probes of the range's first and last byte and fires no overlap test |
| Shadow.FirstPoisoned | compiler-rt/lib/asan/asan_interceptors.cc:49-54 | the first poisoned address in a list of probes, or the list's length |
| Shadow.ProbeRunClean | compiler-rt/lib/asan/asan_interceptors.cc:49-54 | a clean probe is recorded and the run goes on |
| Shadow.ProbeRunPoisoned | compiler-rt/lib/asan/asan_interceptors.cc:49-54 | a poisoned probe is recorded and reported as a one-byte access, and the run stops |
| Shadow.ExecuteFirstPoisoned | compiler-rt/lib/asan/asan_interceptors.cc:49-78 | without overlap aborts, running the checks probes the planned addresses up to the first poisoned one and reports that one |
| Shadow.ExecuteReportsPoison | compiler-rt/lib/asan/asan_interceptors.cc:49-54 | every report names a poisoned address, as a one-byte access, and it is the last address probed |
| Shadow.ReportsArePoisoned | compiler-rt/lib/asan/asan_interceptors.cc:49-54 | for all check lists and shadows at once: every report names a poisoned address, as a one-byte access, and it is the last address probed |
| Shadow.ExecuteClean | compiler-rt/lib/asan/asan_interceptors.cc:49-78 | when no planned probe is poisoned and no overlap test fires, the checks pass after probing exactly the planned addresses |
| Libc.FindByte | compiler-rt/lib/asan/asan_interceptors.cc:369-377 | the first of `n` bytes equal to the character, or `n` |
| Libc.FindByteUnique | compiler-rt/lib/asan/asan_interceptors.cc:369-377 | any index with the first-match property is `FindByte` |
| Libc.Strchr | compiler-rt/lib/asan/asan_interceptors.cc:369-384 | the first occurrence of `(char)c` in the string or its terminator, NULL when there is none, and the terminator itself when `c` is NUL |
| Libc.CopyBytes | compiler-rt/lib/asan/asan_interceptors.cc:329-355 | the destination receives the source's bytes, and nothing else changes |
| Libc.Fill | compiler-rt/lib/asan/asan_interceptors.cc:357-367 | the block holds `(char)c` throughout, and nothing else changes |
| Libc.StrcpyCopiesString | compiler-rt/lib/asan/asan_interceptors.cc:436-450 | after `strcpy` the destination holds the source string, terminated |
| Libc.StrcatAppends | compiler-rt/lib/asan/asan_interceptors.cc:405-418 | after `strcat` the destination string is the old one followed by the source string |
| Libc.Strncpy | compiler-rt/lib/asan/asan_interceptors.cc:507-516 | the first `size` bytes at `to` are the source cut to `size` bytes and padded with NULs, and nothing else changes |
| Libc.StrncpyCopiesShortString | compiler-rt/lib/asan/asan_interceptors.cc:507-516 | a source shorter than `size` is copied whole and terminated |
| Libc.Memcmp | compiler-rt/lib/asan/asan_interceptors.cc:313-327 | the answer is -1, 0 or 1, and 0 exactly when the operands are equal on `size` bytes |
| Libc.MemcmpFirstDifference | compiler-rt/lib/asan/asan_interceptors.cc:313-327 | `memcmp` answers by the first differing pair of bytes |
| Libc.Strcasecmp | compiler-rt/lib/asan/asan_interceptors.cc:391-403 | the answer is 0 exactly when the strings agree up to case through the first one's terminator |
| Libc.Strncasecmp | compiler-rt/lib/asan/asan_interceptors.cc:475-487 | the answer is 0 exactly when the operands agree up to case on `min(n, strlen(s1) + 1)` bytes |
| Libc.Strncmp | compiler-rt/lib/asan/asan_interceptors.cc:489-505 | the answer is -1, 0 or 1, and 0 exactly when the operands agree on `min(size, strlen(s1) + 1)` bytes |
| Libc.StrncmpFirstDifference | compiler-rt/lib/asan/asan_interceptors.cc:489-505 | `strncmp` answers by the first pair of unsigned bytes that differs within `size` bytes, before the first string ends |
| Libc.StrcasecmpFirstDifference | compiler-rt/lib/asan/asan_interceptors.cc:391-403 | `strcasecmp` answers the difference of the lower-cased bytes of the first pair that differs up to case, before the first string ends |
| Libc.StrncasecmpFirstDifference | compiler-rt/lib/asan/asan_interceptors.cc:475-487 | `strncasecmp` answers the difference of the lower-cased bytes of the first pair within `n` bytes that differs up to case, before the first string ends |
| Libc.Strdup | compiler-rt/lib/asan/asan_interceptors.cc:452-459 | the copy is exactly the string's bytes followed by one terminating NUL |
| Internal.InternalStrlen | compiler-rt/lib/asan/asan_interceptors.cc:106-110 | the loop answers the string's length |
| Internal.InternalStrnlen | compiler-rt/lib/asan/asan_interceptors.cc:112-121 | the answer is `min(maxlen, strlen(s))`, whether the real `strnlen` or the loop answers |
| Internal.CharValueMatch | compiler-rt/lib/asan/asan_interceptors.cc:123-129 | a byte read as a plain `char` equals `c` exactly when `c` is representable as a `char` and the byte is `(char)c` |
| Internal.Memchr | compiler-rt/lib/asan/asan_interceptors.cc:123-129 | the first of `n` bytes whose plain `char` value is `c`, or NULL when none is |
| Internal.MemchrMissesHighByteWhenSigned | compiler-rt/lib/asan/asan_interceptors.cc:123-129 | where `char` is signed, searching for any `c` in 128..255 answers NULL even when a byte `c` is there; where `char` is unsigned, a match at or before that byte is found |
| Internal.InternalMemchr | compiler-rt/lib/asan/asan_interceptors.cc:123-129 | the loop answers `Memchr` |
| Internal.MemchrUnique | compiler-rt/lib/asan/asan_interceptors.cc:123-129 | any answer with the first-match property is `Memchr` |
| Internal.PlainMemcmp | compiler-rt/lib/asan/asan_interceptors.cc:131-138 | the answer is -1, 0 or 1, 0 exactly when the operands are equal, and otherwise its sign is the order of the first differing plain `char`s |
| Internal.PlainMemcmpUnsigned | compiler-rt/lib/asan/asan_interceptors.cc:131-138 | where `char` is unsigned, `internal_memcmp` answers as the wrappers' `CharCmp` on the first difference |
| Internal.PlainMemcmpSignedFlips | compiler-rt/lib/asan/asan_interceptors.cc:131-138 | when the first difference pairs a byte below 128 with one of 128 or more, the signed answer is 1 and the unsigned answer is -1 |
| Internal.InternalMemcmp | compiler-rt/lib/asan/asan_interceptors.cc:131-138 | the loop answers `PlainMemcmp` |
| Internal.InternalStrstr | compiler-rt/lib/asan/asan_interceptors.cc:140-150 | the answer is the first position where the needle occurs inside the haystack, NULL when there is none, and the haystack itself for an empty needle |
| Internal.StrncatAppends | compiler-rt/lib/asan/asan_interceptors.cc:152-159 | after `internal_strncat` the destination string is the old one followed by at most `n` bytes of the source string |
| Internal.InternalStrncat | compiler-rt/lib/asan/asan_interceptors.cc:152-159 | in place on the array: the source's first `min(n, strlen(src))` bytes and a NUL are written over the destination's terminator, nothing else changes, and `dst` is returned |
| Internal.StrncatReadsSource | compiler-rt/lib/asan/asan_interceptors.cc:155-156 | every source byte the loop reads is inside the image and outside the bytes it writes, and it is NUL exactly at the source string's end |
| Internal.InternalStrcmp | compiler-rt/lib/asan/asan_interceptors.cc:161-171 | the loop answers `strcmp` of the two strings, signed `char` or not |
| Scans.BoundedScan | compiler-rt/lib/asan/asan_interceptors.cc:313-327 | the wrappers' bounded comparison loop stops at `StopIndex` and yields the pair it stopped on |
| Scans.ScanToNul | compiler-rt/lib/asan/asan_interceptors.cc:391-403 | the unbounded comparison loop stops at the first stop, within both strings, and yields the bytes there |
| Runtime.Asan.constructor | compiler-rt/lib/asan/asan_interceptors.cc:99-104 | the run-time starts with the given memory, shadow, flags and initialization state, and an empty trace |
| Runtime.Asan.AccessAddress | compiler-rt/lib/asan/asan_interceptors.cc:49-54 | the address is probed, and reported as a one-byte access exactly when it is poisoned |
| Runtime.Asan.AccessMemoryRange | compiler-rt/lib/asan/asan_interceptors.cc:64-70 | probes and fails as `Shadow.Execute` of the range check says |
| Runtime.Asan.ReadRange | compiler-rt/lib/asan/asan_interceptors.cc:72-74 | probes and fails as a read range check |
| Runtime.Asan.WriteRange | compiler-rt/lib/asan/asan_interceptors.cc:76-78 | probes and fails as a write range check |
| Runtime.Asan.ReadBoth | compiler-rt/lib/asan/asan_interceptors.cc:324-325 | probes and fails as the read checks of both operands, the first operand first |
| Runtime.Asan.CheckRangesOverlap | compiler-rt/lib/asan/asan_interceptors.cc:87-97 | fails exactly when the ranges overlap, and probes nothing |
| Runtime.Asan.ReadThenWrite | compiler-rt/lib/asan/asan_interceptors.cc:446-447 | probes and fails as a read check followed by a write check |
| Runtime.Asan.CheckCopy | compiler-rt/lib/asan/asan_interceptors.cc:443-447 | probes and fails as the overlap test, the read check and the write check of `strcpy` and `strncpy`, in that order |
| Runtime.Asan.CheckAppend | compiler-rt/lib/asan/asan_interceptors.cc:411-414 | probes and fails as the destination checks and the overlap test of `strcat`, in that order |
| Runtime.Asan.EnsureAsanInited | compiler-rt/lib/asan/asan_interceptors.cc:99-104 | fails and changes nothing while initialization runs; otherwise leaves the run-time initialized |
| Runtime.Asan.Memcmp | compiler-rt/lib/asan/asan_interceptors.cc:313-327 | ends in the outcome and state `MemcmpStep` gives |
| Runtime.Asan.Memcpy | compiler-rt/lib/asan/asan_interceptors.cc:329-346 | ends in the outcome and state `MemcpyStep` gives |
| Runtime.Asan.CheckMove | compiler-rt/lib/asan/asan_interceptors.cc:342-343 | probes and fails as the write check of `from` followed by the read check of `to` |
| Runtime.Asan.Memmove | compiler-rt/lib/asan/asan_interceptors.cc:348-355 | ends in the outcome and state `MemmoveStep` gives |
| Runtime.Asan.Memset | compiler-rt/lib/asan/asan_interceptors.cc:357-367 | ends in the outcome and state `MemsetStep` gives |
| Runtime.Asan.Strchr | compiler-rt/lib/asan/asan_interceptors.cc:369-377 | ends in the outcome and state `StrchrStep` gives |
| Runtime.Asan.Strcasecmp | compiler-rt/lib/asan/asan_interceptors.cc:391-403 | ends in the outcome and state `StrcasecmpStep` gives |
| Runtime.Asan.CheckStrcat | compiler-rt/lib/asan/asan_interceptors.cc:407-416 | probes and fails as the checks of `strcat` for the current lengths |
| Runtime.Asan.Strcat | compiler-rt/lib/asan/asan_interceptors.cc:405-418 | ends in the outcome and state `StrcatStep` gives |
| Runtime.Asan.Strcmp | compiler-rt/lib/asan/asan_interceptors.cc:420-434 | ends in the outcome and state `StrcmpStep` gives |
| Runtime.Asan.Strcpy | compiler-rt/lib/asan/asan_interceptors.cc:436-450 | ends in the outcome and state `StrcpyStep` gives |
| Runtime.Asan.Strdup | compiler-rt/lib/asan/asan_interceptors.cc:452-459 | ends in the outcome and state `StrdupStep` gives |
| Runtime.Asan.Strlen | compiler-rt/lib/asan/asan_interceptors.cc:461-473 | ends in the outcome and state `StrlenStep` gives |
| Runtime.Asan.Strncasecmp | compiler-rt/lib/asan/asan_interceptors.cc:475-487 | ends in the outcome and state `StrncasecmpStep` gives |
| Runtime.Asan.Strncmp | compiler-rt/lib/asan/asan_interceptors.cc:489-505 | ends in the outcome and state `StrncmpStep` gives |
| Runtime.Asan.Strncpy | compiler-rt/lib/asan/asan_interceptors.cc:507-516 | ends in the outcome and state `StrncpyStep` gives |
| Runtime.Asan.Strnlen | compiler-rt/lib/asan/asan_interceptors.cc:519-526 | ends in the outcome and state `StrnlenStep` gives |
| Runtime.MlockShims.constructor | compiler-rt/lib/asan/asan_interceptors.cc:270-272 | the `printed` flag starts clear and nothing has been printed |
| Runtime.MlockShims.MlockIsUnsupported | compiler-rt/lib/asan/asan_interceptors.cc:270-275 | the notice is printed on the first call only; afterwards the flag is set and the notice has been printed exactly once |
| Runtime.MlockShims.Mlock | compiler-rt/lib/asan/asan_interceptors.cc:278-282 | answers 0, and the notice has been printed exactly once |
| Runtime.MlockShims.Munlock | compiler-rt/lib/asan/asan_interceptors.cc:284-288 | answers 0, and the notice has been printed exactly once |
| Runtime.MlockShims.Mlockall | compiler-rt/lib/asan/asan_interceptors.cc:290-294 | answers 0, and the notice has been printed exactly once |
| Runtime.MlockShims.Munlockall | compiler-rt/lib/asan/asan_interceptors.cc:296-300 | answers 0, and the notice has been printed exactly once |
| WrapperProperties.DeliverConforms | compiler-rt/lib/asan/asan_interceptors.cc:49-97 | running a wrapper's checks and then the real routine conforms: the real answer and memory when it returns, memory untouched when it aborts, a report names the last probed poisoned address |
| WrapperProperties.InterceptConforms | compiler-rt/lib/asan/asan_interceptors.cc:313-526 | every wrapper conforms to the real routine it intercepts; only `strcmp` and `strncmp` leave the initialization state alone |
| WrapperProperties.MemcmpConforms | compiler-rt/lib/asan/asan_interceptors.cc:313-327 | the `memcmp` wrapper conforms to the real `memcmp` |
| WrapperProperties.MemcpyConforms | compiler-rt/lib/asan/asan_interceptors.cc:329-346 | the `memcpy` wrapper conforms to the real `memcpy` |
| WrapperProperties.MemmoveConforms | compiler-rt/lib/asan/asan_interceptors.cc:348-355 | the `memmove` wrapper conforms to the real `memmove` |
| WrapperProperties.MemsetConforms | compiler-rt/lib/asan/asan_interceptors.cc:357-367 | the `memset` wrapper conforms to the real `memset` |
| WrapperProperties.StrchrConforms | compiler-rt/lib/asan/asan_interceptors.cc:369-377 | the `strchr` wrapper conforms to the real `strchr` |
| WrapperProperties.StrcasecmpConforms | compiler-rt/lib/asan/asan_interceptors.cc:391-403 | the `strcasecmp` wrapper conforms to the real `strcasecmp` |
| WrapperProperties.StrcasecmpStepConforms | compiler-rt/lib/asan/asan_interceptors.cc:391-403 | the `strcasecmp` step conforms, and initializes the run-time unless initialization is running |
| WrapperProperties.StrcatConforms | compiler-rt/lib/asan/asan_interceptors.cc:405-418 | the `strcat` wrapper conforms to the real `strcat` |
| WrapperProperties.StrcmpConforms | compiler-rt/lib/asan/asan_interceptors.cc:420-434 | the `strcmp` wrapper conforms to `strcmp` and leaves the initialization state alone |
| WrapperProperties.StrcpyConforms | compiler-rt/lib/asan/asan_interceptors.cc:436-450 | the `strcpy` wrapper conforms to the real `strcpy` |
| WrapperProperties.StrdupConforms | compiler-rt/lib/asan/asan_interceptors.cc:452-459 | the `strdup` wrapper conforms to the real `strdup` |
| WrapperProperties.StrlenConforms | compiler-rt/lib/asan/asan_interceptors.cc:461-473 | the `strlen` wrapper conforms to the real `strlen` |
| WrapperProperties.StrncasecmpConforms | compiler-rt/lib/asan/asan_interceptors.cc:475-487 | the `strncasecmp` wrapper conforms to the real `strncasecmp` |
| WrapperProperties.StrncmpConforms | compiler-rt/lib/asan/asan_interceptors.cc:489-505 | the `strncmp` wrapper conforms to the real `strncmp` and leaves the initialization state alone |
| WrapperProperties.StrncpyConforms | compiler-rt/lib/asan/asan_interceptors.cc:507-516 | the `strncpy` wrapper conforms to the real `strncpy` |
| WrapperProperties.StrnlenConforms | compiler-rt/lib/asan/asan_interceptors.cc:519-526 | the `strnlen` wrapper conforms to the real `strnlen` |
| WrapperProperties.MemcmpAnswer | compiler-rt/lib/asan/asan_interceptors.cc:313-327 | the `memcmp` wrapper's loop answers what the real `memcmp` answers |
| WrapperProperties.WhileInitializing | compiler-rt/lib/asan/asan_interceptors.cc:99-104 | while `__asan_init` runs, `memcpy`, `memset`, `strcpy`, `strlen` and `strncmp` call the real routine unchecked, `strcmp` answers with `internal_strcmp`, and every other wrapper fails the CHECK |
| WrapperProperties.FlagsOffTransparent | compiler-rt/lib/asan/asan_interceptors.cc:329-526 | with `replace_str` and `replace_intrin` off, every wrapper that consults them is the real routine: no probe, no abort |
| WrapperProperties.DeliverNothing | compiler-rt/lib/asan/asan_interceptors.cc:313-526 | a wrapper with no checks returns the real answer and changes nothing else |
| WrapperProperties.DeliverClean | compiler-rt/lib/asan/asan_interceptors.cc:49-97 | checks with no poisoned probe and no overlap return the real answer after probing exactly the planned addresses |
| WrapperProperties.DeliverPlanned | compiler-rt/lib/asan/asan_interceptors.cc:49-97 | on unpoisoned memory, checks with no overlap return the real answer after probing the planned addresses |
| WrapperProperties.PlanAppend | compiler-rt/lib/asan/asan_interceptors.cc:64-97 | the plan of two check lists is the plan of the first followed by that of the second, and neither fires an overlap test |
| WrapperProperties.TwoRanges | compiler-rt/lib/asan/asan_interceptors.cc:64-78 | two range checks plan the endpoints of the first range, then those of the second |
| WrapperProperties.OverlapThenRanges | compiler-rt/lib/asan/asan_interceptors.cc:83-97 | an overlap test probes nothing and, on disjoint ranges, does not fire |
| WrapperProperties.ReadBothClean | compiler-rt/lib/asan/asan_interceptors.cc:324-325 | reading both operands of a comparison on unpoisoned memory probes their ends and returns |
| WrapperProperties.CopyChecksClean | compiler-rt/lib/asan/asan_interceptors.cc:443-447 | the checks of a string copy on disjoint ranges and unpoisoned memory probe the source's ends as reads and the destination's as writes, and return |
| WrapperProperties.ComparedPrefix | compiler-rt/lib/asan/asan_interceptors.cc:313-327 | how many bytes a bounded comparison has read: at most `n`, up to and including the first pair that stops it |
| WrapperProperties.MemcmpClean | compiler-rt/lib/asan/asan_interceptors.cc:313-327 | on unpoisoned memory `memcmp` returns the real answer after probing the ends of the compared prefixes |
| WrapperProperties.MemcpyOverlapAborts | compiler-rt/lib/asan/asan_interceptors.cc:336-341 | `memcpy` on distinct overlapping ranges aborts before any probe and leaves memory alone |
| WrapperProperties.MemcpyClean | compiler-rt/lib/asan/asan_interceptors.cc:329-346 | on unpoisoned memory, with no overlap or a copy onto itself, `memcpy` copies after probing the source's ends as writes and the destination's as reads |
| WrapperProperties.MemcpyDestinationReportedAsRead | compiler-rt/lib/asan/asan_interceptors.cc:342-343 | poison at the destination's first byte is reported as a read |
| WrapperProperties.MemmoveClean | compiler-rt/lib/asan/asan_interceptors.cc:348-355 | `memmove` never aborts on overlap: on unpoisoned memory it always copies, probing as `memcpy` does |
| WrapperProperties.MemsetClean | compiler-rt/lib/asan/asan_interceptors.cc:357-367 | on unpoisoned memory `memset` fills the block after probing its ends as writes |
| WrapperProperties.StrchrClean | compiler-rt/lib/asan/asan_interceptors.cc:369-377 | on unpoisoned memory `strchr` answers after probing the string up to the match, or through its terminator |
| WrapperProperties.StrcasecmpClean | compiler-rt/lib/asan/asan_interceptors.cc:391-403 | on unpoisoned memory `strcasecmp` answers after probing both strings through the first pair that stops the scan |
| WrapperProperties.StrcasecmpDelivers | compiler-rt/lib/asan/asan_interceptors.cc:391-403 | once initialized, `strcasecmp` runs the read checks of the compared prefixes and returns the real answer |
| WrapperProperties.StrcatPlan | compiler-rt/lib/asan/asan_interceptors.cc:405-418 | the checks of `strcat` probe the source and its terminator and, for a non-empty source, the old destination string and the bytes written after it; the overlap test fires only on overlap |
| WrapperProperties.StrcatClean | compiler-rt/lib/asan/asan_interceptors.cc:405-418 | on unpoisoned memory without overlap, `strcat` appends after probing its plan |
| WrapperProperties.StrcatOverlapMissed | compiler-rt/lib/asan/asan_interceptors.cc:411-414 | a source starting past `to + strlen(to)` but inside the bytes the copy writes is not caught, and the wrapper returns |
| WrapperProperties.StrcmpUncheckedBeforeInit | compiler-rt/lib/asan/asan_interceptors.cc:420-423 | before initialization `strcmp` answers with `internal_strcmp`, probes nothing and does not initialize |
| WrapperProperties.StrcmpClean | compiler-rt/lib/asan/asan_interceptors.cc:420-434 | once initialized, on unpoisoned memory, `strcmp` answers after probing both strings through the first difference or terminator |
| WrapperProperties.StrcpyClean | compiler-rt/lib/asan/asan_interceptors.cc:436-450 | on unpoisoned memory with disjoint ranges, `strcpy` copies after probing the source's ends as reads and the destination's as writes |
| WrapperProperties.StrcpyOntoItselfAborts | compiler-rt/lib/asan/asan_interceptors.cc:443-447 | `strcpy(p, p)` always aborts with an overlap error |
| WrapperProperties.StrdupClean | compiler-rt/lib/asan/asan_interceptors.cc:452-459 | on unpoisoned memory `strdup` copies the string after probing it and its terminator |
| WrapperProperties.StrlenClean | compiler-rt/lib/asan/asan_interceptors.cc:461-473 | on unpoisoned memory `strlen` answers after probing the string and its terminator |
| WrapperProperties.StrncasecmpClean | compiler-rt/lib/asan/asan_interceptors.cc:475-487 | on unpoisoned memory `strncasecmp` answers after probing at most `n` bytes of each operand, through the first pair that stops it |
| WrapperProperties.StrncmpClean | compiler-rt/lib/asan/asan_interceptors.cc:489-505 | on unpoisoned memory `strncmp` answers after probing at most `size` bytes of each operand, and leaves the initialization state alone |
| WrapperProperties.StrncpyClean | compiler-rt/lib/asan/asan_interceptors.cc:507-516 | on unpoisoned memory with disjoint copied prefixes, `strncpy` copies after probing the source bytes it reads and all `size` bytes of the destination |
| WrapperProperties.StrnlenClean | compiler-rt/lib/asan/asan_interceptors.cc:519-526 | on unpoisoned memory `strnlen` answers after probing the string and its terminator, at most `maxlen` bytes |

## Left out

- `operator new` and `operator delete` (lines 178-203) are allocator entry points, not string or memory checks.
- `pthread_create`, `signal` and `sigaction` (lines 205-238) need threads and signal handling.
- `longjmp`, `_longjmp`, `siglongjmp` and `__cxa_throw` (lines 240-265) need stack unwinding.
- `InitializeAsanInterceptors` (lines 529 onwards) binds symbols at load time.
- `__asan_init` itself is not modelled: running it is one state change, to initialized.
- Error reports, stack traces and `ShowStatsAndAbort` are not modelled: each becomes an aborted outcome that names the failure.
- The `Printf` channel of `MlockIsUnsupported` is not modelled: the shims' output is a sequence of whole notices (`MlockNotice`, the text of line 274), not a character stream.
- `tolower` is the ASCII one: locales are not modelled.
- Addresses are unbounded naturals, so pointer arithmetic that wraps around the address space is not modelled.
- Internal.InternalStrnlen: the real `strnlen` branch answers with the specification `StrNLen`, not with C library code.
- `index` (lines 379-384) is an alias of the `strchr` wrapper on Linux and is modelled by it.
- Runtime.Asan.Strdup: the heap block is returned as its contents, so where it lies and how it is allocated is not modelled.
- The `__APPLE__` and `ANDROID` conditionals are not modelled: the model follows the Linux build, where `strnlen` is intercepted.
- The C library routines are modelled by what they answer and write (`Libc`), not by their code.
- Reading past the memory image, which C leaves undefined, is excluded by the callers' requirements.
- Internal.InternalStrncat: a source whose bytes still to be read overlap the bytes the loop writes is excluded by its requirement, as C `strncat` excludes overlapping operands; the loop at lines 152-159 itself has no such guard.
- Overlapping copies are given memmove semantics: the source is read as it was before the call. C leaves these copies undefined. They reach the real routine with the flags off, while `__asan_init` runs, for `memcpy` onto itself, and in `StrcatOverlapMissed`.
- Libc.Memcmp, Libc.Strncmp, Libc.Strcasecmp, Libc.Strncasecmp, CString.StrCmp: C promises only the sign of a comparison. The real routines' answers are modelled by the value the wrappers' loops compute: -1, 0 or 1, or the difference of the lower-cased bytes. For a real C library, the conformance lemmas therefore promise the same sign, not the same number.
- Interceptors.StrncmpStep: while `__asan_init` runs, `strncmp` returns `REAL(strncmp)`'s answer unchanged (lines 492-494). The model gives that answer as -1, 0 or 1.
