/** What each string and memory interceptor does, as a function from the
    run-time's state and the call's arguments to an outcome and a new state.

    A wrapper first measures or scans its arguments, then runs its range and
    overlap checks, then calls the real routine. A check that fires aborts
    the program (the report path does not return), so the real routine's
    effect on memory happens only when the outcome is `Returned`. */
module Interceptors {
  import opened CString
  import opened Shadow
  import opened Libc

  /** `asan_inited` and `asan_init_is_running` together: `__asan_init` sets
      the second while it runs and the first when it is done. */
  datatype InitState = Uninitialized | Initializing | Initialized

  /** The run-time flags the wrappers consult. */
  datatype Flags = Flags(replaceStr: bool, replaceIntrin: bool)

  /** What a wrapper returns: a number, a pointer, NULL, or (for `strdup`)
      the contents of a fresh heap block. */
  datatype Value = Num(n: int) | Ptr(addr: nat) | Null | HeapCopy(bytes: seq<byte>)

  datatype Outcome =
    | Returned(value: Value)
    | Aborted(failure: Failure)
      /** `CHECK(!asan_init_is_running)` in `ENSURE_ASAN_INITED` failed. */
    | InitCheckFailed

  /** The state a wrapper sees and changes: memory, the poisoned addresses,
      the flags, the initialization state and every probe made so far. */
  datatype Machine = Machine(mem: seq<byte>, poisoned: set<nat>, flags: Flags, init: InitState, trace: seq<Access>)

  datatype Step = Step(outcome: Outcome, after: Machine)

  /** The end of every checked wrapper: run the checks; if one fires the
      program aborts, otherwise the real routine's result is returned and its
      memory image `mem'` takes effect. */
  function Deliver(m: Machine, checks: seq<Check>, value: Value, mem': seq<byte>): Step {
    var run := Execute(checks, m.poisoned);
    var m1 := m.(trace := m.trace + run.probes);
    if run.failure.Some? then Step(Aborted(run.failure.value), m1)
    else Step(Returned(value), m1.(mem := mem'))
  }

  /** `ENSURE_ASAN_INITED`: fails its CHECK while initialization is running,
      runs `__asan_init` if it has not run yet. */
  function EnsureInited(m: Machine): Option<Machine> {
    if m.init == Initializing then None else Some(m.(init := Initialized))
  }

  /** Checks that are run only when `flag` is set. */
  function When(flag: bool, checks: seq<Check>): seq<Check> {
    if flag then checks else []
  }

  // ------------------------------------------------------------- memory

  /** Bytes `[s1, s1 + size)` and `[s2, s2 + size)` are in the image. */
  predicate MemcmpArgs(m: Machine, a1: nat, a2: nat, size: nat) {
    a1 + size <= |m.mem| && a2 + size <= |m.mem|
  }

  /** The `memcmp` wrapper: compares unsigned bytes up to the first
      difference, probes `min(i + 1, size)` bytes of each operand, answers
      `CharCmp` of the last pair it compared. `FLAG_replace_str` is not
      consulted. */
  function MemcmpStep(m: Machine, a1: nat, a2: nat, size: nat): Step
    requires MemcmpArgs(m, a1, a2, size)
  {
    match EnsureInited(m)
    case None => Step(InitCheckFailed, m)
    case Some(m1) =>
      var i := StopIndex(ByteRule, m.mem, a1, a2, size);
      var (c1, c2) := LastPair(m.mem, a1, a2, i, size);
      var k := Min(i + 1, size);
      Deliver(m1, ReadRange(a1, k) + ReadRange(a2, k), Num(CharCmp(c1, c2)), m.mem)
  }

  predicate CopyArgs(m: Machine, to: nat, from: nat, size: nat) {
    to + size <= |m.mem| && from + size <= |m.mem|
  }

  /** The checks of the `memcpy` wrapper under `FLAG_replace_intrin`: the
      overlap test (skipped when `to == from`), then a write check of `from`
      and a read check of `to`, in that order. */
  function MemcpyChecks(m: Machine, to: nat, from: nat, size: nat): seq<Check> {
    When(m.flags.replaceIntrin,
      (if to != from then CheckRangesOverlap("memcpy", to, size, from, size) else [])
      + WriteRange(from, size) + ReadRange(to, size))
  }

  /** The `memcpy` wrapper. While `__asan_init` runs it calls the real
      routine unchecked. */
  function MemcpyStep(m: Machine, to: nat, from: nat, size: nat): Step
    requires CopyArgs(m, to, from, size)
  {
    var mem' := CopyBytes(m.mem, to, from, size);
    if m.init == Initializing then Step(Returned(Ptr(to)), m.(mem := mem'))
    else Deliver(m.(init := Initialized), MemcpyChecks(m, to, from, size), Ptr(to), mem')
  }

  /** The checks of the `memmove` wrapper: as `memcpy`'s without the overlap
      test. */
  function MemmoveChecks(m: Machine, to: nat, from: nat, size: nat): seq<Check> {
    When(m.flags.replaceIntrin, WriteRange(from, size) + ReadRange(to, size))
  }

  /** The `memmove` wrapper. */
  function MemmoveStep(m: Machine, to: nat, from: nat, size: nat): Step
    requires CopyArgs(m, to, from, size)
  {
    match EnsureInited(m)
    case None => Step(InitCheckFailed, m)
    case Some(m1) => Deliver(m1, MemmoveChecks(m, to, from, size), Ptr(to), CopyBytes(m.mem, to, from, size))
  }

  /** The `memset` wrapper. While `__asan_init` runs it calls the real
      routine unchecked. */
  function MemsetStep(m: Machine, block: nat, c: int, size: nat): Step
    requires block + size <= |m.mem|
  {
    var mem' := Fill(m.mem, block, ToChar(c), size);
    if m.init == Initializing then Step(Returned(Ptr(block)), m.(mem := mem'))
    else Deliver(m.(init := Initialized), When(m.flags.replaceIntrin, WriteRange(block, size)), Ptr(block), mem')
  }

  // ------------------------------------------------------------- strings

  /** The number of bytes the `strchr` wrapper checks: up to and including
      the match, or the whole string and its terminator. */
  function StrchrBytesRead(mem: seq<byte>, str: nat, result: Option<nat>): nat {
    (if result.Some? && result.value >= str then result.value - str else StrLen(mem, str)) + 1
  }

  /** The `strchr` wrapper (and `index`, its alias on Linux). */
  function StrchrStep(m: Machine, str: nat, c: int): Step
    requires Terminated(m.mem, str)
  {
    match EnsureInited(m)
    case None => Step(InitCheckFailed, m)
    case Some(m1) =>
      var result := Strchr(m.mem, str, c);
      var value := if result.Some? then Ptr(result.value) else Null;
      Deliver(m1, When(m.flags.replaceStr, ReadRange(str, StrchrBytesRead(m.mem, str, result))), value, m.mem)
  }

  predicate TwoStrings(m: Machine, s1: nat, s2: nat) {
    Terminated(m.mem, s1) && Terminated(m.mem, s2)
  }

  /** The `strcasecmp` wrapper: stops at the first pair that differs up to
      case or at the first string's terminator, probes `i + 1` bytes of each,
      answers `CharCaseCmp` of that pair. `FLAG_replace_str` is not
      consulted. */
  function StrcasecmpStep(m: Machine, s1: nat, s2: nat): Step
    requires TwoStrings(m, s1, s2)
  {
    match EnsureInited(m)
    case None => Step(InitCheckFailed, m)
    case Some(m1) =>
      var i := StopIndex(CaseRule, m.mem, s1, s2, StrLen(m.mem, s1) + 1);
      var c1, c2 := At(m.mem, s1 + i), At(m.mem, s2 + i);
      Deliver(m1, ReadRange(s1, i + 1) + ReadRange(s2, i + 1), Num(CharCaseCmp(c1, c2)), m.mem)
  }

  /** Both strings are terminated and the concatenation fits after `to`. */
  predicate StrcatArgs(m: Machine, to: nat, from: nat) {
    && TwoStrings(m, to, from)
    && to + StrLen(m.mem, to) + StrLen(m.mem, from) + 1 <= |m.mem|
  }

  /** The checks of the `strcat` wrapper under `FLAG_replace_str`: the source
      with its terminator; then, only for a non-empty source, the old
      destination string, the bytes about to be written, and an overlap test
      of `to_length + 1` bytes at `to` against the source. */
  function StrcatChecks(replaceStr: bool, to: nat, from: nat, toLength: nat, fromLength: nat): seq<Check> {
    When(replaceStr,
      ReadRange(from, fromLength + 1)
      + (if fromLength > 0 then
           ReadRange(to, toLength) + WriteRange(to + toLength, fromLength + 1)
           + CheckRangesOverlap("strcat", to, toLength + 1, from, fromLength + 1)
         else []))
  }

  /** The `strcat` wrapper. */
  function StrcatStep(m: Machine, to: nat, from: nat): Step
    requires StrcatArgs(m, to, from)
  {
    match EnsureInited(m)
    case None => Step(InitCheckFailed, m)
    case Some(m1) =>
      var checks := StrcatChecks(m.flags.replaceStr, to, from, StrLen(m.mem, to), StrLen(m.mem, from));
      Deliver(m1, checks, Ptr(to), Strcat(m.mem, to, from))
  }

  /** The `strcmp` wrapper. Before `asan_inited` it answers with
      `internal_strcmp` and checks nothing; afterwards it stops at the first
      differing pair or the first string's terminator, probes `i + 1` bytes
      of each, answers `CharCmp` of that pair. It never runs
      `ENSURE_ASAN_INITED` and ignores `FLAG_replace_str`. */
  function StrcmpStep(m: Machine, s1: nat, s2: nat): Step
    requires TwoStrings(m, s1, s2)
  {
    if m.init != Initialized then Step(Returned(Num(StrCmp(m.mem, s1, s2))), m)
    else
      var i := StopIndex(StringRule, m.mem, s1, s2, StrLen(m.mem, s1) + 1);
      var c1, c2 := At(m.mem, s1 + i), At(m.mem, s2 + i);
      Deliver(m, ReadRange(s1, i + 1) + ReadRange(s2, i + 1), Num(CharCmp(c1, c2)), m.mem)
  }

  /** The source is terminated and its copy fits at `to`. */
  predicate StrcpyArgs(m: Machine, to: nat, from: nat) {
    Terminated(m.mem, from) && to + StrLen(m.mem, from) + 1 <= |m.mem|
  }

  /** The checks of the `strcpy` wrapper under `FLAG_replace_str`: an overlap
      test of `strlen(from) + 1` bytes at both ends, then a read check of the
      source and a write check of the destination. */
  function StrcpyChecks(m: Machine, to: nat, from: nat): seq<Check>
    requires StrcpyArgs(m, to, from)
  {
    var fromSize := StrLen(m.mem, from) + 1;
    When(m.flags.replaceStr,
      CheckRangesOverlap("strcpy", to, fromSize, from, fromSize) + ReadRange(from, fromSize) + WriteRange(to, fromSize))
  }

  /** The `strcpy` wrapper. While `__asan_init` runs it calls the real
      routine unchecked. */
  function StrcpyStep(m: Machine, to: nat, from: nat): Step
    requires StrcpyArgs(m, to, from)
  {
    var mem' := Strcpy(m.mem, to, from);
    if m.init == Initializing then Step(Returned(Ptr(to)), m.(mem := mem'))
    else Deliver(m.(init := Initialized), StrcpyChecks(m, to, from), Ptr(to), mem')
  }

  /** The `strdup` wrapper: checks the string and its terminator, returns a
      fresh copy. */
  function StrdupStep(m: Machine, s: nat): Step
    requires Terminated(m.mem, s)
  {
    match EnsureInited(m)
    case None => Step(InitCheckFailed, m)
    case Some(m1) =>
      Deliver(m1, When(m.flags.replaceStr, ReadRange(s, StrLen(m.mem, s) + 1)), HeapCopy(Strdup(m.mem, s)), m.mem)
  }

  /** The `strlen` wrapper. While `__asan_init` runs it calls the real
      routine unchecked. */
  function StrlenStep(m: Machine, s: nat): Step
    requires Terminated(m.mem, s)
  {
    var length := StrLen(m.mem, s);
    if m.init == Initializing then Step(Returned(Num(length)), m)
    else Deliver(m.(init := Initialized), When(m.flags.replaceStr, ReadRange(s, length + 1)), Num(length), m.mem)
  }

  /** Each string can be read up to `n` bytes or up to its terminator. */
  predicate TwoBounded(m: Machine, s1: nat, s2: nat, n: nat) {
    Readable(m.mem, s1, n) && Readable(m.mem, s2, n)
  }

  /** The `strncasecmp` wrapper: as `strcasecmp`, at most `n` bytes; probes
      `min(i + 1, n)` bytes of each and answers `CharCaseCmp` of the last
      pair it compared (0 and 0 when `n == 0`). */
  function StrncasecmpStep(m: Machine, s1: nat, s2: nat, n: nat): Step
    requires TwoBounded(m, s1, s2, n)
  {
    match EnsureInited(m)
    case None => Step(InitCheckFailed, m)
    case Some(m1) =>
      var i := StopIndex(CaseRule, m.mem, s1, s2, n);
      var (c1, c2) := LastPair(m.mem, s1, s2, i, n);
      var k := Min(i + 1, n);
      Deliver(m1, ReadRange(s1, k) + ReadRange(s2, k), Num(CharCaseCmp(c1, c2)), m.mem)
  }

  /** The `strncmp` wrapper. While `__asan_init` runs it calls the real
      routine unchecked; otherwise, without `ENSURE_ASAN_INITED` and whatever
      `FLAG_replace_str` says, it compares at most `size` bytes, probes
      `min(i + 1, size)` of each and answers `CharCmp` of the last pair. */
  function StrncmpStep(m: Machine, s1: nat, s2: nat, size: nat): Step
    requires TwoBounded(m, s1, s2, size)
  {
    if m.init == Initializing then Step(Returned(Num(Strncmp(m.mem, s1, s2, size))), m)
    else
      var i := StopIndex(StringRule, m.mem, s1, s2, size);
      var (c1, c2) := LastPair(m.mem, s1, s2, i, size);
      var k := Min(i + 1, size);
      Deliver(m, ReadRange(s1, k) + ReadRange(s2, k), Num(CharCmp(c1, c2)), m.mem)
  }

  /** The source can be read up to `size` bytes and `size` bytes fit at `to`. */
  predicate StrncpyArgs(m: Machine, to: nat, from: nat, size: nat) {
    Readable(m.mem, from, size) && to + size <= |m.mem|
  }

  /** The checks of the `strncpy` wrapper under `FLAG_replace_str`, with
      `fromSize = min(size, internal_strnlen(from, size) + 1)`: an overlap test
      of `fromSize` bytes at both ends, a read check of `fromSize` bytes of
      the source and a write check of all `size` bytes of the destination. */
  function StrncpyChecks(m: Machine, to: nat, from: nat, size: nat): seq<Check> {
    var fromSize := Min(size, StrNLen(m.mem, from, size) + 1);
    When(m.flags.replaceStr,
      CheckRangesOverlap("strncpy", to, fromSize, from, fromSize) + ReadRange(from, fromSize) + WriteRange(to, size))
  }

  /** The `strncpy` wrapper. */
  function StrncpyStep(m: Machine, to: nat, from: nat, size: nat): Step
    requires StrncpyArgs(m, to, from, size)
  {
    match EnsureInited(m)
    case None => Step(InitCheckFailed, m)
    case Some(m1) => Deliver(m1, StrncpyChecks(m, to, from, size), Ptr(to), Strncpy(m.mem, to, from, size))
  }

  /** The `strnlen` wrapper: checks `min(length + 1, maxlen)` bytes. */
  function StrnlenStep(m: Machine, s: nat, maxlen: nat): Step
    requires Readable(m.mem, s, maxlen)
  {
    match EnsureInited(m)
    case None => Step(InitCheckFailed, m)
    case Some(m1) =>
      var length := StrNLen(m.mem, s, maxlen);
      Deliver(m1, When(m.flags.replaceStr, ReadRange(s, Min(length + 1, maxlen))), Num(length), m.mem)
  }

  // ------------------------------------------------------------ dispatch

  /** A call of one of the intercepted routines, with its arguments. */
  datatype Call =
    | MemcmpCall(a1: nat, a2: nat, size: nat)
    | MemcpyCall(to: nat, from: nat, size: nat)
    | MemmoveCall(to: nat, from: nat, size: nat)
    | MemsetCall(block: nat, c: int, size: nat)
    | StrchrCall(str: nat, c: int)
    | StrcasecmpCall(s1: nat, s2: nat)
    | StrcatCall(to: nat, from: nat)
    | StrcmpCall(s1: nat, s2: nat)
    | StrcpyCall(to: nat, from: nat)
    | StrdupCall(s: nat)
    | StrlenCall(s: nat)
    | StrncasecmpCall(s1: nat, s2: nat, n: nat)
    | StrncmpCall(s1: nat, s2: nat, size: nat)
    | StrncpyCall(to: nat, from: nat, size: nat)
    | StrnlenCall(s: nat, maxlen: nat)

  /** The C contract of the call: the memory it may touch is in the image. */
  predicate CallArgs(m: Machine, call: Call) {
    match call
    case MemcmpCall(a1, a2, size) => MemcmpArgs(m, a1, a2, size)
    case MemcpyCall(to, from, size) => CopyArgs(m, to, from, size)
    case MemmoveCall(to, from, size) => CopyArgs(m, to, from, size)
    case MemsetCall(block, _, size) => block + size <= |m.mem|
    case StrchrCall(str, _) => Terminated(m.mem, str)
    case StrcasecmpCall(s1, s2) => TwoStrings(m, s1, s2)
    case StrcatCall(to, from) => StrcatArgs(m, to, from)
    case StrcmpCall(s1, s2) => TwoStrings(m, s1, s2)
    case StrcpyCall(to, from) => StrcpyArgs(m, to, from)
    case StrdupCall(s) => Terminated(m.mem, s)
    case StrlenCall(s) => Terminated(m.mem, s)
    case StrncasecmpCall(s1, s2, n) => TwoBounded(m, s1, s2, n)
    case StrncmpCall(s1, s2, size) => TwoBounded(m, s1, s2, size)
    case StrncpyCall(to, from, size) => StrncpyArgs(m, to, from, size)
    case StrnlenCall(s, maxlen) => Readable(m.mem, s, maxlen)
  }

  /** The intercepted routine's wrapper, run on `m`. */
  function Intercept(m: Machine, call: Call): Step
    requires CallArgs(m, call)
  {
    match call
    case MemcmpCall(a1, a2, size) => MemcmpStep(m, a1, a2, size)
    case MemcpyCall(to, from, size) => MemcpyStep(m, to, from, size)
    case MemmoveCall(to, from, size) => MemmoveStep(m, to, from, size)
    case MemsetCall(block, c, size) => MemsetStep(m, block, c, size)
    case StrchrCall(str, c) => StrchrStep(m, str, c)
    case StrcasecmpCall(s1, s2) => StrcasecmpStep(m, s1, s2)
    case StrcatCall(to, from) => StrcatStep(m, to, from)
    case StrcmpCall(s1, s2) => StrcmpStep(m, s1, s2)
    case StrcpyCall(to, from) => StrcpyStep(m, to, from)
    case StrdupCall(s) => StrdupStep(m, s)
    case StrlenCall(s) => StrlenStep(m, s)
    case StrncasecmpCall(s1, s2, n) => StrncasecmpStep(m, s1, s2, n)
    case StrncmpCall(s1, s2, size) => StrncmpStep(m, s1, s2, size)
    case StrncpyCall(to, from, size) => StrncpyStep(m, to, from, size)
    case StrnlenCall(s, maxlen) => StrnlenStep(m, s, maxlen)
  }

  /** What the real C routine answers, and the memory it leaves. */
  function Real(m: Machine, call: Call): (Value, seq<byte>)
    requires CallArgs(m, call)
  {
    match call
    case MemcmpCall(a1, a2, size) => (Num(Memcmp(m.mem, a1, a2, size)), m.mem)
    case MemcpyCall(to, from, size) => (Ptr(to), CopyBytes(m.mem, to, from, size))
    case MemmoveCall(to, from, size) => (Ptr(to), CopyBytes(m.mem, to, from, size))
    case MemsetCall(block, c, size) => (Ptr(block), Fill(m.mem, block, ToChar(c), size))
    case StrchrCall(str, c) =>
      var r := Strchr(m.mem, str, c);
      (if r.Some? then Ptr(r.value) else Null, m.mem)
    case StrcasecmpCall(s1, s2) => (Num(Strcasecmp(m.mem, s1, s2)), m.mem)
    case StrcatCall(to, from) => (Ptr(to), Strcat(m.mem, to, from))
    case StrcmpCall(s1, s2) => (Num(StrCmp(m.mem, s1, s2)), m.mem)
    case StrcpyCall(to, from) => (Ptr(to), Strcpy(m.mem, to, from))
    case StrdupCall(s) => (HeapCopy(Strdup(m.mem, s)), m.mem)
    case StrlenCall(s) => (Num(StrLen(m.mem, s)), m.mem)
    case StrncasecmpCall(s1, s2, n) => (Num(Strncasecmp(m.mem, s1, s2, n)), m.mem)
    case StrncmpCall(s1, s2, size) => (Num(Strncmp(m.mem, s1, s2, size)), m.mem)
    case StrncpyCall(to, from, size) => (Ptr(to), Strncpy(m.mem, to, from, size))
    case StrnlenCall(s, maxlen) => (Num(StrNLen(m.mem, s, maxlen)), m.mem)
  }

  /** The wrappers that call the real routine unchecked while `__asan_init`
      runs. */
  predicate BypassesDuringInit(call: Call) {
    call.MemcpyCall? || call.MemsetCall? || call.StrcpyCall? || call.StrlenCall? || call.StrncmpCall?
  }
}
