/** The interceptors as the run-time executes them: the run-time's global
    state is an object, the checking macros and the wrappers are methods that
    update it step by step, and each wrapper is proved to do exactly what its
    `Interceptors` step function says. */
module Runtime {
  import opened CString
  import Shadow
  import Libc
  import Internal
  import Scans
  import opened Interceptors

  /** The process as the interceptors see it: the memory image, the poisoned
      addresses (the shadow), the flags, `asan_inited` and
      `asan_init_is_running`, and every address probed so far. Whether plain
      `char` is signed and whether the C library has `strnlen` are fixed
      when the process starts. */
  class Asan {
    var mem: seq<byte>
    var poisoned: set<nat>
    var flags: Flags
    var init: InitState
    var trace: seq<Shadow.Access>
    const plainCharSigned: bool
    const haveRealStrnlen: bool

    /** The state the step functions of `Interceptors` talk about. */
    function State(): Machine
      reads this
    {
      Machine(mem, poisoned, flags, init, trace)
    }

    constructor(mem: seq<byte>, poisoned: set<nat>, flags: Flags, init: InitState, plainCharSigned: bool, haveRealStrnlen: bool)
      ensures State() == Machine(mem, poisoned, flags, init, [])
      ensures this.plainCharSigned == plainCharSigned && this.haveRealStrnlen == haveRealStrnlen
    {
      this.mem := mem;
      this.poisoned := poisoned;
      this.flags := flags;
      this.init := init;
      this.trace := [];
      this.plainCharSigned := plainCharSigned;
      this.haveRealStrnlen := haveRealStrnlen;
    }

    // ------------------------------------------------------ checking macros

    /** `AccessAddress`: probes one byte; a poisoned one is reported as a
        one-byte access. */
    method AccessAddress(address: nat, isWrite: bool) returns (failure: Option<Shadow.Failure>)
      modifies this
      ensures State() == old(State()).(trace := old(trace) + [Shadow.Access(address, isWrite)])
      ensures failure == if address in poisoned then Some(Shadow.Report(address, isWrite, 1)) else None
    {
      trace := trace + [Shadow.Access(address, isWrite)];
      if address in poisoned {
        failure := Some(Shadow.Report(address, isWrite, 1));
      } else {
        failure := None;
      }
    }

    /** `ACCESS_MEMORY_RANGE`: probes the first and then the last byte of a
        non-empty range, stopping at a report. */
    method AccessMemoryRange(offset: nat, size: nat, isWrite: bool) returns (failure: Option<Shadow.Failure>)
      modifies this
      ensures var r := Shadow.Execute(Shadow.AccessMemoryRange(offset, size, isWrite), old(poisoned));
        failure == r.failure && State() == old(State()).(trace := old(trace) + r.probes)
    {
      Shadow.AccessMemoryRangeProbes(offset, size, isWrite, poisoned);
      failure := None;
      if size > 0 {
        failure := AccessAddress(offset, isWrite);
        if failure.None? {
          failure := AccessAddress(offset + size - 1, isWrite);
        }
      }
    }

    /** `ASAN_READ_RANGE`. */
    method ReadRange(offset: nat, size: nat) returns (failure: Option<Shadow.Failure>)
      modifies this
      ensures var r := Shadow.Execute(Shadow.ReadRange(offset, size), old(poisoned));
        failure == r.failure && State() == old(State()).(trace := old(trace) + r.probes)
    {
      failure := AccessMemoryRange(offset, size, false);
    }

    /** `ASAN_WRITE_RANGE`. */
    method WriteRange(offset: nat, size: nat) returns (failure: Option<Shadow.Failure>)
      modifies this
      ensures var r := Shadow.Execute(Shadow.WriteRange(offset, size), old(poisoned));
        failure == r.failure && State() == old(State()).(trace := old(trace) + r.probes)
    {
      failure := AccessMemoryRange(offset, size, true);
    }

    /** The two `ASAN_READ_RANGE`s that end every comparison wrapper: `size`
        bytes of each operand, the first operand first. */
    method ReadBoth(s1: nat, s2: nat, size: nat) returns (failure: Option<Shadow.Failure>)
      modifies this
      ensures var r := Shadow.Execute(Shadow.ReadRange(s1, size) + Shadow.ReadRange(s2, size), old(poisoned));
        failure == r.failure && State() == old(State()).(trace := old(trace) + r.probes)
    {
      ghost var start := State();
      ghost var first := Shadow.Execute(Shadow.ReadRange(s1, size), poisoned);
      ghost var second := Shadow.Execute(Shadow.ReadRange(s2, size), poisoned);
      Shadow.ExecuteAppend(Shadow.ReadRange(s1, size), Shadow.ReadRange(s2, size), poisoned);
      failure := ReadRange(s1, size);
      assert State() == start.(trace := start.trace + first.probes);
      if failure.None? {
        failure := ReadRange(s2, size);
        assert State() == start.(trace := start.trace + first.probes + second.probes);
      }
    }

    /** `CHECK_RANGES_OVERLAP`: aborts when the two ranges overlap. */
    method CheckRangesOverlap(name: string, offset1: nat, length1: nat, offset2: nat, length2: nat) returns (failure: Option<Shadow.Failure>)
      ensures var r := Shadow.Execute(Shadow.CheckRangesOverlap(name, offset1, length1, offset2, length2), poisoned);
        failure == r.failure && r.probes == []
    {
      var checks := Shadow.CheckRangesOverlap(name, offset1, length1, offset2, length2);
      assert checks[1..] == [];
      if Shadow.RangesOverlap(offset1, length1, offset2, length2) {
        failure := Some(Shadow.OverlapAbort(name, offset1, length1, offset2, length2));
      } else {
        failure := None;
      }
    }

    /** A read check of `readSize` bytes at `source` followed by a write
        check of `writeSize` bytes at `target`, as every copying wrapper
        does. */
    method ReadThenWrite(source: nat, readSize: nat, target: nat, writeSize: nat) returns (failure: Option<Shadow.Failure>)
      modifies this
      ensures var r := Shadow.Execute(Shadow.ReadRange(source, readSize) + Shadow.WriteRange(target, writeSize), old(poisoned));
        failure == r.failure && State() == old(State()).(trace := old(trace) + r.probes)
    {
      ghost var start := State();
      ghost var read := Shadow.Execute(Shadow.ReadRange(source, readSize), poisoned);
      ghost var write := Shadow.Execute(Shadow.WriteRange(target, writeSize), poisoned);
      Shadow.ExecuteAppend(Shadow.ReadRange(source, readSize), Shadow.WriteRange(target, writeSize), poisoned);
      failure := ReadRange(source, readSize);
      assert State() == start.(trace := start.trace + read.probes);
      if failure.None? {
        failure := WriteRange(target, writeSize);
        assert State() == start.(trace := start.trace + read.probes + write.probes);
      }
    }

    /** The checks of `strcpy` and `strncpy`, in their order: the overlap
        test of the two `fromSize`-byte ranges, a read check of the source's
        `fromSize` bytes, a write check of the destination's `toSize`
        bytes. */
    method CheckCopy(name: string, to: nat, from: nat, fromSize: nat, toSize: nat) returns (failure: Option<Shadow.Failure>)
      modifies this
      ensures var r := Shadow.Execute(Shadow.CheckRangesOverlap(name, to, fromSize, from, fromSize)
                                      + Shadow.ReadRange(from, fromSize) + Shadow.WriteRange(to, toSize), old(poisoned));
        failure == r.failure && State() == old(State()).(trace := old(trace) + r.probes)
    {
      ghost var overlap := Shadow.CheckRangesOverlap(name, to, fromSize, from, fromSize);
      ghost var copy := Shadow.ReadRange(from, fromSize) + Shadow.WriteRange(to, toSize);
      assert overlap + Shadow.ReadRange(from, fromSize) + Shadow.WriteRange(to, toSize) == overlap + copy;
      Shadow.ExecuteAppend(overlap, copy, poisoned);
      failure := CheckRangesOverlap(name, to, fromSize, from, fromSize);
      if failure.None? {
        failure := ReadThenWrite(from, fromSize, to, toSize);
      }
    }

    /** The checks `strcat` runs for a non-empty source: the old destination
        string, the bytes about to be written after it, and the overlap test
        of `toLength + 1` bytes at `to` against the source. */
    method CheckAppend(to: nat, toLength: nat, from: nat, fromLength: nat) returns (failure: Option<Shadow.Failure>)
      modifies this
      ensures var r := Shadow.Execute(Shadow.ReadRange(to, toLength) + Shadow.WriteRange(to + toLength, fromLength + 1)
                                      + Shadow.CheckRangesOverlap("strcat", to, toLength + 1, from, fromLength + 1), old(poisoned));
        failure == r.failure && State() == old(State()).(trace := old(trace) + r.probes)
    {
      ghost var append := Shadow.ReadRange(to, toLength) + Shadow.WriteRange(to + toLength, fromLength + 1);
      Shadow.ExecuteAppend(append, Shadow.CheckRangesOverlap("strcat", to, toLength + 1, from, fromLength + 1), poisoned);
      failure := ReadThenWrite(to, toLength, to + toLength, fromLength + 1);
      if failure.None? {
        failure := CheckRangesOverlap("strcat", to, toLength + 1, from, fromLength + 1);
      }
    }

    /** `ENSURE_ASAN_INITED`: `ok` is false when its CHECK fails because
        initialization is running; otherwise the run-time is initialized
        (`__asan_init` runs if it has not run yet). */
    method EnsureAsanInited() returns (ok: bool)
      modifies this
      ensures EnsureInited(old(State())) == if ok then Some(State()) else None
      ensures !ok ==> State() == old(State())
    {
      if init == Initializing {
        ok := false;
      } else {
        if init == Uninitialized {
          init := Initialized;
        }
        ok := true;
      }
    }

    // ------------------------------------------------------------ memory

    /** The `memcmp` wrapper. */
    method Memcmp(a1: nat, a2: nat, size: nat) returns (o: Outcome)
      requires MemcmpArgs(State(), a1, a2, size)
      modifies this
      ensures Step(o, State()) == MemcmpStep(old(State()), a1, a2, size)
    {
      var ok := EnsureAsanInited();
      if !ok {
        return InitCheckFailed;
      }
      var i, c1, c2 := Scans.BoundedScan(ByteRule, mem, a1, a2, size);
      FirstStopUnique(ByteRule, mem, a1, a2, size, i);
      var k := Min(i + 1, size);
      var failure := ReadBoth(a1, a2, k);
      if failure.Some? {
        return Aborted(failure.value);
      }
      return Returned(Num(CharCmp(c1, c2)));
    }

    /** The `memcpy` wrapper. */
    method Memcpy(to: nat, from: nat, size: nat) returns (o: Outcome)
      requires CopyArgs(State(), to, from, size)
      modifies this
      ensures Step(o, State()) == MemcpyStep(old(State()), to, from, size)
    {
      if init == Initializing {
        mem := Libc.CopyBytes(mem, to, from, size);
        return Returned(Ptr(to));
      }
      var ok := EnsureAsanInited();
      if flags.replaceIntrin {
        ghost var overlap := if to != from then Shadow.CheckRangesOverlap("memcpy", to, size, from, size) else [];
        ghost var move := Shadow.WriteRange(from, size) + Shadow.ReadRange(to, size);
        assert overlap + Shadow.WriteRange(from, size) + Shadow.ReadRange(to, size) == overlap + move;
        Shadow.ExecuteAppend(overlap, move, poisoned);
        if to != from {
          var failure := CheckRangesOverlap("memcpy", to, size, from, size);
          if failure.Some? {
            return Aborted(failure.value);
          }
        }
        var failure := CheckMove(to, from, size);
        if failure.Some? {
          return Aborted(failure.value);
        }
      }
      mem := Libc.CopyBytes(mem, to, from, size);
      return Returned(Ptr(to));
    }

    /** The two range checks of `memcpy` and `memmove`, labelled as the
        wrappers label them: the source as written, then the destination as
        read. */
    method CheckMove(to: nat, from: nat, size: nat) returns (failure: Option<Shadow.Failure>)
      modifies this
      ensures var r := Shadow.Execute(Shadow.WriteRange(from, size) + Shadow.ReadRange(to, size), old(poisoned));
        failure == r.failure && State() == old(State()).(trace := old(trace) + r.probes)
    {
      Shadow.ExecuteAppend(Shadow.WriteRange(from, size), Shadow.ReadRange(to, size), poisoned);
      failure := WriteRange(from, size);
      if failure.None? {
        failure := ReadRange(to, size);
      }
    }

    /** The `memmove` wrapper. */
    method Memmove(to: nat, from: nat, size: nat) returns (o: Outcome)
      requires CopyArgs(State(), to, from, size)
      modifies this
      ensures Step(o, State()) == MemmoveStep(old(State()), to, from, size)
    {
      var ok := EnsureAsanInited();
      if !ok {
        return InitCheckFailed;
      }
      if flags.replaceIntrin {
        var failure := CheckMove(to, from, size);
        if failure.Some? {
          return Aborted(failure.value);
        }
      }
      mem := Libc.CopyBytes(mem, to, from, size);
      return Returned(Ptr(to));
    }

    /** The `memset` wrapper. */
    method Memset(block: nat, c: int, size: nat) returns (o: Outcome)
      requires block + size <= |mem|
      modifies this
      ensures Step(o, State()) == MemsetStep(old(State()), block, c, size)
    {
      if init == Initializing {
        mem := Libc.Fill(mem, block, Libc.ToChar(c), size);
        return Returned(Ptr(block));
      }
      var ok := EnsureAsanInited();
      if flags.replaceIntrin {
        var failure := WriteRange(block, size);
        if failure.Some? {
          return Aborted(failure.value);
        }
      }
      mem := Libc.Fill(mem, block, Libc.ToChar(c), size);
      return Returned(Ptr(block));
    }

    // ------------------------------------------------------------ strings

    /** The `strchr` wrapper (and `index`). */
    method Strchr(str: nat, c: int) returns (o: Outcome)
      requires Terminated(mem, str)
      modifies this
      ensures Step(o, State()) == StrchrStep(old(State()), str, c)
    {
      var ok := EnsureAsanInited();
      if !ok {
        return InitCheckFailed;
      }
      var result := Libc.Strchr(mem, str, c);
      if flags.replaceStr {
        var bytesRead := (if result.Some? then result.value - str else StrLen(mem, str)) + 1;
        var failure := ReadRange(str, bytesRead);
        if failure.Some? {
          return Aborted(failure.value);
        }
      }
      return Returned(if result.Some? then Ptr(result.value) else Null);
    }

    /** The `strcasecmp` wrapper. */
    method Strcasecmp(s1: nat, s2: nat) returns (o: Outcome)
      requires TwoStrings(State(), s1, s2)
      modifies this
      ensures Step(o, State()) == StrcasecmpStep(old(State()), s1, s2)
    {
      ghost var m := State();
      var ok := EnsureAsanInited();
      if !ok {
        return InitCheckFailed;
      }
      assert State() == m.(init := Initialized);
      var i, c1, c2 := Scans.ScanToNul(CaseRule, mem, s1, s2);
      FirstStopUnique(CaseRule, mem, s1, s2, StrLen(mem, s1) + 1, i);
      assert StrcasecmpStep(m, s1, s2) == Deliver(m.(init := Initialized), Shadow.ReadRange(s1, i + 1) + Shadow.ReadRange(s2, i + 1), Num(CharCaseCmp(c1, c2)), mem);
      var failure := ReadBoth(s1, s2, i + 1);
      if failure.Some? {
        return Aborted(failure.value);
      }
      return Returned(Num(CharCaseCmp(c1, c2)));
    }

    /** The checks of the `strcat` wrapper: under `FLAG_replace_str`, the
        source with its terminator, then for a non-empty source the checks
        of `CheckAppend`. */
    method CheckStrcat(to: nat, from: nat) returns (failure: Option<Shadow.Failure>)
      requires Terminated(mem, to) && Terminated(mem, from)
      modifies this
      ensures var r := Shadow.Execute(StrcatChecks(old(flags).replaceStr, to, from, StrLen(old(mem), to), StrLen(old(mem), from)), old(poisoned));
        failure == r.failure && State() == old(State()).(trace := old(trace) + r.probes)
    {
      var toLength, fromLength := StrLen(mem, to), StrLen(mem, from);
      ghost var checks := StrcatChecks(flags.replaceStr, to, from, toLength, fromLength);
      failure := None;
      if flags.replaceStr {
        ghost var source := Shadow.ReadRange(from, fromLength + 1);
        ghost var rest := if fromLength > 0 then
          Shadow.ReadRange(to, toLength) + Shadow.WriteRange(to + toLength, fromLength + 1)
          + Shadow.CheckRangesOverlap("strcat", to, toLength + 1, from, fromLength + 1)
          else [];
        assert checks == source + rest;
        Shadow.ExecuteAppend(source, rest, poisoned);
        failure := ReadRange(from, fromLength + 1);
        if failure.None? && fromLength > 0 {
          failure := CheckAppend(to, toLength, from, fromLength);
        }
      } else {
        assert checks == [];
      }
    }

    /** The `strcat` wrapper. */
    method Strcat(to: nat, from: nat) returns (o: Outcome)
      requires StrcatArgs(State(), to, from)
      modifies this
      ensures Step(o, State()) == StrcatStep(old(State()), to, from)
    {
      var ok := EnsureAsanInited();
      if !ok {
        return InitCheckFailed;
      }
      var failure := CheckStrcat(to, from);
      if failure.Some? {
        return Aborted(failure.value);
      }
      mem := Libc.Strcat(mem, to, from);
      return Returned(Ptr(to));
    }

    /** The `strcmp` wrapper: before `asan_inited` it answers with
        `internal_strcmp`. */
    method Strcmp(s1: nat, s2: nat) returns (o: Outcome)
      requires TwoStrings(State(), s1, s2)
      modifies this
      ensures Step(o, State()) == StrcmpStep(old(State()), s1, s2)
    {
      ghost var m := State();
      if init != Initialized {
        var r := Internal.InternalStrcmp(mem, s1, s2, plainCharSigned);
        assert StrcmpStep(m, s1, s2) == Step(Returned(Num(r)), m);
        return Returned(Num(r));
      }
      var i, c1, c2 := Scans.ScanToNul(StringRule, mem, s1, s2);
      FirstStopUnique(StringRule, mem, s1, s2, StrLen(mem, s1) + 1, i);
      assert StrcmpStep(m, s1, s2) == Deliver(m, Shadow.ReadRange(s1, i + 1) + Shadow.ReadRange(s2, i + 1), Num(CharCmp(c1, c2)), mem);
      var failure := ReadBoth(s1, s2, i + 1);
      if failure.Some? {
        return Aborted(failure.value);
      }
      return Returned(Num(CharCmp(c1, c2)));
    }

    /** The `strcpy` wrapper. */
    method Strcpy(to: nat, from: nat) returns (o: Outcome)
      requires StrcpyArgs(State(), to, from)
      modifies this
      ensures Step(o, State()) == StrcpyStep(old(State()), to, from)
    {
      if init == Initializing {
        mem := Libc.Strcpy(mem, to, from);
        return Returned(Ptr(to));
      }
      ghost var m := State();
      var ok := EnsureAsanInited();
      var fromSize := StrLen(mem, from) + 1;
      ghost var mem' := Libc.Strcpy(mem, to, from);
      assert StrcpyStep(m, to, from) == Deliver(State(), StrcpyChecks(m, to, from), Ptr(to), mem');
      if flags.replaceStr {
        assert StrcpyChecks(m, to, from) == Shadow.CheckRangesOverlap("strcpy", to, fromSize, from, fromSize)
          + Shadow.ReadRange(from, fromSize) + Shadow.WriteRange(to, fromSize);
        var failure := CheckCopy("strcpy", to, from, fromSize, fromSize);
        if failure.Some? {
          return Aborted(failure.value);
        }
      } else {
        assert StrcpyChecks(m, to, from) == [];
      }
      mem := Libc.Strcpy(mem, to, from);
      return Returned(Ptr(to));
    }

    /** The `strdup` wrapper. */
    method Strdup(s: nat) returns (o: Outcome)
      requires Terminated(mem, s)
      modifies this
      ensures Step(o, State()) == StrdupStep(old(State()), s)
    {
      var ok := EnsureAsanInited();
      if !ok {
        return InitCheckFailed;
      }
      if flags.replaceStr {
        var length := StrLen(mem, s);
        var failure := ReadRange(s, length + 1);
        if failure.Some? {
          return Aborted(failure.value);
        }
      }
      return Returned(HeapCopy(Libc.Strdup(mem, s)));
    }

    /** The `strlen` wrapper. */
    method Strlen(s: nat) returns (o: Outcome)
      requires Terminated(mem, s)
      modifies this
      ensures Step(o, State()) == StrlenStep(old(State()), s)
    {
      if init == Initializing {
        return Returned(Num(StrLen(mem, s)));
      }
      var ok := EnsureAsanInited();
      var length := StrLen(mem, s);
      if flags.replaceStr {
        var failure := ReadRange(s, length + 1);
        if failure.Some? {
          return Aborted(failure.value);
        }
      }
      return Returned(Num(length));
    }

    /** The `strncasecmp` wrapper. */
    method Strncasecmp(s1: nat, s2: nat, n: nat) returns (o: Outcome)
      requires TwoBounded(State(), s1, s2, n)
      modifies this
      ensures Step(o, State()) == StrncasecmpStep(old(State()), s1, s2, n)
    {
      var ok := EnsureAsanInited();
      if !ok {
        return InitCheckFailed;
      }
      var i, c1, c2 := Scans.BoundedScan(CaseRule, mem, s1, s2, n);
      FirstStopUnique(CaseRule, mem, s1, s2, n, i);
      var k := Min(i + 1, n);
      var failure := ReadBoth(s1, s2, k);
      if failure.Some? {
        return Aborted(failure.value);
      }
      return Returned(Num(CharCaseCmp(c1, c2)));
    }

    /** The `strncmp` wrapper: no `ENSURE_ASAN_INITED`. */
    method Strncmp(s1: nat, s2: nat, size: nat) returns (o: Outcome)
      requires TwoBounded(State(), s1, s2, size)
      modifies this
      ensures Step(o, State()) == StrncmpStep(old(State()), s1, s2, size)
    {
      if init == Initializing {
        return Returned(Num(Libc.Strncmp(mem, s1, s2, size)));
      }
      var i, c1, c2 := Scans.BoundedScan(StringRule, mem, s1, s2, size);
      FirstStopUnique(StringRule, mem, s1, s2, size, i);
      var k := Min(i + 1, size);
      var failure := ReadBoth(s1, s2, k);
      if failure.Some? {
        return Aborted(failure.value);
      }
      return Returned(Num(CharCmp(c1, c2)));
    }

    /** The `strncpy` wrapper: measures the source with `internal_strnlen`. */
    method Strncpy(to: nat, from: nat, size: nat) returns (o: Outcome)
      requires StrncpyArgs(State(), to, from, size)
      modifies this
      ensures Step(o, State()) == StrncpyStep(old(State()), to, from, size)
    {
      ghost var m := State();
      var ok := EnsureAsanInited();
      if !ok {
        return InitCheckFailed;
      }
      ghost var mem' := Libc.Strncpy(mem, to, from, size);
      assert StrncpyStep(m, to, from, size) == Deliver(State(), StrncpyChecks(m, to, from, size), Ptr(to), mem');
      if flags.replaceStr {
        var length := Internal.InternalStrnlen(mem, from, size, haveRealStrnlen);
        assert length == StrNLen(mem, from, size);
        var fromSize := Min(size, length + 1);
        assert StrncpyChecks(m, to, from, size) == Shadow.CheckRangesOverlap("strncpy", to, fromSize, from, fromSize)
          + Shadow.ReadRange(from, fromSize) + Shadow.WriteRange(to, size);
        var failure := CheckCopy("strncpy", to, from, fromSize, size);
        if failure.Some? {
          return Aborted(failure.value);
        }
      } else {
        assert StrncpyChecks(m, to, from, size) == [];
      }
      mem := Libc.Strncpy(mem, to, from, size);
      return Returned(Ptr(to));
    }

    /** The `strnlen` wrapper. */
    method Strnlen(s: nat, maxlen: nat) returns (o: Outcome)
      requires Readable(mem, s, maxlen)
      modifies this
      ensures Step(o, State()) == StrnlenStep(old(State()), s, maxlen)
    {
      var ok := EnsureAsanInited();
      if !ok {
        return InitCheckFailed;
      }
      var length := StrNLen(mem, s, maxlen);
      if flags.replaceStr {
        var failure := ReadRange(s, Min(length + 1, maxlen));
        if failure.Some? {
          return Aborted(failure.value);
        }
      }
      return Returned(Num(length));
    }
  }

  // ------------------------------------------------------------- mlock

  /** The line `MlockIsUnsupported` prints. */
  const MlockNotice: string := "INFO: AddressSanitizer ignores mlock/mlockall/munlock/munlockall\n"

  /** The `mlock` family: memory locking is not supported under the
      run-time's huge shadow mappings, so every call succeeds without doing
      anything, and the first one prints a notice. `printed` is the static
      flag of `MlockIsUnsupported`; `output` is what the shims printed. */
  class MlockShims {
    var printed: bool
    var output: seq<string>

    /** The notice has been printed once if the flag is set, never
        otherwise. */
    predicate Valid()
      reads this
    {
      output == if printed then [MlockNotice] else []
    }

    constructor()
      ensures Valid() && !printed
    {
      printed := false;
      output := [];
    }

    /** `MlockIsUnsupported`: prints the notice on its first call only. */
    method MlockIsUnsupported()
      requires Valid()
      modifies this
      ensures Valid() && printed
      ensures output == [MlockNotice]
      ensures old(printed) ==> output == old(output)
    {
      if printed {
        return;
      }
      printed := true;
      output := output + [MlockNotice];
    }

    /** `mlock`: succeeds and does nothing. */
    method Mlock(addr: nat, len: nat) returns (r: int)
      requires Valid()
      modifies this
      ensures Valid() && r == 0 && output == [MlockNotice]
    {
      MlockIsUnsupported();
      return 0;
    }

    /** `munlock`: succeeds and does nothing. */
    method Munlock(addr: nat, len: nat) returns (r: int)
      requires Valid()
      modifies this
      ensures Valid() && r == 0 && output == [MlockNotice]
    {
      MlockIsUnsupported();
      return 0;
    }

    /** `mlockall`: succeeds and does nothing. */
    method Mlockall(flags: int) returns (r: int)
      requires Valid()
      modifies this
      ensures Valid() && r == 0 && output == [MlockNotice]
    {
      MlockIsUnsupported();
      return 0;
    }

    /** `munlockall`: succeeds and does nothing. */
    method Munlockall() returns (r: int)
      requires Valid()
      modifies this
      ensures Valid() && r == 0 && output == [MlockNotice]
    {
      MlockIsUnsupported();
      return 0;
    }
  }
}
