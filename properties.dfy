/** Properties of the string and memory interceptors, stated once over every
    wrapper (through `Interceptors.Intercept`) and wrapper by wrapper. */
module WrapperProperties {
  import opened CString
  import opened Shadow
  import opened Libc
  import opened Interceptors

  // ------------------------------------------------------------ all wrappers

  /** The initialization state a wrapper leaves: `strcmp` and `strncmp` never
      run `ENSURE_ASAN_INITED`; every other wrapper leaves the run-time
      initialized unless initialization was already running. */
  function InitAfter(m: Machine, call: Call): InitState {
    if m.init == Initializing || call.StrcmpCall? || call.StrncmpCall? then m.init else Initialized
  }

  /** What every wrapper guarantees of a step `s` from `m`, given what the
      real routine would answer and leave in memory (`expected`):
      - the poisoned addresses and the flags are unchanged, and the trace
        only grows;
      - the initialization state becomes `init`;
      - a wrapper that returns answers what the real routine answers and
        leaves memory as the real routine leaves it;
      - a wrapper that does not return leaves memory untouched;
      - a report names a poisoned address, the last one probed. */
  predicate Conforms(m: Machine, s: Step, expected: (Value, seq<byte>), init: InitState) {
    && s.after.poisoned == m.poisoned
    && s.after.flags == m.flags
    && |m.trace| <= |s.after.trace| && s.after.trace[..|m.trace|] == m.trace
    && s.after.init == init
    && (s.outcome.Returned? ==> s.outcome.value == expected.0 && s.after.mem == expected.1)
    && (!s.outcome.Returned? ==> s.after.mem == m.mem)
    && (s.outcome.Aborted? && s.outcome.failure.Report? ==>
          && s.outcome.failure.addr in m.poisoned
          && |s.after.trace| > 0
          && s.after.trace[|s.after.trace| - 1] == Access(s.outcome.failure.addr, s.outcome.failure.isWrite))
  }

  /** The common end of the checked wrappers conforms. */
  lemma DeliverConforms(m: Machine, init: InitState, checks: seq<Check>, value: Value, mem': seq<byte>)
    ensures Conforms(m, Deliver(m.(init := init), checks, value, mem'), (value, mem'), init)
  {
    ExecuteReportsPoison(checks, m.poisoned);
  }

  /** Every wrapper conforms to the real routine it intercepts. */
  lemma InterceptConforms(m: Machine, call: Call)
    requires CallArgs(m, call)
    ensures Conforms(m, Intercept(m, call), Real(m, call), InitAfter(m, call))
  {
    match call
    case MemcmpCall(_, _, _) => MemcmpConforms(m, call);
    case MemcpyCall(_, _, _) => MemcpyConforms(m, call);
    case MemmoveCall(_, _, _) => MemmoveConforms(m, call);
    case MemsetCall(_, _, _) => MemsetConforms(m, call);
    case StrchrCall(_, _) => StrchrConforms(m, call);
    case StrcasecmpCall(_, _) => StrcasecmpConforms(m, call);
    case StrcatCall(_, _) => StrcatConforms(m, call);
    case StrcmpCall(_, _) => StrcmpConforms(m, call);
    case StrcpyCall(_, _) => StrcpyConforms(m, call);
    case StrdupCall(_) => StrdupConforms(m, call);
    case StrlenCall(_) => StrlenConforms(m, call);
    case StrncasecmpCall(_, _, _) => StrncasecmpConforms(m, call);
    case StrncmpCall(_, _, _) => StrncmpConforms(m, call);
    case StrncpyCall(_, _, _) => StrncpyConforms(m, call);
    case StrnlenCall(_, _) => StrnlenConforms(m, call);
  }

  lemma MemcmpConforms(m: Machine, call: Call)
    requires CallArgs(m, call) && call.MemcmpCall?
    ensures Conforms(m, Intercept(m, call), Real(m, call), InitAfter(m, call))
  {
    var MemcmpCall(a1, a2, size) := call;
    var i := StopIndex(ByteRule, m.mem, a1, a2, size);
    var (c1, c2) := LastPair(m.mem, a1, a2, i, size);
    MemcmpAnswer(m.mem, a1, a2, size);
    DeliverConforms(m, Initialized, ReadRange(a1, Min(i + 1, size)) + ReadRange(a2, Min(i + 1, size)), Num(CharCmp(c1, c2)), m.mem);
  }

  lemma MemcpyConforms(m: Machine, call: Call)
    requires CallArgs(m, call) && call.MemcpyCall?
    ensures Conforms(m, Intercept(m, call), Real(m, call), InitAfter(m, call))
  {
    var MemcpyCall(to, from, size) := call;
    DeliverConforms(m, Initialized, MemcpyChecks(m, to, from, size), Ptr(to), CopyBytes(m.mem, to, from, size));
  }

  lemma MemmoveConforms(m: Machine, call: Call)
    requires CallArgs(m, call) && call.MemmoveCall?
    ensures Conforms(m, Intercept(m, call), Real(m, call), InitAfter(m, call))
  {
    var MemmoveCall(to, from, size) := call;
    DeliverConforms(m, Initialized, MemmoveChecks(m, to, from, size), Ptr(to), CopyBytes(m.mem, to, from, size));
  }

  lemma MemsetConforms(m: Machine, call: Call)
    requires CallArgs(m, call) && call.MemsetCall?
    ensures Conforms(m, Intercept(m, call), Real(m, call), InitAfter(m, call))
  {
    var MemsetCall(block, c, size) := call;
    DeliverConforms(m, Initialized, When(m.flags.replaceIntrin, WriteRange(block, size)), Ptr(block), Fill(m.mem, block, ToChar(c), size));
  }

  lemma StrchrConforms(m: Machine, call: Call)
    requires CallArgs(m, call) && call.StrchrCall?
    ensures Conforms(m, Intercept(m, call), Real(m, call), InitAfter(m, call))
  {
    var StrchrCall(str, c) := call;
    var result := Strchr(m.mem, str, c);
    DeliverConforms(m, Initialized, When(m.flags.replaceStr, ReadRange(str, StrchrBytesRead(m.mem, str, result))),
        if result.Some? then Ptr(result.value) else Null, m.mem);
  }

  lemma StrcasecmpConforms(m: Machine, call: Call)
    requires CallArgs(m, call) && call.StrcasecmpCall?
    ensures Conforms(m, Intercept(m, call), Real(m, call), InitAfter(m, call))
  {
    var StrcasecmpCall(s1, s2) := call;
    assert Intercept(m, call) == StrcasecmpStep(m, s1, s2);
    assert Real(m, call) == (Num(Strcasecmp(m.mem, s1, s2)), m.mem);
    StrcasecmpStepConforms(m, s1, s2);
  }

  lemma StrcasecmpStepConforms(m: Machine, s1: nat, s2: nat)
    requires TwoStrings(m, s1, s2)
    ensures Conforms(m, StrcasecmpStep(m, s1, s2), (Num(Strcasecmp(m.mem, s1, s2)), m.mem),
                     if m.init == Initializing then Initializing else Initialized)
  {
    if m.init != Initializing {
      var i := StopIndex(CaseRule, m.mem, s1, s2, StrLen(m.mem, s1) + 1);
      StrcasecmpDelivers(m, s1, s2);
      DeliverConforms(m, Initialized, ReadRange(s1, i + 1) + ReadRange(s2, i + 1), Num(Strcasecmp(m.mem, s1, s2)), m.mem);
    }
  }

  lemma StrcatConforms(m: Machine, call: Call)
    requires CallArgs(m, call) && call.StrcatCall?
    ensures Conforms(m, Intercept(m, call), Real(m, call), InitAfter(m, call))
  {
    var StrcatCall(to, from) := call;
    DeliverConforms(m, Initialized, StrcatChecks(m.flags.replaceStr, to, from, StrLen(m.mem, to), StrLen(m.mem, from)), Ptr(to), Strcat(m.mem, to, from));
  }

  lemma StrcmpConforms(m: Machine, call: Call)
    requires CallArgs(m, call) && call.StrcmpCall?
    ensures Conforms(m, Intercept(m, call), Real(m, call), InitAfter(m, call))
  {
    var StrcmpCall(s1, s2) := call;
    var value := Num(StrCmp(m.mem, s1, s2));
    assert Intercept(m, call) == StrcmpStep(m, s1, s2);
    assert Real(m, call) == (value, m.mem);
    if m.init == Initialized {
      var i := StopIndex(StringRule, m.mem, s1, s2, StrLen(m.mem, s1) + 1);
      var checks := ReadRange(s1, i + 1) + ReadRange(s2, i + 1);
      assert StrcmpStep(m, s1, s2) == Deliver(m, checks, value, m.mem);
      assert m.(init := Initialized) == m;
      DeliverConforms(m, Initialized, checks, value, m.mem);
    } else {
      assert m.trace[..|m.trace|] == m.trace;
    }
  }

  lemma StrcpyConforms(m: Machine, call: Call)
    requires CallArgs(m, call) && call.StrcpyCall?
    ensures Conforms(m, Intercept(m, call), Real(m, call), InitAfter(m, call))
  {
    var StrcpyCall(to, from) := call;
    DeliverConforms(m, Initialized, StrcpyChecks(m, to, from), Ptr(to), Strcpy(m.mem, to, from));
  }

  lemma StrdupConforms(m: Machine, call: Call)
    requires CallArgs(m, call) && call.StrdupCall?
    ensures Conforms(m, Intercept(m, call), Real(m, call), InitAfter(m, call))
  {
    var StrdupCall(s) := call;
    DeliverConforms(m, Initialized, When(m.flags.replaceStr, ReadRange(s, StrLen(m.mem, s) + 1)), HeapCopy(Strdup(m.mem, s)), m.mem);
  }

  lemma StrlenConforms(m: Machine, call: Call)
    requires CallArgs(m, call) && call.StrlenCall?
    ensures Conforms(m, Intercept(m, call), Real(m, call), InitAfter(m, call))
  {
    var StrlenCall(s) := call;
    DeliverConforms(m, Initialized, When(m.flags.replaceStr, ReadRange(s, StrLen(m.mem, s) + 1)), Num(StrLen(m.mem, s)), m.mem);
  }

  lemma StrncasecmpConforms(m: Machine, call: Call)
    requires CallArgs(m, call) && call.StrncasecmpCall?
    ensures Conforms(m, Intercept(m, call), Real(m, call), InitAfter(m, call))
  {
    var StrncasecmpCall(s1, s2, n) := call;
    var i := StopIndex(CaseRule, m.mem, s1, s2, n);
    var (c1, c2) := LastPair(m.mem, s1, s2, i, n);
    DeliverConforms(m, Initialized, ReadRange(s1, Min(i + 1, n)) + ReadRange(s2, Min(i + 1, n)), Num(CharCaseCmp(c1, c2)), m.mem);
  }

  lemma StrncmpConforms(m: Machine, call: Call)
    requires CallArgs(m, call) && call.StrncmpCall?
    ensures Conforms(m, Intercept(m, call), Real(m, call), InitAfter(m, call))
  {
    var StrncmpCall(s1, s2, size) := call;
    var i := StopIndex(StringRule, m.mem, s1, s2, size);
    var (c1, c2) := LastPair(m.mem, s1, s2, i, size);
    DeliverConforms(m, m.init, ReadRange(s1, Min(i + 1, size)) + ReadRange(s2, Min(i + 1, size)), Num(CharCmp(c1, c2)), m.mem);
  }

  lemma StrncpyConforms(m: Machine, call: Call)
    requires CallArgs(m, call) && call.StrncpyCall?
    ensures Conforms(m, Intercept(m, call), Real(m, call), InitAfter(m, call))
  {
    var StrncpyCall(to, from, size) := call;
    DeliverConforms(m, Initialized, StrncpyChecks(m, to, from, size), Ptr(to), Strncpy(m.mem, to, from, size));
  }

  lemma StrnlenConforms(m: Machine, call: Call)
    requires CallArgs(m, call) && call.StrnlenCall?
    ensures Conforms(m, Intercept(m, call), Real(m, call), InitAfter(m, call))
  {
    var StrnlenCall(s, maxlen) := call;
    var length := StrNLen(m.mem, s, maxlen);
    DeliverConforms(m, Initialized, When(m.flags.replaceStr, ReadRange(s, Min(length + 1, maxlen))), Num(length), m.mem);
  }

  /** The answer of the `memcmp` wrapper's loop is the real `memcmp`'s. */
  lemma MemcmpAnswer(mem: seq<byte>, a1: nat, a2: nat, size: nat)
    ensures var i := StopIndex(ByteRule, mem, a1, a2, size);
      CharCmp(LastPair(mem, a1, a2, i, size).0, LastPair(mem, a1, a2, i, size).1) == Memcmp(mem, a1, a2, size)
  {
    var i := StopIndex(ByteRule, mem, a1, a2, size);
    assert i == size && size > 0 ==> !StopsAt(ByteRule, mem, a1, a2, size - 1);
  }

  /** While `__asan_init` runs, `memcpy`, `memset`, `strcpy`, `strlen` and
      `strncmp` call the real routine unchecked, `strcmp` answers with
      `internal_strcmp` unchecked, and every other wrapper fails the CHECK in
      `ENSURE_ASAN_INITED`. */
  lemma WhileInitializing(m: Machine, call: Call)
    requires CallArgs(m, call)
    requires m.init == Initializing
    ensures var s := Intercept(m, call);
      s == if BypassesDuringInit(call) || call.StrcmpCall? then Step(Returned(Real(m, call).0), m.(mem := Real(m, call).1))
           else Step(InitCheckFailed, m)
  {
  }

  /** The routines that consult `FLAG_replace_str` or `FLAG_replace_intrin`. */
  predicate FlagGuarded(call: Call) {
    !(call.MemcmpCall? || call.StrcmpCall? || call.StrcasecmpCall? || call.StrncasecmpCall? || call.StrncmpCall?)
  }

  /** With both flags off, every wrapper that consults them is the real
      routine: nothing is probed and nothing aborts. */
  lemma FlagsOffTransparent(m: Machine, call: Call)
    requires CallArgs(m, call)
    requires !m.flags.replaceStr && !m.flags.replaceIntrin && m.init == Initialized
    requires FlagGuarded(call)
    ensures Intercept(m, call) == Step(Returned(Real(m, call).0), m.(mem := Real(m, call).1))
  {
    assert m.(init := Initialized) == m;
    DeliverNothing(m, Real(m, call).0, Real(m, call).1);
    match call
    case MemcpyCall(to, from, size) => assert MemcpyChecks(m, to, from, size) == [];
    case MemmoveCall(to, from, size) => assert MemmoveChecks(m, to, from, size) == [];
    case StrcatCall(to, from) => assert StrcatChecks(false, to, from, StrLen(m.mem, to), StrLen(m.mem, from)) == [];
    case StrcpyCall(to, from) => assert StrcpyChecks(m, to, from) == [];
    case StrncpyCall(to, from, size) => assert StrncpyChecks(m, to, from, size) == [];
    case _ =>
  }

  /** A wrapper whose checks are all switched off returns the real answer. */
  lemma DeliverNothing(m: Machine, value: Value, mem': seq<byte>)
    ensures Deliver(m, [], value, mem') == Step(Returned(value), m.(mem := mem'))
  {
    assert m.trace + [] == m.trace;
  }

  // ------------------------------------------------------ clean runs

  /** The checks of a run plan no overlap that fires and no probe of poison:
      the wrapper probes everything planned and returns. */
  lemma DeliverClean(m: Machine, checks: seq<Check>, value: Value, mem': seq<byte>)
    requires NoOverlapFires(checks)
    requires forall k :: 0 <= k < |Touches(checks)| ==> Touches(checks)[k].addr !in m.poisoned
    ensures Deliver(m, checks, value, mem') == Step(Returned(value), m.(trace := m.trace + Touches(checks), mem := mem'))
  {
    ExecuteClean(checks, m.poisoned);
  }

  /** A plan that probes `touches` and fires no overlap test returns the
      real routine's answer on unpoisoned memory. */
  lemma DeliverPlanned(m: Machine, checks: seq<Check>, touches: seq<Access>, value: Value, mem': seq<byte>)
    requires NoOverlapFires(checks) && Touches(checks) == touches && m.poisoned == {}
    ensures Deliver(m, checks, value, mem') == Step(Returned(value), m.(trace := m.trace + touches, mem := mem'))
  {
    DeliverClean(m, checks, value, mem');
  }

  /** Planning two lists of checks one after the other. */
  lemma PlanAppend(a: seq<Check>, b: seq<Check>)
    ensures Touches(a + b) == Touches(a) + Touches(b)
    ensures NoOverlapFires(a) && NoOverlapFires(b) ==> NoOverlapFires(a + b)
  {
    TouchesAppend(a, b);
  }

  /** Two range checks probe the endpoints of the first range, then those of
      the second. */
  lemma TwoRanges(o1: nat, n1: nat, w1: bool, o2: nat, n2: nat, w2: bool)
    ensures Touches(AccessMemoryRange(o1, n1, w1) + AccessMemoryRange(o2, n2, w2)) == Endpoints(o1, n1, w1) + Endpoints(o2, n2, w2)
    ensures NoOverlapFires(AccessMemoryRange(o1, n1, w1) + AccessMemoryRange(o2, n2, w2))
  {
    RangeTouches(o1, n1, w1);
    RangeTouches(o2, n2, w2);
    PlanAppend(AccessMemoryRange(o1, n1, w1), AccessMemoryRange(o2, n2, w2));
  }

  /** An overlap test probes nothing, and does not fire on disjoint ranges. */
  lemma OverlapThenRanges(name: string, o1: nat, l1: nat, o2: nat, l2: nat, rest: seq<Check>)
    requires !RangesOverlap(o1, l1, o2, l2)
    ensures Touches(CheckRangesOverlap(name, o1, l1, o2, l2) + rest) == Touches(rest)
    ensures NoOverlapFires(rest) ==> NoOverlapFires(CheckRangesOverlap(name, o1, l1, o2, l2) + rest)
  {
    var ov := CheckRangesOverlap(name, o1, l1, o2, l2);
    assert Touches(ov) == [] by {
      assert ov[1..] == [];
    }
    PlanAppend(ov, rest);
  }

  /** Reading `k` bytes of each operand of a comparison probes their ends
      and, on unpoisoned memory, returns. */
  lemma ReadBothClean(m: Machine, s1: nat, s2: nat, k: nat, value: Value)
    requires m.poisoned == {}
    ensures Deliver(m, ReadRange(s1, k) + ReadRange(s2, k), value, m.mem) ==
      Step(Returned(value), m.(trace := m.trace + Endpoints(s1, k, false) + Endpoints(s2, k, false)))
  {
    TwoRanges(s1, k, false, s2, k, false);
    DeliverClean(m, ReadRange(s1, k) + ReadRange(s2, k), value, m.mem);
  }

  /** The checks of a string copy on disjoint ranges probe the ends of the
      source read and of the destination written and, on unpoisoned memory,
      return. */
  lemma CopyChecksClean(m: Machine, name: string, to: nat, from: nat, fromSize: nat, toSize: nat, value: Value, mem': seq<byte>)
    requires !RangesOverlap(to, fromSize, from, fromSize) && m.poisoned == {}
    ensures Deliver(m, CheckRangesOverlap(name, to, fromSize, from, fromSize) + ReadRange(from, fromSize) + WriteRange(to, toSize), value, mem') ==
      Step(Returned(value), m.(trace := m.trace + Endpoints(from, fromSize, false) + Endpoints(to, toSize, true), mem := mem'))
  {
    var rw := ReadRange(from, fromSize) + WriteRange(to, toSize);
    TwoRanges(from, fromSize, false, to, toSize, true);
    OverlapThenRanges(name, to, fromSize, from, fromSize, rw);
    assert CheckRangesOverlap(name, to, fromSize, from, fromSize) + ReadRange(from, fromSize) + WriteRange(to, toSize)
      == CheckRangesOverlap(name, to, fromSize, from, fromSize) + rw;
    DeliverClean(m, CheckRangesOverlap(name, to, fromSize, from, fromSize) + rw, value, mem');
  }

  /** How many bytes of each operand a comparison loop bounded by `n` has
      read when it stops: up to and including the first pair that stops it,
      or all `n`. */
  function ComparedPrefix(rule: Rule, mem: seq<byte>, s1: nat, s2: nat, n: nat): (k: nat)
    ensures k <= n
    ensures k < n ==> 0 < k && StopsAt(rule, mem, s1, s2, k - 1)
    ensures forall j :: 0 <= j < k - 1 ==> !StopsAt(rule, mem, s1, s2, j)
  {
    Min(StopIndex(rule, mem, s1, s2, n) + 1, n)
  }

  /** On unpoisoned memory `memcmp` returns the real answer after probing
      the first and last of the bytes it compared in each operand, up to and
      including the first difference. */
  lemma MemcmpClean(m: Machine, a1: nat, a2: nat, size: nat)
    requires MemcmpArgs(m, a1, a2, size) && m.init != Initializing && m.poisoned == {}
    ensures var k := ComparedPrefix(ByteRule, m.mem, a1, a2, size);
      MemcmpStep(m, a1, a2, size) ==
        Step(Returned(Num(Memcmp(m.mem, a1, a2, size))),
             m.(init := Initialized, trace := m.trace + Endpoints(a1, k, false) + Endpoints(a2, k, false)))
  {
    var k := ComparedPrefix(ByteRule, m.mem, a1, a2, size);
    MemcmpAnswer(m.mem, a1, a2, size);
    var i := StopIndex(ByteRule, m.mem, a1, a2, size);
    var (c1, c2) := LastPair(m.mem, a1, a2, i, size);
    assert MemcmpStep(m, a1, a2, size) == Deliver(m.(init := Initialized), ReadRange(a1, k) + ReadRange(a2, k), Num(CharCmp(c1, c2)), m.mem);
    ReadBothClean(m.(init := Initialized), a1, a2, k, Num(CharCmp(c1, c2)));
  }

  /** `memcpy` aborts on overlapping distinct ranges before probing
      anything, and leaves memory as it was. */
  lemma MemcpyOverlapAborts(m: Machine, to: nat, from: nat, size: nat)
    requires CopyArgs(m, to, from, size) && m.init != Initializing && m.flags.replaceIntrin
    requires to != from && RangesOverlap(to, size, from, size)
    ensures MemcpyStep(m, to, from, size) == Step(Aborted(OverlapAbort("memcpy", to, size, from, size)), m.(init := Initialized))
  {
    var ov := CheckRangesOverlap("memcpy", to, size, from, size);
    ExecuteAppend(ov, WriteRange(from, size) + ReadRange(to, size), m.poisoned);
    assert ov + WriteRange(from, size) + ReadRange(to, size) == ov + (WriteRange(from, size) + ReadRange(to, size));
  }

  /** On unpoisoned memory, with the copy onto itself exempt from the overlap
      test, `memcpy` copies after probing the endpoints of the source as a
      write and those of the destination as a read. */
  lemma MemcpyClean(m: Machine, to: nat, from: nat, size: nat)
    requires CopyArgs(m, to, from, size) && m.init != Initializing && m.flags.replaceIntrin && m.poisoned == {}
    requires to == from || !RangesOverlap(to, size, from, size)
    ensures MemcpyStep(m, to, from, size) ==
      Step(Returned(Ptr(to)), m.(init := Initialized, mem := CopyBytes(m.mem, to, from, size),
                                 trace := m.trace + Endpoints(from, size, true) + Endpoints(to, size, false)))
  {
    var rw := WriteRange(from, size) + ReadRange(to, size);
    TwoRanges(from, size, true, to, size, false);
    if to != from {
      OverlapThenRanges("memcpy", to, size, from, size, rw);
      assert MemcpyChecks(m, to, from, size) == CheckRangesOverlap("memcpy", to, size, from, size) + rw;
    } else {
      assert MemcpyChecks(m, to, from, size) == rw;
    }
    DeliverClean(m.(init := Initialized), MemcpyChecks(m, to, from, size), Ptr(to), CopyBytes(m.mem, to, from, size));
  }

  /** Because `memcpy` checks the destination as a read, poison at its first
      byte is reported as a read of `to`. */
  lemma MemcpyDestinationReportedAsRead(m: Machine, to: nat, from: nat, size: nat)
    requires CopyArgs(m, to, from, size) && m.init != Initializing && m.flags.replaceIntrin
    requires to == from || !RangesOverlap(to, size, from, size)
    requires size > 0 && from !in m.poisoned && from + size - 1 !in m.poisoned && to in m.poisoned
    ensures MemcpyStep(m, to, from, size).outcome == Aborted(Report(to, false, 1))
  {
    var ov := if to != from then CheckRangesOverlap("memcpy", to, size, from, size) else [];
    var w, r := WriteRange(from, size), ReadRange(to, size);
    assert MemcpyChecks(m, to, from, size) == (ov + w) + r;
    ExecuteAppend(ov + w, r, m.poisoned);
    ExecuteAppend(ov, w, m.poisoned);
    AccessMemoryRangeProbes(from, size, true, m.poisoned);
    AccessMemoryRangeProbes(to, size, false, m.poisoned);
    if to != from {
      assert ov[1..] == [];
    }
  }

  /** `memmove` never aborts on overlap: on unpoisoned memory it always
      copies, probing as `memcpy` does. */
  lemma MemmoveClean(m: Machine, to: nat, from: nat, size: nat)
    requires CopyArgs(m, to, from, size) && m.init != Initializing && m.flags.replaceIntrin && m.poisoned == {}
    ensures MemmoveStep(m, to, from, size) ==
      Step(Returned(Ptr(to)), m.(init := Initialized, mem := CopyBytes(m.mem, to, from, size),
                                 trace := m.trace + Endpoints(from, size, true) + Endpoints(to, size, false)))
  {
    TwoRanges(from, size, true, to, size, false);
    DeliverClean(m.(init := Initialized), MemmoveChecks(m, to, from, size), Ptr(to), CopyBytes(m.mem, to, from, size));
  }

  /** On unpoisoned memory `memset` fills the block after probing its two
      ends as writes. */
  lemma MemsetClean(m: Machine, block: nat, c: int, size: nat)
    requires block + size <= |m.mem| && m.init != Initializing && m.flags.replaceIntrin && m.poisoned == {}
    ensures MemsetStep(m, block, c, size) ==
      Step(Returned(Ptr(block)), m.(init := Initialized, mem := Fill(m.mem, block, ToChar(c), size),
                                    trace := m.trace + Endpoints(block, size, true)))
  {
    RangeTouches(block, size, true);
    DeliverClean(m.(init := Initialized), WriteRange(block, size), Ptr(block), Fill(m.mem, block, ToChar(c), size));
  }

  /** On unpoisoned memory `strchr` answers as the real routine after
      probing the string up to the match, or up to its terminator. */
  lemma StrchrClean(m: Machine, str: nat, c: int)
    requires Terminated(m.mem, str) && m.init != Initializing && m.flags.replaceStr && m.poisoned == {}
    ensures var r := Strchr(m.mem, str, c);
      var k := if r.Some? then r.value - str + 1 else StrLen(m.mem, str) + 1;
      StrchrStep(m, str, c) ==
        Step(Returned(if r.Some? then Ptr(r.value) else Null), m.(init := Initialized, trace := m.trace + Endpoints(str, k, false)))
  {
    var r := Strchr(m.mem, str, c);
    var k := StrchrBytesRead(m.mem, str, r);
    RangeTouches(str, k, false);
    DeliverClean(m.(init := Initialized), ReadRange(str, k), if r.Some? then Ptr(r.value) else Null, m.mem);
  }

  /** On unpoisoned memory `strcasecmp` answers as the real routine after
      probing both strings up to the first pair that differs up to case, or
      up to the first one's terminator. */
  lemma StrcasecmpClean(m: Machine, s1: nat, s2: nat)
    requires TwoStrings(m, s1, s2) && m.init != Initializing && m.poisoned == {}
    ensures var i := StopIndex(CaseRule, m.mem, s1, s2, StrLen(m.mem, s1) + 1);
      StrcasecmpStep(m, s1, s2) ==
        Step(Returned(Num(Strcasecmp(m.mem, s1, s2))),
             m.(init := Initialized, trace := m.trace + Endpoints(s1, i + 1, false) + Endpoints(s2, i + 1, false)))
  {
    var i := StopIndex(CaseRule, m.mem, s1, s2, StrLen(m.mem, s1) + 1);
    var m1 := m.(init := Initialized);
    StrcasecmpDelivers(m, s1, s2);
    ReadBothClean(m1, s1, s2, i + 1, Num(Strcasecmp(m.mem, s1, s2)));
    assert m1.trace == m.trace;
  }

  /** Once initialized, `strcasecmp` runs the read checks of the compared
      prefix of both strings and returns the real answer. */
  lemma StrcasecmpDelivers(m: Machine, s1: nat, s2: nat)
    requires TwoStrings(m, s1, s2) && m.init != Initializing
    ensures var i := StopIndex(CaseRule, m.mem, s1, s2, StrLen(m.mem, s1) + 1);
      StrcasecmpStep(m, s1, s2) ==
        Deliver(m.(init := Initialized), ReadRange(s1, i + 1) + ReadRange(s2, i + 1), Num(Strcasecmp(m.mem, s1, s2)), m.mem)
  {
  }

  /** What the checks of `strcat` probe: the source with its terminator and,
      for a non-empty source, the old destination string and the bytes
      written after it. */
  function StrcatTouches(to: nat, from: nat, toLength: nat, fromLength: nat): seq<Access> {
    Endpoints(from, fromLength + 1, false)
      + (if fromLength > 0 then Endpoints(to, toLength, false) + Endpoints(to + toLength, fromLength + 1, true) else [])
  }

  /** The checks of `strcat` probe `StrcatTouches`; the overlap test fires
      only on overlapping ranges. */
  lemma StrcatPlan(to: nat, from: nat, toLength: nat, fromLength: nat)
    requires fromLength > 0 ==> !RangesOverlap(to, toLength + 1, from, fromLength + 1)
    ensures NoOverlapFires(StrcatChecks(true, to, from, toLength, fromLength))
    ensures Touches(StrcatChecks(true, to, from, toLength, fromLength)) == StrcatTouches(to, from, toLength, fromLength)
  {
    var src := ReadRange(from, fromLength + 1);
    RangeTouches(from, fromLength + 1, false);
    if fromLength > 0 {
      var dst := ReadRange(to, toLength) + WriteRange(to + toLength, fromLength + 1);
      var ov := CheckRangesOverlap("strcat", to, toLength + 1, from, fromLength + 1);
      TwoRanges(to, toLength, false, to + toLength, fromLength + 1, true);
      OverlapThenRanges("strcat", to, toLength + 1, from, fromLength + 1, []);
      assert ov + [] == ov;
      PlanAppend(dst, ov);
      PlanAppend(src, dst + ov);
      assert src + (dst + ov) == src + dst + ov;
    } else {
      assert src + [] == src;
    }
  }

  /** On unpoisoned memory, when the old destination string and the source
      do not overlap, `strcat` appends after probing the source with its
      terminator and, for a non-empty source, the old destination string and
      the bytes it writes. An empty source probes only itself. */
  lemma StrcatClean(m: Machine, to: nat, from: nat)
    requires StrcatArgs(m, to, from) && m.init != Initializing && m.flags.replaceStr && m.poisoned == {}
    requires StrLen(m.mem, from) > 0 ==> !RangesOverlap(to, StrLen(m.mem, to) + 1, from, StrLen(m.mem, from) + 1)
    ensures StrcatStep(m, to, from) ==
      Step(Returned(Ptr(to)),
           m.(init := Initialized, mem := Strcat(m.mem, to, from),
              trace := m.trace + StrcatTouches(to, from, StrLen(m.mem, to), StrLen(m.mem, from))))
  {
    var toLength, fromLength := StrLen(m.mem, to), StrLen(m.mem, from);
    var checks := StrcatChecks(true, to, from, toLength, fromLength);
    assert StrcatStep(m, to, from) == Deliver(m.(init := Initialized), checks, Ptr(to), Strcat(m.mem, to, from));
    assert NoOverlapFires(checks) && Touches(checks) == StrcatTouches(to, from, toLength, fromLength) by {
      StrcatPlan(to, from, toLength, fromLength);
    }
    DeliverPlanned(m.(init := Initialized), checks, StrcatTouches(to, from, toLength, fromLength), Ptr(to), Strcat(m.mem, to, from));
  }

  /** The `strcat` overlap test covers only `to_length + 1` bytes of the
      destination, so a source that starts past them but inside the region
      the copy writes is not caught: the copy runs over its own source and
      the wrapper returns. Appending "bc" at 2 to "a" at 0 in "a\0bc\0" is
      such a call. */
  lemma StrcatOverlapMissed(m: Machine, to: nat, from: nat)
    requires StrcatArgs(m, to, from) && m.init != Initializing && m.flags.replaceStr && m.poisoned == {}
    requires to + StrLen(m.mem, to) + 1 <= from < to + StrLen(m.mem, to) + StrLen(m.mem, from) + 1
    ensures var toLength, fromLength := StrLen(m.mem, to), StrLen(m.mem, from);
      && RangesOverlap(to + toLength, fromLength + 1, from, fromLength + 1)
      && StrcatStep(m, to, from).outcome == Returned(Ptr(to))
  {
    StrcatClean(m, to, from);
  }

  /** Before the run-time is initialized `strcmp` answers with
      `internal_strcmp` and probes nothing; it does not initialize it. */
  lemma StrcmpUncheckedBeforeInit(m: Machine, s1: nat, s2: nat)
    requires TwoStrings(m, s1, s2) && m.init != Initialized
    ensures StrcmpStep(m, s1, s2) == Step(Returned(Num(StrCmp(m.mem, s1, s2))), m)
  {
  }

  /** Once initialized, on unpoisoned memory, `strcmp` answers after probing
      both strings up to the first difference or the first terminator. */
  lemma StrcmpClean(m: Machine, s1: nat, s2: nat)
    requires TwoStrings(m, s1, s2) && m.init == Initialized && m.poisoned == {}
    ensures var i := StopIndex(StringRule, m.mem, s1, s2, StrLen(m.mem, s1) + 1);
      StrcmpStep(m, s1, s2) ==
        Step(Returned(Num(StrCmp(m.mem, s1, s2))), m.(trace := m.trace + Endpoints(s1, i + 1, false) + Endpoints(s2, i + 1, false)))
  {
    var i := StopIndex(StringRule, m.mem, s1, s2, StrLen(m.mem, s1) + 1);
    var value := Num(StrCmp(m.mem, s1, s2));
    assert StrcmpStep(m, s1, s2) == Deliver(m, ReadRange(s1, i + 1) + ReadRange(s2, i + 1), value, m.mem);
    ReadBothClean(m, s1, s2, i + 1, value);
  }

  /** On unpoisoned memory, with disjoint source and destination, `strcpy`
      copies after probing the endpoints of the source string and its
      terminator as a read and those of the destination as a write. */
  lemma StrcpyClean(m: Machine, to: nat, from: nat)
    requires StrcpyArgs(m, to, from) && m.init != Initializing && m.flags.replaceStr && m.poisoned == {}
    requires !RangesOverlap(to, StrLen(m.mem, from) + 1, from, StrLen(m.mem, from) + 1)
    ensures var n := StrLen(m.mem, from) + 1;
      StrcpyStep(m, to, from) ==
        Step(Returned(Ptr(to)), m.(init := Initialized, mem := Strcpy(m.mem, to, from),
                                   trace := m.trace + Endpoints(from, n, false) + Endpoints(to, n, true)))
  {
    var n := StrLen(m.mem, from) + 1;
    assert StrcpyStep(m, to, from) == Deliver(m.(init := Initialized),
      CheckRangesOverlap("strcpy", to, n, from, n) + ReadRange(from, n) + WriteRange(to, n), Ptr(to), Strcpy(m.mem, to, from));
    CopyChecksClean(m.(init := Initialized), "strcpy", to, from, n, n, Ptr(to), Strcpy(m.mem, to, from));
  }

  /** Unlike `memcpy`, `strcpy` has no exemption for a copy onto itself: it
      always aborts with an overlap error. */
  lemma StrcpyOntoItselfAborts(m: Machine, s: nat)
    requires StrcpyArgs(m, s, s) && m.init != Initializing && m.flags.replaceStr
    ensures var n := StrLen(m.mem, s) + 1;
      StrcpyStep(m, s, s) == Step(Aborted(OverlapAbort("strcpy", s, n, s, n)), m.(init := Initialized))
  {
    var n := StrLen(m.mem, s) + 1;
    var ov := CheckRangesOverlap("strcpy", s, n, s, n);
    assert StrcpyChecks(m, s, s) == ov + (ReadRange(s, n) + WriteRange(s, n));
    ExecuteAppend(ov, ReadRange(s, n) + WriteRange(s, n), m.poisoned);
  }

  /** On unpoisoned memory `strdup` copies the string after probing it and
      its terminator. */
  lemma StrdupClean(m: Machine, s: nat)
    requires Terminated(m.mem, s) && m.init != Initializing && m.flags.replaceStr && m.poisoned == {}
    ensures StrdupStep(m, s) ==
      Step(Returned(HeapCopy(Strdup(m.mem, s))), m.(init := Initialized, trace := m.trace + Endpoints(s, StrLen(m.mem, s) + 1, false)))
  {
    RangeTouches(s, StrLen(m.mem, s) + 1, false);
    DeliverClean(m.(init := Initialized), ReadRange(s, StrLen(m.mem, s) + 1), HeapCopy(Strdup(m.mem, s)), m.mem);
  }

  /** On unpoisoned memory `strlen` answers after probing the string and its
      terminator. */
  lemma StrlenClean(m: Machine, s: nat)
    requires Terminated(m.mem, s) && m.init != Initializing && m.flags.replaceStr && m.poisoned == {}
    ensures StrlenStep(m, s) ==
      Step(Returned(Num(StrLen(m.mem, s))), m.(init := Initialized, trace := m.trace + Endpoints(s, StrLen(m.mem, s) + 1, false)))
  {
    RangeTouches(s, StrLen(m.mem, s) + 1, false);
    DeliverClean(m.(init := Initialized), ReadRange(s, StrLen(m.mem, s) + 1), Num(StrLen(m.mem, s)), m.mem);
  }

  /** On unpoisoned memory `strncasecmp` answers as the real routine after
      probing both operands up to the first pair that stops it, at most `n`
      bytes. */
  lemma StrncasecmpClean(m: Machine, s1: nat, s2: nat, n: nat)
    requires TwoBounded(m, s1, s2, n) && m.init != Initializing && m.poisoned == {}
    ensures var k := ComparedPrefix(CaseRule, m.mem, s1, s2, n);
      StrncasecmpStep(m, s1, s2, n) ==
        Step(Returned(Num(Strncasecmp(m.mem, s1, s2, n))),
             m.(init := Initialized, trace := m.trace + Endpoints(s1, k, false) + Endpoints(s2, k, false)))
  {
    var k := ComparedPrefix(CaseRule, m.mem, s1, s2, n);
    var i := StopIndex(CaseRule, m.mem, s1, s2, n);
    var (c1, c2) := LastPair(m.mem, s1, s2, i, n);
    assert StrncasecmpStep(m, s1, s2, n) == Deliver(m.(init := Initialized), ReadRange(s1, k) + ReadRange(s2, k), Num(CharCaseCmp(c1, c2)), m.mem);
    ReadBothClean(m.(init := Initialized), s1, s2, k, Num(CharCaseCmp(c1, c2)));
  }

  /** On unpoisoned memory `strncmp` answers as the real routine after
      probing both operands up to the first pair that stops it, at most
      `size` bytes, and leaves the initialization state alone. */
  lemma StrncmpClean(m: Machine, s1: nat, s2: nat, size: nat)
    requires TwoBounded(m, s1, s2, size) && m.init != Initializing && m.poisoned == {}
    ensures var k := ComparedPrefix(StringRule, m.mem, s1, s2, size);
      StrncmpStep(m, s1, s2, size) ==
        Step(Returned(Num(Strncmp(m.mem, s1, s2, size))), m.(trace := m.trace + Endpoints(s1, k, false) + Endpoints(s2, k, false)))
  {
    var k := ComparedPrefix(StringRule, m.mem, s1, s2, size);
    var i := StopIndex(StringRule, m.mem, s1, s2, size);
    var (c1, c2) := LastPair(m.mem, s1, s2, i, size);
    assert StrncmpStep(m, s1, s2, size) == Deliver(m, ReadRange(s1, k) + ReadRange(s2, k), Num(CharCmp(c1, c2)), m.mem);
    ReadBothClean(m, s1, s2, k, Num(CharCmp(c1, c2)));
  }

  /** On unpoisoned memory, with disjoint copied prefixes, `strncpy` copies
      after probing the part of the source it reads and all `size` bytes of
      the destination. */
  lemma StrncpyClean(m: Machine, to: nat, from: nat, size: nat)
    requires StrncpyArgs(m, to, from, size) && m.init != Initializing && m.flags.replaceStr && m.poisoned == {}
    requires !RangesOverlap(to, Min(size, StrLen(m.mem, from) + 1), from, Min(size, StrLen(m.mem, from) + 1))
    ensures var fromSize := Min(size, StrLen(m.mem, from) + 1);
      StrncpyStep(m, to, from, size) ==
        Step(Returned(Ptr(to)), m.(init := Initialized, mem := Strncpy(m.mem, to, from, size),
                                   trace := m.trace + Endpoints(from, fromSize, false) + Endpoints(to, size, true)))
  {
    var fromSize := Min(size, StrLen(m.mem, from) + 1);
    assert fromSize == Min(size, StrNLen(m.mem, from, size) + 1);
    assert StrncpyStep(m, to, from, size) == Deliver(m.(init := Initialized),
      CheckRangesOverlap("strncpy", to, fromSize, from, fromSize) + ReadRange(from, fromSize) + WriteRange(to, size), Ptr(to), Strncpy(m.mem, to, from, size));
    CopyChecksClean(m.(init := Initialized), "strncpy", to, from, fromSize, size, Ptr(to), Strncpy(m.mem, to, from, size));
  }

  /** On unpoisoned memory `strnlen` answers after probing the bytes the
      real routine reads: the string and its terminator, at most `maxlen`. */
  lemma StrnlenClean(m: Machine, s: nat, maxlen: nat)
    requires Readable(m.mem, s, maxlen) && m.init != Initializing && m.flags.replaceStr && m.poisoned == {}
    ensures StrnlenStep(m, s, maxlen) ==
      Step(Returned(Num(StrNLen(m.mem, s, maxlen))),
           m.(init := Initialized, trace := m.trace + Endpoints(s, Min(StrLen(m.mem, s) + 1, maxlen), false)))
  {
    var length := StrNLen(m.mem, s, maxlen);
    assert Min(length + 1, maxlen) == Min(StrLen(m.mem, s) + 1, maxlen);
    RangeTouches(s, Min(length + 1, maxlen), false);
    DeliverClean(m.(init := Initialized), ReadRange(s, Min(length + 1, maxlen)), Num(length), m.mem);
  }
}
