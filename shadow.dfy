/** The access validator and the overlap checker the interceptors build on.

    A wrapper does not look at shadow memory itself: it emits a list of
    checks (probes of single bytes and overlap tests of two ranges), and
    `Execute` runs them in order against the set of poisoned addresses,
    stopping at the first one that fires, as the report path never returns. */
module Shadow {
  import opened CString

  /** One probe of the poison oracle, as it happened. */
  datatype Access = Access(addr: nat, isWrite: bool)

  datatype Check =
    | Probe(addr: nat, isWrite: bool)
    | Overlap(name: string, offset1: nat, length1: nat, offset2: nat, length2: nat)

  /** Why a wrapper aborted the program. */
  datatype Failure =
    | Report(addr: nat, isWrite: bool, accessSize: nat)
    | OverlapAbort(name: string, offset1: nat, length1: nat, offset2: nat, length2: nat)

  /** What running a list of checks did: the abort it raised, if any, and the
      addresses it probed, in order. */
  datatype Run = Run(failure: Option<Failure>, probes: seq<Access>)

  /** `ACCESS_MEMORY_RANGE`: a range of `size > 0` bytes is validated by its
      first and last byte only; an empty range is not probed at all. */
  function AccessMemoryRange(offset: nat, size: nat, isWrite: bool): seq<Check> {
    if size > 0 then [Probe(offset, isWrite), Probe(offset + size - 1, isWrite)] else []
  }

  /** `ASAN_READ_RANGE`. */
  function ReadRange(offset: nat, size: nat): seq<Check> {
    AccessMemoryRange(offset, size, false)
  }

  /** `ASAN_WRITE_RANGE`. */
  function WriteRange(offset: nat, size: nat): seq<Check> {
    AccessMemoryRange(offset, size, true)
  }

  /** `RangesOverlap`: whether `[offset1, offset1 + length1)` and
      `[offset2, offset2 + length2)` intersect. */
  predicate RangesOverlap(offset1: nat, length1: nat, offset2: nat, length2: nat) {
    !(offset1 + length1 <= offset2 || offset2 + length2 <= offset1)
  }

  /** `CHECK_RANGES_OVERLAP`. */
  function CheckRangesOverlap(name: string, offset1: nat, length1: nat, offset2: nat, length2: nat): seq<Check> {
    [Overlap(name, offset1, length1, offset2, length2)]
  }

  /** Runs checks in order. A probe of a poisoned address reports a one-byte
      access (`AccessAddress`); overlapping ranges abort with the routine's
      name. Either way nothing after it runs. */
  function Execute(checks: seq<Check>, poisoned: set<nat>): (r: Run)
    ensures |r.probes| <= |checks|
  {
    if checks == [] then Run(None, [])
    else
      match checks[0]
      case Probe(addr, isWrite) =>
        if addr in poisoned then Run(Some(Report(addr, isWrite, 1)), [Access(addr, isWrite)])
        else
          var rest := Execute(checks[1..], poisoned);
          Run(rest.failure, [Access(addr, isWrite)] + rest.probes)
      case Overlap(name, o1, l1, o2, l2) =>
        if RangesOverlap(o1, l1, o2, l2) then Run(Some(OverlapAbort(name, o1, l1, o2, l2)), [])
        else Execute(checks[1..], poisoned)
  }

  /** Running two lists of checks one after the other is running their
      concatenation: the second list runs only if the first did not abort. */
  lemma {:induction false} ExecuteAppend(a: seq<Check>, b: seq<Check>, poisoned: set<nat>)
    ensures Execute(a + b, poisoned) ==
      (var ra := Execute(a, poisoned);
       if ra.failure.Some? then ra
       else var rb := Execute(b, poisoned); Run(rb.failure, ra.probes + rb.probes))
  {
    if a == [] {
      assert a + b == b;
    } else {
      assert (a + b)[0] == a[0];
      assert (a + b)[1..] == a[1..] + b;
      ExecuteAppend(a[1..], b, poisoned);
    }
  }

  /** A range check of size 0 probes nothing and never fires; one of size > 0
      probes its first byte, then its last byte, and reports (as a one-byte
      access) exactly when one of those two is poisoned. */
  lemma AccessMemoryRangeProbes(offset: nat, size: nat, isWrite: bool, poisoned: set<nat>)
    ensures var r := Execute(AccessMemoryRange(offset, size, isWrite), poisoned);
      && (size == 0 ==> r == Run(None, []))
      && (size > 0 ==>
          var last := offset + size - 1;
          && (r.failure.Some? <==> offset in poisoned || last in poisoned)
          && r.failure == (if offset in poisoned then Some(Report(offset, isWrite, 1))
                           else if last in poisoned then Some(Report(last, isWrite, 1))
                           else None)
          && r.probes == (if offset in poisoned then [Access(offset, isWrite)]
                          else [Access(offset, isWrite), Access(last, isWrite)]))
  {
    if size > 0 {
      var last := offset + size - 1;
      var cs := AccessMemoryRange(offset, size, isWrite);
      assert cs[1..] == [Probe(last, isWrite)];
      assert cs[1..][1..] == [];
      assert Execute(cs[1..][1..], poisoned) == Run(None, []);
      assert Execute(cs[1..], poisoned) ==
        if last in poisoned then Run(Some(Report(last, isWrite, 1)), [Access(last, isWrite)])
        else Run(None, [Access(last, isWrite)]);
    }
  }

  /** Poisoned bytes strictly inside a range are never detected: only the two
      endpoints decide. */
  lemma InteriorPoisonUndetected(offset: nat, size: nat, isWrite: bool, poisoned: set<nat>, interior: set<nat>)
    requires size > 0
    requires offset !in poisoned && offset + size - 1 !in poisoned
    requires forall a :: a in interior ==> offset < a < offset + size - 1
    ensures Execute(AccessMemoryRange(offset, size, isWrite), poisoned + interior).failure == None
  {
    assert offset !in interior && offset + size - 1 !in interior;
    AccessMemoryRangeProbes(offset, size, isWrite, poisoned + interior);
  }

  /** Address `a` lies in `[offset, offset + length)`. */
  predicate InRange(a: nat, offset: nat, length: nat) {
    offset <= a < offset + length
  }

  /** Two non-empty ranges overlap exactly when some address lies in both. */
  lemma RangesOverlapIffSharedByte(offset1: nat, length1: nat, offset2: nat, length2: nat)
    requires length1 > 0 && length2 > 0
    ensures RangesOverlap(offset1, length1, offset2, length2) <==>
      exists a: nat :: InRange(a, offset1, length1) && InRange(a, offset2, length2)
  {
    if RangesOverlap(offset1, length1, offset2, length2) {
      var a: nat := if offset1 <= offset2 then offset2 else offset1;
      assert InRange(a, offset1, length1) && InRange(a, offset2, length2);
    }
  }

  /** The overlap test does not depend on the order of the two ranges. */
  lemma RangesOverlapSymmetric(offset1: nat, length1: nat, offset2: nat, length2: nat)
    ensures RangesOverlap(offset1, length1, offset2, length2) == RangesOverlap(offset2, length2, offset1, length1)
  {
  }

  /** The test is not about shared bytes when one range is empty: an empty
      range strictly inside the other one counts as overlapping it. No wrapper
      of this file passes an empty range together with a non-empty one. */
  lemma EmptyRangeInsideOverlaps(offset1: nat, length1: nat, offset2: nat)
    requires offset1 < offset2 < offset1 + length1
    ensures RangesOverlap(offset1, length1, offset2, 0)
    ensures !exists a: nat :: InRange(a, offset1, length1) && InRange(a, offset2, 0)
  {
  }

  /** A non-empty range overlaps itself, which is why a copy onto itself must
      be exempted explicitly; two empty ranges never overlap. */
  lemma SelfOverlap(offset: nat, length: nat, other: nat)
    ensures RangesOverlap(offset, length, offset, length) <==> length > 0
    ensures !RangesOverlap(offset, 0, other, 0)
  {
  }

  // ------------------------------------------------------------ clean runs

  /** The accesses `AccessMemoryRange` makes when nothing is poisoned: the
      first and the last byte of a non-empty range. */
  function Endpoints(offset: nat, size: nat, isWrite: bool): seq<Access> {
    if size > 0 then [Access(offset, isWrite), Access(offset + size - 1, isWrite)] else []
  }

  /** The probes a list of checks makes when none of them fires. */
  function Touches(checks: seq<Check>): seq<Access> {
    if checks == [] then []
    else
      match checks[0]
      case Probe(addr, isWrite) => [Access(addr, isWrite)] + Touches(checks[1..])
      case Overlap(_, _, _, _, _) => Touches(checks[1..])
  }

  /** No overlap check in the list fires. */
  predicate NoOverlapFires(checks: seq<Check>) {
    forall c :: c in checks && c.Overlap? ==> !RangesOverlap(c.offset1, c.length1, c.offset2, c.length2)
  }

  lemma {:induction false} TouchesAppend(a: seq<Check>, b: seq<Check>)
    ensures Touches(a + b) == Touches(a) + Touches(b)
  {
    if a == [] {
      assert a + b == b;
    } else {
      assert (a + b)[0] == a[0];
      assert (a + b)[1..] == a[1..] + b;
      TouchesAppend(a[1..], b);
    }
  }

  lemma RangeTouches(offset: nat, size: nat, isWrite: bool)
    ensures Touches(AccessMemoryRange(offset, size, isWrite)) == Endpoints(offset, size, isWrite)
    ensures NoOverlapFires(AccessMemoryRange(offset, size, isWrite))
  {
    if size > 0 {
      var cs := AccessMemoryRange(offset, size, isWrite);
      assert cs[1..] == [Probe(offset + size - 1, isWrite)];
      assert cs[1..][1..] == [];
      assert Touches(cs[1..]) == [Access(offset + size - 1, isWrite)];
    }
  }

  /** The position of the first access to a poisoned address, or `|t|`. */
  function FirstPoisoned(t: seq<Access>, poisoned: set<nat>): (j: nat)
    ensures j <= |t|
    ensures forall l :: 0 <= l < j ==> t[l].addr !in poisoned
    ensures j < |t| ==> t[j].addr in poisoned
  {
    if t == [] || t[0].addr in poisoned then 0
    else
      var j := FirstPoisoned(t[1..], poisoned);
      assert forall l :: 1 <= l < j + 1 ==> t[l] == t[1..][l - 1];
      j + 1
  }

  /** Probing the addresses of `t` in order and stopping at the first
      poisoned one: a one-byte report of it after probing everything up to
      it, or every probe and no report. */
  function ProbeRun(t: seq<Access>, poisoned: set<nat>): Run {
    var j := FirstPoisoned(t, poisoned);
    if j < |t| then Run(Some(Report(t[j].addr, t[j].isWrite, 1)), t[..j + 1]) else Run(None, t)
  }

  /** A clean first probe is made and the rest probed as before. */
  lemma ProbeRunClean(x: Access, t: seq<Access>, poisoned: set<nat>)
    requires x.addr !in poisoned
    ensures var r := ProbeRun(t, poisoned); ProbeRun([x] + t, poisoned) == Run(r.failure, [x] + r.probes)
  {
    var xt := [x] + t;
    assert xt[1..] == t;
    var j := FirstPoisoned(t, poisoned);
    assert FirstPoisoned(xt, poisoned) == j + 1;
    if j < |t| {
      assert xt[j + 1] == t[j];
      assert xt[..j + 2] == [x] + t[..j + 1];
    }
  }

  /** A poisoned first probe is reported at once. */
  lemma ProbeRunPoisoned(x: Access, t: seq<Access>, poisoned: set<nat>)
    requires x.addr in poisoned
    ensures ProbeRun([x] + t, poisoned) == Run(Some(Report(x.addr, x.isWrite, 1)), [x])
  {
    assert ([x] + t)[..1] == [x];
  }

  /** Without a firing overlap check, running checks reports exactly the first
      poisoned address among the probes they plan, after probing everything
      up to it; when none is poisoned it probes them all and reports nothing. */
  lemma {:induction false} ExecuteFirstPoisoned(checks: seq<Check>, poisoned: set<nat>)
    requires NoOverlapFires(checks)
    ensures Execute(checks, poisoned) == ProbeRun(Touches(checks), poisoned)
  {
    if checks != [] {
      var rest := checks[1..];
      assert NoOverlapFires(rest) by {
        forall c | c in rest && c.Overlap? ensures !RangesOverlap(c.offset1, c.length1, c.offset2, c.length2) {
          assert c in checks;
        }
      }
      ExecuteFirstPoisoned(rest, poisoned);
      match checks[0]
      case Probe(addr, isWrite) =>
        assert Touches(checks) == [Access(addr, isWrite)] + Touches(rest);
        if addr !in poisoned {
          ProbeRunClean(Access(addr, isWrite), Touches(rest), poisoned);
        } else {
          ProbeRunPoisoned(Access(addr, isWrite), Touches(rest), poisoned);
        }
      case Overlap(name, o1, l1, o2, l2) =>
        assert checks[0] in checks;
    }
  }

  /** A report names a poisoned address, as a one-byte access, and it is the
      last probe made. */
  lemma {:induction false} ExecuteReportsPoison(checks: seq<Check>, poisoned: set<nat>)
    ensures var r := Execute(checks, poisoned);
      r.failure.Some? && r.failure.value.Report? ==>
        && r.failure.value.addr in poisoned
        && r.failure.value.accessSize == 1
        && |r.probes| > 0
        && r.probes[|r.probes| - 1] == Access(r.failure.value.addr, r.failure.value.isWrite)
  {
    if checks != [] {
      ExecuteReportsPoison(checks[1..], poisoned);
    }
  }

  /** The quantified form of `ExecuteReportsPoison`, for proofs over many
      check lists at once. */
  lemma ReportsArePoisoned()
    ensures forall checks: seq<Check>, poisoned: set<nat> {:trigger Execute(checks, poisoned)} ::
      var r := Execute(checks, poisoned);
      r.failure.Some? && r.failure.value.Report? ==>
        && r.failure.value.addr in poisoned
        && r.failure.value.accessSize == 1
        && |r.probes| > 0
        && r.probes[|r.probes| - 1] == Access(r.failure.value.addr, r.failure.value.isWrite)
  {
    forall checks: seq<Check>, poisoned: set<nat> {
      ExecuteReportsPoison(checks, poisoned);
    }
  }

  /** When no overlap test fires and no planned probe hits poison, running the
      checks probes everything planned and reports nothing. */
  lemma ExecuteClean(checks: seq<Check>, poisoned: set<nat>)
    requires NoOverlapFires(checks)
    requires forall k :: 0 <= k < |Touches(checks)| ==> Touches(checks)[k].addr !in poisoned
    ensures Execute(checks, poisoned) == Run(None, Touches(checks))
  {
    ExecuteFirstPoisoned(checks, poisoned);
  }
}
