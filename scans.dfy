/** The comparison loops inside the `memcmp`, `strcmp`, `strcasecmp`,
    `strncmp` and `strncasecmp` wrappers. Each walks both operands in step,
    keeping the last pair of bytes it loaded in `c1` and `c2`, and stops on
    the pair its rule names (see `CString.Rule`). The wrapper then probes the
    bytes the loop read and answers from `c1` and `c2`. */
module Scans {
  import opened CString

  /** The bytes a loop bounded by `n` reads lie inside the image. */
  predicate ScanInImage(rule: Rule, mem: seq<byte>, s1: nat, s2: nat, n: nat) {
    if rule == ByteRule then s1 + n <= |mem| && s2 + n <= |mem|
    else Readable(mem, s1, n) && Readable(mem, s2, n)
  }

  /** The loop of `memcmp`, `strncmp` and `strncasecmp`:
      `for (i = 0; i < n; i++) { c1 = s1[i]; c2 = s2[i]; if (stop) break; }`
      with `c1` and `c2` starting at 0. */
  method BoundedScan(rule: Rule, mem: seq<byte>, s1: nat, s2: nat, n: nat) returns (i: nat, c1: byte, c2: byte)
    requires ScanInImage(rule, mem, s1, s2, n)
    ensures IsFirstStop(rule, mem, s1, s2, n, i)
    ensures (c1, c2) == LastPair(mem, s1, s2, i, n)
  {
    ghost var stop := StopIndex(rule, mem, s1, s2, n);
    if rule != ByteRule {
      StopWithinStrings(rule, mem, s1, s2, n);
    }
    c1, c2 := 0, 0;
    i := 0;
    while i < n
      invariant i <= stop
      invariant i == 0 ==> c1 == 0 && c2 == 0
      invariant 0 < i ==> c1 == At(mem, s1 + i - 1) && c2 == At(mem, s2 + i - 1)
    {
      c1 := mem[s1 + i];
      c2 := mem[s2 + i];
      if Stops(rule, c1, c2) {
        assert StopsAt(rule, mem, s1, s2, i);
        FirstStopUnique(rule, mem, s1, s2, n, i);
        return;
      }
      assert !StopsAt(rule, mem, s1, s2, i);
      i := i + 1;
    }
  }

  /** The loop of `strcmp` and `strcasecmp`:
      `for (i = 0; ; i++) { c1 = s1[i]; c2 = s2[i]; if (stop) break; }`.
      Both rules stop at the first string's terminator, so the loop ends
      there at the latest. */
  method ScanToNul(rule: Rule, mem: seq<byte>, s1: nat, s2: nat) returns (i: nat, c1: byte, c2: byte)
    requires rule != ByteRule
    requires Terminated(mem, s1) && Terminated(mem, s2)
    ensures IsFirstStop(rule, mem, s1, s2, StrLen(mem, s1) + 1, i)
    ensures i <= StrLen(mem, s1) && i <= StrLen(mem, s2)
    ensures c1 == At(mem, s1 + i) && c2 == At(mem, s2 + i)
  {
    ghost var n := StrLen(mem, s1) + 1;
    ghost var stop := StopIndex(rule, mem, s1, s2, n);
    StopWithinStrings(rule, mem, s1, s2, n);
    assert StopsAt(rule, mem, s1, s2, stop);
    i := 0;
    while true
      invariant i <= stop
      decreases stop - i
    {
      c1 := mem[s1 + i];
      c2 := mem[s2 + i];
      if Stops(rule, c1, c2) {
        assert StopsAt(rule, mem, s1, s2, i);
        FirstStopUnique(rule, mem, s1, s2, n, i);
        return;
      }
      assert !StopsAt(rule, mem, s1, s2, i);
      i := i + 1;
    }
  }
}
