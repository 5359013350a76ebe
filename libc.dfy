/** The real C library routines a wrapper delegates to (`REAL(name)`).

    Their code is not part of this model; each is a function whose contract
    is the routine's C semantics. `REAL(strlen)` and `REAL(strnlen)` are
    `CString.StrLen` and `CString.StrNLen`. Where C leaves overlapping
    source and destination undefined, these functions copy from the memory
    as it was before the call. */
module Libc {
  import opened CString

  /** `(char)c`: an `int` argument truncated to a byte. */
  function ToChar(c: int): byte {
    c % 256
  }

  /** The byte at offset `k` from `p` is `ch`. */
  predicate HoldsAt(mem: seq<byte>, p: nat, k: int, ch: byte) {
    At(mem, p + k) == ch
  }

  /** The first offset below `n` from `p` that holds `ch`, or `n`. */
  function FindByte(mem: seq<byte>, p: nat, ch: byte, n: nat): (i: nat)
    ensures i <= n
    ensures forall k :: 0 <= k < i ==> !HoldsAt(mem, p, k, ch)
    ensures i < n ==> HoldsAt(mem, p, i, ch)
    decreases n
  {
    if n == 0 || HoldsAt(mem, p, 0, ch) then 0
    else
      var j := FindByte(mem, p + 1, ch, n - 1);
      assert forall k :: 1 <= k < j + 1 ==> HoldsAt(mem, p, k, ch) == HoldsAt(mem, p + 1, k - 1, ch);
      j + 1
  }

  /** `FindByte` is the only offset that satisfies its contract. */
  lemma FindByteUnique(mem: seq<byte>, p: nat, ch: byte, n: nat, i: nat)
    requires i <= n
    requires forall k :: 0 <= k < i ==> !HoldsAt(mem, p, k, ch)
    requires i < n ==> HoldsAt(mem, p, i, ch)
    ensures i == FindByte(mem, p, ch, n)
  {
    var j := FindByte(mem, p, ch, n);
    assert HoldsAt(mem, p, i, ch) == HoldsAt(mem, p, i, ch);
    assert HoldsAt(mem, p, j, ch) == HoldsAt(mem, p, j, ch);
  }

  /** `strchr`: the address of the first `(char)c` in the string at `p`, its
      terminator included, or NULL. */
  function Strchr(mem: seq<byte>, p: nat, c: int): (r: Option<nat>)
    requires Terminated(mem, p)
    ensures r.Some? ==>
      && p <= r.value <= p + StrLen(mem, p)
      && mem[r.value] == ToChar(c)
      && forall k :: 0 <= k < r.value - p ==> !HoldsAt(mem, p, k, ToChar(c))
    ensures r.None? ==> forall k :: 0 <= k <= StrLen(mem, p) ==> !HoldsAt(mem, p, k, ToChar(c))
    ensures ToChar(c) == 0 ==> r == Some(p + StrLen(mem, p))
  {
    var i := FindByte(mem, p, ToChar(c), StrLen(mem, p) + 1);
    assert !HoldsAt(mem, p, StrLen(mem, p), ToChar(c)) ==> ToChar(c) != 0;
    assert i < StrLen(mem, p) ==> NonNul(mem, p, i);
    if i <= StrLen(mem, p) then Some(p + i) else None
  }

  /** `memmove`, and `memcpy` where it is defined: afterwards the `size` bytes
      at `to` are the `size` bytes that were at `from`; nothing else changes. */
  function CopyBytes(mem: seq<byte>, to: nat, from: nat, size: nat): (r: seq<byte>)
    requires to + size <= |mem| && from + size <= |mem|
    ensures |r| == |mem|
    ensures forall a :: to <= a < to + size ==> r[a] == mem[a - to + from]
    ensures forall a :: 0 <= a < |mem| && !(to <= a < to + size) ==> r[a] == mem[a]
  {
    mem[..to] + mem[from..from + size] + mem[to + size..]
  }

  /** `memset`: the `size` bytes at `block` become `ch`; nothing else changes. */
  function Fill(mem: seq<byte>, block: nat, ch: byte, size: nat): (r: seq<byte>)
    requires block + size <= |mem|
    ensures |r| == |mem|
    ensures forall a :: block <= a < block + size ==> r[a] == ch
    ensures forall a :: 0 <= a < |mem| && !(block <= a < block + size) ==> r[a] == mem[a]
  {
    mem[..block] + seq(size, _ => ch) + mem[block + size..]
  }

  /** `strcpy`: the string at `from`, terminator included, copied to `to`. */
  function Strcpy(mem: seq<byte>, to: nat, from: nat): (r: seq<byte>)
    requires Terminated(mem, from)
    requires to + StrLen(mem, from) + 1 <= |mem|
    ensures |r| == |mem|
  {
    CopyBytes(mem, to, from, StrLen(mem, from) + 1)
  }

  /** `strcat`: the string at `from`, terminator included, copied over the
      terminator of the string at `to`. */
  function Strcat(mem: seq<byte>, to: nat, from: nat): (r: seq<byte>)
    requires Terminated(mem, to) && Terminated(mem, from)
    requires to + StrLen(mem, to) + StrLen(mem, from) + 1 <= |mem|
    ensures |r| == |mem|
  {
    CopyBytes(mem, to + StrLen(mem, to), from, StrLen(mem, from) + 1)
  }

  /** `strncpy`: the first `size` bytes at `to` become the string at `from`
      cut to `size` bytes and padded with NULs; nothing else changes. */
  function Strncpy(mem: seq<byte>, to: nat, from: nat, size: nat): (r: seq<byte>)
    requires Readable(mem, from, size)
    requires to + size <= |mem|
    ensures |r| == |mem|
    ensures forall a :: to <= a < to + size ==>
      r[a] == if a - to < StrNLen(mem, from, size) then mem[from + (a - to)] else 0
    ensures forall a :: 0 <= a < |mem| && !(to <= a < to + size) ==> r[a] == mem[a]
  {
    var len := StrNLen(mem, from, size);
    mem[..to] + seq(size, k => PaddedAt(mem, from, len, k)) + mem[to + size..]
  }

  /** Byte `k` of a string of length `len` at `from`, padded with NULs. */
  function PaddedAt(mem: seq<byte>, from: nat, len: nat, k: int): byte {
    if k < len then At(mem, from + k) else 0
  }

  /** `memcmp`, with its answer normalised to -1, 0 or 1: 0 when the `n`
      bytes are equal, else the order of the first pair of unsigned bytes
      that differs. */
  function Memcmp(mem: seq<byte>, s1: nat, s2: nat, n: nat): (r: int)
    ensures -1 <= r <= 1
    ensures r == 0 <==> EqualBytes(mem, s1, s2, n)
  {
    ByteScanFullIff(mem, s1, s2, n);
    var i := StopIndex(ByteRule, mem, s1, s2, n);
    assert i < n ==> StopsAt(ByteRule, mem, s1, s2, i);
    if i == n then 0 else CharCmp(At(mem, s1 + i), At(mem, s2 + i))
  }

  /** `Memcmp` has the sign of the first pair of bytes that differ. */
  lemma MemcmpFirstDifference(mem: seq<byte>, s1: nat, s2: nat, n: nat, d: nat)
    requires d < n && EqualBytes(mem, s1, s2, d) && !SameAt(mem, s1, s2, d)
    ensures Memcmp(mem, s1, s2, n) == CharCmp(At(mem, s1 + d), At(mem, s2 + d))
  {
    forall k | 0 <= k < d ensures !StopsAt(ByteRule, mem, s1, s2, k) {
      assert SameAt(mem, s1, s2, k);
    }
    FirstStopUnique(ByteRule, mem, s1, s2, n, d);
  }

  /** `strcasecmp` in the "C" locale: the difference of the lower-cased
      bytes at which the strings first differ up to case, or at the first
      string's terminator. It is 0 exactly when the strings are equal up to
      case. */
  function Strcasecmp(mem: seq<byte>, s1: nat, s2: nat): (r: int)
    ensures r == 0 <==> forall k :: 0 <= k < StrLen(mem, s1) + 1 ==> SameLowerAt(mem, s1, s2, k)
  {
    var n := StrLen(mem, s1) + 1;
    CaseScanZeroIff(mem, s1, s2, n);
    StopWithinStrings(CaseRule, mem, s1, s2, n);
    var i := StopIndex(CaseRule, mem, s1, s2, n);
    CharCaseCmp(At(mem, s1 + i), At(mem, s2 + i))
  }

  /** `strncasecmp` in the "C" locale: as `Strcasecmp`, on at most `n` bytes. */
  function Strncasecmp(mem: seq<byte>, s1: nat, s2: nat, n: nat): (r: int)
    ensures r == 0 <==> forall k :: 0 <= k < Min(n, StrLen(mem, s1) + 1) ==> SameLowerAt(mem, s1, s2, k)
  {
    CaseScanZeroIff(mem, s1, s2, n);
    var i := StopIndex(CaseRule, mem, s1, s2, n);
    var (c1, c2) := LastPair(mem, s1, s2, i, n);
    CharCaseCmp(c1, c2)
  }

  /** `strncmp`, with its answer normalised to -1, 0 or 1: `CharCmp` of the
      pair of unsigned bytes at which a comparison of at most `n` characters
      stops. */
  function Strncmp(mem: seq<byte>, s1: nat, s2: nat, n: nat): (r: int)
    ensures -1 <= r <= 1
    ensures r == 0 <==> EqualBytes(mem, s1, s2, Min(n, StrLen(mem, s1) + 1))
  {
    StringScanZeroIff(mem, s1, s2, n);
    var i := StopIndex(StringRule, mem, s1, s2, n);
    var (c1, c2) := LastPair(mem, s1, s2, i, n);
    CharCmp(c1, c2)
  }

  /** `Strncmp` has the sign of the first pair of unsigned bytes that differ
      within `n` bytes and before the first string ends. */
  lemma StrncmpFirstDifference(mem: seq<byte>, s1: nat, s2: nat, n: nat, d: nat)
    requires d < n
    requires forall k :: 0 <= k < d ==> SameAt(mem, s1, s2, k) && At(mem, s1 + k) != 0
    requires !SameAt(mem, s1, s2, d)
    ensures Strncmp(mem, s1, s2, n) == CharCmp(At(mem, s1 + d), At(mem, s2 + d))
  {
    forall k | 0 <= k < d ensures !StopsAt(StringRule, mem, s1, s2, k) {
      assert SameAt(mem, s1, s2, k) && At(mem, s1 + k) != 0;
    }
    FirstStopUnique(StringRule, mem, s1, s2, n, d);
  }

  /** `Strcasecmp` is the difference of the lower-cased bytes of the first
      pair that differs up to case before the first string ends. */
  lemma StrcasecmpFirstDifference(mem: seq<byte>, s1: nat, s2: nat, d: nat)
    requires forall k :: 0 <= k < d ==> SameLowerAt(mem, s1, s2, k) && At(mem, s1 + k) != 0
    requires !SameLowerAt(mem, s1, s2, d)
    ensures Strcasecmp(mem, s1, s2) == ToLower(At(mem, s1 + d)) - ToLower(At(mem, s2 + d))
  {
    var l1 := StrLen(mem, s1);
    assert d <= l1 by {
      assert l1 < d ==> SameLowerAt(mem, s1, s2, l1);
    }
    forall k | 0 <= k < d ensures !StopsAt(CaseRule, mem, s1, s2, k) {
      assert SameLowerAt(mem, s1, s2, k) && At(mem, s1 + k) != 0;
    }
    FirstStopUnique(CaseRule, mem, s1, s2, l1 + 1, d);
  }

  /** `Strncasecmp` is the difference of the lower-cased bytes of the first
      pair within `n` bytes that differs up to case before the first string
      ends. */
  lemma StrncasecmpFirstDifference(mem: seq<byte>, s1: nat, s2: nat, n: nat, d: nat)
    requires d < n
    requires forall k :: 0 <= k < d ==> SameLowerAt(mem, s1, s2, k) && At(mem, s1 + k) != 0
    requires !SameLowerAt(mem, s1, s2, d)
    ensures Strncasecmp(mem, s1, s2, n) == ToLower(At(mem, s1 + d)) - ToLower(At(mem, s2 + d))
  {
    forall k | 0 <= k < d ensures !StopsAt(CaseRule, mem, s1, s2, k) {
      assert SameLowerAt(mem, s1, s2, k) && At(mem, s1 + k) != 0;
    }
    FirstStopUnique(CaseRule, mem, s1, s2, n, d);
  }

  /** `strdup`: the bytes of the new heap block, the copied string and its
      terminator. Where the allocator places the block is not modelled. */
  function Strdup(mem: seq<byte>, s: nat): (r: seq<byte>)
    requires Terminated(mem, s)
    ensures |r| == StrLen(mem, s) + 1 && r[|r| - 1] == 0
    ensures forall k :: 0 <= k < |r| - 1 ==> r[k] != 0
    ensures r == Str(mem, s) + [0]
  {
    var r := mem[s..s + StrLen(mem, s) + 1];
    forall k | 0 <= k < |r| - 1 ensures r[k] != 0 {
      assert r[k] == At(mem, s + k) && NonNul(mem, s, k);
    }
    assert r[|r| - 1] == At(mem, s + StrLen(mem, s));
    r
  }

  // ------------------------------------------------------ string results

  /** After `strcpy` the string at `to` is the string that was at `from`. */
  lemma {:induction false} StrcpyCopiesString(mem: seq<byte>, to: nat, from: nat)
    requires Terminated(mem, from)
    requires to + StrLen(mem, from) + 1 <= |mem|
    ensures Terminated(Strcpy(mem, to, from), to)
    ensures Str(Strcpy(mem, to, from), to) == Str(mem, from)
  {
    var r := Strcpy(mem, to, from);
    var len := StrLen(mem, from);
    forall k | 0 <= k < len ensures NonNul(r, to, k) {
      assert r[to + k] == mem[from + k] && NonNul(mem, from, k);
    }
    assert r[to + len] == mem[from + len] == At(mem, from + len);
    StrLenFromTerminator(r, to, len);
    assert Str(r, to) == Str(mem, from) by {
      forall k | 0 <= k < len ensures Str(r, to)[k] == Str(mem, from)[k] {
        assert r[to + k] == mem[from + k];
      }
    }
  }

  /** After `strcat` the string at `to` is the old string at `to` followed by
      the string at `from`, as both were before the call. */
  lemma {:induction false} StrcatAppends(mem: seq<byte>, to: nat, from: nat)
    requires Terminated(mem, to) && Terminated(mem, from)
    requires to + StrLen(mem, to) + StrLen(mem, from) + 1 <= |mem|
    ensures Terminated(Strcat(mem, to, from), to)
    ensures Str(Strcat(mem, to, from), to) == Str(mem, to) + Str(mem, from)
  {
    var r := Strcat(mem, to, from);
    var lt, lf := StrLen(mem, to), StrLen(mem, from);
    var want := Str(mem, to) + Str(mem, from);
    forall k | 0 <= k < lt + lf ensures NonNul(r, to, k) && r[to + k] == want[k] {
      if k < lt {
        assert r[to + k] == mem[to + k] && NonNul(mem, to, k);
      } else {
        assert r[to + k] == mem[from + (k - lt)] && NonNul(mem, from, k - lt);
      }
    }
    assert r[to + lt + lf] == mem[from + lf] == At(mem, from + lf);
    StrLenFromTerminator(r, to, lt + lf);
    assert Str(r, to) == want;
  }

  /** After `strncpy` the string at `to` is the string at `from` cut to `size`
      bytes, provided a NUL was copied (the source is shorter than `size`). */
  lemma {:induction false} StrncpyCopiesShortString(mem: seq<byte>, to: nat, from: nat, size: nat)
    requires Readable(mem, from, size)
    requires to + size <= |mem|
    requires StrLen(mem, from) < size
    ensures Terminated(mem, from)
    ensures Terminated(Strncpy(mem, to, from, size), to)
    ensures Str(Strncpy(mem, to, from, size), to) == Str(mem, from)
  {
    var r := Strncpy(mem, to, from, size);
    var len := StrLen(mem, from);
    forall k | 0 <= k < len ensures NonNul(r, to, k) && r[to + k] == Str(mem, from)[k] {
      assert r[to + k] == mem[from + k] && NonNul(mem, from, k);
    }
    assert r[to + len] == 0;
    StrLenFromTerminator(r, to, len);
  }
}
