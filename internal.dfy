/** The run-time's own copies of a few libc routines (`internal_strlen`,
    `internal_strnlen`, `internal_memchr`, `internal_memcmp`,
    `internal_strstr`, `internal_strncat`, `internal_strcmp`), which it uses
    where the intercepted routines must not be called.

    They read plain `char`, whose signedness is the platform's choice: it is
    the parameter `signedChar`. */
module Internal {
  import opened CString
  import opened Libc

  // ---------------------------------------------------------------- strlen

  /** `internal_strlen`: the offset of the first NUL. */
  method InternalStrlen(mem: seq<byte>, s: nat) returns (n: nat)
    requires Terminated(mem, s)
    ensures n == StrLen(mem, s)
  {
    n := 0;
    while mem[s + n] != 0
      invariant n <= StrLen(mem, s)
      decreases StrLen(mem, s) - n
    {
      n := n + 1;
    }
    assert n < StrLen(mem, s) ==> NonNul(mem, s, n);
  }

  /** `internal_strnlen`: `REAL(strnlen)` when the platform has one
      (`haveRealStrnlen`), otherwise a loop that stops at a NUL or after
      `maxlen` bytes. Either way the answer is `min(maxlen, strlen(s))`. */
  method InternalStrnlen(mem: seq<byte>, s: nat, maxlen: nat, haveRealStrnlen: bool) returns (n: nat)
    requires Readable(mem, s, maxlen)
    ensures n == Min(maxlen, StrLen(mem, s))
  {
    if haveRealStrnlen {
      return StrNLen(mem, s, maxlen);
    }
    n := 0;
    while n < maxlen && mem[s + n] != 0
      invariant n <= Min(maxlen, StrLen(mem, s))
      decreases maxlen - n
    {
      n := n + 1;
    }
    assert n < StrLen(mem, s) ==> NonNul(mem, s, n);
  }

  // ---------------------------------------------------------------- memchr

  /** The plain `char` at offset `k` from `p`, as an `int`. */
  function CharAt(mem: seq<byte>, p: nat, k: int, signedChar: bool): int {
    CharValue(At(mem, p + k), signedChar)
  }

  /** `c` is the value of some plain `char`: -128..127 where `char` is
      signed, 0..255 where it is not. */
  predicate Representable(c: int, signedChar: bool) {
    CharValue(ToChar(c), signedChar) == c
  }

  /** A byte compares equal to `c` exactly when `c` is a `char` value and the
      byte is `(char)c`. */
  lemma CharValueMatch(b: byte, c: int, signedChar: bool)
    ensures CharValue(b, signedChar) == c <==> Representable(c, signedChar) && b == ToChar(c)
  {
  }

  /** What `internal_memchr` answers: it compares each plain `char` with the
      `int` `c` without converting `c`, so it finds the first `(char)c`
      among the `n` bytes when `c` is a `char` value, and nothing otherwise. */
  function Memchr(mem: seq<byte>, s: nat, c: int, n: nat, signedChar: bool): (r: Option<nat>)
    ensures r.Some? ==> s <= r.value < s + n && CharAt(mem, s, r.value - s, signedChar) == c
    ensures r.Some? ==> forall k :: 0 <= k < r.value - s ==> CharAt(mem, s, k, signedChar) != c
    ensures r.None? ==> forall k :: 0 <= k < n ==> CharAt(mem, s, k, signedChar) != c
  {
    if Representable(c, signedChar) then
      var i := FindByte(mem, s, ToChar(c), n);
      forall k | 0 <= k < i ensures CharAt(mem, s, k, signedChar) != c {
        CharValueMatch(At(mem, s + k), c, signedChar);
        assert !HoldsAt(mem, s, k, ToChar(c));
      }
      assert i < n ==> HoldsAt(mem, s, i, ToChar(c));
      if i < n then Some(s + i) else None
    else
      forall k | 0 <= k < n ensures CharAt(mem, s, k, signedChar) != c {
        CharValueMatch(At(mem, s + k), c, signedChar);
      }
      None
  }

  /** With a signed `char`, a byte above 127 is never found by its unsigned
      value: `internal_memchr(s, c, n)` with `c` in 128..255 answers NULL even
      when a byte `c` is among the `n`, where an unsigned `char` finds it. */
  lemma MemchrMissesHighByteWhenSigned(mem: seq<byte>, s: nat, c: int, n: nat, k: nat)
    requires 128 <= c <= 255 && k < n && At(mem, s + k) == c
    ensures Memchr(mem, s, c, n, true) == None
    ensures Memchr(mem, s, c, n, false).Some? && Memchr(mem, s, c, n, false).value <= s + k
  {
    assert !Representable(c, true);
    assert CharAt(mem, s, k, false) == c;
  }

  /** `internal_memchr`. */
  method InternalMemchr(mem: seq<byte>, s: nat, c: int, n: nat, signedChar: bool) returns (r: Option<nat>)
    requires s + n <= |mem|
    ensures r == Memchr(mem, s, c, n, signedChar)
  {
    for i := 0 to n
      invariant forall k :: 0 <= k < i ==> CharAt(mem, s, k, signedChar) != c
    {
      if CharValue(mem[s + i], signedChar) == c {
        assert CharAt(mem, s, i, signedChar) == c;
        MemchrUnique(mem, s, c, n, signedChar, Some(s + i));
        return Some(s + i);
      }
    }
    MemchrUnique(mem, s, c, n, signedChar, None);
    return None;
  }

  /** Only one answer meets the contract of `Memchr`. */
  lemma MemchrUnique(mem: seq<byte>, s: nat, c: int, n: nat, signedChar: bool, r: Option<nat>)
    requires r.Some? ==> s <= r.value < s + n && CharAt(mem, s, r.value - s, signedChar) == c
    requires r.Some? ==> forall k :: 0 <= k < r.value - s ==> CharAt(mem, s, k, signedChar) != c
    requires r.None? ==> forall k :: 0 <= k < n ==> CharAt(mem, s, k, signedChar) != c
    ensures r == Memchr(mem, s, c, n, signedChar)
  {
    var m := Memchr(mem, s, c, n, signedChar);
    var i := if r.Some? then r.value - s else n;
    var j := if m.Some? then m.value - s else n;
    assert i < n ==> CharAt(mem, s, i, signedChar) == c;
    assert j < n ==> CharAt(mem, s, j, signedChar) == c;
  }

  // ---------------------------------------------------------------- memcmp

  /** What `internal_memcmp` answers: 0 when the `n` bytes are equal, else
      -1 or 1 by the plain `char` values of the first pair that differs. */
  function PlainMemcmp(mem: seq<byte>, s1: nat, s2: nat, n: nat, signedChar: bool): (r: int)
    ensures -1 <= r <= 1
    ensures r == 0 <==> EqualBytes(mem, s1, s2, n)
    ensures r != 0 ==> exists d: nat ::
      (IsFirstStop(ByteRule, mem, s1, s2, n, d) && d < n &&
       (r < 0 <==> CharAt(mem, s1, d, signedChar) < CharAt(mem, s2, d, signedChar)))
  {
    ByteScanFullIff(mem, s1, s2, n);
    var i := StopIndex(ByteRule, mem, s1, s2, n);
    if i == n then 0
    else if CharAt(mem, s1, i, signedChar) < CharAt(mem, s2, i, signedChar) then -1
    else 1
  }

  /** With an unsigned `char`, `internal_memcmp` agrees with the unsigned
      comparison of the `memcmp` wrapper. */
  lemma PlainMemcmpUnsigned(mem: seq<byte>, s1: nat, s2: nat, n: nat)
    ensures var i := StopIndex(ByteRule, mem, s1, s2, n);
      PlainMemcmp(mem, s1, s2, n, false) == CharCmp(LastPair(mem, s1, s2, i, n).0, LastPair(mem, s1, s2, i, n).1)
  {
    var i := StopIndex(ByteRule, mem, s1, s2, n);
    assert i == n && n > 0 ==> !StopsAt(ByteRule, mem, s1, s2, n - 1);
    assert i < n ==> StopsAt(ByteRule, mem, s1, s2, i);
  }

  /** With a signed `char` the order of bytes across 128 flips: where the
      first difference pairs a byte below 128 in the first operand with one
      of 128 or more in the second, `internal_memcmp` answers 1, where the
      unsigned comparison answers -1. */
  lemma PlainMemcmpSignedFlips(mem: seq<byte>, s1: nat, s2: nat, n: nat, d: nat)
    requires d < n && EqualBytes(mem, s1, s2, d)
    requires At(mem, s1 + d) < 128 <= At(mem, s2 + d)
    ensures PlainMemcmp(mem, s1, s2, n, true) == 1
    ensures PlainMemcmp(mem, s1, s2, n, false) == -1
  {
    forall k | 0 <= k < d ensures !StopsAt(ByteRule, mem, s1, s2, k) {
      assert SameAt(mem, s1, s2, k);
    }
    FirstStopUnique(ByteRule, mem, s1, s2, n, d);
  }

  /** `internal_memcmp`. */
  method InternalMemcmp(mem: seq<byte>, s1: nat, s2: nat, n: nat, signedChar: bool) returns (r: int)
    requires s1 + n <= |mem| && s2 + n <= |mem|
    ensures r == PlainMemcmp(mem, s1, s2, n, signedChar)
  {
    for i := 0 to n
      invariant forall k :: 0 <= k < i ==> !StopsAt(ByteRule, mem, s1, s2, k)
    {
      if mem[s1 + i] != mem[s2 + i] {
        assert StopsAt(ByteRule, mem, s1, s2, i);
        FirstStopUnique(ByteRule, mem, s1, s2, n, i);
        return if CharValue(mem[s1 + i], signedChar) < CharValue(mem[s2 + i], signedChar) then -1 else 1;
      }
    }
    FirstStopUnique(ByteRule, mem, s1, s2, n, n);
    return 0;
  }

  // ---------------------------------------------------------------- strstr

  /** The needle's `len` bytes occur at offset `pos` of the haystack. */
  predicate MatchAt(mem: seq<byte>, haystack: nat, needle: nat, pos: int, len: nat) {
    pos >= 0 && EqualBytes(mem, haystack + pos, needle, len)
  }

  /** `internal_strstr`: the first position at which the needle's string
      occurs in the haystack's string, or NULL; an empty needle is found at
      the start. */
  method InternalStrstr(mem: seq<byte>, haystack: nat, needle: nat, signedChar: bool) returns (r: Option<nat>)
    requires Terminated(mem, haystack) && Terminated(mem, needle)
    ensures r.Some? ==>
      && haystack <= r.value
      && r.value - haystack + StrLen(mem, needle) <= StrLen(mem, haystack)
      && MatchAt(mem, haystack, needle, r.value - haystack, StrLen(mem, needle))
      && forall pos :: 0 <= pos < r.value - haystack ==> !MatchAt(mem, haystack, needle, pos, StrLen(mem, needle))
    ensures r.None? ==>
      forall pos :: 0 <= pos && pos + StrLen(mem, needle) <= StrLen(mem, haystack) ==>
        !MatchAt(mem, haystack, needle, pos, StrLen(mem, needle))
    ensures StrLen(mem, needle) == 0 ==> r == Some(haystack)
  {
    var len1 := InternalStrlen(mem, haystack);
    var len2 := InternalStrlen(mem, needle);
    assert len2 == 0 ==> MatchAt(mem, haystack, needle, 0, len2);
    if len1 < len2 {
      return None;
    }
    for pos := 0 to len1 - len2 + 1
      invariant forall q :: 0 <= q < pos ==> !MatchAt(mem, haystack, needle, q, len2)
    {
      var d := InternalMemcmp(mem, haystack + pos, needle, len2, signedChar);
      if d == 0 {
        return Some(haystack + pos);
      }
    }
    return None;
  }

  // --------------------------------------------------------------- strncat

  /** The arguments of `internal_strncat` meet its contract: the string at
      `dst` is terminated, the string at `src` can be read up to `n` bytes,
      there is room after `dst`'s terminator, and the bytes it writes are not
      bytes it still has to read, as for C `strncat`. */
  predicate StrncatArgs(mem: seq<byte>, dst: nat, src: nat, n: nat) {
    && Terminated(mem, dst) && Readable(mem, src, n)
    && dst + StrLen(mem, dst) + StrNLen(mem, src, n) + 1 <= |mem|
    && (dst + StrLen(mem, dst) + StrNLen(mem, src, n) + 1 <= src ||
        src + Min(n, StrLen(mem, src) + 1) <= dst + StrLen(mem, dst))
  }

  /** `r` is what `internal_strncat(dst, src, n)` leaves of `mem`: the first
      `min(n, strlen(src))` bytes of the string at `src`, then a NUL, written
      over the terminator of the string at `dst`; nothing else changes. */
  predicate StrncatResult(mem: seq<byte>, r: seq<byte>, dst: nat, src: nat, n: nat)
    requires StrncatArgs(mem, dst, src, n)
  {
    var at, m := dst + StrLen(mem, dst), StrNLen(mem, src, n);
    && |r| == |mem|
    && (forall a :: 0 <= a < |mem| && !(at <= a <= at + m) ==> r[a] == mem[a])
    && (forall a :: at <= a < at + m ==> r[a] == mem[src + (a - at)])
    && r[at + m] == 0
  }

  /** After `internal_strncat` the string at `dst` is the old one followed by
      the first `min(n, strlen(src))` bytes of the string at `src`. */
  lemma {:induction false} StrncatAppends(mem: seq<byte>, r: seq<byte>, dst: nat, src: nat, n: nat)
    requires StrncatArgs(mem, dst, src, n)
    requires StrncatResult(mem, r, dst, src, n)
    ensures Terminated(r, dst)
    ensures Str(r, dst) == Str(mem, dst) + mem[src..src + StrNLen(mem, src, n)]
  {
    var len, m := StrLen(mem, dst), StrNLen(mem, src, n);
    var want := Str(mem, dst) + mem[src..src + m];
    forall k | 0 <= k < len + m ensures NonNul(r, dst, k) && r[dst + k] == want[k] {
      if k < len {
        assert r[dst + k] == mem[dst + k] && NonNul(mem, dst, k);
      } else {
        assert r[dst + k] == mem[src + (k - len)] && NonNul(mem, src, k - len);
      }
    }
    StrLenFromTerminator(r, dst, len + m);
    assert Str(r, dst) == want;
  }

  /** `internal_strncat`, writing into `mem` in place. */
  method InternalStrncat(mem: array<byte>, dst: nat, src: nat, n: nat) returns (r: nat)
    requires StrncatArgs(mem[..], dst, src, n)
    modifies mem
    ensures r == dst
    ensures StrncatResult(old(mem[..]), mem[..], dst, src, n)
  {
    ghost var m0 := mem[..];
    var len := InternalStrlen(mem[..], dst);
    ghost var m := StrNLen(m0, src, n);
    ghost var at := dst + len;
    var i := 0;
    while i < n && mem[src + i] != 0
      invariant i <= m
      invariant forall a :: 0 <= a < mem.Length && !(at <= a < at + i) ==> mem[a] == m0[a]
      invariant forall a :: at <= a < at + i ==> mem[a] == m0[src + (a - at)]
      decreases n - i
    {
      StrncatReadsSource(m0, dst, src, n, i);
      mem[dst + len + i] := mem[src + i];
      i := i + 1;
    }
    if i < n {
      StrncatReadsSource(m0, dst, src, n, i);
    }
    assert i == m;
    mem[dst + len + i] := 0;
    assert StrncatResult(m0, mem[..], dst, src, n);
    return dst;
  }

  /** Inside the loop of `internal_strncat`, the byte of `src` about to be read
      lies in the image and is not one the loop has written; it is NUL exactly
      when the whole string has been copied. */
  lemma StrncatReadsSource(m0: seq<byte>, dst: nat, src: nat, n: nat, i: nat)
    requires StrncatArgs(m0, dst, src, n)
    requires i <= StrNLen(m0, src, n) && i < n
    ensures src + i < |m0|
    ensures !(dst + StrLen(m0, dst) <= src + i <= dst + StrLen(m0, dst) + StrNLen(m0, src, n))
    ensures m0[src + i] == 0 <==> i == StrNLen(m0, src, n)
  {
    assert At(m0, src + StrLen(m0, src)) == 0;
    assert i < StrNLen(m0, src, n) ==> NonNul(m0, src, i);
  }

  // ---------------------------------------------------------------- strcmp

  /** `internal_strcmp`: it widens each plain `char` to `unsigned`, which
      keeps the order of the unsigned bytes, so its answer is `StrCmp`
      whatever the signedness of `char`. */
  method InternalStrcmp(mem: seq<byte>, s1: nat, s2: nat, signedChar: bool) returns (r: int)
    requires Terminated(mem, s1) && Terminated(mem, s2)
    ensures r == StrCmp(mem, s1, s2)
  {
    ghost var n := StrLen(mem, s1) + 1;
    ghost var stop := StopIndex(StringRule, mem, s1, s2, n);
    StopWithinStrings(StringRule, mem, s1, s2, n);
    assert StopsAt(StringRule, mem, s1, s2, stop);
    var i := 0;
    while true
      invariant i <= stop
      decreases stop - i
    {
      var c1 := Widen(mem[s1 + i], signedChar);
      var c2 := Widen(mem[s2 + i], signedChar);
      WidenKeepsOrder(mem[s1 + i], mem[s2 + i], signedChar);
      WidenKeepsOrder(mem[s1 + i], 0, signedChar);
      if c1 != c2 {
        assert StopsAt(StringRule, mem, s1, s2, i);
        return if c1 < c2 then -1 else 1;
      }
      if c1 == 0 {
        assert StopsAt(StringRule, mem, s1, s2, i);
        break;
      }
      assert !StopsAt(StringRule, mem, s1, s2, i);
      i := i + 1;
    }
    return 0;
  }
}
