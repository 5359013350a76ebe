/** Bytes and C strings as the AddressSanitizer interceptors see them.

    Memory is a byte image indexed by address. A pointer is a `nat` into it.
    `At` reads 0 past the end of the image, so that the scans below are total;
    every routine that really dereferences memory requires its reads to stay
    inside the image (that is the C contract of the routine it models). */
module CString {

  /** One byte of memory, read as `unsigned char` (0..255). */
  type byte = b: int | 0 <= b < 256

  datatype Option<T> = None | Some(value: T)

  function Min(a: nat, b: nat): nat { if a <= b then a else b }

  /** The byte at address `a`, or 0 past the end of the image. */
  function At(mem: seq<byte>, a: int): byte {
    if 0 <= a < |mem| then mem[a] else 0
  }

  // ---------------------------------------------------------------- lengths

  /** The byte at offset `k` from `p` is not NUL. */
  predicate NonNul(mem: seq<byte>, p: nat, k: int) {
    At(mem, p + k) != 0
  }

  /** Length of the C string at `p`: the offset of its first NUL. */
  function StrLen(mem: seq<byte>, p: nat): (n: nat)
    ensures At(mem, p + n) == 0
    ensures forall k :: 0 <= k < n ==> NonNul(mem, p, k)
    decreases |mem| - p
  {
    if p >= |mem| || mem[p] == 0 then 0
    else
      var n := StrLen(mem, p + 1);
      assert forall k :: 1 <= k < n + 1 ==> NonNul(mem, p, k) == NonNul(mem, p + 1, k - 1);
      n + 1
  }

  /** The string at `p` is NUL-terminated inside the memory image. */
  predicate Terminated(mem: seq<byte>, p: nat) {
    p + StrLen(mem, p) < |mem|
  }

  /** The bytes of the C string at `p`, without its terminator. */
  function Str(mem: seq<byte>, p: nat): (s: seq<byte>)
    requires Terminated(mem, p)
    ensures |s| == StrLen(mem, p)
    ensures forall k :: 0 <= k < |s| ==> s[k] != 0
  {
    var s := mem[p..p + StrLen(mem, p)];
    forall k | 0 <= k < |s| ensures s[k] != 0 {
      assert s[k] == At(mem, p + k) && NonNul(mem, p, k);
    }
    s
  }

  /** `strnlen`: the length of the string at `p`, but at most `maxlen`. */
  function StrNLen(mem: seq<byte>, p: nat, maxlen: nat): (n: nat)
    ensures n <= maxlen
    ensures forall k :: 0 <= k < n ==> NonNul(mem, p, k)
    ensures n < maxlen ==> At(mem, p + n) == 0
  {
    Min(maxlen, StrLen(mem, p))
  }

  /** A scan bounded by `n` that stops after the terminator stays inside the
      image: it touches `min(n, strlen + 1)` bytes from `p`. */
  predicate Readable(mem: seq<byte>, p: nat, n: nat) {
    p + Min(n, StrLen(mem, p) + 1) <= |mem|
  }

  /** A NUL at `p + n` with no NUL before it fixes the string's length. */
  lemma StrLenFromTerminator(mem: seq<byte>, p: nat, n: nat)
    requires At(mem, p + n) == 0
    requires forall k :: 0 <= k < n ==> NonNul(mem, p, k)
    ensures StrLen(mem, p) == n
  {
    assert !NonNul(mem, p, StrLen(mem, p));
    assert !NonNul(mem, p, n);
  }

  /** `Terminated` says exactly that a NUL byte lies at or after `p` in the image. */
  lemma TerminatedIff(mem: seq<byte>, p: nat)
    ensures Terminated(mem, p) <==> exists k :: p <= k < |mem| && mem[k] == 0
  {
    if Terminated(mem, p) {
      var k := p + StrLen(mem, p);
      assert At(mem, k) == 0;
    }
    if exists k :: p <= k < |mem| && mem[k] == 0 {
      var k :| p <= k < |mem| && mem[k] == 0;
      assert !NonNul(mem, p, k - p);
    }
  }

  // ---------------------------------------------------------- characters

  /** `tolower` in the "C" locale: only 'A'..'Z' change. */
  function ToLower(c: byte): byte {
    if 'A' as int <= c <= 'Z' as int then c + 32 else c
  }

  /** `CharCmp`: three-way comparison of two unsigned chars. */
  function CharCmp(c1: byte, c2: byte): int {
    if c1 == c2 then 0 else if c1 < c2 then -1 else 1
  }

  /** `CharCaseCmp`: difference of the lower-cased unsigned chars. */
  function CharCaseCmp(c1: byte, c2: byte): int {
    ToLower(c1) - ToLower(c2)
  }

  /** The value of a plain `char` holding `b`. Where `char` is signed,
      bytes 128..255 read as -128..-1. */
  function CharValue(b: byte, signedChar: bool): int {
    if signedChar && b >= 128 then b - 256 else b
  }

  /** `unsigned c = *s`: a plain `char` converted to a 32-bit unsigned int. */
  function Widen(b: byte, signedChar: bool): int {
    CharValue(b, signedChar) % 0x1_0000_0000
  }

  /** Widening a plain char to unsigned keeps the order of the unsigned bytes,
      whatever the signedness of `char`. */
  lemma WidenKeepsOrder(a: byte, b: byte, signedChar: bool)
    ensures Widen(a, signedChar) < Widen(b, signedChar) <==> a < b
    ensures Widen(a, signedChar) == Widen(b, signedChar) <==> a == b
    ensures Widen(a, signedChar) == 0 <==> a == 0
  {
    WidenValue(a, signedChar);
    WidenValue(b, signedChar);
  }

  /** A negative `char` wraps to the top of the unsigned range. */
  lemma WidenValue(b: byte, signedChar: bool)
    ensures Widen(b, signedChar) == if signedChar && b >= 128 then b as int - 256 + 0x1_0000_0000 else b as int
  {
    var v := CharValue(b, signedChar);
    if signedChar && b >= 128 {
      assert v + 0x1_0000_0000 == b as int - 256 + 0x1_0000_0000;
      assert 0 <= v + 0x1_0000_0000 < 0x1_0000_0000;
    }
  }

  /** Lower-casing maps only NUL to NUL. */
  lemma ToLowerZero(c: byte)
    ensures ToLower(c) == 0 <==> c == 0
  {
  }

  // ------------------------------------------------------------ scans

  /** The stop rule of a comparison loop:
      `memcmp` stops at a mismatch, `strcmp`/`strncmp` also at a NUL in the
      first string, `strcasecmp`/`strncasecmp` at a case-insensitive mismatch
      or a NUL in the first string. */
  datatype Rule = ByteRule | StringRule | CaseRule

  predicate Stops(rule: Rule, c1: byte, c2: byte) {
    match rule
    case ByteRule => c1 != c2
    case StringRule => c1 != c2 || c1 == 0
    case CaseRule => CharCaseCmp(c1, c2) != 0 || c1 == 0
  }

  /** The pair of bytes at offset `k` of the two operands stops the loop. */
  predicate StopsAt(rule: Rule, mem: seq<byte>, p1: nat, p2: nat, k: int) {
    Stops(rule, At(mem, p1 + k), At(mem, p2 + k))
  }

  /** `i` is where a comparison loop over at most `n` positions ends: the
      first position whose pair of bytes stops it, or `n`. */
  predicate IsFirstStop(rule: Rule, mem: seq<byte>, p1: nat, p2: nat, n: nat, i: nat) {
    && i <= n
    && (forall k :: 0 <= k < i ==> !StopsAt(rule, mem, p1, p2, k))
    && (i < n ==> StopsAt(rule, mem, p1, p2, i))
  }

  /** The position where a comparison loop over at most `n` positions ends. */
  function StopIndex(rule: Rule, mem: seq<byte>, p1: nat, p2: nat, n: nat): (i: nat)
    ensures IsFirstStop(rule, mem, p1, p2, n, i)
    decreases n
  {
    if n == 0 || StopsAt(rule, mem, p1, p2, 0) then 0
    else
      var j := StopIndex(rule, mem, p1 + 1, p2 + 1, n - 1);
      assert forall k :: 1 <= k < j + 1 ==>
        StopsAt(rule, mem, p1, p2, k) == StopsAt(rule, mem, p1 + 1, p2 + 1, k - 1);
      j + 1
  }

  /** There is only one place a comparison loop can end. */
  lemma FirstStopUnique(rule: Rule, mem: seq<byte>, p1: nat, p2: nat, n: nat, i: nat)
    requires IsFirstStop(rule, mem, p1, p2, n, i)
    ensures i == StopIndex(rule, mem, p1, p2, n)
  {
    var j := StopIndex(rule, mem, p1, p2, n);
    assert StopsAt(rule, mem, p1, p2, i) == StopsAt(rule, mem, p1, p2, i);
    assert StopsAt(rule, mem, p1, p2, j) == StopsAt(rule, mem, p1, p2, j);
  }

  /** A string comparison loop never runs past either string's terminator. */
  lemma StopWithinStrings(rule: Rule, mem: seq<byte>, p1: nat, p2: nat, n: nat)
    requires rule != ByteRule
    ensures StopIndex(rule, mem, p1, p2, n) <= StrLen(mem, p1)
    ensures StopIndex(rule, mem, p1, p2, n) <= StrLen(mem, p2)
  {
    var l1, l2 := StrLen(mem, p1), StrLen(mem, p2);
    assert StopsAt(rule, mem, p1, p2, l1);
    ToLowerZero(At(mem, p1 + l2));
    assert StopsAt(rule, mem, p1, p2, l2);
    var i := StopIndex(rule, mem, p1, p2, n);
    assert i > l2 ==> NonNul(mem, p1, l2);
  }

  /** `(c1, c2)` after a bounded comparison loop that ended at `i`: the pair
      it stopped on, else the last pair it compared, else the initial zeros. */
  function LastPair(mem: seq<byte>, p1: nat, p2: nat, i: nat, n: nat): (byte, byte) {
    if i < n then (At(mem, p1 + i), At(mem, p2 + i))
    else if n > 0 then (At(mem, p1 + n - 1), At(mem, p2 + n - 1))
    else (0, 0)
  }

  // ------------------------------------------------------ three-way compare

  /** The bytes at offset `k` of the two operands are equal. */
  predicate SameAt(mem: seq<byte>, p1: nat, p2: nat, k: int) {
    At(mem, p1 + k) == At(mem, p2 + k)
  }

  /** The `n` bytes at `p1` equal the `n` bytes at `p2`. */
  predicate EqualBytes(mem: seq<byte>, p1: nat, p2: nat, n: nat) {
    forall k :: 0 <= k < n ==> SameAt(mem, p1, p2, k)
  }

  /** Inside the image, `EqualBytes` is equality of the two slices. */
  lemma EqualBytesIffSlices(mem: seq<byte>, p1: nat, p2: nat, n: nat)
    requires p1 + n <= |mem| && p2 + n <= |mem|
    ensures EqualBytes(mem, p1, p2, n) <==> mem[p1..p1 + n] == mem[p2..p2 + n]
  {
    var a, b := mem[p1..p1 + n], mem[p2..p2 + n];
    if EqualBytes(mem, p1, p2, n) {
      forall k | 0 <= k < n ensures a[k] == b[k] {
        assert SameAt(mem, p1, p2, k);
      }
      assert a == b;
    }
    if a == b {
      forall k | 0 <= k < n ensures SameAt(mem, p1, p2, k) {
        assert a[k] == b[k];
      }
    }
  }

  /** A byte comparison runs to its bound exactly when the two ranges are equal. */
  lemma ByteScanFullIff(mem: seq<byte>, p1: nat, p2: nat, n: nat)
    ensures StopIndex(ByteRule, mem, p1, p2, n) == n <==> EqualBytes(mem, p1, p2, n)
  {
    var i := StopIndex(ByteRule, mem, p1, p2, n);
    if i == n {
      forall k | 0 <= k < n ensures SameAt(mem, p1, p2, k) {
        assert !StopsAt(ByteRule, mem, p1, p2, k);
      }
    }
    assert i < n ==> StopsAt(ByteRule, mem, p1, p2, i) && !SameAt(mem, p1, p2, i);
  }

  /** A string comparison bounded by `n` ends on an equal pair exactly when the
      strings agree on their first `n` bytes or up to the first one's
      terminator, whichever comes first. */
  lemma StringScanZeroIff(mem: seq<byte>, p1: nat, p2: nat, n: nat)
    ensures var i := StopIndex(StringRule, mem, p1, p2, n);
      CharCmp(LastPair(mem, p1, p2, i, n).0, LastPair(mem, p1, p2, i, n).1) == 0 <==>
      EqualBytes(mem, p1, p2, Min(n, StrLen(mem, p1) + 1))
  {
    var i := StopIndex(StringRule, mem, p1, p2, n);
    var l1 := StrLen(mem, p1);
    StopWithinStrings(StringRule, mem, p1, p2, n);
    assert At(mem, p1 + l1) == 0;
    if i < n {
      var (c1, c2) := LastPair(mem, p1, p2, i, n);
      assert StopsAt(StringRule, mem, p1, p2, i);
      assert i < l1 ==> NonNul(mem, p1, i);
      forall k | 0 <= k < i ensures SameAt(mem, p1, p2, k) {
        assert !StopsAt(StringRule, mem, p1, p2, k);
      }
      assert Min(n, l1 + 1) > i;
      assert EqualBytes(mem, p1, p2, Min(n, l1 + 1)) ==> SameAt(mem, p1, p2, i);
      if CharCmp(c1, c2) == 0 {
        assert SameAt(mem, p1, p2, i) && i == l1;
        assert EqualBytes(mem, p1, p2, Min(n, l1 + 1));
      }
    } else {
      forall k | 0 <= k < n ensures SameAt(mem, p1, p2, k) {
        assert !StopsAt(StringRule, mem, p1, p2, k);
      }
      assert n > 0 ==> SameAt(mem, p1, p2, n - 1);
    }
  }

  /** The bytes at offset `k` of the two operands are equal once lower-cased. */
  predicate SameLowerAt(mem: seq<byte>, p1: nat, p2: nat, k: int) {
    ToLower(At(mem, p1 + k)) == ToLower(At(mem, p2 + k))
  }

  /** A case-insensitive comparison bounded by `n` ends on a pair that
      `CharCaseCmp` calls equal exactly when the strings agree, up to case, on
      their first `n` bytes or up to the first one's terminator. */
  lemma CaseScanZeroIff(mem: seq<byte>, p1: nat, p2: nat, n: nat)
    ensures var i := StopIndex(CaseRule, mem, p1, p2, n);
      CharCaseCmp(LastPair(mem, p1, p2, i, n).0, LastPair(mem, p1, p2, i, n).1) == 0 <==>
      forall k :: 0 <= k < Min(n, StrLen(mem, p1) + 1) ==> SameLowerAt(mem, p1, p2, k)
  {
    var i := StopIndex(CaseRule, mem, p1, p2, n);
    var l1 := StrLen(mem, p1);
    var bound := Min(n, l1 + 1);
    StopWithinStrings(CaseRule, mem, p1, p2, n);
    assert At(mem, p1 + l1) == 0;
    if i < n {
      var (c1, c2) := LastPair(mem, p1, p2, i, n);
      assert StopsAt(CaseRule, mem, p1, p2, i);
      assert i < l1 ==> NonNul(mem, p1, i);
      forall k | 0 <= k < i ensures SameLowerAt(mem, p1, p2, k) {
        assert !StopsAt(CaseRule, mem, p1, p2, k);
      }
      assert bound > i;
      assert (forall k :: 0 <= k < bound ==> SameLowerAt(mem, p1, p2, k)) ==> SameLowerAt(mem, p1, p2, i);
      if CharCaseCmp(c1, c2) == 0 {
        assert SameLowerAt(mem, p1, p2, i) && i == l1;
      }
    } else {
      forall k | 0 <= k < n ensures SameLowerAt(mem, p1, p2, k) {
        assert !StopsAt(CaseRule, mem, p1, p2, k);
      }
      assert n > 0 ==> SameLowerAt(mem, p1, p2, n - 1);
    }
  }

  /** The answer of `strcmp` on unsigned bytes: `CharCmp` of the pair at which
      the comparison of the strings at `p1` and `p2` stops. */
  function StrCmp(mem: seq<byte>, p1: nat, p2: nat): int {
    var i := StopIndex(StringRule, mem, p1, p2, StrLen(mem, p1) + 1);
    CharCmp(At(mem, p1 + i), At(mem, p2 + i))
  }

  /** `StrCmp` is 0 exactly when the two strings are equal. */
  lemma StrCmpZeroIff(mem: seq<byte>, p1: nat, p2: nat)
    ensures StrCmp(mem, p1, p2) == 0 <==>
      (StrLen(mem, p1) == StrLen(mem, p2) &&
       forall k :: 0 <= k < StrLen(mem, p1) ==> SameAt(mem, p1, p2, k))
  {
    StrCmpZeroIffBytes(mem, p1, p2);
    EqualThroughTerminator(mem, p1, p2);
  }

  /** `StrCmp` is 0 exactly when the bytes agree through the first string's
      terminator. */
  lemma StrCmpZeroIffBytes(mem: seq<byte>, p1: nat, p2: nat)
    ensures StrCmp(mem, p1, p2) == 0 <==> EqualBytes(mem, p1, p2, StrLen(mem, p1) + 1)
  {
    var n := StrLen(mem, p1) + 1;
    var i := StopIndex(StringRule, mem, p1, p2, n);
    StopWithinStrings(StringRule, mem, p1, p2, n);
    StringScanZeroIff(mem, p1, p2, n);
    assert Min(n, StrLen(mem, p1) + 1) == n;
    assert LastPair(mem, p1, p2, i, n) == (At(mem, p1 + i), At(mem, p2 + i));
    assert StrCmp(mem, p1, p2) == CharCmp(LastPair(mem, p1, p2, i, n).0, LastPair(mem, p1, p2, i, n).1);
  }

  /** Two strings are equal exactly when their bytes agree up to and
      including the first one's terminator. */
  lemma EqualThroughTerminator(mem: seq<byte>, p1: nat, p2: nat)
    ensures EqualBytes(mem, p1, p2, StrLen(mem, p1) + 1) <==>
      (StrLen(mem, p1) == StrLen(mem, p2) &&
       forall k :: 0 <= k < StrLen(mem, p1) ==> SameAt(mem, p1, p2, k))
  {
    var l1 := StrLen(mem, p1);
    if EqualBytes(mem, p1, p2, l1 + 1) {
      assert SameAt(mem, p1, p2, l1);
      forall k | 0 <= k < l1 ensures NonNul(mem, p2, k) {
        assert SameAt(mem, p1, p2, k) && NonNul(mem, p1, k);
      }
      StrLenFromTerminator(mem, p2, l1);
    }
    if StrLen(mem, p2) == l1 {
      assert SameAt(mem, p1, p2, l1);
    }
  }

  /** `StrCmp` has the sign of the first pair of bytes that differ before the
      first string ends. */
  lemma StrCmpFirstDifference(mem: seq<byte>, p1: nat, p2: nat, d: nat)
    requires forall k :: 0 <= k < d ==> SameAt(mem, p1, p2, k) && At(mem, p1 + k) != 0
    requires !SameAt(mem, p1, p2, d)
    ensures StrCmp(mem, p1, p2) == CharCmp(At(mem, p1 + d), At(mem, p2 + d))
  {
    var l1 := StrLen(mem, p1);
    assert At(mem, p1 + l1) == 0;
    assert l1 < d ==> SameAt(mem, p1, p2, l1) && NonNul(mem, p1, l1);
    forall k | 0 <= k < d ensures !StopsAt(StringRule, mem, p1, p2, k) {
      assert SameAt(mem, p1, p2, k);
    }
    FirstStopUnique(StringRule, mem, p1, p2, l1 + 1, d);
  }

  /** Swapping the operands of `StrCmp` negates its answer. */
  lemma StrCmpAntisymmetric(mem: seq<byte>, p1: nat, p2: nat)
    ensures StrCmp(mem, p2, p1) == -StrCmp(mem, p1, p2)
  {
    var n1, n2 := StrLen(mem, p1) + 1, StrLen(mem, p2) + 1;
    var i := StopIndex(StringRule, mem, p1, p2, n1);
    StopWithinStrings(StringRule, mem, p1, p2, n1);
    StopWithinStrings(StringRule, mem, p2, p1, n2);
    assert StopsAt(StringRule, mem, p1, p2, i);
    forall k | 0 <= k < i ensures !StopsAt(StringRule, mem, p2, p1, k) {
      assert !StopsAt(StringRule, mem, p1, p2, k);
    }
    FirstStopUnique(StringRule, mem, p2, p1, n2, i);
  }
}
