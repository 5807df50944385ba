/** The placeholder payload transform: every octet of a buffer range is XOR-ed in place
    with a key derived from the day of the month. */
module SecureStream {
  import opened Net

  /** `(byte)(Day * 8)`: the C# cast keeps the low eight bits. The day is a parameter
      standing for `DateTime.UtcNow.Day`. */
  function Key(day: int): (k: byte)
    ensures k == 8 * (day % 32)
  {
    KeyOfDay(day);
    (day * 8) % 256
  }

  /** Eight times a number, modulo 256, is eight times the number modulo 32. */
  lemma KeyOfDay(day: int)
    ensures (day * 8) % 256 == 8 * (day % 32)
  {
    var q, m := day / 32, day % 32;
    assert day * 8 == 256 * q + 8 * m;
    assert 0 <= 8 * m < 256;
  }

  /** Bitwise exclusive or of two naturals, one bit at a time from the lowest. */
  function BitXor(a: nat, b: nat): nat
    decreases a + b
  {
    if a == 0 then b
    else if b == 0 then a
    else 2 * BitXor(a / 2, b / 2) + (a % 2 + b % 2) % 2
  }

  function Pow2(n: nat): (p: nat)
    ensures p >= 1
  {
    if n == 0 then 1 else 2 * Pow2(n - 1)
  }

  /** Exclusive or of two n-bit numbers is an n-bit number. */
  lemma {:induction false} BitXorBound(a: nat, b: nat, n: nat)
    requires a < Pow2(n) && b < Pow2(n)
    ensures BitXor(a, b) < Pow2(n)
    decreases n
  {
    if a != 0 && b != 0 {
      assert n > 0;
      BitXorBound(a / 2, b / 2, n - 1);
    }
  }

  /** Exclusive or of two octets, the `^` of the C# compound assignment. */
  function Xor(a: byte, b: byte): byte
  {
    assert Pow2(8) == 256;
    BitXorBound(a, b, 8);
    BitXor(a, b)
  }

  /** The buffer after XOR-ing the octets at indices [offset, offset + length) with `key`. */
  function XorRange(s: seq<byte>, offset: int, length: int, key: byte): (r: seq<byte>)
    ensures |r| == |s|
  {
    seq(|s|, i requires 0 <= i < |s| => if offset <= i < offset + length then Xor(s[i], key) else s[i])
  }

  /** What `Encrypt` and `Decrypt` demand so that no index falls outside the buffer:
      a loop that runs at all stays inside it. */
  predicate InBounds(len: nat, offset: int, length: int)
  {
    length <= 0 || (0 <= offset && offset + length <= len)
  }

  /** `SecureStream.Encrypt`. */
  method Encrypt(buffer: array<byte>, offset: int, length: int, day: int)
    requires InBounds(buffer.Length, offset, length)
    modifies buffer
    ensures buffer[..] == XorRange(old(buffer[..]), offset, length, Key(day))
  {
    XorInPlace(buffer, offset, length, Key(day));
  }

  /** `SecureStream.Decrypt`: the same per-octet operation as `Encrypt`. */
  method Decrypt(buffer: array<byte>, offset: int, length: int, day: int)
    requires InBounds(buffer.Length, offset, length)
    modifies buffer
    ensures buffer[..] == XorRange(old(buffer[..]), offset, length, Key(day))
  {
    XorInPlace(buffer, offset, length, Key(day));
  }

  /** The loop both methods run: `for (i = offset; i < offset + length; i++) buffer[i] ^= key`. */
  method XorInPlace(buffer: array<byte>, offset: int, length: int, key: byte)
    requires InBounds(buffer.Length, offset, length)
    modifies buffer
    ensures buffer[..] == XorRange(old(buffer[..]), offset, length, key)
  {
    var i := offset;
    while i < offset + length
      invariant length > 0 ==> offset <= i <= offset + length
      invariant length <= 0 ==> i == offset
      invariant forall j :: 0 <= j < buffer.Length ==>
        buffer[j] == if offset <= j < i then Xor(old(buffer[j]), key) else old(buffer[j])
    {
      buffer[i] := Xor(buffer[i], key);
      i := i + 1;
    }
    assert forall j | 0 <= j < buffer.Length ::
      buffer[..][j] == XorRange(old(buffer[..]), offset, length, key)[j];
  }

  // ---------------------------------------------------------------------------
  // Properties of the transform.

  /** A number XOR-ed with itself is zero. */
  lemma {:induction false} BitXorSelf(a: nat)
    ensures BitXor(a, a) == 0
  {
    if a != 0 {
      BitXorSelf(a / 2);
    }
  }

  /** A number is twice its half plus its lowest bit. */
  lemma Split(x: nat)
    ensures x == 2 * (x / 2) + x % 2 && x % 2 < 2
  {
  }

  /** Halving twice a number plus a bit gives the number, and the bit is the remainder. */
  lemma Join(y: nat, r: nat)
    requires r < 2
    ensures (2 * y + r) / 2 == y && (2 * y + r) % 2 == r
  {
  }

  /** Adding a bit twice modulo 2 gives the other bit back. */
  lemma ParityTwice(a: nat, k: nat)
    ensures ((a % 2 + k % 2) % 2 + k % 2) % 2 == a % 2
  {
  }

  /** XOR-ing twice with the same value gives the number back. */
  lemma {:induction false} BitXorTwice(a: nat, k: nat)
    ensures BitXor(BitXor(a, k), k) == a
    decreases a + k
  {
    if a == 0 {
      BitXorSelf(k);
    } else if k != 0 {
      var y := BitXor(a / 2, k / 2);
      var r := (a % 2 + k % 2) % 2;
      var x := BitXor(a, k);
      assert x == 2 * y + r;
      BitXorTwice(a / 2, k / 2);
      Split(a);
      Split(k);
      if x == 0 {
        assert y == 0 && r == 0;
        assert a / 2 == k / 2 && a % 2 == k % 2;
        assert BitXor(x, k) == k;
      } else {
        Join(y, r);
        ParityTwice(a, k);
        assert BitXor(x, k) == 2 * BitXor(x / 2, k / 2) + (x % 2 + k % 2) % 2;
      }
    }
  }

  /** XOR with a nonzero value changes the number. */
  lemma {:induction false} BitXorChanges(a: nat, k: nat)
    requires k != 0
    ensures BitXor(a, k) != a
    decreases a + k
  {
    if a != 0 {
      var y := BitXor(a / 2, k / 2);
      var r := (a % 2 + k % 2) % 2;
      assert BitXor(a, k) == 2 * y + r;
      Split(a);
      Split(k);
      Join(y, r);
      if k % 2 == 0 {
        BitXorChanges(a / 2, k / 2);
        assert r == a % 2 && y != a / 2;
      } else {
        assert r != a % 2;
      }
    }
  }

  lemma XorTwice(a: byte, k: byte)
    ensures Xor(Xor(a, k), k) == a
  {
    BitXorTwice(a, k);
  }

  /** Decrypting an encrypted range with the same key restores the buffer, and so does
      encrypting twice: each transform is an involution. */
  lemma {:induction false} DecryptAfterEncrypt(s: seq<byte>, offset: int, length: int, key: byte)
    ensures XorRange(XorRange(s, offset, length, key), offset, length, key) == s
  {
    var t := XorRange(XorRange(s, offset, length, key), offset, length, key);
    forall i | 0 <= i < |s| ensures t[i] == s[i] {
      XorTwice(s[i], key);
    }
  }

  /** Octets outside [offset, offset + length) are unchanged, those inside are XOR-ed. */
  lemma RangeOnly(s: seq<byte>, offset: int, length: int, key: byte, i: int)
    requires 0 <= i < |s|
    ensures !(offset <= i < offset + length) ==> XorRange(s, offset, length, key)[i] == s[i]
    ensures offset <= i < offset + length ==> XorRange(s, offset, length, key)[i] == Xor(s[i], key)
  {
  }

  /** A range of length zero (or less) changes nothing. */
  lemma {:induction false} EmptyRangeIdentity(s: seq<byte>, offset: int, length: int, key: byte)
    requires length <= 0
    ensures XorRange(s, offset, length, key) == s
  {
    assert forall i | 0 <= i < |s| :: XorRange(s, offset, length, key)[i] == s[i];
  }

  /** For a day of the month the key lies in 8..248 and is nonzero, so every octet of the range
      changes. */
  lemma {:induction false} DayKeyChangesRange(s: seq<byte>, offset: int, length: int, day: int, i: int)
    requires 1 <= day <= 31 && 0 <= i < |s| && offset <= i < offset + length
    ensures 8 <= Key(day) <= 248 && Key(day) % 8 == 0
    ensures XorRange(s, offset, length, Key(day))[i] != s[i]
  {
    assert Key(day) == day * 8;
    BitXorChanges(s[i], Key(day));
  }
}
