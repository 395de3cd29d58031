/** Byte strings, nibbles and big-endian integers (libdevcore/CommonData.h). */
module Bytes {

  type Byte = b: int | 0 <= b < 0x100
  type Nibble = n: int | 0 <= n < 0x10
  type Bytes = seq<Byte>
  type Nibbles = seq<Nibble>

  const ZERO_HASH: Bytes := [0, 0, 0, 0, 0, 0, 0, 0, 0, 0, 0, 0, 0, 0, 0, 0, 0, 0, 0, 0, 0, 0, 0, 0, 0, 0, 0, 0, 0, 0, 0, 0]

  /** h256. The hash function is a parameter of what uses it: nothing is assumed of it but its length, and where a
    statement needs that two strings do not collide it says so about a given set of strings. */
  type Hash = h: Bytes | |h| == 32 witness ZERO_HASH
  type HashFn = Bytes -> Hash

  ghost predicate CollisionFree(hash: HashFn, strings: iset<Bytes>) {
    forall a, b :: a in strings && b in strings && hash(a) == hash(b) ==> a == b
  }

  datatype Option<+T> = None | Some(value: T)

  /** The shortest big-endian form of n; zero has no bytes at all. */
  function ToBigEndian(n: nat): Bytes {
    if n == 0 then [] else ToBigEndian(n / 0x100) + [n % 0x100]
  }

  function FromBigEndian(s: Bytes): nat {
    if s == [] then 0 else FromBigEndian(s[..|s| - 1]) * 0x100 + s[|s| - 1]
  }

  function Power256(k: nat): nat {
    if k == 0 then 1 else 0x100 * Power256(k - 1)
  }

  lemma {:induction false} BigEndianRoundTrip(n: nat)
    ensures FromBigEndian(ToBigEndian(n)) == n
    ensures n > 0 ==> |ToBigEndian(n)| > 0 && ToBigEndian(n)[0] != 0
  {
    if n > 0 {
      BigEndianRoundTrip(n / 0x100);
      assert ToBigEndian(n)[..|ToBigEndian(n)| - 1] == ToBigEndian(n / 0x100);
    }
  }

  /** Without a leading zero a byte string is the shortest form of its value. */
  lemma {:induction false} BigEndianCanonical(s: Bytes)
    requires s == [] || s[0] != 0
    ensures ToBigEndian(FromBigEndian(s)) == s
    ensures s != [] ==> FromBigEndian(s) > 0
  {
    if s != [] {
      var front := s[..|s| - 1];
      BigEndianCanonical(front);
      assert FromBigEndian(s) / 0x100 == FromBigEndian(front);
      assert FromBigEndian(s) % 0x100 == s[|s| - 1];
      assert s == front + [s[|s| - 1]];
    }
  }

  /** n needs at most k bytes exactly when it is below 256^k. */
  lemma {:induction false} BigEndianLength(n: nat, k: nat)
    ensures |ToBigEndian(n)| <= k <==> n < Power256(k)
  {
    if n > 0 && k > 0 {
      BigEndianLength(n / 0x100, k - 1);
      assert n / 0x100 < Power256(k - 1) <==> n < 0x100 * Power256(k - 1);
    } else if n == 0 {
      PowerPositive(k);
    }
  }

  lemma {:induction false} PowerPositive(k: nat)
    ensures Power256(k) > 0
  {
    if k > 0 {
      PowerPositive(k - 1);
    }
  }

  lemma Power256Eight()
    ensures Power256(8) == 0x1_0000_0000_0000_0000
  {
    assert Power256(2) == 0x1_0000;
    assert Power256(4) == 0x1_0000_0000;
    assert Power256(6) == 0x1_0000_0000_0000;
  }

  /** bytesRequired: how many bytes the shortest big-endian form takes. */
  method BytesRequired(value: nat) returns (count: nat)
    ensures count == |ToBigEndian(value)|
  {
    var rest := value;
    count := 0;
    while rest != 0
      invariant count + |ToBigEndian(rest)| == |ToBigEndian(value)|
    {
      count := count + 1;
      rest := rest / 0x100;
    }
  }
}
