/** The bytes fed to the hashers: UTF-8, big-endian u64, and length-prefixed fields. */
module ByteEncoding {
  import opened Utf8Text

  type Byte = b: nat | b < 256

  function Encode(c: char): (r: seq<Byte>)
    ensures |r| == Width(c)
  {
    var n := c as int;
    if n < 0x80 then [n]
    else if n < 0x800 then [0xC0 + n / 64, 0x80 + n % 64]
    else if n < 0x10000 then [0xE0 + n / 64 / 64, 0x80 + n / 64 % 64, 0x80 + n % 64]
    else [0xF0 + n / 64 / 64 / 64, 0x80 + n / 64 / 64 % 64, 0x80 + n / 64 % 64, 0x80 + n % 64]
  }

  function Utf8(s: string): seq<Byte> {
    if s == [] then [] else Encode(s[0]) + Utf8(s[1..])
  }

  lemma {:induction false} Utf8Length(s: string)
    ensures |Utf8(s)| == ByteLen(s)
  {
    if s != [] {
      Utf8Length(s[1..]);
      assert s == [s[0]] + s[1..];
      ByteLenConcat([s[0]], s[1..]);
      assert [s[0]][..0] == [];
    }
  }

  function LeadWidth(lead: Byte): nat {
    if lead < 0x80 then 1 else if lead < 0xE0 then 2 else if lead < 0xF0 then 3 else 4
  }

  function Digit(b: Byte): int { b as int - 0x80 }

  function Decode(r: seq<Byte>): int {
    if |r| == 1 then r[0]
    else if |r| == 2 then (r[0] as int - 0xC0) * 64 + Digit(r[1])
    else if |r| == 3 then ((r[0] as int - 0xE0) * 64 + Digit(r[1])) * 64 + Digit(r[2])
    else if |r| == 4 then (((r[0] as int - 0xF0) * 64 + Digit(r[1])) * 64 + Digit(r[2])) * 64 + Digit(r[3])
    else 0
  }

  lemma DecodeEncode(c: char)
    ensures Decode(Encode(c)) == c as int && LeadWidth(Encode(c)[0]) == |Encode(c)|
  {
    var n := c as int;
    assert n == 64 * (n / 64) + n % 64;
    assert n / 64 == 64 * (n / 64 / 64) + n / 64 % 64;
    assert n / 64 / 64 == 64 * (n / 64 / 64 / 64) + n / 64 / 64 % 64;
  }

  /** The lead byte fixes the width, and the digits fix the scalar. */
  lemma EncodePrefixFree(a: char, b: char, x: seq<Byte>, y: seq<Byte>)
    requires Encode(a) + x == Encode(b) + y
    ensures a == b && x == y
  {
    hide Encode, Decode;
    DecodeEncode(a);
    DecodeEncode(b);
    var p, q, all := Encode(a), Encode(b), Encode(a) + x;
    assert all[0] == p[0] && all == q + y;
    assert all[0] == q[0];
    assert p == all[..|p|] && q == all[..|q|];
    assert x == all[|p|..] && y == all[|q|..];
    assert a as int == b as int;
  }

  lemma {:induction false} Utf8Injective(a: string, b: string)
    requires Utf8(a) == Utf8(b)
    ensures a == b
  {
    if a == [] || b == [] {
      assert a != [] ==> |Utf8(a)| > 0;
      assert b != [] ==> |Utf8(b)| > 0;
    } else {
      EncodePrefixFree(a[0], b[0], Utf8(a[1..]), Utf8(b[1..]));
      Utf8Injective(a[1..], b[1..]);
      assert a == [a[0]] + a[1..] && b == [b[0]] + b[1..];
    }
  }

  function Pow256(k: nat): (r: nat)
    ensures r > 0
  {
    if k == 0 then 1 else 256 * Pow256(k - 1)
  }

  /** `k` big-endian bytes of `n`. */
  function BigEndian(n: nat, k: nat): (r: seq<Byte>)
    ensures |r| == k
  {
    if k == 0 then [] else BigEndian(n / 256, k - 1) + [n % 256]
  }

  lemma {:induction false} BigEndianInjective(a: nat, b: nat, k: nat)
    requires BigEndian(a, k) == BigEndian(b, k) && a < Pow256(k) && b < Pow256(k)
    ensures a == b
  {
    if k > 0 {
      var p, q := BigEndian(a, k), BigEndian(b, k);
      assert p[k - 1] == a % 256 && q[k - 1] == b % 256;
      assert p[..k - 1] == BigEndian(a / 256, k - 1) && q[..k - 1] == BigEndian(b / 256, k - 1);
      BigEndianInjective(a / 256, b / 256, k - 1);
    }
  }

  /** Numbers with a byte to spare start with a zero byte. */
  lemma {:induction false} LeadingZero(n: nat, k: nat)
    requires k > 0 && n < Pow256(k - 1)
    ensures BigEndian(n, k)[0] == 0
  {
    if k > 1 {
      LeadingZero(n / 256, k - 1);
      assert BigEndian(n, k)[0] == BigEndian(n / 256, k - 1)[0];
    }
  }

  function U64(n: nat): (r: seq<Byte>)
    ensures |r| == 8
  {
    BigEndian(n, 8)
  }

  /** Far above any string the process can hold, and small enough that a length starts with a zero byte. */
  ghost predicate Small(n: nat) { n < Pow256(7) }

  lemma U64Small(a: nat, b: nat)
    requires Small(a) && Small(b)
    ensures U64(a)[0] == 0
    ensures U64(a) == U64(b) ==> a == b
  {
    LeadingZero(a, 8);
    assert Pow256(8) == 256 * Pow256(7);
    if U64(a) == U64(b) {
      BigEndianInjective(a, b, 8);
    }
  }

  /** `hash_field`. */
  function Field(value: seq<Byte>): (r: seq<Byte>)
    ensures |r| == 8 + |value|
  {
    U64(|value|) + value
  }

  lemma FieldCancel(a: seq<Byte>, b: seq<Byte>, x: seq<Byte>, y: seq<Byte>)
    requires Small(|a|) && Small(|b|) && Field(a) + x == Field(b) + y
    ensures a == b && x == y
  {
    hide U64, Small;
    var all := Field(a) + x;
    assert all == Field(b) + y;
    assert all[..8] == U64(|a|) && all[..8] == U64(|b|);
    U64Small(|a|, |b|);
    assert all[8..8 + |a|] == a && all[8..8 + |a|] == b;
    assert all[8 + |a|..] == x && all[8 + |a|..] == y;
  }

  lemma FieldStartsWithZero(a: seq<Byte>)
    requires Small(|a|)
    ensures Field(a)[0] == 0
  {
    U64Small(|a|, |a|);
  }
}
