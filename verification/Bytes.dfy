// Little-endian byte strings.
module Bytes {
  type Byte = b: int | 0 <= b < 256

  const FIELD_BYTES: nat := 38

  function Pow256(n: nat): (p: nat)
    ensures p > 0
  {
    if n == 0 then 1 else 256 * Pow256(n - 1)
  }

  /** The integer a little-endian byte string stands for. */
  function LE(s: seq<Byte>): nat {
    if |s| == 0 then 0 else s[0] + 256 * LE(s[1..])
  }

  /** The `len` low bytes of `n`. */
  function ToLE(n: nat, len: nat): (s: seq<Byte>)
    ensures |s| == len
  {
    if len == 0 then [] else [n % 256] + ToLE(n / 256, len - 1)
  }

  lemma {:induction false} LEBound(s: seq<Byte>)
    ensures LE(s) < Pow256(|s|)
  {
    if |s| != 0 {
      LEBound(s[1..]);
    }
  }

  lemma {:induction false} LEAppend(s: seq<Byte>, t: seq<Byte>)
    ensures LE(s + t) == LE(s) + LE(t) * Pow256(|s|)
  {
    if |s| == 0 {
      assert s + t == t;
    } else {
      LEAppend(s[1..], t);
      assert (s + t)[1..] == s[1..] + t;
      Scale(LE(s[1..]), LE(t), Pow256(|s| - 1));
    }
  }

  lemma Scale(x: int, y: int, p: int)
    ensures 256 * (x + y * p) == 256 * x + y * (256 * p)
  {
  }

  /** Encoding then decoding, when the integer fits. */
  lemma {:induction false} LERoundTrip(n: nat, len: nat)
    requires n < Pow256(len)
    ensures LE(ToLE(n, len)) == n
  {
    if len != 0 {
      LERoundTrip(n / 256, len - 1);
      assert ToLE(n, len)[1..] == ToLE(n / 256, len - 1);
    }
  }

  /** A byte string is the encoding of its value: encodings of one length are unique. */
  lemma {:induction false} LEEncodingUnique(s: seq<Byte>)
    ensures ToLE(LE(s), |s|) == s
  {
    if |s| != 0 {
      LEEncodingUnique(s[1..]);
      assert LE(s) % 256 == s[0] && LE(s) / 256 == LE(s[1..]);
    }
  }

  lemma LEInjective(s: seq<Byte>, t: seq<Byte>)
    requires |s| == |t| && LE(s) == LE(t)
    ensures s == t
  {
    LEEncodingUnique(s);
    LEEncodingUnique(t);
  }

  /** Appending an encoding adds the integer at the weight of the position. */
  lemma AppendLE(s: seq<Byte>, n: nat, len: nat)
    requires n < Pow256(len)
    ensures LE(s + ToLE(n, len)) == LE(s) + n * Pow256(|s|)
  {
    LEAppend(s, ToLE(n, len));
    LERoundTrip(n, len);
  }

  lemma Pow256Literals()
    ensures Pow256(5) == 0x100_0000_0000
    ensures Pow256(6) == 0x1_0000_0000_0000
    ensures Pow256(8) == 0x1_0000_0000_0000_0000
    ensures Pow256(37) == 0x100_00000000_0000000000000000_0000000000000000_0000000000000000_0000000000000000
    ensures Pow256(38) == 0x1_0000_00000000_0000000000000000_0000000000000000_0000000000000000_0000000000000000
  {
    assert Pow256(4) == 0x1_0000_0000;
    Pow256Add(4, 4);
    Pow256Add(4, 1);
    Pow256Add(4, 2);
    Pow256Add(8, 8);
    Pow256Add(16, 16);
    Pow256Add(32, 5);
    Pow256Add(32, 6);
  }

  lemma Pow256Add(m: nat, n: nat)
    ensures Pow256(m + n) == Pow256(m) * Pow256(n)
  {
    if m != 0 {
      Pow256Add(m - 1, n);
      assert Pow256(m + n) == 256 * (Pow256(m - 1) * Pow256(n));
    }
  }

  /** Replacing the last byte of a string moves the value by the difference of the two bytes. */
  lemma LastByte(s: seq<Byte>, b: Byte, n: nat)
    requires |s| == n + 1
    ensures LE(s) == LE(s[..n]) + s[n] * Pow256(n)
    ensures LE(s[n := b]) == LE(s[..n]) + b * Pow256(n)
    ensures LE(s[..n]) < Pow256(n)
  {
    LESingle(s[n]);
    LESingle(b);
    assert LE(s) == LE(s[..n]) + LE([s[n]]) * Pow256(n) by {
      LEAppend(s[..n], [s[n]]);
      assert s == s[..n] + [s[n]];
    }
    assert LE(s[n := b]) == LE(s[..n]) + LE([b]) * Pow256(n) by {
      LEAppend(s[..n], [b]);
      assert s[n := b] == s[..n] + [b];
    }
    LEBound(s[..n]);
  }

  lemma PrefixStep(s: seq<Byte>, n: nat)
    requires n < |s|
    ensures LE(s[..n + 1]) == LE(s[..n]) + s[n] * Pow256(n)
  {
    assert s[..n + 1] == s[..n] + [s[n]];
    LEAppend(s[..n], [s[n]]);
    LESingle(s[n]);
  }

  lemma LESingle(b: Byte)
    ensures LE([b]) == b
  {
    assert LE([b][1..]) == 0;
  }
}
