/**
 The tagged wire format: a stream of (tag, length, payload) records, where tags are
 written in base 128 with a continuation bit and integers in nibbles behind a nibble count.
 */
module Tagging {
  import opened Wrappers

  /** Hexadecimal digit `i` of `n`, the least significant one first. */
  function Digit(n: nat, i: nat): (d: nat)
    ensures d < 16
  {
    if i == 0 then n % 16 else Digit(n / 16, i - 1)
  }

  function Digits(n: nat): (m: nat)
    ensures 1 <= m
  {
    if n < 16 then 1 else 1 + Digits(n / 16)
  }

  /** The bytes of an encoded integer: count and first digit, then two digits a byte. */
  function EncodedInt(n: nat): (r: seq<byte>)
    requires Digits(n) <= 16
    ensures |r| == Digits(n) / 2 + 1
  {
    seq(Digits(n) / 2 + 1, b requires 0 <= b => IntByte(n, b))
  }

  function IntByte(n: nat, b: nat): byte
    requires Digits(n) <= 16
  {
    if b == 0 then (Digits(n) - 1) * 16 + Digit(n, 0) else Digit(n, 2 * b - 1) * 16 + Digit(n, 2 * b)
  }

  /** Nibble `j` of an encoding, counted from 1 behind the count nibble. */
  function NibbleAt(s: seq<byte>, j: nat): nat
    requires 0 < j && j / 2 < |s|
  {
    if j % 2 == 1 then s[j / 2] % 16 else s[j / 2] / 16
  }

  /** The number whose digits are nibbles `1..m`, the last one most significant. */
  function NibbleValue(s: seq<byte>, j: nat, m: nat): nat
    requires 0 < j && m / 2 < |s|
    decreases m + 1 - j
  {
    if j > m then 0 else NibbleAt(s, j) + 16 * NibbleValue(s, j + 1, m)
  }

  /** The integer at the front of `s` and the length of its encoding. */
  function DecodedInt(s: seq<byte>, maxNibbles: nat): Option<(nat, nat)>
  {
    if s == [] then None
    else
      var m := s[0] / 16 + 1;
      if m > maxNibbles || m / 2 + 1 > |s| then None
      else Some((NibbleValue(s, 1, m), m / 2 + 1))
  }

  lemma {:induction false} DigitZero(n: nat, i: nat)
    requires Digits(n) <= i
    ensures Digit(n, i) == 0
    decreases n
  {
    if n < 16 {
      SmallDigit(i - 1);
    } else {
      DigitZero(n / 16, i - 1);
    }
  }

  lemma {:induction false} SmallDigit(i: nat)
    ensures Digit(0, i) == 0
  {
    if i > 0 {
      SmallDigit(i - 1);
    }
  }

  /** What is left of `n` after dropping its first `i` digits. */
  function Drop(n: nat, i: nat): nat
  {
    if i == 0 then n else Drop(n / 16, i - 1)
  }

  lemma {:induction false} DropStep(n: nat, i: nat)
    ensures Drop(n, i) == Digit(n, i) + 16 * Drop(n, i + 1)
  {
    if i > 0 {
      DropStep(n / 16, i - 1);
    }
  }

  lemma {:induction false} DropAll(n: nat)
    ensures Drop(n, Digits(n)) == 0
  {
    if n >= 16 {
      DropAll(n / 16);
    }
  }

  /** Reading the nibbles from `j` on gives back what is left of the number. */
  lemma {:induction false} NibblesBack(n: nat, rest: seq<byte>, j: nat)
    requires Digits(n) <= 16 && 0 < j <= Digits(n) + 1
    ensures NibbleValue(EncodedInt(n) + rest, j, Digits(n)) == Drop(n, j - 1)
    decreases Digits(n) + 1 - j
  {
    if j > Digits(n) {
      DropAll(n);
    } else {
      NibblesBack(n, rest, j + 1);
      DropStep(n, j - 1);
      var s := EncodedInt(n) + rest;
      assert s[j / 2] == EncodedInt(n)[j / 2];
      NibbleBack(n, j);
    }
  }

  lemma {:induction false} NibbleBack(n: nat, j: nat)
    requires Digits(n) <= 16 && 0 < j <= Digits(n)
    ensures NibbleAt(EncodedInt(n), j) == Digit(n, j - 1)
  {
    var b := j / 2;
    if j % 2 == 1 {
      assert j - 1 == 2 * b;
    } else {
      assert j - 1 == 2 * b - 1;
    }
  }

  /** Every integer of at most `maxNibbles` digits is read back, whatever follows it. */
  lemma {:induction false} IntRoundTrip(n: nat, rest: seq<byte>, maxNibbles: nat)
    requires Digits(n) <= maxNibbles <= 16
    ensures DecodedInt(EncodedInt(n) + rest, maxNibbles) == Some((n, |EncodedInt(n)|))
  {
    NibblesBack(n, rest, 1);
    var s := EncodedInt(n) + rest;
    assert s[0] == EncodedInt(n)[0] == (Digits(n) - 1) * 16 + Digit(n, 0);
    assert s[0] / 16 == Digits(n) - 1;
  }

  /** 32-bit integers have at most 8 digits, 64-bit ones at most 16. */
  lemma {:induction false} DigitsBound(n: nat)
    ensures n < 0x1_0000_0000 ==> Digits(n) <= 8
    ensures n < 0x1_0000_0000_0000_0000 ==> Digits(n) <= 16
  {
    DigitsAtMost(n, 8);
    DigitsAtMost(n, 16);
    assert Pow16(8) == 0x1_0000_0000 by {
      assert Pow16(4) == 0x1_0000;
      assert Pow16(8) == 16 * 16 * 16 * 16 * Pow16(4);
    }
    assert Pow16(16) == 0x1_0000_0000_0000_0000 by {
      assert Pow16(12) == 16 * 16 * 16 * 16 * Pow16(8);
      assert Pow16(16) == 16 * 16 * 16 * 16 * Pow16(12);
    }
  }

  function Pow16(k: nat): nat
  {
    if k == 0 then 1 else 16 * Pow16(k - 1)
  }

  lemma {:induction false} DigitsAtMost(n: nat, k: nat)
    requires 0 < k
    ensures n < Pow16(k) ==> Digits(n) <= k
    decreases k
  {
    if k > 1 {
      DigitsAtMost(n / 16, k - 1);
    } else {
      assert Pow16(1) == 16 * Pow16(0);
    }
  }

  /** The bytes of an encoded tag: seven bits a byte, the high bit set on all but the last. */
  function EncodedTag(t: nat): (r: seq<byte>)
    ensures r != []
  {
    if t < 128 then [t] else [t % 128 + 128] + EncodedTag(t / 128)
  }

  /** The tag at the front of `s` when `k` bytes were read before it, and the bytes it takes. */
  function DecodedTag(s: seq<byte>, k: nat): Option<(nat, nat)>
    decreases |s|
  {
    if s == [] || k > 4 || (k == 4 && s[0] % 128 > 15) then None
    else if s[0] < 128 then Some((s[0], 1))
    else
      var r := DecodedTag(s[1..], k + 1);
      if r.None? then None else Some((s[0] % 128 + 128 * r.value.0, 1 + r.value.1))
  }

  function Pow128(k: nat): nat
  {
    if k == 0 then 1 else 128 * Pow128(k - 1)
  }

  lemma {:induction false} TagBack(t: nat, rest: seq<byte>, k: nat)
    requires k <= 4 && t * Pow128(k) < 0x1_0000_0000
    ensures DecodedTag(EncodedTag(t) + rest, k) == Some((t, |EncodedTag(t)|))
    decreases t
  {
    var s := EncodedTag(t) + rest;
    TagLimit(t, k);
    if t >= 128 {
      TagShift(t, k);
      assert s[1..] == EncodedTag(t / 128) + rest;
      TagBack(t / 128, rest, k + 1);
    }
  }

  lemma {:induction false} TagLimit(t: nat, k: nat)
    requires k <= 4 && t * Pow128(k) < 0x1_0000_0000
    ensures k == 4 ==> t < 16
  {
    if k == 4 {
      assert Pow128(4) == 128 * 128 * Pow128(2) == 0x1000_0000;
    }
  }

  lemma {:induction false} TagShift(t: nat, k: nat)
    requires 128 <= t && k <= 4 && t * Pow128(k) < 0x1_0000_0000
    ensures k < 4 && t / 128 * Pow128(k + 1) < 0x1_0000_0000
  {
    TagLimit(t, k);
    assert t / 128 * 128 <= t;
    assert t / 128 * Pow128(k + 1) == t / 128 * 128 * Pow128(k);
    Mono(t / 128 * 128, t, Pow128(k));
  }

  lemma {:induction false} Mono(a: nat, b: nat, c: nat)
    requires a <= b
    ensures a * c <= b * c
  {
  }

  /** Every 32-bit tag is read back, whatever follows it. */
  lemma {:induction false} TagRoundTrip(t: nat, rest: seq<byte>)
    requires t < 0x1_0000_0000
    ensures DecodedTag(EncodedTag(t) + rest, 0) == Some((t, |EncodedTag(t)|))
  {
    TagBack(t, rest, 0);
  }

  lemma {:induction false} DropZero(n: nat, i: nat)
    requires 0 < n
    ensures Drop(n, i) == 0 <==> Digits(n) <= i
    decreases n
  {
    if n < 16 {
      if i > 0 {
        DropOfZero(i - 1);
      }
    } else if i > 0 {
      DropZero(n / 16, i - 1);
    }
  }

  lemma {:induction false} DropOfZero(i: nat)
    ensures Drop(0, i) == 0
  {
    if i > 0 {
      DropOfZero(i - 1);
    }
  }

  /** Byte `b` of the buffer once the digits below position `off` are in place. */
  ghost function PartialByte(n: nat, b: nat, off: nat): nat
  {
    (if 0 < 2 * b < off then Digit(n, 2 * b - 1) * 16 else 0) + if 2 * b + 1 < off then Digit(n, 2 * b) else 0
  }

  /** One more digit changes one nibble of one byte. */
  lemma {:induction false} PartialStep(n: nat, b: nat, off: nat)
    requires 0 < off
    ensures var p, d := PartialByte(n, b, off), Digit(n, off - 1);
            && p < 256
            && PartialByte(n, b, off + 1) ==
               (if b != off / 2 then p else if off % 2 == 1 then p / 16 * 16 + d else p % 16 + d * 16)
  {
    if b == off / 2 {
      assert off % 2 == 1 ==> off - 1 == 2 * b;
      assert off % 2 == 0 ==> off - 1 == 2 * b - 1;
    }
  }

  /** With all digits in place only the count nibble of the first byte is missing. */
  lemma {:induction false} PartialDone(n: nat, b: nat, off: nat)
    requires Digits(n) <= 16 && b <= Digits(n) / 2
    requires off == if n == 0 then 1 else Digits(n) + 1
    ensures if b == 0 then PartialByte(n, b, off) % 16 + (Digits(n) - 1) * 16 == IntByte(n, 0)
            else PartialByte(n, b, off) == IntByte(n, b)
  {
    DigitZero(n, Digits(n));
  }

  /** encode_int_internal and encode_int64_internal, into a buffer of 5 or 9 bytes. */
  method EncodeIntInternal(data: array<byte>, number: nat) returns (len: nat)
    requires (data.Length == 5 && number < 0x1_0000_0000) || (data.Length == 9 && number < 0x1_0000_0000_0000_0000)
    modifies data
    ensures Digits(number) <= (data.Length - 1) * 2
    ensures len <= data.Length && data[..len] == EncodedInt(number)
  {
    hide Digit, Digits, Drop, PartialByte, IntByte;
    DigitsBound(number);
    for i := 0 to data.Length
      invariant forall b :: 0 <= b < i ==> data[b] == 0
    {
      data[i] := 0;
    }
    var n, off := number, 1;
    EncodeStart(number);
    while n != 0
      invariant 1 <= off && n == Drop(number, off - 1)
      invariant n != 0 ==> off - 1 < Digits(number)
      invariant n == 0 ==> off == if number == 0 then 1 else Digits(number) + 1
      invariant forall b :: 0 <= b < data.Length ==> data[b] == PartialByte(number, b, off)
      decreases Digits(number) + 1 - off
    {
      DropStep(number, off - 1);
      DropZero(number, off);
      forall b | 0 <= b < data.Length {
        PartialStep(number, b, off);
      }
      if off % 2 == 1 {
        data[off / 2] := data[off / 2] / 16 * 16 + n % 16;
      } else {
        data[off / 2] := data[off / 2] % 16 + n % 16 * 16;
      }
      n, off := n / 16, off + 1;
    }
    EncodeStart(number);
    var nibbles := if off > 2 then off - 2 else 0;
    data[0] := data[0] % 16 + nibbles % 16 * 16;
    len := (off + 1) / 2;
    forall b | 0 <= b < len
      ensures data[b] == EncodedInt(number)[b]
    {
      PartialDone(number, b, off);
    }
  }

  lemma {:induction false} EncodeStart(n: nat)
    ensures Drop(n, 0) == n && forall b :: PartialByte(n, b, 1) == 0
    ensures n == 0 ==> Digits(n) == 1
  {
  }
}
