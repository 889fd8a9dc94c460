/** Digits, bytes and numbers: the parts of Go's big.Int, encoding/hex and strings that the ABI encoder
    and the gas oracles rely on. Malformed input, where big.Int leaves its value unspecified, is None. */
module Hex {
  import opened Common

  type Byte = b: int | 0 <= b < 256

  predicate IsBase(base: nat) {
    base == 10 || base == 16
  }

  function DigitChar(d: nat): (c: char)
    requires d < 16
    ensures DigitValue(c) == Some(d)
  {
    if d < 10 then '0' + d as char else 'a' + (d - 10) as char
  }

  function DigitValue(c: char): (d: Option<nat>)
    ensures d.Some? ==> d.value < 16
  {
    if '0' <= c <= '9' then Some((c - '0') as int)
    else if 'a' <= c <= 'f' then Some((c - 'a') as int + 10)
    else if 'A' <= c <= 'F' then Some((c - 'A') as int + 10)
    else None
  }

  /** The number a string of digits denotes; the empty string denotes 0 here. */
  function Digits(s: string, base: nat): Option<nat>
    requires IsBase(base)
  {
    if s == "" then Some(0)
    else
      var high, d := Digits(s[..|s| - 1], base), DigitValue(s[|s| - 1]);
      if high.None? || d.None? || d.value >= base then None
      else if base == 10 then Some(10 * high.value + d.value)
      else Some(16 * high.value + d.value)
  }

  /** big.Int's SetString on well-formed non-negative numbers. */
  function Parse(s: string, base: nat): Option<nat>
    requires IsBase(base)
  {
    if s == "" then None else Digits(s, base)
  }

  /** The usual spelling of a number: no leading zeros, lower case. */
  function Print(n: nat, base: nat): (s: string)
    requires IsBase(base)
    ensures s != ""
  {
    if n < base then [DigitChar(n)]
    else if base == 10 then Print(n / 10, 10) + [DigitChar(n % 10)]
    else Print(n / 16, 16) + [DigitChar(n % 16)]
  }

  lemma {:induction false} ParsePrint(n: nat, base: nat)
    requires IsBase(base)
    ensures Parse(Print(n, base), base) == Some(n)
  {
    var s := Print(n, base);
    if n < base {
      assert s == [DigitChar(n)] && s[..0] == "";
      assert Digits(s[..|s| - 1], base) == Some(0);
    } else if base == 10 {
      ParsePrint(n / 10, 10);
      assert s[..|s| - 1] == Print(n / 10, 10);
    } else {
      ParsePrint(n / 16, 16);
      assert s[..|s| - 1] == Print(n / 16, 16);
    }
  }

  /** The digits and their values, one by one; nothing else is a digit. */
  lemma DigitTable(k: nat, c: char)
    ensures k < 10 ==> DigitValue("0123456789"[k]) == Some(k)
    ensures k < 6 ==> DigitValue("abcdef"[k]) == DigitValue("ABCDEF"[k]) == Some(10 + k)
    ensures DigitValue(c).Some? <==> c in "0123456789abcdefABCDEF"
  {
    if DigitValue(c).Some? {
      assert c == "0123456789abcdef"[DigitValue(c).value] || c == "0123456789ABCDEF"[DigitValue(c).value];
    }
  }

  function Power(base: nat, k: nat): nat {
    if k == 0 then 1 else base * Power(base, k - 1)
  }

  /** A single digit denotes its value, if the base has it. */
  lemma SingleDigit(c: char, base: nat)
    requires IsBase(base)
    ensures Parse([c], base) == if DigitValue(c).Some? && DigitValue(c).value < base then DigitValue(c) else None
  {
    assert [c][..0] == "" && Digits([c][..0], base) == Some(0);
  }

  /** Positional notation: putting `b` behind `a` shifts `a` by the length of `b`. */
  lemma {:induction false} Positional(a: string, b: string, base: nat)
    requires IsBase(base)
    ensures Digits(a + b, base).Some? <==> Digits(a, base).Some? && Digits(b, base).Some?
    ensures Digits(a + b, base).Some? ==>
              Digits(a + b, base).value == Digits(a, base).value * Power(base, |b|) + Digits(b, base).value
  {
    if b == "" {
      assert a + b == a;
    } else {
      Positional(a, b[..|b| - 1], base);
      ConcatInit(a, b);
      if Digits(a + b, base).Some? {
        Shift(Digits(a, base).value, Power(base, |b| - 1), base);
      }
    }
  }

  lemma Shift(x: nat, p: nat, base: nat)
    requires IsBase(base)
    ensures x * (base * p) == base * (x * p)
  {
  }

  // ----- Letter case and the 0x prefix -----

  function LowerChar(c: char): char {
    if 'A' <= c <= 'Z' then c - 'A' + 'a' else c
  }

  function ToLower(s: string): (r: string)
    ensures |r| == |s| && forall i :: 0 <= i < |s| ==> r[i] == LowerChar(s[i])
  {
    seq(|s|, i requires 0 <= i < |s| => LowerChar(s[i]))
  }

  lemma LowerTwice(s: string)
    ensures ToLower(ToLower(s)) == ToLower(s)
  {
  }

  predicate HasPrefix0x(s: string) {
    |s| >= 2 && s[0] == '0' && s[1] == 'x'
  }

  function TrimPrefix0x(s: string): string {
    if HasPrefix0x(s) then s[2..] else s
  }

  predicate HexDigits(s: string) {
    forall i :: 0 <= i < |s| ==> DigitValue(s[i]).Some?
  }

  predicate LowerHexDigits(s: string) {
    forall i :: 0 <= i < |s| ==> DigitValue(s[i]).Some? && LowerChar(s[i]) == s[i]
  }

  lemma {:induction false} PrintIsLowerHex(n: nat, base: nat)
    requires IsBase(base)
    ensures LowerHexDigits(Print(n, base))
  {
    if n >= base {
      PrintIsLowerHex(n / base, base);
    }
  }

  /** Every capital has its own small letter, and nothing else changes. */
  lemma LowerTable(k: nat, c: char)
    ensures k < 26 ==> LowerChar("ABCDEFGHIJKLMNOPQRSTUVWXYZ"[k]) == "abcdefghijklmnopqrstuvwxyz"[k]
    ensures c !in "ABCDEFGHIJKLMNOPQRSTUVWXYZ" ==> LowerChar(c) == c
  {
    if 'A' <= c <= 'Z' {
      assert c == "ABCDEFGHIJKLMNOPQRSTUVWXYZ"[(c - 'A') as int];
    }
  }

  /** Lower-casing keeps every digit's value, and makes a digit's spelling the usual one. */
  lemma LowerKeepsDigit(c: char)
    ensures DigitValue(LowerChar(c)) == DigitValue(c)
    ensures DigitValue(c).Some? ==> LowerChar(c) == DigitChar(DigitValue(c).value)
  {
  }

  lemma {:induction false} LowerKeepsNumber(s: string, base: nat)
    requires IsBase(base)
    ensures Digits(ToLower(s), base) == Digits(s, base)
  {
    if s != "" {
      var n := |s| - 1;
      assert ToLower(s)[..n] == ToLower(s[..n]);
      LowerKeepsNumber(s[..n], base);
      LowerKeepsDigit(s[n]);
    }
  }

  /** A spelling with or without 0x, in lower case, reads back as its digits. */
  lemma LowerTrim(s: string)
    requires LowerHexDigits(s)
    ensures TrimPrefix0x(ToLower("0x" + s)) == s && TrimPrefix0x(ToLower(s)) == s
  {
    assert ToLower("0x" + s)[2..] == s;
    assert ToLower(s) == s;
    assert |s| >= 2 ==> DigitValue(s[1]).Some?;
  }

  // ----- Bytes -----

  /** Big-endian value. */
  function NatOf(bs: seq<Byte>): nat {
    if bs == [] then 0 else 256 * NatOf(bs[..|bs| - 1]) + bs[|bs| - 1]
  }

  /** big.Int's Bytes: big-endian without leading zeros. */
  function Bytes(n: nat): seq<Byte> {
    if n == 0 then [] else Bytes(n / 256) + [n % 256]
  }

  function Pow256(k: nat): (p: nat)
    ensures p > 0
  {
    if k == 0 then 1 else 256 * Pow256(k - 1)
  }

  lemma Pow256Is2To256()
    ensures Pow256(8) == 0x1_0000_0000_0000_0000
    ensures Pow256(32) == 0x1_0000000000000000_0000000000000000_0000000000000000_0000000000000000
  {
    assert Pow256(4) == 0x1_0000_0000;
    assert Pow256(8) == 256 * (256 * (256 * (256 * Pow256(4))));
    assert Pow256(12) == 256 * (256 * (256 * (256 * Pow256(8))));
    assert Pow256(16) == 256 * (256 * (256 * (256 * Pow256(12))));
    assert Pow256(20) == 256 * (256 * (256 * (256 * Pow256(16))));
    assert Pow256(24) == 256 * (256 * (256 * (256 * Pow256(20))));
    assert Pow256(28) == 256 * (256 * (256 * (256 * Pow256(24))));
    assert Pow256(32) == 256 * (256 * (256 * (256 * Pow256(28))));
  }

  lemma {:induction false} NatOfBytes(n: nat)
    ensures NatOf(Bytes(n)) == n
  {
    if n > 0 {
      NatOfBytes(n / 256);
      assert Bytes(n)[..|Bytes(n)| - 1] == Bytes(n / 256);
    }
  }

  /** A number needs at most `k` bytes exactly when it is below 256^k. */
  lemma {:induction false} BytesLength(n: nat, k: nat)
    ensures |Bytes(n)| <= k <==> n < Pow256(k)
  {
    if n > 0 && k > 0 {
      BytesLength(n / 256, k - 1);
    }
  }

  function Zeros(k: nat): (z: seq<Byte>)
    ensures |z| == k
  {
    seq(k, i => 0)
  }

  lemma {:induction false} NatOfPadded(k: nat, bs: seq<Byte>)
    ensures NatOf(Zeros(k) + bs) == NatOf(bs)
  {
    if bs != [] {
      var n := |bs| - 1;
      assert (Zeros(k) + bs)[..k + n] == Zeros(k) + bs[..n];
      NatOfPadded(k, bs[..n]);
    } else if k > 0 {
      assert (Zeros(k) + bs)[..k - 1] == Zeros(k - 1) + bs;
      NatOfPadded(k - 1, bs);
    }
  }

  /** hex.EncodeToString: two digits per byte. */
  function Encode(bs: seq<Byte>): (s: string)
    ensures |s| == 2 * |bs|
  {
    if bs == [] then ""
    else
      var b := bs[|bs| - 1];
      Encode(bs[..|bs| - 1]) + [DigitChar(b / 16), DigitChar(b % 16)]
  }

  lemma {:induction false} DigitsOfEncoded(bs: seq<Byte>)
    ensures Digits(Encode(bs), 16) == Some(NatOf(bs))
  {
    if bs != [] {
      var init, b := bs[..|bs| - 1], bs[|bs| - 1];
      DigitsOfEncoded(init);
      var s := Encode(bs);
      assert s[..|s| - 1] == Encode(init) + [DigitChar(b / 16)];
      assert s[..|s| - 1][..|s| - 2] == Encode(init);
      assert 256 * NatOf(init) + b == 16 * (16 * NatOf(init) + b / 16) + b % 16;
    }
  }

  lemma {:induction false} EncodeConcat(a: seq<Byte>, b: seq<Byte>)
    ensures Encode(a + b) == Encode(a) + Encode(b)
  {
    if b == [] {
      assert a + b == a;
    } else {
      var n := |b| - 1;
      assert (a + b)[..|a + b| - 1] == a + b[..n];
      EncodeConcat(a, b[..n]);
    }
  }

  function PairByte(c: char, d: char): Byte
    requires DigitValue(c).Some? && DigitValue(d).Some?
  {
    16 * DigitValue(c).value + DigitValue(d).value
  }

  /** hex.DecodeString on an even number of digits; None where it reports an error. */
  function Decode(s: string): (bs: Option<seq<Byte>>)
    ensures bs.Some? ==> 2 * |bs.value| == |s|
  {
    if s == "" then Some([])
    else if |s| == 1 then None
    else
      var n := |s| - 2;
      var high := Decode(s[..n]);
      if high.None? || DigitValue(s[n]).None? || DigitValue(s[n + 1]).None? then None
      else Some(high.value + [PairByte(s[n], s[n + 1])])
  }

  lemma {:induction false} DecodeHexDigits(s: string)
    requires |s| % 2 == 0
    ensures Decode(s).Some? <==> HexDigits(s)
  {
    if s != "" {
      var n := |s| - 2;
      DecodeHexDigits(s[..n]);
      assert forall i :: 0 <= i < n ==> s[..n][i] == s[i];
      if HexDigits(s[..n]) && DigitValue(s[n]).Some? && DigitValue(s[n + 1]).Some? {
        forall i | 0 <= i < |s| ensures DigitValue(s[i]).Some? {
          assert i < n ==> s[..n][i] == s[i];
        }
      }
    }
  }

  lemma LowerDigitRoundTrip(c: char)
    requires DigitValue(c).Some? && LowerChar(c) == c
    ensures DigitChar(DigitValue(c).value) == c
  {
  }

  lemma EncodePair(bs: seq<Byte>, c: char, d: char)
    requires DigitValue(c).Some? && LowerChar(c) == c && DigitValue(d).Some? && LowerChar(d) == d
    ensures Encode(bs + [PairByte(c, d)]) == Encode(bs) + [c, d]
  {
    LowerDigitRoundTrip(c);
    LowerDigitRoundTrip(d);
    var b := PairByte(c, d);
    assert b / 16 == DigitValue(c).value && b % 16 == DigitValue(d).value;
    assert (bs + [b])[..|bs|] == bs;
  }

  lemma SplitLastTwo(s: string)
    requires |s| >= 2
    ensures s == s[..|s| - 2] + [s[|s| - 2], s[|s| - 1]]
  {
  }

  lemma {:induction false} EncodeDecode(s: string)
    requires |s| % 2 == 0 && LowerHexDigits(s)
    ensures Decode(s).Some? && Encode(Decode(s).value) == s
  {
    if s != "" {
      var n := |s| - 2;
      EncodeDecode(s[..n]);
      var bs := Decode(s[..n]).value;
      EncodePair(bs, s[n], s[n + 1]);
      assert Decode(s) == Some(bs + [PairByte(s[n], s[n + 1])]);
      SplitLastTwo(s);
    }
  }

  // ----- Malformed hexadecimal -----

  /** The pairs of digits a string starts with. */
  function Pairs(s: string): (k: nat)
    ensures 2 * k <= |s| && HexDigits(s[..2 * k])
    ensures 2 * k + 1 < |s| ==> DigitValue(s[2 * k]).None? || DigitValue(s[2 * k + 1]).None?
  {
    if |s| >= 2 && DigitValue(s[0]).Some? && DigitValue(s[1]).Some? then
      var k := Pairs(s[2..]);
      assert forall i :: 2 <= i < 2 * (k + 1) ==> s[i] == s[2..][..2 * k][i - 2];
      k + 1
    else 0
  }

  /** hex.DecodeString with its error ignored: the bytes decoded before the first mistake. */
  function DecodePrefix(s: string): (bs: seq<Byte>)
    ensures |bs| == Pairs(s)
    ensures Decode(s[..2 * Pairs(s)]) == Some(bs)
  {
    DecodeHexDigits(s[..2 * Pairs(s)]);
    Decode(s[..2 * Pairs(s)]).value
  }

  /** On well-formed input that is all of it. */
  lemma {:induction false} DecodePrefixAll(s: string)
    requires Decode(s).Some?
    ensures DecodePrefix(s) == Decode(s).value && 2 * Pairs(s) == |s|
  {
    DecodeHexDigits(s);
    assert s[..2 * Pairs(s)] == s;
  }

  /** More than `n` bytes come out exactly when the string starts with more than `n` pairs of digits. */
  lemma {:induction false} PairsMoreIff(s: string, n: nat)
    ensures Pairs(s) > n <==> |s| >= 2 * n + 2 && HexDigits(s[..2 * n + 2])
  {
    if Pairs(s) > n {
      assert forall i :: 0 <= i < 2 * n + 2 ==> s[..2 * n + 2][i] == s[..2 * Pairs(s)][i];
    }
  }

  lemma {:induction false} NatOfInjective(a: seq<Byte>, b: seq<Byte>)
    requires |a| == |b| && NatOf(a) == NatOf(b)
    ensures a == b
  {
    if a != [] {
      var n := |a| - 1;
      NatOfInjective(a[..n], b[..n]);
      assert a == a[..n] + [a[n]] && b == b[..n] + [b[n]];
    }
  }
}
