/** The ABI call data of the NFT endpoints (pkg/adapters/nft.go): a selector followed by 32-byte words. */
module Abi {
  import opened Common
  import opened Hex

  /** What a builder comes to: call data, a panic of the padding, or a value big.Int does not specify. */
  datatype Built = Data(text: string) | Panics | Unspecified

  /** leftPad32 on at most 32 bytes. */
  function Pad32(b: seq<Byte>): (r: seq<Byte>)
    requires |b| <= 32
    ensures |r| == 32
  {
    Zeros(32 - |b|) + b
  }

  /** The buffer is made of zeros and the bytes are copied to its end; longer input slices out of range. */
  method LeftPad32(b: seq<Byte>) returns (out: array<Byte>)
    requires |b| <= 32
    ensures fresh(out) && out[..] == Pad32(b)
  {
    out := new Byte[32](i => 0);
    for i := 0 to |b|
      invariant out.Length == 32 && fresh(out)
      invariant forall k :: 0 <= k < 32 - |b| ==> out[k] == 0
      invariant forall k :: 0 <= k < i ==> out[32 - |b| + k] == b[k]
    {
      out[32 - |b| + i] := b[i];
    }
    assert out[..] == Pad32(b);
  }

  /** A token ID is hexadecimal after 0x or 0X, decimal otherwise. */
  function ParseTokenId(tokenId: string): Option<nat> {
    if HasPrefix0x(ToLower(tokenId)) then Parse(tokenId[2..], 16) else Parse(tokenId, 10)
  }

  function BuildUint(selector: string, tokenId: string): Built {
    var id := ParseTokenId(tokenId);
    if id.None? then Unspecified
    else if |Bytes(id.value)| > 32 then Panics
    else Data(selector + Encode(Pad32(Bytes(id.value))))
  }

  function BuildOwnerOfData(tokenId: string): Built {
    BuildUint("0x6352211e", tokenId)
  }

  function BuildTokenURIData(tokenId: string): Built {
    BuildUint("0xc87b56dd", tokenId)
  }

  const SELECTOR_LENGTH := 10

  /** The word after the selector, read as a number. */
  function Word(data: string, k: nat): Option<nat>
    requires |data| >= SELECTOR_LENGTH + 64 * (k + 1)
  {
    Parse(data[SELECTOR_LENGTH + 64 * k..SELECTOR_LENGTH + 64 * (k + 1)], 16)
  }

  lemma PaddedWord(bs: seq<Byte>)
    requires |bs| <= 32
    ensures |Encode(Pad32(bs))| == 64 && Parse(Encode(Pad32(bs)), 16) == Some(NatOf(bs))
  {
    DigitsOfEncoded(Pad32(bs));
    NatOfPadded(32 - |bs|, bs);
  }

  lemma AfterSelector(selector: string, words: string)
    requires |selector| == SELECTOR_LENGTH
    ensures (selector + words)[..SELECTOR_LENGTH] == selector
    ensures (selector + words)[SELECTOR_LENGTH..SELECTOR_LENGTH + |words|] == words
  {
  }

  /** The call data is the selector and one word that decodes to `n`. */
  predicate IsOneWord(b: Built, selector: string, n: nat) {
    && b.Data? && |b.text| == SELECTOR_LENGTH + 64 && b.text[..SELECTOR_LENGTH] == selector
    && Word(b.text, 0) == Some(n)
  }

  /** Round trip: the data of a token ID below 2^256 is the selector and one word that decodes to it; a
      larger ID panics, and nothing else does. */
  lemma UintRoundTrip(selector: string, tokenId: string, n: nat)
    requires |selector| == SELECTOR_LENGTH && ParseTokenId(tokenId) == Some(n)
    ensures var built := BuildUint(selector, tokenId);
            && (built == Panics <==> n >= Pow256(32))
            && (n < Pow256(32) ==> IsOneWord(built, selector, n))
  {
    BytesLength(n, 32);
    if n < Pow256(32) {
      PaddedWord(Bytes(n));
      NatOfBytes(n);
      var text := BuildUint(selector, tokenId).text;
      AfterSelector(selector, Encode(Pad32(Bytes(n))));
    }
  }

  /** Both builders on a token ID: their own selector and its word below 2^256, a panic from there on. */
  lemma TokenIdRoundTrip(tokenId: string, n: nat)
    requires ParseTokenId(tokenId) == Some(n)
    ensures if n < Pow256(32)
            then IsOneWord(BuildOwnerOfData(tokenId), "0x6352211e", n)
                 && IsOneWord(BuildTokenURIData(tokenId), "0xc87b56dd", n)
            else BuildOwnerOfData(tokenId) == BuildTokenURIData(tokenId) == Panics
  {
    UintRoundTrip("0x6352211e", tokenId, n);
    UintRoundTrip("0xc87b56dd", tokenId, n);
  }

  /** Decimal and 0x-prefixed spellings of a number build the same data. */
  lemma {:induction false} SpellingsAgree(n: nat)
    ensures ParseTokenId(Print(n, 10)) == ParseTokenId("0x" + Print(n, 16)) == Some(n)
    ensures BuildOwnerOfData(Print(n, 10)) == BuildOwnerOfData("0x" + Print(n, 16))
    ensures BuildTokenURIData(Print(n, 10)) == BuildTokenURIData("0x" + Print(n, 16))
  {
    ParsePrint(n, 10);
    ParsePrint(n, 16);
    PrintIsLowerHex(n, 10);
    LowerTrim(Print(n, 10));
    assert !HasPrefix0x(ToLower(Print(n, 10))) by {
      var s := Print(n, 10);
      assert |s| >= 2 ==> DigitValue(s[1]).Some? && ToLower(s)[1] == s[1];
    }
    var h := "0x" + Print(n, 16);
    assert h[2..] == Print(n, 16) && HasPrefix0x(ToLower(h));
  }

  /** The prefix may be 0x or 0X and its digits in either case; without it the ID is decimal. */
  lemma {:induction false} TokenIdSpellings(digits: string)
    ensures ParseTokenId("0x" + digits) == ParseTokenId("0X" + digits) == Parse(digits, 16)
    ensures Parse(ToLower(digits), 16) == Parse(digits, 16)
    ensures (forall i :: 0 <= i < |digits| ==> '0' <= digits[i] <= '9') ==> ParseTokenId(digits) == Parse(digits, 10)
  {
    LowerKeepsNumber(digits, 16);
    assert ("0x" + digits)[2..] == ("0X" + digits)[2..] == digits;
    LowerTable(0, '0');
    assert ToLower("0X" + digits)[1] == 'x';
    if forall i :: 0 <= i < |digits| ==> '0' <= digits[i] <= '9' {
      assert |digits| >= 2 ==> ToLower(digits)[1] == digits[1];
    }
  }

  // ----- Two words: an address and an index -----

  /** isHexAddress. */
  predicate IsHexAddress(s: string) {
    var t := TrimPrefix0x(ToLower(s));
    |t| == 40 && Decode(t).Some?
  }

  /** An address up to letter case and 0x prefix. */
  function Canonical(owner: string): string {
    TrimPrefix0x(ToLower(owner))
  }

  /** The owner as it was given, without 0x or 0X. */
  function OwnCharacters(owner: string): string {
    if |owner| >= 2 && owner[0] == '0' && (owner[1] == 'x' || owner[1] == 'X') then owner[2..] else owner
  }

  lemma CanonicalIsLowered(owner: string)
    ensures Canonical(owner) == ToLower(OwnCharacters(owner))
  {
    LowerTable(0, 'x');
    if |owner| >= 2 {
      assert LowerChar(owner[1]) == 'x' <==> owner[1] == 'x' || owner[1] == 'X';
      assert ToLower(owner)[2..] == ToLower(owner[2..]);
    }
  }

  /** An address is 40 hex digits, in either case, with or without a prefix. */
  lemma {:induction false} HexAddressIff(owner: string)
    ensures IsHexAddress(owner) <==>
            var s := OwnCharacters(owner); |s| == 40 && forall i :: 0 <= i < 40 ==> DigitValue(s[i]).Some?
  {
    var s := OwnCharacters(owner);
    CanonicalIsLowered(owner);
    if |s| == 40 {
      DecodeHexDigits(ToLower(s));
      forall i | 0 <= i < 40 ensures DigitValue(ToLower(s)[i]) == DigitValue(s[i]) {
        LowerKeepsDigit(s[i]);
      }
    }
  }

  const UINT64_LIMIT: nat := 0x1_0000_0000_0000_0000

  /** The bytes the builders take from an owner; nothing checks that it is an address. */
  function OwnerBytes(owner: string): seq<Byte> {
    DecodePrefix(Canonical(owner))
  }

  /** `index` is a uint64. */
  function BuildTokenOfOwnerByIndexData(owner: string, index: nat): Built
    requires index < UINT64_LIMIT
  {
    IndexBytes(index);
    if |OwnerBytes(owner)| > 32 then Panics
    else Data("0x2f745c59" + Encode(Pad32(OwnerBytes(owner)) + Pad32(Bytes(index))))
  }

  function BuildBalanceOfData(owner: string): Built {
    if |OwnerBytes(owner)| > 32 then Panics else Data("0x70a08231" + Encode(Pad32(OwnerBytes(owner))))
  }

  lemma IndexBytes(index: nat)
    requires index < UINT64_LIMIT
    ensures |Bytes(index)| <= 8
  {
    BytesLength(index, 8);
    assert Pow256(8) == 256 * (256 * (256 * (256 * Pow256(4))));
    assert Pow256(4) == 0x1_0000_0000;
  }

  /** Both builders panic on exactly the owners that start, after the prefix, with 33 pairs of hex digits. */
  lemma {:induction false} OwnerPanicsIff(owner: string, index: nat)
    requires index < UINT64_LIMIT
    ensures BuildBalanceOfData(owner) == Panics <==> |Canonical(owner)| >= 66 && HexDigits(Canonical(owner)[..66])
    ensures BuildTokenOfOwnerByIndexData(owner, index) == Panics <==> BuildBalanceOfData(owner) == Panics
    ensures IsHexAddress(owner) ==> BuildBalanceOfData(owner).Data?
  {
    PairsMoreIff(Canonical(owner), 32);
    if IsHexAddress(owner) {
      DecodePrefixAll(Canonical(owner));
    }
  }

  lemma {:induction false} EncodeZeros(k: nat)
    ensures forall i :: 0 <= i < 2 * k ==> Encode(Zeros(k))[i] == '0'
  {
    if k > 0 {
      EncodeZeros(k - 1);
      assert Zeros(k)[..k - 1] == Zeros(k - 1);
    }
  }

  /** The digits of an owner that reach the call data. */
  function OwnerDigits(owner: string): string {
    Canonical(owner)[..2 * Pairs(Canonical(owner))]
  }

  /** `w` is a word that ends in `digits` and is filled up with zeros. */
  predicate IsPadded(w: string, digits: string) {
    && |digits| <= |w| == 64 && w[64 - |digits|..] == digits
    && forall i :: 0 <= i < 64 - |digits| ==> w[i] == '0'
  }

  lemma {:induction false} LowerIsLower(s: string)
    ensures forall i :: 0 <= i < |s| ==> LowerChar(ToLower(s)[i]) == ToLower(s)[i]
  {
  }

  lemma {:induction false} OwnerDigitsAreLower(owner: string)
    ensures |OwnerDigits(owner)| == 2 * |OwnerBytes(owner)| && LowerHexDigits(OwnerDigits(owner))
  {
    LowerIsLower(owner);
    var t, d := Canonical(owner), OwnerDigits(owner);
    forall i | 0 <= i < |d| ensures DigitValue(d[i]).Some? && LowerChar(d[i]) == d[i] {
      assert d[i] == t[i];
    }
  }

  lemma {:induction false} AddressDigits(owner: string)
    requires IsHexAddress(owner)
    ensures OwnerDigits(owner) == Canonical(owner) && |OwnerDigits(owner)| == 40 && |OwnerBytes(owner)| == 20
  {
    DecodePrefixAll(Canonical(owner));
  }

  lemma {:induction false} PaddedDigits(bs: seq<Byte>)
    requires |bs| <= 32
    ensures IsPadded(Encode(Pad32(bs)), Encode(bs))
  {
    EncodeConcat(Zeros(32 - |bs|), bs);
    EncodeZeros(32 - |bs|);
  }

  /** An owner's word is its digits behind zeros: for an address 24 zeros and its 40 lower-case digits. */
  lemma {:induction false} AddressWord(owner: string)
    requires |OwnerBytes(owner)| <= 32
    ensures IsPadded(Encode(Pad32(OwnerBytes(owner))), OwnerDigits(owner))
    ensures IsHexAddress(owner) ==> OwnerDigits(owner) == Canonical(owner) && |OwnerDigits(owner)| == 40
  {
    OwnerDigitsAreLower(owner);
    EncodeDecode(OwnerDigits(owner));
    PaddedDigits(OwnerBytes(owner));
    if IsHexAddress(owner) {
      AddressDigits(owner);
    }
  }

  /** The balance query is its selector and the owner's word. */
  lemma {:induction false} BalanceOfRecoverable(owner: string)
    requires BuildBalanceOfData(owner).Data?
    ensures var data := BuildBalanceOfData(owner).text;
            && |data| == SELECTOR_LENGTH + 64 && data[..SELECTOR_LENGTH] == "0x70a08231"
            && IsPadded(data[SELECTOR_LENGTH..], OwnerDigits(owner))
  {
    AddressWord(owner);
    var w := Encode(Pad32(OwnerBytes(owner)));
    assert BuildBalanceOfData(owner).text[SELECTOR_LENGTH..] == w;
  }

  /** Both words can be read back: the first is the owner's, the second reads as the index. */
  lemma {:induction false} WordsRecoverable(owner: string, index: nat)
    requires index < UINT64_LIMIT && BuildTokenOfOwnerByIndexData(owner, index).Data?
    ensures var data := BuildTokenOfOwnerByIndexData(owner, index).text;
            && |data| == SELECTOR_LENGTH + 128 && data[..SELECTOR_LENGTH] == "0x2f745c59"
            && IsPadded(data[SELECTOR_LENGTH..SELECTOR_LENGTH + 64], OwnerDigits(owner))
            && Word(data, 0) == Some(NatOf(OwnerBytes(owner))) && Word(data, 1) == Some(index)
  {
    var a, b := Pad32(OwnerBytes(owner)), Pad32(Bytes(index));
    IndexBytes(index);
    EncodeConcat(a, b);
    AddressWord(owner);
    PaddedWord(OwnerBytes(owner));
    PaddedWord(Bytes(index));
    NatOfBytes(index);
    TwoWords("0x2f745c59", Encode(a), Encode(b));
  }

  lemma TwoWords(selector: string, a: string, b: string)
    requires |selector| == SELECTOR_LENGTH && |a| == |b| == 64
    ensures var data := selector + (a + b);
            && data[..SELECTOR_LENGTH] == selector && data[SELECTOR_LENGTH..SELECTOR_LENGTH + 64] == a
            && data[SELECTOR_LENGTH + 64..SELECTOR_LENGTH + 128] == b
  {
  }

  lemma {:induction false} SamePadding(a: seq<Byte>, b: seq<Byte>)
    requires |a| <= 32 && |b| <= 32 && NatOf(a) == NatOf(b)
    ensures Pad32(a) == Pad32(b)
  {
    NatOfPadded(32 - |a|, a);
    NatOfPadded(32 - |b|, b);
    NatOfInjective(Pad32(a), Pad32(b));
  }

  /** Whatever the owners are, equal call data means that they denote the same number and the indices are
      equal. */
  lemma {:induction false} EqualDataIff(owner: string, index: nat, owner': string, index': nat)
    requires index < UINT64_LIMIT && BuildTokenOfOwnerByIndexData(owner, index).Data?
    requires index' < UINT64_LIMIT && BuildTokenOfOwnerByIndexData(owner', index').Data?
    ensures BuildTokenOfOwnerByIndexData(owner, index) == BuildTokenOfOwnerByIndexData(owner', index') <==>
            NatOf(OwnerBytes(owner)) == NatOf(OwnerBytes(owner')) && index == index'
  {
    WordsRecoverable(owner, index);
    WordsRecoverable(owner', index');
    if NatOf(OwnerBytes(owner)) == NatOf(OwnerBytes(owner')) {
      SamePadding(OwnerBytes(owner), OwnerBytes(owner'));
    }
  }

  /** On addresses, equal call data means the same address, up to letter case and 0x prefix, and the same
      index. */
  lemma {:induction false} Injective(owner: string, index: nat, owner': string, index': nat)
    requires IsHexAddress(owner) && index < UINT64_LIMIT
    requires IsHexAddress(owner') && index' < UINT64_LIMIT
    ensures BuildTokenOfOwnerByIndexData(owner, index).Data?
    ensures BuildTokenOfOwnerByIndexData(owner, index) == BuildTokenOfOwnerByIndexData(owner', index') <==>
            Canonical(owner) == Canonical(owner') && index == index'
  {
    AddressDigits(owner);
    AddressDigits(owner');
    WordsRecoverable(owner, index);
    WordsRecoverable(owner', index');
  }

  lemma {:induction false} BytesDenote(owner: string)
    requires IsHexAddress(owner)
    ensures Parse(OwnCharacters(owner), 16) == Some(NatOf(OwnerBytes(owner)))
  {
    AddressDigits(owner);
    OwnerDigitsAreLower(owner);
    EncodeDecode(Canonical(owner));
    DecodePrefixAll(Canonical(owner));
    DigitsOfEncoded(OwnerBytes(owner));
    CanonicalIsLowered(owner);
    LowerKeepsNumber(OwnCharacters(owner), 16);
  }

  /** The owner's word in both calls is the number its own 40 characters denote, in whatever case they are. */
  lemma {:induction false} AddressIsItsNumber(owner: string, index: nat)
    requires IsHexAddress(owner) && index < UINT64_LIMIT
    ensures BuildBalanceOfData(owner).Data? && |BuildBalanceOfData(owner).text| == SELECTOR_LENGTH + 64
    ensures Word(BuildBalanceOfData(owner).text, 0) == Parse(OwnCharacters(owner), 16)
    ensures var b := BuildTokenOfOwnerByIndexData(owner, index); b.Data? && |b.text| == SELECTOR_LENGTH + 128
    ensures Word(BuildTokenOfOwnerByIndexData(owner, index).text, 0) == Parse(OwnCharacters(owner), 16)
  {
    AddressDigits(owner);
    BytesDenote(owner);
    WordsRecoverable(owner, index);
    BalanceOfRecoverable(owner);
    PaddedWord(OwnerBytes(owner));
    AfterSelector("0x70a08231", Encode(Pad32(OwnerBytes(owner))));
  }

  /** The same number only for the same address: two owners agree in their canonical form exactly when they
      agree digit by digit. */
  lemma {:induction false} SameAddressIff(owner: string, owner': string)
    requires IsHexAddress(owner) && IsHexAddress(owner')
    ensures |OwnCharacters(owner)| == |OwnCharacters(owner')| == 40
    ensures Canonical(owner) == Canonical(owner') <==>
            forall i :: 0 <= i < 40 ==> DigitValue(OwnCharacters(owner)[i]) == DigitValue(OwnCharacters(owner')[i])
  {
    HexAddressIff(owner);
    HexAddressIff(owner');
    CanonicalIsLowered(owner);
    CanonicalIsLowered(owner');
    var a, b := OwnCharacters(owner), OwnCharacters(owner');
    forall i | 0 <= i < 40
      ensures Canonical(owner)[i] == Canonical(owner')[i] <==> DigitValue(a[i]) == DigitValue(b[i])
    {
      LowerKeepsDigit(a[i]);
      LowerKeepsDigit(b[i]);
    }
  }

  /** So equal call data means addresses equal digit by digit, a capital counting as its small letter, and
      equal indices. */
  lemma EqualCallsIff(owner: string, index: nat, owner': string, index': nat)
    requires IsHexAddress(owner) && index < UINT64_LIMIT
    requires IsHexAddress(owner') && index' < UINT64_LIMIT
    ensures |OwnCharacters(owner)| == |OwnCharacters(owner')| == 40
    ensures BuildTokenOfOwnerByIndexData(owner, index) == BuildTokenOfOwnerByIndexData(owner', index') <==>
            index == index' && forall i :: 0 <= i < 40 ==>
              DigitValue(OwnCharacters(owner)[i]) == DigitValue(OwnCharacters(owner')[i])
  {
    Injective(owner, index, owner', index');
    SameAddressIff(owner, owner');
  }
}
