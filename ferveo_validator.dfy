/**
 * Ethereum addresses and validators of the ferveo crate (ferveo/src/validator.rs).
 *
 * Rust measures a `&str` in UTF-8 bytes and slices it at byte offsets, so the
 * model computes the UTF-8 width of every character: `from_str` wants exactly
 * 42 bytes, and slicing at byte 2 panics unless byte 2 starts a character.
 */
module FerveoValidator {
  import opened Field
  import opened Bytes

  /** The number of bytes UTF-8 uses for one Unicode scalar value. */
  function Utf8Width(c: char): (w: nat)
    ensures 1 <= w <= 4
  {
    if (c as int) < 0x80 then 1
    else if (c as int) < 0x800 then 2
    else if (c as int) < 0x1_0000 then 3
    else 4
  }

  /** `s.len()`: the length of a string in UTF-8 bytes. */
  function Utf8Length(s: string): (n: nat)
    ensures n >= |s|
  {
    if |s| == 0 then 0 else Utf8Width(s[0]) + Utf8Length(s[1..])
  }

  /** The character index at which byte offset k starts, if k is a character boundary. */
  function CharIndexAtByte(s: string, k: nat): (r: Option<nat>)
    ensures r.Some? ==> r.value <= |s|
  {
    if k == 0 then Some(0)
    else if |s| == 0 || Utf8Width(s[0]) > k then None
    else
      match CharIndexAtByte(s[1..], k - Utf8Width(s[0]))
      case None => None
      case Some(i) => Some(i + 1)
  }

  datatype Option<T> = None | Some(value: T)

  datatype EthereumAddress = EthereumAddress(s: string)

  datatype EthereumAddressParseError = InvalidLength | InvalidHex

  datatype ParseResult<T> = Parsed(value: T) | ParseError(error: EthereumAddressParseError)

  /** `&s[2..]` panics unless byte 2 of a 42-byte string starts a character. */
  predicate SliceableAddress(s: string)
  {
    Utf8Length(s) == 42 ==> CharIndexAtByte(s, 2).Some?
  }

  /**
   * A 42-byte string whose bytes from offset 2 on decode as hexadecimal; the
   * first two bytes (conventionally "0x") are never inspected.
   */
  function AddressFromStr(s: string): (r: ParseResult<EthereumAddress>)
    requires SliceableAddress(s)
    ensures r.ParseError? && r.error == InvalidLength <==> Utf8Length(s) != 42
    ensures r.Parsed? ==> r.value.s == s
  {
    if Utf8Length(s) != 42 then ParseError(InvalidLength)
    else if !IsHex(s[CharIndexAtByte(s, 2).value..]) then ParseError(InvalidHex)
    else Parsed(EthereumAddress(s))
  }

  /** `Display` writes the stored string unchanged. */
  function Display(a: EthereumAddress): string
  {
    a.s
  }

  /** Parsing then printing gives back the input. */
  lemma ParseDisplayRoundTrip(s: string)
    requires SliceableAddress(s)
    requires AddressFromStr(s).Parsed?
    ensures Display(AddressFromStr(s).value) == s
  {
  }

  /** An ASCII string is as many bytes long as it has characters. */
  lemma {:induction false} AsciiWidths(s: string)
    requires forall i :: 0 <= i < |s| ==> (s[i] as int) < 0x80
    ensures Utf8Length(s) == |s|
  {
    if |s| != 0 {
      AsciiWidths(s[1..]);
    }
  }

  /** 42 ASCII characters whose last 40 are hex digits (e.g. "0x" + 40 digits) parse. */
  lemma AsciiHexAddressParses(s: string)
    requires |s| == 42
    requires forall i :: 0 <= i < 2 ==> (s[i] as int) < 0x80
    requires IsHex(s[2..])
    ensures SliceableAddress(s)
    ensures AddressFromStr(s) == Parsed(EthereumAddress(s))
  {
    forall i | 2 <= i < |s|
      ensures (s[i] as int) < 0x80
    {
      assert IsHexDigit(s[2..][i - 2]);
    }
    AsciiWidths(s);
    assert Utf8Width(s[0]) == 1 && Utf8Width(s[1]) == 1;
    assert CharIndexAtByte(s[1..], 1) == Some(1) by {
      assert s[1..][0] == s[1];
      assert CharIndexAtByte(s[1..][1..], 0) == Some(0);
    }
  }

  /** Bytes 2..42 must decode: a non-hex character there is rejected. */
  lemma NonHexTailRejected(s: string, i: nat)
    requires SliceableAddress(s) && Utf8Length(s) == 42
    requires CharIndexAtByte(s, 2).value <= i < |s| && !IsHexDigit(s[i])
    ensures AddressFromStr(s) == ParseError(InvalidHex)
  {
    var k := CharIndexAtByte(s, 2).value;
    assert s[k..][i - k] == s[i];
  }

  datatype Ordering = Less | Equal | Greater

  function Flip(o: Ordering): Ordering
  {
    match o
    case Less => Greater
    case Equal => Equal
    case Greater => Less
  }

  /**
   * `String`'s derived `Ord`: lexicographic on UTF-8 bytes, which orders
   * strings as lexicographic comparison of their code points does.
   */
  function CompareStrings(a: string, b: string): Ordering
  {
    if |a| == 0 && |b| == 0 then Equal
    else if |a| == 0 then Less
    else if |b| == 0 then Greater
    else if a[0] < b[0] then Less
    else if a[0] > b[0] then Greater
    else CompareStrings(a[1..], b[1..])
  }

  lemma {:induction false} CompareStringsEqual(a: string, b: string)
    ensures CompareStrings(a, b) == Equal <==> a == b
  {
    if |a| != 0 && |b| != 0 && a[0] == b[0] {
      CompareStringsEqual(a[1..], b[1..]);
      assert a == [a[0]] + a[1..] && b == [b[0]] + b[1..];
    }
  }

  lemma {:induction false} CompareStringsFlip(a: string, b: string)
    ensures CompareStrings(b, a) == Flip(CompareStrings(a, b))
  {
    if |a| != 0 && |b| != 0 && a[0] == b[0] {
      CompareStringsFlip(a[1..], b[1..]);
    }
  }

  lemma {:induction false} CompareStringsTransitive(a: string, b: string, c: string)
    requires CompareStrings(a, b) == Less && CompareStrings(b, c) == Less
    ensures CompareStrings(a, c) == Less
  {
    if |a| != 0 && |b| != 0 && |c| != 0 && a[0] == b[0] && b[0] == c[0] {
      CompareStringsTransitive(a[1..], b[1..], c[1..]);
    }
  }

  datatype Validator = Validator(address: EthereumAddress, publicKey: G2, shareIndex: nat)

  /** Validators are ordered by their address only. */
  function CompareValidators(v: Validator, w: Validator): Ordering
  {
    CompareStrings(v.address.s, w.address.s)
  }

  /** Two validators compare equal iff their addresses agree, whatever their keys and indices. */
  lemma CompareValidatorsIgnoresKeyAndIndex(v: Validator, w: Validator)
    ensures CompareValidators(v, w) == Equal <==> v.address == w.address
    ensures CompareValidators(w, v) == Flip(CompareValidators(v, w))
  {
    CompareStringsEqual(v.address.s, w.address.s);
    CompareStringsFlip(v.address.s, w.address.s);
  }

  /** `Validator::new`: parse the address, store key and index unchanged. */
  function NewValidator(address: string, publicKey: G2, shareIndex: nat): (r: ParseResult<Validator>)
    requires SliceableAddress(address)
    ensures r.ParseError? <==> AddressFromStr(address).ParseError?
    ensures r.ParseError? ==> r.error == AddressFromStr(address).error
    ensures r.Parsed? ==> r.value == Validator(EthereumAddress(address), publicKey, shareIndex)
  {
    match AddressFromStr(address)
    case ParseError(e) => ParseError(e)
    case Parsed(a) => Parsed(Validator(a, publicKey, shareIndex))
  }
}
