/**
 Recovery codes, crates/pqc-tls/src/threshold.rs:304-341: a share written as "id-data" in
 lower-case hex, and the parser, with the standard library's from_str_radix(16) for u8.
 Codes are strings whose characters are one byte each.
 */
module RecoveryCodes {
  import opened Wrappers
  import opened Gf256
  import opened Polynomials
  import opened Threshold

  datatype ParseError = BadFormat | BadId | BadData

  /** How a call ends: with a value, with an error, or in a panic. */
  datatype Outcome<+T> = Done(value: T) | Failed(error: ParseError) | Panicked

  // ----- Hex -----

  function HexDigit(n: byte): char
    requires n < 16
  {
    if n < 10 then '0' + n as char else 'a' + (n - 10) as char
  }

  function DigitValue(c: char): Option<byte> {
    if '0' <= c <= '9' then Some(ByteOf(c as nat - '0' as nat))
    else if 'a' <= c <= 'f' then Some(ByteOf(c as nat - 'a' as nat + 10))
    else if 'A' <= c <= 'F' then Some(ByteOf(c as nat - 'A' as nat + 10))
    else None
  }

  function High(b: byte): (n: byte)
    ensures n < 16
  {
    b >> 4
  }

  function Low(b: byte): (n: byte)
    ensures n < 16
  {
    b & 0x0F
  }

  function HexByte(b: byte): (s: string)
    ensures |s| == 2
  {
    [HexDigit(High(b)), HexDigit(Low(b))]
  }

  function HexEncode(data: seq<byte>): (s: string)
    ensures |s| == 2 * |data|
  {
    if data == [] then "" else HexByte(data[0]) + HexEncode(data[1..])
  }

  /** The digits of a radix-16 number that must fit in a byte; `acc` is the value so far. */
  function ParseDigits(digits: string, acc: byte): Option<byte> {
    if digits == "" then Some(acc)
    else
      var d := DigitValue(digits[0]);
      if d.None? || High(acc) != 0 then None
      else ParseDigits(digits[1..], Shifted(acc, d.value))
  }

  function Shifted(acc: byte, digit: byte): byte {
    (acc << 4) | digit
  }

  /** An optional plus sign and at least one digit. */
  function FromStrRadix16(s: string): Option<byte> {
    if s == "" || s == "+" || s == "-" then None
    else ParseDigits(if s[0] == '+' then s[1..] else s, 0)
  }

  // ----- Codes -----

  function EncodeShare(s: Share): string {
    HexByte(s.id) + "-" + HexEncode(s.data)
  }

  function GenerateRecoveryCodes(shares: seq<Share>): (codes: seq<string>)
    ensures |codes| == |shares|
    ensures forall i :: 0 <= i < |shares| ==> codes[i] == EncodeShare(shares[i])
  {
    seq(|shares|, i requires 0 <= i < |shares| => EncodeShare(shares[i]))
  }

  function IndexOf(s: string, c: char): (i: Option<nat>)
    ensures i.None? ==> c !in s
    ensures i.Some? ==> i.value < |s| && s[i.value] == c && c !in s[..i.value]
  {
    if s == "" then None
    else if s[0] == c then Some(0)
    else
      match IndexOf(s[1..], c)
      case None => None
      case Some(i) => Some(i + 1)
  }

  /** Pairs of characters, left to right; the first bad pair ends the parse, and slicing two
      characters where one is left panics. */
  function ParseData(s: string): Outcome<seq<byte>> {
    if s == "" then Done([])
    else if |s| == 1 then Panicked
    else
      match FromStrRadix16(s[..2])
      case None => Failed(BadData)
      case Some(b) =>
        match ParseData(s[2..])
        case Done(rest) => Done([b] + rest)
        case other => other
  }

  function ParseRecoveryCode(code: string): Outcome<Share> {
    match IndexOf(code, '-')
    case None => Failed(BadFormat)
    case Some(i) =>
      match FromStrRadix16(code[..i])
      case None => Failed(BadId)
      case Some(id) =>
        match ParseData(code[i + 1..])
        case Done(data) => Done(Share(id, data))
        case Failed(e) => Failed(e)
        case Panicked => Panicked
  }

  function ParseAll(codes: seq<string>): Outcome<seq<Share>> {
    if codes == [] then Done([])
    else
      match ParseRecoveryCode(codes[0])
      case Failed(e) => Failed(e)
      case Panicked => Panicked
      case Done(share) =>
        match ParseAll(codes[1..])
        case Done(rest) => Done([share] + rest)
        case other => other
  }

  /** What recovery comes to: reconstruction panics on shares that cannot be combined. */
  function Recovered(codes: seq<string>): Outcome<seq<byte>> {
    match ParseAll(codes)
    case Failed(e) => Failed(e)
    case Panicked => Panicked
    case Done(shares) => if Reconstructible(shares) then Done(Reconstruct(shares)) else Panicked
  }

  method RecoverFromCodes(codes: seq<string>) returns (result: Outcome<seq<byte>>)
    ensures result == Recovered(codes)
  {
    match ParseAll(codes)
    case Failed(e) => result := Failed(e);
    case Panicked => result := Panicked;
    case Done(shares) =>
      if !Reconstructible(shares) {
        return Panicked;
      }
      var secret := ReconstructSecret(shares);
      result := Done(secret);
  }

  // ----- Parsing undoes generation -----

  lemma DigitRoundTrip(n: byte)
    requires n < 16
    ensures DigitValue(HexDigit(n)) == Some(n)
    ensures HexDigit(n) != '+' && HexDigit(n) != '-'
  {
    if n < 10 {} else {}
  }

  lemma Nibbles(b: byte)
    ensures (High(b) << 4) | Low(b) == b
    ensures High(High(b)) == 0 && High(0) == 0
    ensures (0 << 4) | High(b) == High(b)
  {}

  lemma HexByteRoundTrip(b: byte)
    ensures FromStrRadix16(HexByte(b)) == Some(b)
    ensures '-' !in HexByte(b)
  {
    hide HexDigit, DigitValue, High, Low;
    var s := HexByte(b);
    DigitRoundTrip(High(b)); DigitRoundTrip(Low(b));
    Nibbles(b);
    assert s[1..][1..] == "";
    assert ParseDigits(s[1..], High(b)) == ParseDigits(s[1..][1..], b);
  }

  lemma {:induction false} DataRoundTrip(data: seq<byte>)
    ensures ParseData(HexEncode(data)) == Done(data)
  {
    hide HexByte, FromStrRadix16;
    if data == [] {
    } else {
      var s := HexEncode(data);
      HexByteRoundTrip(data[0]);
      assert s[..2] == HexByte(data[0]) && s[2..] == HexEncode(data[1..]);
      DataRoundTrip(data[1..]);
      assert [data[0]] + data[1..] == data;
    }
  }

  lemma {:induction false} FirstIndex(s: string, c: char, k: nat)
    requires k < |s| && s[k] == c && c !in s[..k]
    ensures IndexOf(s, c) == Some(k)
  {
    if k == 0 {
    } else {
      assert s[0] == s[..k][0];
      assert s[..k][1..] == s[1..][..k - 1];
      FirstIndex(s[1..], c, k - 1);
    }
  }

  /** Parsing undoes generation, for every id and data of every length. */
  lemma CodeRoundTrip(s: Share)
    ensures ParseRecoveryCode(EncodeShare(s)) == Done(s)
  {
    hide HexByte, FromStrRadix16, HexEncode, ParseData, IndexOf;
    var code := EncodeShare(s);
    HexByteRoundTrip(s.id);
    DataRoundTrip(s.data);
    assert code[2] == '-' && code[..2] == HexByte(s.id) && code[3..] == HexEncode(s.data);
    FirstIndex(code, '-', 2);
  }

  lemma {:induction false} CodesRoundTrip(shares: seq<Share>)
    ensures ParseAll(GenerateRecoveryCodes(shares)) == Done(shares)
  {
    hide EncodeShare, ParseRecoveryCode;
    if shares == [] {
    } else {
      CodeRoundTrip(shares[0]);
      CodesRoundTrip(shares[1..]);
      assert [shares[0]] + shares[1..] == shares;
      assert GenerateRecoveryCodes(shares)[1..] == GenerateRecoveryCodes(shares[1..]);
    }
  }

  /** Codes of any quorum of a split give back the secret. */
  lemma CodesRecoverSecret(secret: seq<byte>, config: SharingConfig, randoms: seq<seq<byte>>, quorum: seq<Share>)
    requires secret != [] && config.Valid() && Coefficients(randoms, |secret|, config)
    requires forall s :: s in quorum ==> s in Split(secret, config, randoms)
    requires Distinct(quorum) && |quorum| >= config.threshold
    ensures ParseAll(GenerateRecoveryCodes(quorum)) == Done(quorum)
    ensures Reconstructible(quorum) && Recovered(GenerateRecoveryCodes(quorum)) == Done(secret)
  {
    hide Split, EncodeShare, ParseAll, Reconstruct, Reconstructible, GenerateRecoveryCodes;
    CodesRoundTrip(quorum);
    DistinctSharesDistinctIds(secret, config, randoms, quorum);
    QuorumReconstructs(secret, config, randoms, quorum);
  }

  lemma DistinctSharesDistinctIds(secret: seq<byte>, config: SharingConfig, randoms: seq<seq<byte>>, quorum: seq<Share>)
    requires config.Valid() && |randoms| == |secret|
    requires forall s :: s in quorum ==> s in Split(secret, config, randoms)
    requires Distinct(quorum)
    ensures Distinct(Ids(quorum))
  {
    hide Eval, ByteOf;
    var shares := Split(secret, config, randoms);
    forall i, j | 0 <= i < j < |quorum|
      ensures quorum[i].id != quorum[j].id
    {
      assert quorum[i] in shares && quorum[j] in shares;
    }
  }
}
