/**
 Exactly which recovery codes parse, and to what, crates/pqc-tls/src/threshold.rs:304-341: in terms
 of digits and their positions, for every text.
 */
module CodeGrammar {
  import opened Wrappers
  import opened Gf256
  import opened Threshold
  import opened RecoveryCodes

  // ----- Digits and numbers -----

  const LOWER_DIGITS: string := "0123456789abcdef"
  const UPPER_DIGITS: string := "0123456789ABCDEF"

  /** The digit of this value, in either case. */
  predicate IsDigit(c: char, value: nat) {
    value < 16 && (c == LOWER_DIGITS[value] || c == UPPER_DIGITS[value])
  }

  predicate IsHex(c: char) {
    c in LOWER_DIGITS || c in UPPER_DIGITS
  }

  /** One or more digits of this value in base 16. */
  predicate Denotes(s: string, value: nat) {
    if s == "" then false
    else if |s| == 1 then IsDigit(s[0], value)
    else IsDigit(s[|s| - 1], value % 16) && Denotes(s[..|s| - 1], value / 16)
  }

  /** A number that fits in a byte, with an optional plus sign. */
  predicate IsByte(s: string, b: byte) {
    Denotes(if s != "" && s[0] == '+' then s[1..] else s, b as nat)
  }

  /** The digits in the order of their values, as ranges of characters. */
  lemma DigitRanges(value: nat)
    requires value < 16
    ensures LOWER_DIGITS[value] == if value < 10 then '0' + value as char else 'a' + (value - 10) as char
    ensures UPPER_DIGITS[value] == if value < 10 then '0' + value as char else 'A' + (value - 10) as char
  {
    if value < 8 {
      if value < 4 { if value == 0 {} else if value == 1 {} else if value == 2 {} else {} }
      else { if value == 4 {} else if value == 5 {} else if value == 6 {} else {} }
    } else {
      if value < 12 { if value == 8 {} else if value == 9 {} else if value == 10 {} else {} }
      else { if value == 12 {} else if value == 13 {} else if value == 14 {} else {} }
    }
  }

  /** Hexadecimal characters are those in the ranges. */
  lemma HexRanges(c: char)
    ensures IsHex(c) <==> '0' <= c <= '9' || 'a' <= c <= 'f' || 'A' <= c <= 'F'
  {
    forall v: nat | v < 16
      ensures LOWER_DIGITS[v] == if v < 10 then '0' + v as char else 'a' + (v - 10) as char
      ensures UPPER_DIGITS[v] == if v < 10 then '0' + v as char else 'A' + (v - 10) as char
    {
      DigitRanges(v);
    }
    if '0' <= c <= '9' {
      assert LOWER_DIGITS[c as nat - '0' as nat] == c;
    } else if 'a' <= c <= 'f' {
      assert LOWER_DIGITS[c as nat - 'a' as nat + 10] == c;
    } else if 'A' <= c <= 'F' {
      assert UPPER_DIGITS[c as nat - 'A' as nat + 10] == c;
    }
  }

  lemma DigitValueMeans(c: char)
    ensures DigitValue(c).Some? <==> IsHex(c)
    ensures DigitValue(c).Some? ==> DigitValue(c).value < 16
  {
    HexRanges(c);
    hide ByteOf;
  }

  lemma DigitValueIs(c: char, v: nat)
    ensures IsDigit(c, v) <==> DigitValue(c).Some? && v == DigitValue(c).value as nat
  {
    hide ByteOf;
    if v < 16 {
      DigitIn(c, v);
    }
  }

  lemma DigitIn(c: char, v: nat)
    requires v < 16
    ensures IsDigit(c, v) <==>
      if v < 10 then c as nat == '0' as nat + v else c as nat == 'a' as nat + v - 10 || c as nat == 'A' as nat + v - 10
  {
    DigitRanges(v);
  }

  lemma ShiftIn(acc: byte, d: byte)
    requires d < 16
    ensures d as nat < 16 && (High(acc) == 0 <==> acc as nat < 16)
    ensures High(acc) == 0 ==> Shifted(acc, d) as nat == 16 * (acc as nat) + d as nat
  {}

  // ----- Denoting -----

  lemma DenotesSnoc(p: string, c: char, value: nat)
    ensures Denotes(p + [c], value) <==>
      if p == "" then IsDigit(c, value) else IsDigit(c, value % 16) && Denotes(p, value / 16)
  {
    assert (p + [c])[..|p|] == p;
    hide IsDigit;
  }

  lemma {:induction false} DenotesOnce(s: string, v: nat, w: nat)
    requires Denotes(s, v) && Denotes(s, w)
    ensures v == w
  {
    if |s| == 1 {
      DigitOnce(s[0], v, w);
    } else {
      DigitOnce(s[|s| - 1], v % 16, w % 16);
      hide IsDigit;
      DenotesOnce(s[..|s| - 1], v / 16, w / 16);
    }
  }

  lemma DigitOnce(c: char, v: nat, w: nat)
    requires IsDigit(c, v) && IsDigit(c, w)
    ensures v == w
  {
    DigitIn(c, v); DigitIn(c, w);
    hide IsDigit;
  }

  /** More digits make at least sixteen times the value. */
  lemma {:induction false} DenotesGrows(p: string, q: string, v: nat, w: nat)
    requires p != "" && q != "" && Denotes(p, v) && Denotes(p + q, w)
    ensures w >= 16 * v
    decreases |q|
  {
    hide IsDigit;
    var all := p + q;
    if |q| == 1 {
      assert all[..|all| - 1] == p;
      DenotesOnce(p, v, w / 16);
    } else {
      assert all[..|all| - 1] == p + q[..|q| - 1];
      DenotesGrows(p, q[..|q| - 1], v, w / 16);
    }
  }

  lemma {:induction false} DenotesHex(s: string, v: nat, i: nat)
    requires Denotes(s, v) && i < |s|
    ensures IsHex(s[i])
  {
    if i == |s| - 1 {
      var d := if |s| == 1 then v else v % 16;
      assert IsDigit(s[i], d) && s[i] in [LOWER_DIGITS[d], UPPER_DIGITS[d]];
    } else {
      hide IsDigit, IsHex;
      DenotesHex(s[..|s| - 1], v / 16, i);
    }
  }

  predicate DenotesByte(s: string, b: byte) {
    Denotes(s, b as nat)
  }

  /** The parser's accumulator is the value of the digits it has read. */
  lemma {:induction false} ParseDigitsMeans(digits: string, acc: byte, p: string, b: byte)
    requires p != "" && DenotesByte(p, acc)
    ensures ParseDigits(digits, acc) == Some(b) <==> DenotesByte(p + digits, b)
    decreases |digits|
  {
    hide *;
    if digits == "" {
      assert p + digits == p;
      NoDigits(acc);
      SameByte(p, acc, b);
    } else {
      var c, rest := digits[0], digits[1..];
      ParseDigitsStep(digits, acc);
      assert p + digits == p + [c] + rest;
      if DigitValue(c).None? || High(acc) != 0 {
        StopsThere(p, acc, digits, b);
      } else {
        DenotesDigit(p, acc, c);
        ParseDigitsMeans(rest, Shifted(acc, DigitValue(c).value), p + [c], b);
      }
    }
  }

  lemma StopsThere(p: string, acc: byte, digits: string, b: byte)
    requires p != "" && DenotesByte(p, acc) && digits != ""
    requires DigitValue(digits[0]).None? || High(acc) != 0
    ensures !DenotesByte(p + digits, b)
  {
    hide Denotes, DigitValue, IsHex, High;
    if DenotesByte(p + digits, b) {
      if High(acc) != 0 {
        ShiftIn(acc, 0);
        DenotesGrows(p, digits, acc as nat, b as nat);
      } else {
        DenotesHex(p + digits, b as nat, |p|);
        DigitValueMeans(digits[0]);
      }
    }
  }

  lemma NoDigits(acc: byte)
    ensures ParseDigits("", acc) == Some(acc)
  {}

  lemma ParseDigitsStep(digits: string, acc: byte)
    requires digits != ""
    ensures
      var d := DigitValue(digits[0]);
      ParseDigits(digits, acc)
      == if d.None? || High(acc) != 0 then None else ParseDigits(digits[1..], Shifted(acc, d.value))
  {
    hide DigitValue, High, Shifted;
  }

  lemma DenotesDigit(p: string, acc: byte, c: char)
    requires p != "" && DenotesByte(p, acc) && DigitValue(c).Some? && High(acc) == 0
    ensures DenotesByte(p + [c], Shifted(acc, DigitValue(c).value))
  {
    var d := DigitValue(c).value;
    var v := Shifted(acc, d) as nat;
    DigitShift(acc, c);
    hide IsDigit, DigitValue, Shifted, High, Denotes;
    DenotesSnoc(p, c, v);
  }

  lemma DigitShift(acc: byte, c: char)
    requires DigitValue(c).Some? && High(acc) == 0
    ensures
      var v := Shifted(acc, DigitValue(c).value) as nat;
      IsDigit(c, v % 16) && v / 16 == acc as nat
  {
    var d := DigitValue(c).value;
    hide *;
    DigitValueMeans(c);
    ShiftIn(acc, d);
    DigitValueIs(c, d as nat);
    SixteenParts(acc as nat, d as nat, Shifted(acc, d) as nat);
  }

  lemma SixteenParts(a: nat, d: nat, v: nat)
    requires v == 16 * a + d && d < 16
    ensures v % 16 == d && v / 16 == a
  {}

  lemma SameByte(p: string, a: byte, b: byte)
    requires DenotesByte(p, a)
    ensures a == b <==> DenotesByte(p, b)
  {
    hide Denotes;
    if Denotes(p, b as nat) {
      DenotesOnce(p, a as nat, b as nat);
    }
  }

  /** A number parses if and only if it has one or more hex digits, with an optional plus sign, and a
      value that fits in a byte; and it parses to this value. */
  lemma NumberParsesIff(s: string, b: byte)
    ensures FromStrRadix16(s) == Some(b) <==> IsByte(s, b)
  {
    hide IsDigit, DigitValue, High, IsHex, ParseDigits, Denotes;
    var digits := if s != "" && s[0] == '+' then s[1..] else s;
    if digits == "" {
      NothingDenotes(b as nat);
    } else {
      FirstDigit(digits, b);
      NoSign(b as nat);
    }
  }

  lemma NothingDenotes(v: nat)
    ensures !Denotes("", v)
  {}

  lemma NoSign(v: nat)
    ensures !Denotes("-", v) && !Denotes("+", v)
  {
    HexRanges('-'); HexRanges('+');
    if Denotes("-", v) { DenotesHex("-", v, 0); }
    if Denotes("+", v) { DenotesHex("+", v, 0); }
  }

  lemma FirstDigit(digits: string, b: byte)
    requires digits != ""
    ensures ParseDigits(digits, 0) == Some(b) <==> Denotes(digits, b as nat)
  {
    hide IsDigit, DigitValue, IsHex, Denotes;
    var c, rest := digits[0], digits[1..];
    var d := DigitValue(c);
    assert digits == [c] + rest;
    DigitValueMeans(c);
    ShiftIn(0, if d.Some? then d.value else 0);
    if d.None? {
      if Denotes(digits, b as nat) {
        DenotesHex(digits, b as nat, 0);
      }
    } else {
      DigitValueIs(c, d.value as nat);
      DenotesSnoc("", c, d.value as nat);
      assert "" + [c] == [c];
      assert Shifted(0, d.value) == d.value;
      ParseDigitsMeans(rest, d.value, [c], b);
    }
  }

  // ----- Data and whole codes -----

  /** Two hex digits, or a plus sign and one. */
  predicate HexPair(s: string) {
    |s| == 2 && IsHex(s[1]) && (IsHex(s[0]) || s[0] == '+')
  }

  lemma PairParsesIff(s: string)
    requires |s| == 2
    ensures FromStrRadix16(s).Some? <==> HexPair(s)
  {
    hide *;
    if FromStrRadix16(s).Some? {
      NumberParsesIff(s, FromStrRadix16(s).value);
      ByteIsPair(s, FromStrRadix16(s).value);
    }
    if HexPair(s) {
      var b := PairIsByte(s);
      NumberParsesIff(s, b);
    }
  }

  lemma ByteIsPair(s: string, b: byte)
    requires |s| == 2 && IsByte(s, b)
    ensures HexPair(s)
  {
    hide IsHex, Denotes;
    if s[0] == '+' {
      DenotesHex(s[1..], b as nat, 0);
    } else {
      DenotesHex(s, b as nat, 0); DenotesHex(s, b as nat, 1);
    }
  }

  lemma PairIsByte(s: string) returns (b: byte)
    requires HexPair(s)
    ensures IsByte(s, b)
  {
    hide IsDigit, IsHex, ByteOf, Denotes;
    var low := DigitOf(s[1]);
    if s[0] == '+' {
      b := ByteOf(low);
      OneDigit(s[1], low);
      assert s[1..] == [s[1]];
    } else {
      var high := DigitOf(s[0]);
      b := ByteOf(16 * high + low);
      TwoDigits(s[0], s[1], high, low);
      assert s == [s[0], s[1]];
    }
  }

  lemma OneDigit(c: char, value: nat)
    requires IsDigit(c, value)
    ensures Denotes([c], value)
  {
    hide IsDigit;
  }

  lemma TwoDigits(c: char, d: char, high: nat, low: nat)
    requires IsDigit(c, high) && IsDigit(d, low) && low < 16
    ensures Denotes([c, d], 16 * high + low)
  {
    hide *;
    OneDigit(c, high);
    SixteenParts(high, low, 16 * high + low);
    assert [c] + [d] == [c, d];
    DenotesSnoc([c], d, 16 * high + low);
  }

  lemma DigitOf(c: char) returns (v: nat)
    requires IsHex(c)
    ensures IsDigit(c, v) && v < 16
  {
    if c in LOWER_DIGITS {
      v :| v < 16 && LOWER_DIGITS[v] == c;
    } else {
      v :| v < 16 && UPPER_DIGITS[v] == c;
    }
  }

  /** All full pairs of characters are hex bytes. */
  predicate GoodPairs(s: string) {
    forall i :: 0 <= i < |s| / 2 ==> HexPair(s[2 * i..2 * i + 2])
  }

  /** Two characters for each byte. */
  predicate IsData(s: string, data: seq<byte>) {
    |s| == 2 * |data| && forall i :: 0 <= i < |data| ==> IsByte(s[2 * i..2 * i + 2], data[i])
  }

  lemma RestPair(s: string, i: nat)
    requires |s| >= 2 && 2 * i + 2 <= |s[2..]|
    ensures s[2..][2 * i..2 * i + 2] == s[2 * (i + 1)..2 * (i + 1) + 2]
  {}

  lemma GoodPairsRest(s: string)
    requires |s| >= 2
    ensures GoodPairs(s) <==> HexPair(s[..2]) && GoodPairs(s[2..])
  {
    hide HexPair;
    var rest := s[2..];
    if GoodPairs(s) {
      assert HexPair(s[2 * 0..2 * 0 + 2]);
      forall i | 0 <= i < |rest| / 2
        ensures HexPair(rest[2 * i..2 * i + 2])
      {
        RestPair(s, i);
        assert HexPair(s[2 * (i + 1)..2 * (i + 1) + 2]);
      }
    }
    if HexPair(s[..2]) && GoodPairs(rest) {
      forall i | 0 <= i < |s| / 2
        ensures HexPair(s[2 * i..2 * i + 2])
      {
        if i > 0 {
          RestPair(s, i - 1);
          assert HexPair(rest[2 * (i - 1)..2 * (i - 1) + 2]);
        }
      }
    }
  }

  lemma IsDataRest(s: string, b: byte, rest: seq<byte>)
    requires |s| >= 2
    ensures IsData(s, [b] + rest) <==> IsByte(s[..2], b) && IsData(s[2..], rest)
  {
    hide IsByte;
    var tail, data := s[2..], [b] + rest;
    if IsData(s, data) {
      assert IsByte(s[2 * 0..2 * 0 + 2], data[0]);
      forall i | 0 <= i < |rest|
        ensures IsByte(tail[2 * i..2 * i + 2], rest[i])
      {
        RestPair(s, i);
        assert IsByte(s[2 * (i + 1)..2 * (i + 1) + 2], data[i + 1]);
      }
    }
    if IsByte(s[..2], b) && IsData(tail, rest) {
      forall i | 0 <= i < |data|
        ensures IsByte(s[2 * i..2 * i + 2], data[i])
      {
        if i > 0 {
          RestPair(s, i - 1);
          assert IsByte(tail[2 * (i - 1)..2 * (i - 1) + 2], rest[i - 1]);
        }
      }
    }
  }

  /** The parser panics exactly on an odd number of characters whose full pairs are all good; on an
      even number of them it succeeds, and on any bad pair it fails. */
  lemma {:induction false} DataPanics(s: string)
    ensures ParseData(s).Panicked? <==> GoodPairs(s) && |s| % 2 == 1
    ensures ParseData(s).Done? <==> GoodPairs(s) && |s| % 2 == 0
    ensures ParseData(s).Failed? ==> ParseData(s).error == BadData
  {
    hide *;
    if |s| <= 1 {
      ShortData(s);
    } else {
      ParseDataStep(s);
      PairParsesIff(s[..2]);
      GoodPairsRest(s);
      DataPanics(s[2..]);
    }
  }

  lemma ShortData(s: string)
    requires |s| <= 1
    ensures GoodPairs(s) && ParseData(s) == if s == "" then Done([]) else Panicked
  {}

  lemma ParseDataStep(s: string)
    requires |s| >= 2
    ensures
      ParseData(s) ==
      match FromStrRadix16(s[..2])
      case None => Failed(BadData)
      case Some(b) =>
        if ParseData(s[2..]).Done? then Done([b] + ParseData(s[2..]).value) else ParseData(s[2..])
  {
    hide FromStrRadix16;
  }

  /** Data parses to exactly the bytes that its pairs denote. */
  lemma {:induction false} DataParsesIff(s: string, data: seq<byte>)
    ensures ParseData(s) == Done(data) <==> IsData(s, data)
  {
    hide *;
    if |s| <= 1 {
      ShortData(s);
      ShortIsData(s, data);
    } else if data == [] {
      ParseDataStep(s);
      ShortIsData(s, data);
    } else {
      var b, rest := data[0], data[1..];
      assert data == [b] + rest;
      ParseDataStep(s);
      NumberParsesIff(s[..2], b);
      DataParsesIff(s[2..], rest);
      IsDataRest(s, b, rest);
      if ParseData(s).Done? {
        assert ([FromStrRadix16(s[..2]).value] + ParseData(s[2..]).value)[1..] == ParseData(s[2..]).value;
      }
    }
  }

  lemma ShortIsData(s: string, data: seq<byte>)
    requires |s| <= 1 || data == []
    ensures IsData(s, data) <==> s == "" && data == []
  {}

  /** Every code, by its first dash: it parses to a share exactly if the text before denotes its id
      and the text after its data; a bad id is refused before the data is read; and bad data is
      refused unless an odd length makes the parser panic. */
  lemma CodeOutcome(code: string, k: nat)
    requires k < |code| && code[k] == '-' && '-' !in code[..k]
    ensures
      var outcome, id, data := ParseRecoveryCode(code), code[..k], code[k + 1..];
      && (forall share :: outcome == Done(share) <==> IsByte(id, share.id) && IsData(data, share.data))
      && (outcome == Failed(BadId) <==> forall b :: !IsByte(id, b))
      && (outcome == Panicked <==> (exists b :: IsByte(id, b)) && GoodPairs(data) && |data| % 2 == 1)
      && (outcome == Failed(BadData) <==> (exists b :: IsByte(id, b)) && !GoodPairs(data))
      && outcome != Failed(BadFormat)
  {
    hide IsByte, IsData, GoodPairs, FromStrRadix16, ParseData, IndexOf, ParseRecoveryCode;
    var id, data := code[..k], code[k + 1..];
    forall b
      ensures FromStrRadix16(id) == Some(b) <==> IsByte(id, b)
    {
      NumberParsesIff(id, b);
    }
    forall bytes
      ensures ParseData(data) == Done(bytes) <==> IsData(data, bytes)
    {
      DataParsesIff(data, bytes);
    }
    DataPanics(data);
    CodeSteps(code, k);
    var number, parsed := FromStrRadix16(id), ParseData(data);
    assert number.Some? ==> IsByte(id, number.value);
    assert parsed.Done? ==> IsData(data, parsed.value);
    forall share
      ensures ParseRecoveryCode(code) == Done(share) <==> IsByte(id, share.id) && IsData(data, share.data)
    {
      assert share == Share(share.id, share.data);
    }
  }

  lemma CodeSteps(code: string, k: nat)
    requires k < |code| && code[k] == '-' && '-' !in code[..k]
    ensures
      var id, data := FromStrRadix16(code[..k]), ParseData(code[k + 1..]);
      ParseRecoveryCode(code) ==
      if id.None? then Failed(BadId)
      else if data.Done? then Done(Share(id.value, data.value))
      else if data.Failed? then Failed(data.error)
      else Panicked
  {
    hide FromStrRadix16, ParseData, IndexOf;
    FirstIndex(code, '-', k);
  }

  /** Without a dash a text is no code. */
  lemma NoDash(code: string)
    requires '-' !in code
    ensures ParseRecoveryCode(code) == Failed(BadFormat)
  {}

  // ----- The form of a generated code -----

  lemma HexDigitForm(n: byte)
    requires n < 16
    ensures n as nat < 16 && HexDigit(n) == LOWER_DIGITS[n as nat]
  {
    ShiftIn(0, n);
    DigitRanges(n as nat);
  }

  lemma NibbleValues(b: byte)
    ensures High(b) as nat == b as nat / 16 && Low(b) as nat == b as nat % 16
  {
    Nibbles(b);
    ShiftIn(High(b), Low(b));
    SixteenParts(High(b) as nat, Low(b) as nat, b as nat);
  }

  /** Two lower-case digits for each byte, the high one first. */
  lemma {:induction false} HexForm(data: seq<byte>, i: nat)
    requires i < |data|
    ensures HexEncode(data)[2 * i] == LOWER_DIGITS[data[i] as nat / 16]
    ensures HexEncode(data)[2 * i + 1] == LOWER_DIGITS[data[i] as nat % 16]
  {
    if i == 0 {
      hide HexDigit, High, Low;
      HexDigitForm(High(data[0])); HexDigitForm(Low(data[0]));
      NibbleValues(data[0]);
    } else {
      hide HexByte;
      HexForm(data[1..], i - 1);
      assert HexEncode(data)[2 * i] == HexEncode(data[1..])[2 * (i - 1)];
      assert HexEncode(data)[2 * i + 1] == HexEncode(data[1..])[2 * (i - 1) + 1];
    }
  }

  /** The id in two lower-case digits, a dash, and the data. */
  lemma CodeForm(s: Share)
    ensures
      var code := EncodeShare(s);
      && |code| == 3 + 2 * |s.data| && code[2] == '-' && code[3..] == HexEncode(s.data)
      && code[0] == LOWER_DIGITS[s.id as nat / 16] && code[1] == LOWER_DIGITS[s.id as nat % 16]
  {
    hide HexDigit, High, Low, HexEncode;
    HexDigitForm(High(s.id)); HexDigitForm(Low(s.id));
    NibbleValues(s.id);
  }

  // ----- Lists of codes -----

  /** All codes parse to the shares, one by one. */
  predicate AllParse(codes: seq<string>, shares: seq<Share>) {
    |codes| == |shares| && forall i :: 0 <= i < |codes| ==> ParseRecoveryCode(codes[i]) == Done(shares[i])
  }

  /** The i-th code is the first that does not parse. */
  predicate FirstBad(codes: seq<string>, i: nat) {
    && i < |codes| && !ParseRecoveryCode(codes[i]).Done?
    && forall j :: 0 <= j < i ==> ParseRecoveryCode(codes[j]).Done?
  }

  lemma AllParseCons(codes: seq<string>, shares: seq<Share>)
    requires codes != []
    ensures AllParse(codes, shares) <==>
      shares != [] && ParseRecoveryCode(codes[0]) == Done(shares[0]) && AllParse(codes[1..], shares[1..])
  {
    hide ParseRecoveryCode;
    if shares != [] && ParseRecoveryCode(codes[0]) == Done(shares[0]) && AllParse(codes[1..], shares[1..]) {
      forall i | 0 <= i < |codes|
        ensures ParseRecoveryCode(codes[i]) == Done(shares[i])
      {
        if i > 0 {
          assert codes[i] == codes[1..][i - 1] && shares[i] == shares[1..][i - 1];
        }
      }
    }
  }

  /** A list of codes parses exactly if each of them does. */
  lemma {:induction false} ParseAllIff(codes: seq<string>, shares: seq<Share>)
    ensures ParseAll(codes) == Done(shares) <==> AllParse(codes, shares)
  {
    hide ParseRecoveryCode;
    if codes == [] {
    } else if shares == [] {
      AllParseCons(codes, shares);
    } else {
      ParseAllIff(codes[1..], shares[1..]);
      AllParseCons(codes, shares);
      hide AllParse;
      assert shares == [shares[0]] + shares[1..];
      if ParseAll(codes).Done? {
        assert ParseAll(codes).value[1..] == ParseAll(codes[1..]).value;
      }
    }
  }

  /** Otherwise it ends as the first code that does not parse. */
  lemma {:induction false} ParseAllFirstBad(codes: seq<string>, i: nat)
    requires FirstBad(codes, i)
    ensures
      match ParseRecoveryCode(codes[i])
      case Failed(e) => ParseAll(codes) == Failed(e)
      case _ => ParseAll(codes) == Panicked
  {
    hide ParseRecoveryCode;
    if i == 0 {
    } else {
      assert forall j :: 0 <= j < i - 1 ==> codes[1..][j] == codes[j + 1];
      ParseAllFirstBad(codes[1..], i - 1);
    }
  }

  /** Recovery gives a secret exactly if every code parses and the shares combine to it. */
  lemma RecoveredIff(codes: seq<string>, secret: seq<byte>)
    ensures Recovered(codes) == Done(secret) <==>
      exists shares :: AllParse(codes, shares) && Reconstructible(shares) && Reconstruct(shares) == secret
  {
    hide ParseAll, AllParse, ParseRecoveryCode, Reconstructible, Reconstruct;
    forall shares
      ensures ParseAll(codes) == Done(shares) <==> AllParse(codes, shares)
    {
      ParseAllIff(codes, shares);
    }
    if Recovered(codes) == Done(secret) {
      assert AllParse(codes, ParseAll(codes).value);
    }
  }
}
