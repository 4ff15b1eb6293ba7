/**
 Certificates and the bytes that are signed of them, crates/pqc-tls/src/cert_chain.rs:46-85. Subjects,
 issuers and serials are their UTF-8 bytes.
 */
module TbsEncoding {
  import opened Gf256
  import opened Crypto

  datatype Algorithm = EcdsaP256 | Ed25519 | MlDsa65

  datatype Certificate = Certificate(
    subject: Bytes, issuer: Bytes, algorithm: Algorithm, publicKey: Bytes, signature: Bytes, issuerAlgorithm: Algorithm,
    notBefore: nat, notAfter: nat, isCa: bool, fingerprint: string, serial: Bytes)

  // ----- The signed bytes -----

  /** The n-byte little-endian form. */
  function LittleEndian(value: nat, n: nat): (bytes: Bytes)
    ensures |bytes| == n
  {
    if n == 0 then [] else [ByteOf(value % 256)] + LittleEndian(value / 256, n - 1)
  }

  function TbsBytes(c: Certificate): Bytes {
    c.subject + [0] + c.issuer + [0] + LittleEndian(c.notBefore, 8) + LittleEndian(c.notAfter, 8)
    + c.publicKey + [if c.isCa then 1 else 0] + c.serial
  }

  /** The fields the signature covers are u64 and have no zero byte in their names. */
  predicate Signable(c: Certificate) {
    && 0 !in c.subject && 0 !in c.issuer
    && c.notBefore < 0x1_0000_0000_0000_0000 && c.notAfter < 0x1_0000_0000_0000_0000
  }

  /** All that the signature is meant to cover. */
  predicate SameSignedFields(c: Certificate, d: Certificate) {
    && c.subject == d.subject && c.issuer == d.issuer && c.notBefore == d.notBefore && c.notAfter == d.notAfter
    && c.publicKey == d.publicKey && c.isCa == d.isCa && c.serial == d.serial
  }

  function Range(n: nat): (r: nat)
    ensures r >= 1
  {
    if n == 0 then 1 else 256 * Range(n - 1)
  }

  lemma {:induction false} LittleEndianInjective(v: nat, w: nat, n: nat)
    requires v < Range(n) && w < Range(n) && LittleEndian(v, n) == LittleEndian(w, n)
    ensures v == w
  {
    if n == 0 {
    } else {
      var a, b := LittleEndian(v, n), LittleEndian(w, n);
      assert a[1..] == LittleEndian(v / 256, n - 1) && b[1..] == LittleEndian(w / 256, n - 1);
      LittleEndianInjective(v / 256, w / 256, n - 1);
      assert ByteOf(v % 256) as nat == ByteOf(w % 256) as nat;
    }
  }

  /** The first zero byte ends the name. */
  lemma NameEnds(a: Bytes, b: Bytes, rest: Bytes, rest': Bytes)
    requires 0 !in a && 0 !in b && a + [0] + rest == b + [0] + rest'
    ensures a == b && rest == rest'
  {
    var all, all' := a + [0] + rest, b + [0] + rest';
    assert all[|a|] == 0 && all'[|b|] == 0;
    assert forall i :: 0 <= i < |a| ==> all[i] == a[i];
    assert forall i :: 0 <= i < |b| ==> all'[i] == b[i];
    assert |a| == |b|;
    assert all[..|a|] == a && all'[..|b|] == b && all[|a| + 1..] == rest && all'[|b| + 1..] == rest';
  }

  /** Among certificates with keys of one length the signed bytes are equal if and only if all the
      signed fields are. */
  lemma TbsBytesInjective(c: Certificate, d: Certificate)
    requires Signable(c) && Signable(d) && |c.publicKey| == |d.publicKey|
    ensures TbsBytes(c) == TbsBytes(d) <==> SameSignedFields(c, d)
  {
    hide LittleEndian;
    if TbsBytes(c) == TbsBytes(d) {
      var tail, tail' := TailBytes(c), TailBytes(d);
      TbsParts(c); TbsParts(d);
      hide TbsBytes, TailBytes;
      NameEnds(c.subject, d.subject, c.issuer + [0] + tail, d.issuer + [0] + tail');
      NameEnds(c.issuer, d.issuer, tail, tail');
      TailInjective(c, d);
    }
  }

  lemma TbsParts(c: Certificate)
    ensures TbsBytes(c) == c.subject + [0] + (c.issuer + [0] + TailBytes(c))
  {
    hide LittleEndian;
  }

  /** The signed bytes after the names. */
  function TailBytes(c: Certificate): Bytes {
    LittleEndian(c.notBefore, 8) + LittleEndian(c.notAfter, 8) + c.publicKey + [if c.isCa then 1 else 0] + c.serial
  }

  lemma TailInjective(c: Certificate, d: Certificate)
    requires Signable(c) && Signable(d) && |c.publicKey| == |d.publicKey| && TailBytes(c) == TailBytes(d)
    ensures c.notBefore == d.notBefore && c.notAfter == d.notAfter
    ensures c.publicKey == d.publicKey && c.isCa == d.isCa && c.serial == d.serial
  {
    hide LittleEndian;
    var n := 16 + |c.publicKey|;
    TailParts(c); TailParts(d);
    LittleEndianInjective(c.notBefore, d.notBefore, 8);
    LittleEndianInjective(c.notAfter, d.notAfter, 8);
  }

  lemma TailParts(c: Certificate)
    ensures
      var t, n := TailBytes(c), 16 + |c.publicKey|;
      && n < |t| && t[..8] == LittleEndian(c.notBefore, 8) && t[8..16] == LittleEndian(c.notAfter, 8)
      && t[16..n] == c.publicKey && t[n] == (if c.isCa then 1 else 0) && t[n + 1..] == c.serial
    ensures Range(8) == 0x1_0000_0000_0000_0000
  {
    hide LittleEndian;
  }

  /** Keys of different lengths need not be told apart: where a key has the byte 1, it may be cut
      there, that byte be read as the flag of a CA, and what follows as part of the serial. */
  lemma TbsBytesCollide(c: Certificate, m: nat)
    requires !c.isCa && m < |c.publicKey| && c.publicKey[m] == 1
    ensures
      var ca := c.(publicKey := c.publicKey[..m], isCa := true, serial := c.publicKey[m + 1..] + [0] + c.serial);
      TbsBytes(c) == TbsBytes(ca) && !SameSignedFields(c, ca)
  {
    hide LittleEndian;
    var k := c.publicKey;
    var ca := c.(publicKey := k[..m], isCa := true, serial := k[m + 1..] + [0] + c.serial);
    TbsParts(c); TbsParts(ca);
    assert k == k[..m] + [1] + k[m + 1..];
    hide *;
    assert TailBytes(c) == TailBytes(ca) by {
      TailOf(c); TailOf(ca);
      var front := LittleEndian(c.notBefore, 8) + LittleEndian(c.notAfter, 8);
      assert front + k + [0] + c.serial == front + k[..m] + [1] + (k[m + 1..] + [0] + c.serial);
    }
  }

  lemma TailOf(c: Certificate)
    ensures TailBytes(c) == LittleEndian(c.notBefore, 8) + LittleEndian(c.notAfter, 8) + c.publicKey
                            + [if c.isCa then 1 else 0] + c.serial
  {}

  /** Names with a zero byte need not be told apart. */
  lemma NamesCollide(c: Certificate)
    ensures
      var a, b := c.(subject := [0], issuer := []), c.(subject := [], issuer := [0]);
      TbsBytes(a) == TbsBytes(b) && !SameSignedFields(a, b)
  {
    hide LittleEndian;
    var a, b := c.(subject := [0], issuer := []), c.(subject := [], issuer := [0]);
    assert [0] + [0] + [] + [0] == [] + [0] + [0] + [0 as byte];
    assert TbsBytes(a)[..] == TbsBytes(b);
  }

  /** No two certificates with keys of these lengths have the same signed bytes but different
      signed fields. */
  ghost predicate LengthsToldApart(m: nat, n: nat) {
    forall c, d ::
      (Signable(c) && Signable(d) && |c.publicKey| == m && |d.publicKey| == n && TbsBytes(c) == TbsBytes(d)) ==>
        SameSignedFields(c, d)
  }

  /** A leaf with a key of this length. */
  function LeafWithKey(n: nat): (c: Certificate)
    ensures Signable(c) && !c.isCa && |c.publicKey| == n && forall i :: 0 <= i < n ==> c.publicKey[i] == 1
  {
    Certificate([], [], Ed25519, seq(n, _ => 1), [], Ed25519, 0, 0, false, "", [])
  }

  /** The signed bytes tell certificates apart if and only if their keys have one length. */
  lemma LengthsToldApartIff(m: nat, n: nat)
    ensures LengthsToldApart(m, n) <==> m == n
  {
    hide TbsBytes, SameSignedFields, LeafWithKey;
    if m == n {
      forall c, d | Signable(c) && Signable(d) && |c.publicKey| == m && |d.publicKey| == n && TbsBytes(c) == TbsBytes(d)
        ensures SameSignedFields(c, d)
      {
        TbsBytesInjective(c, d);
      }
    } else {
      var lo, hi := if m < n then m else n, if m < n then n else m;
      var leaf := LeafWithKey(hi);
      TbsBytesCollide(leaf, lo);
      var ca := leaf.(publicKey := leaf.publicKey[..lo], isCa := true,
                      serial := leaf.publicKey[lo + 1..] + [0] + leaf.serial);
      SameFieldsSymmetric(leaf, ca);
      assert Signable(ca) && |ca.publicKey| == lo;
    }
  }

  lemma SameFieldsSymmetric(c: Certificate, d: Certificate)
    ensures SameSignedFields(c, d) <==> SameSignedFields(d, c)
  {}

  /** The i-th byte of the little-endian form, counted from the lowest. */
  lemma {:induction false} LittleEndianAt(value: nat, n: nat, i: nat)
    requires i < n
    ensures LittleEndian(value, n)[i] as nat == value / Range(i) % 256
  {
    hide ByteOf;
    if i == 0 {
    } else {
      LittleEndianAt(value / 256, n - 1, i - 1);
      DivideTwice(value, Range(i - 1));
    }
  }

  lemma DivideTwice(value: nat, d: nat)
    requires d > 0
    ensures value / (256 * d) == value / 256 / d
  {
    var q := value / 256;
    var r, s := q / d, q % d;
    assert q == d * r + s && value == 256 * q + value % 256;
    var rest := 256 * s + value % 256;
    assert value == 256 * d * r + rest && 0 <= rest < 256 * d;
    QuotientIs(value, 256 * d, r, rest);
  }

  lemma QuotientIs(value: nat, d: nat, q: nat, r: nat)
    requires value == d * q + r && r < d
    ensures value / d == q
  {
    assert d * (value / d) <= value < d * (value / d + 1);
    SmallerFactor(d, value / d, q + 1);
    SmallerFactor(d, q, value / d + 1);
  }

  lemma SmallerFactor(d: nat, a: nat, b: nat)
    requires d * a < d * b
    ensures a < b
  {}

  /** Where each field is in the signed bytes: subject and issuer, each ended by a zero; the two times
      in eight bytes each, the start first; the key; the CA flag; and the serial. */
  lemma TbsLayout(c: Certificate)
    ensures
      var t, a := TbsBytes(c), |c.subject|;
      var b := a + 1 + |c.issuer|;
      var k := b + 17 + |c.publicKey|;
      && |t| == k + 1 + |c.serial|
      && t[..a] == c.subject && t[a] == 0 && t[a + 1..b] == c.issuer && t[b] == 0
      && t[b + 1..b + 9] == LittleEndian(c.notBefore, 8) && t[b + 9..b + 17] == LittleEndian(c.notAfter, 8)
      && t[b + 17..k] == c.publicKey && t[k] == (if c.isCa then 1 else 0) && t[k + 1..] == c.serial
  {
    hide LittleEndian;
    var t, a := TbsBytes(c), |c.subject|;
    var b := a + 1 + |c.issuer|;
    TbsParts(c);
    TailParts(c);
    hide TbsBytes, TailBytes;
    assert t[b + 1..] == TailBytes(c);
    var tail, n := TailBytes(c), 16 + |c.publicKey|;
    assert t[b + 1..b + 9] == tail[..8] && t[b + 9..b + 17] == tail[8..16];
    assert t[b + 17..b + 1 + n] == tail[16..n] && t[b + 1 + n] == tail[n] && t[b + 2 + n..] == tail[n + 1..];
  }
}
