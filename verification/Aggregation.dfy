/**
 Aggregation of signatures with shared public keys, crates/pqc-tls/src/batch_verify.rs:237-381.
 */
module Aggregation {
  import opened Wrappers
  import opened Crypto
  import opened RecoveryCodes
  import opened Polynomials
  import opened BatchVerify

  datatype AggregateEntry = AggregateEntry(messageHash: string, signature: Bytes)

  datatype AggregatedSignatures = AggregatedSignatures(
    entries: seq<AggregateEntry>, publicKeys: seq<Bytes>, keyIndices: seq<nat>,
    uncompressedSize: nat, compressedSize: nat)

  function MessageHash(scheme: Scheme, message: Bytes): string {
    HexEncode(scheme.digest(message))
  }

  function Position(keys: seq<Bytes>, key: Bytes): (i: Option<nat>)
    ensures i.None? ==> key !in keys
    ensures i.Some? ==> i.value < |keys| && keys[i.value] == key
  {
    if keys == [] then None
    else if keys[0] == key then Some(0)
    else
      match Position(keys[1..], key)
      case None => None
      case Some(i) => Some(i + 1)
  }

  // ----- What was added -----

  /** The keys in the order of their first occurrence. */
  function UniqueKeys(added: seq<SignatureEntry>): (keys: seq<Bytes>)
    ensures Distinct(keys)
    ensures forall e :: e in added ==> e.publicKey in keys
  {
    if added == [] then []
    else
      var last, before := added[|added| - 1], UniqueKeys(added[..|added| - 1]);
      assert added == added[..|added| - 1] + [last];
      if last.publicKey in before then before else before + [last.publicKey]
  }

  function TotalSize(added: seq<SignatureEntry>): nat {
    if added == [] then 0
    else TotalSize(added[..|added| - 1]) + |added[|added| - 1].signature| + |added[|added| - 1].publicKey|
  }

  /** The bytes of the keys that had been added before. */
  function RepeatedKeyBytes(added: seq<SignatureEntry>): nat {
    if added == [] then 0
    else
      var n := |added| - 1;
      RepeatedKeyBytes(added[..n]) + if WasAdded(added[..n], added[n].publicKey) then |added[n].publicKey| else 0
  }

  predicate WasAdded(added: seq<SignatureEntry>, key: Bytes) {
    exists i :: 0 <= i < |added| && added[i].publicKey == key
  }

  function SumLengths(parts: seq<Bytes>): nat {
    if parts == [] then 0 else SumLengths(parts[..|parts| - 1]) + |parts[|parts| - 1]|
  }

  function Signatures(entries: seq<AggregateEntry>): (s: seq<Bytes>)
    ensures |s| == |entries| && forall i :: 0 <= i < |s| ==> s[i] == entries[i].signature
  {
    seq(|entries|, i requires 0 <= i < |entries| => entries[i].signature)
  }

  /** The parts of an aggregate of the given signatures. */
  ghost predicate Aggregates(scheme: Scheme, added: seq<SignatureEntry>, entries: seq<AggregateEntry>,
                             publicKeys: seq<Bytes>, keyIndices: seq<nat>) {
    && |entries| == |keyIndices| == |added|
    && publicKeys == UniqueKeys(added)
    && forall i :: 0 <= i < |added| ==>
         && entries[i] == AggregateEntry(MessageHash(scheme, added[i].message), added[i].signature)
         && keyIndices[i] < |publicKeys| && publicKeys[keyIndices[i]] == added[i].publicKey
  }

  class SignatureAggregator {
    const scheme: Scheme
    var entries: seq<AggregateEntry>
    var publicKeys: seq<Bytes>
    var keyIndices: seq<nat>
    var totalSigSize: nat

    ghost var added: seq<SignatureEntry>

    /** Stored keys are pairwise distinct and every entry's index leads back to its key. */
    ghost predicate Valid()
      reads this
    {
      && Aggregates(scheme, added, entries, publicKeys, keyIndices)
      && totalSigSize == TotalSize(added)
    }

    constructor (scheme: Scheme)
      ensures Valid() && added == [] && this.scheme == scheme
    {
      this.scheme := scheme;
      entries, publicKeys, keyIndices, totalSigSize := [], [], [], 0;
      added := [];
    }

    method Add(publicKey: Bytes, message: Bytes, signature: Bytes)
      requires Valid()
      modifies this
      ensures Valid() && added == old(added) + [SignatureEntry(message, signature, publicKey)]
    {
      hide MessageHash, UniqueKeys, Aggregates, TotalSize;
      AddStep(scheme, added, entries, publicKeys, keyIndices, SignatureEntry(message, signature, publicKey));
      var keyIdx: nat;
      match Position(publicKeys, publicKey) {
        case Some(i) => keyIdx := i;
        case None =>
          publicKeys := publicKeys + [publicKey];
          keyIdx := |publicKeys| - 1;
      }
      totalSigSize := totalSigSize + |signature| + |publicKey|;
      entries := entries + [AggregateEntry(MessageHash(scheme, message), signature)];
      keyIndices := keyIndices + [keyIdx];
      added := added + [SignatureEntry(message, signature, publicKey)];
    }

    method Finalize() returns (aggregate: AggregatedSignatures)
      requires Valid()
      ensures Aggregates(scheme, added, aggregate.entries, aggregate.publicKeys, aggregate.keyIndices)
      ensures aggregate.uncompressedSize == TotalSize(added)
      ensures aggregate.compressedSize + RepeatedKeyBytes(added) == aggregate.uncompressedSize + 2 * |added|
    {
      var compressedSize := SumLengths(publicKeys) + SumLengths(Signatures(entries)) + |keyIndices| * 2;
      SizesAddUp(scheme, added, entries, publicKeys, keyIndices);
      aggregate := AggregatedSignatures(entries, publicKeys, keyIndices, totalSigSize, compressedSize);
    }
  }

  /** One more triple: its key is looked up, or put at the end if it is new. */
  lemma AddStep(scheme: Scheme, added: seq<SignatureEntry>, entries: seq<AggregateEntry>,
                publicKeys: seq<Bytes>, keyIndices: seq<nat>, e: SignatureEntry)
    requires Aggregates(scheme, added, entries, publicKeys, keyIndices)
    ensures
      var position := Position(publicKeys, e.publicKey);
      var publicKeys' := if position.Some? then publicKeys else publicKeys + [e.publicKey];
      var index := if position.Some? then position.value else |publicKeys|;
      Aggregates(scheme, added + [e], entries + [AggregateEntry(MessageHash(scheme, e.message), e.signature)],
                 publicKeys', keyIndices + [index])
    ensures TotalSize(added + [e]) == TotalSize(added) + |e.signature| + |e.publicKey|
  {
    hide MessageHash;
    assert (added + [e])[..|added|] == added;
  }

  /** Distinct keys plus signatures are all the bytes but those of repeated keys. */
  lemma SizesAddUp(scheme: Scheme, added: seq<SignatureEntry>, entries: seq<AggregateEntry>, publicKeys: seq<Bytes>,
                   keyIndices: seq<nat>)
    requires Aggregates(scheme, added, entries, publicKeys, keyIndices)
    ensures SumLengths(publicKeys) + SumLengths(Signatures(entries)) + RepeatedKeyBytes(added) == TotalSize(added)
  {
    UniqueKeysSize(added);
    SignaturesSize(added, Signatures(entries));
  }

  function SignatureBytes(added: seq<SignatureEntry>): nat {
    if added == [] then 0 else SignatureBytes(added[..|added| - 1]) + |added[|added| - 1].signature|
  }

  lemma {:induction false} UniqueKeysAreAdded(added: seq<SignatureEntry>, key: Bytes)
    ensures key in UniqueKeys(added) <==> WasAdded(added, key)
  {
    if added == [] {
    } else {
      var n := |added| - 1;
      UniqueKeysAreAdded(added[..n], key);
      if WasAdded(added, key) {
        var i :| 0 <= i < |added| && added[i].publicKey == key;
        assert added[i] in added;
      } else {
        assert key != added[n].publicKey;
        assert forall i :: 0 <= i < n ==> added[..n][i] == added[i];
      }
      if WasAdded(added[..n], key) {
        var i :| 0 <= i < n && added[..n][i].publicKey == key;
        assert added[i].publicKey == key;
      }
    }
  }

  lemma {:induction false} UniqueKeysSize(added: seq<SignatureEntry>)
    ensures SumLengths(UniqueKeys(added)) + SignatureBytes(added) + RepeatedKeyBytes(added) == TotalSize(added)
  {
    if added == [] {
    } else {
      var n := |added| - 1;
      var before, key := UniqueKeys(added[..n]), added[n].publicKey;
      UniqueKeysSize(added[..n]);
      UniqueKeysAreAdded(added[..n], key);
      assert UniqueKeys(added) == if key in before then before else before + [key];
      hide WasAdded, UniqueKeys;
      assert (before + [key])[..|before|] == before;
    }
  }

  lemma {:induction false} SignaturesSize(added: seq<SignatureEntry>, signatures: seq<Bytes>)
    requires |added| == |signatures| && forall i :: 0 <= i < |added| ==> signatures[i] == added[i].signature
    ensures SumLengths(signatures) == SignatureBytes(added)
  {
    if added == [] {
    } else {
      SignaturesSize(added[..|added| - 1], signatures[..|added| - 1]);
    }
  }

  // ----- Verification of an aggregate -----

  /** For each entry whether its message has the stored hash and its signature verifies. */
  function AggregateFlags(scheme: Scheme, aggregate: AggregatedSignatures, messages: seq<Bytes>): (flags: seq<bool>)
    requires |messages| == |aggregate.entries| == |aggregate.keyIndices|
    requires forall i :: 0 <= i < |aggregate.keyIndices| ==> aggregate.keyIndices[i] < |aggregate.publicKeys|
    ensures |flags| == |messages|
    ensures forall i :: 0 <= i < |messages| ==>
              (flags[i] <==>
                && MessageHash(scheme, messages[i]) == aggregate.entries[i].messageHash
                && scheme.verify(
                      aggregate.publicKeys[aggregate.keyIndices[i]], messages[i], aggregate.entries[i].signature))
  {
    seq(|messages|, i requires 0 <= i < |messages| =>
      && MessageHash(scheme, messages[i]) == aggregate.entries[i].messageHash
      && scheme.verify(aggregate.publicKeys[aggregate.keyIndices[i]], messages[i], aggregate.entries[i].signature))
  }

  /** The message at i has the digest that was stored in hex, and its signature verifies under the key
      the entry's index leads to. */
  predicate EntryPasses(scheme: Scheme, aggregate: AggregatedSignatures, messages: seq<Bytes>, i: int)
    requires |messages| == |aggregate.entries| == |aggregate.keyIndices| && 0 <= i < |messages|
    requires aggregate.keyIndices[i] < |aggregate.publicKeys|
  {
    && HexEncode(scheme.digest(messages[i])) == aggregate.entries[i].messageHash
    && scheme.verify(aggregate.publicKeys[aggregate.keyIndices[i]], messages[i], aggregate.entries[i].signature)
  }

  /** The entries that pass. */
  function Passing(scheme: Scheme, aggregate: AggregatedSignatures, messages: seq<Bytes>): set<int>
    requires |messages| == |aggregate.entries| == |aggregate.keyIndices|
    requires forall i :: 0 <= i < |aggregate.keyIndices| ==> aggregate.keyIndices[i] < |aggregate.publicKeys|
  {
    set i | 0 <= i < |messages| && EntryPasses(scheme, aggregate, messages, i)
  }

  lemma AggregateReports(scheme: Scheme, aggregate: AggregatedSignatures, messages: seq<Bytes>)
    requires |messages| == |aggregate.entries| == |aggregate.keyIndices|
    requires forall i :: 0 <= i < |aggregate.keyIndices| ==> aggregate.keyIndices[i] < |aggregate.publicKeys|
    ensures Reports(Tally(AggregateFlags(scheme, aggregate, messages)), |messages|,
                    Passing(scheme, aggregate, messages))
  {
    TallyReports(AggregateFlags(scheme, aggregate, messages));
    assert Set(AggregateFlags(scheme, aggregate, messages)) == Passing(scheme, aggregate, messages);
  }

  method VerifyAll(scheme: Scheme, aggregate: AggregatedSignatures, messages: seq<Bytes>) returns (result: BatchResult)
    requires |messages| == |aggregate.entries| == |aggregate.keyIndices|
    requires forall i :: 0 <= i < |aggregate.keyIndices| ==> aggregate.keyIndices[i] < |aggregate.publicKeys|
    ensures result == Tally(AggregateFlags(scheme, aggregate, messages))
    ensures Reports(result, |messages|, Passing(scheme, aggregate, messages))
  {
    hide MessageHash;
    var verified, failed := 0, 0;
    var failedIndices: seq<int> := [];
    ghost var flags := AggregateFlags(scheme, aggregate, messages);
    assert flags[..0] == [];
    for i := 0 to |aggregate.entries|
      invariant Tally(flags[..i]) == BatchResult(i, verified, failed, failedIndices)
    {
      assert flags[..i + 1][..i] == flags[..i];
      var entry, message := aggregate.entries[i], messages[i];
      var publicKey := aggregate.publicKeys[aggregate.keyIndices[i]];
      if MessageHash(scheme, message) != entry.messageHash {
        failed := failed + 1;
        failedIndices := failedIndices + [i];
        continue;
      }
      if scheme.verify(publicKey, message, entry.signature) {
        verified := verified + 1;
      } else {
        failed := failed + 1;
        failedIndices := failedIndices + [i];
      }
    }
    assert flags[..|aggregate.entries|] == flags;
    result := BatchResult(|aggregate.entries|, verified, failed, failedIndices);
    AggregateReports(scheme, aggregate, messages);
  }

  lemma HexEncodeInjective(a: Bytes, b: Bytes)
    ensures HexEncode(a) == HexEncode(b) <==> a == b
  {
    DataRoundTrip(a);
    DataRoundTrip(b);
    hide HexEncode;
  }

  /** On messages other than the original ones an entry passes only if its message has the digest of
      the original and the signature verifies for it. */
  lemma SubstitutedMessage(scheme: Scheme, added: seq<SignatureEntry>, aggregate: AggregatedSignatures,
                           messages: seq<Bytes>, i: nat)
    requires Aggregates(scheme, added, aggregate.entries, aggregate.publicKeys, aggregate.keyIndices)
    requires i < |messages| == |added|
    ensures EntryPasses(scheme, aggregate, messages, i) <==>
      && scheme.digest(messages[i]) == scheme.digest(added[i].message)
      && scheme.verify(added[i].publicKey, messages[i], added[i].signature)
  {
    hide UniqueKeys;
    HexEncodeInjective(scheme.digest(messages[i]), scheme.digest(added[i].message));
    hide HexEncode;
  }

  /** Aggregation loses nothing: on the original messages the aggregate verifies exactly as the
      original triples do. */
  lemma AggregateAgreesWithBatch(scheme: Scheme, added: seq<SignatureEntry>, aggregate: AggregatedSignatures,
                                 messages: seq<Bytes>)
    requires Aggregates(scheme, added, aggregate.entries, aggregate.publicKeys, aggregate.keyIndices)
    requires |messages| == |added| && forall i :: 0 <= i < |added| ==> messages[i] == added[i].message
    ensures AggregateFlags(scheme, aggregate, messages) == Flags(scheme, added)
    ensures Tally(AggregateFlags(scheme, aggregate, messages)) == Tally(Flags(scheme, added))
  {
    hide MessageHash, UniqueKeys, Tally;
  }
}
