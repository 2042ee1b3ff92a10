/** The versioned transaction (web3/transaction_versioned.go): signing it, and its wire form, which also
    reads what a legacy transaction writes. */
module VersionedTransactions {
  import opened Basics
  import opened Buffers
  import opened Messages
  import opened Wire
  import opened LegacyCompile

  // ---------- What Sign does to the signature slots ----------

  /** The keys that sign: slicing past the static keys is a fault. */
  function SignerPubkeys(m: VersionedMessage): Result<seq<PublicKey>> {
    var n := m.Header().numRequiredSignatures;
    if 0 <= n <= |m.StaticAccountKeys()| then Success(m.StaticAccountKeys()[..n]) else Failure(Panic)
  }

  datatype Slots = Slots(result: Result<()>, signatures: seq<Signature>)

  /** Each signer in turn writes the slot of its key, up to the first failure. */
  function FillSlots(signatures: seq<Signature>, keys: seq<PublicKey>, data: seq<byte>, signers: seq<Signer>): Slots
    decreases |signers|
  {
    if signers == [] then Slots(Success(()), signatures)
    else
      var i := FindIndex(keys, signers[0].publicKey);
      if i < 0 then Slots(Failure(NotASigner), signatures)
      else
        match signers[0].sign(data)
        case Failure(e) => Slots(Failure(e), signatures)
        case Success(signature) =>
          if i >= |signatures| then Slots(Failure(Panic), signatures)
          else FillSlots(signatures[i := signature], keys, data, signers[1..])
  }

  function SignSlots(signatures: seq<Signature>, m: VersionedMessage, signers: seq<Signer>): Slots {
    match SignerPubkeys(m)
    case Failure(e) => Slots(Failure(e), signatures)
    case Success(keys) => FillSlots(signatures, keys, EncodeVersioned(m), signers)
  }

  /** What the last of the signers with a key answers: it overwrites the earlier ones. */
  function LastAnswer(signers: seq<Signer>, data: seq<byte>, key: PublicKey): Option<Result<Signature>> {
    if signers == [] then None
    else
      match LastAnswer(signers[1..], data, key)
      case Some(answer) => Some(answer)
      case None => if signers[0].publicKey == key then Some(signers[0].sign(data)) else None
  }

  ghost predicate CanSign(s: Signer, keys: seq<PublicKey>, data: seq<byte>, slots: nat) {
    s.publicKey in keys && s.sign(data).Success? && FindIndex(keys, s.publicKey) < slots
  }

  /** Signing succeeds exactly when every signer's key is a required one with a slot and every signer
      answers. */
  lemma {:induction false} FillsWhenAllCanSign(
    signatures: seq<Signature>, keys: seq<PublicKey>, data: seq<byte>, signers: seq<Signer>)
    ensures FillSlots(signatures, keys, data, signers).result.Success? <==>
            forall i :: 0 <= i < |signers| ==> CanSign(signers[i], keys, data, |signatures|)
    decreases |signers|
  {
    hide FindIndex;
    if signers == [] {
    } else {
      var i := FindIndex(keys, signers[0].publicKey);
      if CanSign(signers[0], keys, data, |signatures|) {
        FillsWhenAllCanSign(signatures[i := signers[0].sign(data).value], keys, data, signers[1..]);
      }
      assert forall j :: 0 < j < |signers| ==> signers[j] == signers[1..][j - 1];
      assert forall j :: 0 <= j < |signers| - 1 ==> signers[1..][j] == signers[j + 1];
    }
  }

  /** After a successful Sign the slot at the first position of a key holds its last signer's answer to the
      message bytes; every other slot is untouched. */
  lemma {:induction false} SlotsHoldAnswers(
    signatures: seq<Signature>, keys: seq<PublicKey>, data: seq<byte>, signers: seq<Signer>)
    requires FillSlots(signatures, keys, data, signers).result.Success?
    ensures var after := FillSlots(signatures, keys, data, signers).signatures;
            && |after| == |signatures|
            && forall i :: 0 <= i < |signatures| ==> SlotHolds(signatures[i], after[i], keys, data, signers, i)
    decreases |signers|
  {
    hide FindIndex;
    if signers == [] {
    } else {
      var k := signers[0].publicKey;
      var p := FindIndex(keys, k);
      var filled := signatures[p := signers[0].sign(data).value];
      SlotsHoldAnswers(filled, keys, data, signers[1..]);
      var after := FillSlots(signatures, keys, data, signers).signatures;
      forall i | 0 <= i < |signatures| ensures SlotHolds(signatures[i], after[i], keys, data, signers, i) {
        assert SlotHolds(filled[i], after[i], keys, data, signers[1..], i);
      }
    }
  }

  ghost predicate SlotHolds(
    before: Signature, after: Signature, keys: seq<PublicKey>, data: seq<byte>, signers: seq<Signer>, i: nat)
  {
    if i < |keys| && FindIndex(keys, keys[i]) == i then
      match LastAnswer(signers, data, keys[i])
      case Some(answer) => answer == Success(after)
      case None => after == before
    else after == before
  }

  /** A required signer: one of the first static keys the header counts as signers. */
  ghost predicate SignerSlot(m: VersionedMessage, slots: nat, k: PublicKey) {
    exists p :: 0 <= p < slots && FirstAt(m, p, k)
  }

  /** The first position of a key among the required signers. */
  ghost predicate FirstAt(m: VersionedMessage, p: nat, k: PublicKey) {
    var keys := m.StaticAccountKeys();
    && p < m.Header().numRequiredSignatures && p < |keys| && keys[p] == k
    && forall q :: 0 <= q < p ==> keys[q] != k
  }

  lemma FirstAtIndex(m: VersionedMessage, keys: seq<PublicKey>, p: nat, k: PublicKey)
    requires SignerPubkeys(m) == Success(keys)
    ensures FirstAt(m, p, k) <==> FindIndex(keys, k) == p
  {
    hide FindIndex;
    var i := FindIndex(keys, k);
    if FirstAt(m, p, k) {
      assert keys[p] == k;
    }
    if i == p {
      assert forall q :: 0 <= q < p ==> keys[q] == m.StaticAccountKeys()[q];
    }
  }

  /** Sign succeeds exactly when the header's signers are among the static keys and every signer given has a key among
      them, with a slot, and answers to the serialized message. Then every slot that a given signer's key is first at
      holds the last answer of that key's signers to those bytes, which are the ones sent behind the signatures; every
      other slot is untouched. */
  lemma SignedSlots(signatures: seq<Signature>, m: VersionedMessage, signers: seq<Signer>)
    ensures var after, n, data := SignSlots(signatures, m, signers), m.Header().numRequiredSignatures,
              EncodeVersioned(m);
            && (after.result.Success? <==>
                  && 0 <= n <= |m.StaticAccountKeys()|
                  && forall i :: 0 <= i < |signers| ==>
                       SignerSlot(m, |signatures|, signers[i].publicKey) && signers[i].sign(data).Success?)
            && (after.result.Success? ==>
                  && |after.signatures| == |signatures|
                  && EncodeSigned(Signed(after.signatures, m)) ==
                       ShortVec(|signatures|) + EncodeSignatures(after.signatures) + data
                  && forall p, k :: 0 <= p < |signatures| && FirstAt(m, p, k) ==>
                       match LastAnswer(signers, data, k)
                       case Some(answer) => answer == Success(after.signatures[p])
                       case None => after.signatures[p] == signatures[p])
            && (after.result.Success? ==>
                  forall p :: 0 <= p < |signatures| && (forall k :: !FirstAt(m, p, k)) ==>
                    after.signatures[p] == signatures[p])
  {
    hide EncodeVersioned, FindIndex, LastAnswer, EncodeSignatures, ShortVec, FirstAt;
    var data := EncodeVersioned(m);
    match SignerPubkeys(m)
    case Failure(_) =>
    case Success(keys) =>
      FillsWhenAllCanSign(signatures, keys, data, signers);
      forall i | 0 <= i < |signers|
        ensures CanSign(signers[i], keys, data, |signatures|) <==>
                SignerSlot(m, |signatures|, signers[i].publicKey) && signers[i].sign(data).Success?
      {
        SlotIndex(m, keys, |signatures|, signers[i].publicKey);
      }
      hide FillSlots, CanSign;
      if FillSlots(signatures, keys, data, signers).result.Success? {
        SlotsHoldAnswers(signatures, keys, data, signers);
        var after := FillSlots(signatures, keys, data, signers).signatures;
        forall p, k | 0 <= p < |signatures| && FirstAt(m, p, k)
          ensures match LastAnswer(signers, data, k)
                  case Some(answer) => answer == Success(after[p])
                  case None => after[p] == signatures[p]
        {
          FirstAtIndex(m, keys, p, k);
          assert SlotHolds(signatures[p], after[p], keys, data, signers, p);
        }
        forall p | 0 <= p < |signatures| && (forall k :: !FirstAt(m, p, k)) ensures after[p] == signatures[p] {
          assert SlotHolds(signatures[p], after[p], keys, data, signers, p);
          if p < |keys| {
            FirstAtIndex(m, keys, p, keys[p]);
          }
        }
      }
  }

  lemma SlotIndex(m: VersionedMessage, keys: seq<PublicKey>, slots: nat, k: PublicKey)
    requires SignerPubkeys(m) == Success(keys)
    ensures SignerSlot(m, slots, k) <==> k in keys && FindIndex(keys, k) < slots
  {
    hide FindIndex, FirstAt;
    if k in keys {
      FirstAtIndex(m, keys, FindIndex(keys, k), k);
    }
    if SignerSlot(m, slots, k) {
      var p: nat :| p < slots && FirstAt(m, p, k);
      FirstAtIndex(m, keys, p, k);
    }
  }

  /** Why it fails: the required signers reach past the static keys, or the first signer that cannot sign has no key
      among them, does not answer, or has no slot, in this order. */
  lemma SignFails(signatures: seq<Signature>, m: VersionedMessage, signers: seq<Signer>, stop: nat)
    ensures var after, n, data := SignSlots(signatures, m, signers), m.Header().numRequiredSignatures,
              EncodeVersioned(m);
            && (n < 0 || n > |m.StaticAccountKeys()| ==> after == Slots(Failure(Panic), signatures))
            && (0 <= n <= |m.StaticAccountKeys()| && stop < |signers| && !CanSignHere(m, |signatures|, signers[stop])
                && (forall i :: 0 <= i < stop ==> CanSignHere(m, |signatures|, signers[i])) ==>
                  && after.result == Failure(
                       if !SignerSlot(m, n, signers[stop].publicKey) then NotASigner
                       else match signers[stop].sign(data) case Failure(e) => e case Success(_) => Panic)
                  && after.signatures == SignSlots(signatures, m, signers[..stop]).signatures)
  {
    hide EncodeVersioned, FindIndex, FirstAt, SignerSlot;
    match SignerPubkeys(m)
    case Failure(_) =>
    case Success(keys) =>
      if stop < |signers| && !CanSignHere(m, |signatures|, signers[stop])
        && forall i :: 0 <= i < stop ==> CanSignHere(m, |signatures|, signers[i])
      {
        forall i | 0 <= i <= stop
          ensures CanSignHere(m, |signatures|, signers[i]) <==>
                  CanSign(signers[i], keys, EncodeVersioned(m), |signatures|)
        {
          SlotIndex(m, keys, |signatures|, signers[i].publicKey);
        }
        SlotIndex(m, keys, |keys|, signers[stop].publicKey);
        FillStops(signatures, keys, EncodeVersioned(m), signers, stop);
      }
  }

  ghost predicate CanSignHere(m: VersionedMessage, slots: nat, s: Signer) {
    SignerSlot(m, slots, s.publicKey) && s.sign(EncodeVersioned(m)).Success?
  }

  lemma {:induction false} FillStops(
    signatures: seq<Signature>, keys: seq<PublicKey>, data: seq<byte>, signers: seq<Signer>, stop: nat)
    requires stop < |signers| && !CanSign(signers[stop], keys, data, |signatures|)
    requires forall i :: 0 <= i < stop ==> CanSign(signers[i], keys, data, |signatures|)
    ensures FillSlots(signatures, keys, data, signers) ==
            Slots(
              Failure(
                if signers[stop].publicKey !in keys then NotASigner
                else match signers[stop].sign(data) case Failure(e) => e case Success(_) => Panic),
              FillSlots(signatures, keys, data, signers[..stop]).signatures)
    decreases |signers|
  {
    hide FindIndex;
    if stop == 0 {
      assert signers[..0] == [];
    } else {
      var i := FindIndex(keys, signers[0].publicKey);
      assert CanSign(signers[0], keys, data, |signatures|);
      assert signers[..stop][1..] == signers[1..][..stop - 1] && signers[..stop][0] == signers[0];
      assert forall j :: 0 <= j < |signers| - 1 ==> signers[1..][j] == signers[j + 1];
      FillStops(signatures[i := signers[0].sign(data).value], keys, data, signers[1..], stop - 1);
    }
  }

  // ---------- The envelope ----------

  datatype Signed = Signed(signatures: seq<Signature>, message: VersionedMessage)

  function EncodeSigned(t: Signed): seq<byte> {
    Envelope(t.signatures, EncodeVersioned(t.message))
  }

  function ParseSignatures(data: seq<byte>, n: int): Result<Parsed<seq<Signature>>>
    decreases n
  {
    if n <= 0 then Success(Parsed([], data))
    else if |data| < 64 then Failure(Panic)
    else
      var more :- ParseSignatures(data[64..], n - 1);
      Success(Parsed([data[..64]] + more.value, more.rest))
  }

  /** The length guard multiplies in 64 bits, so a huge count can pass it and fault in the loop. */
  function ParseSigned(data: seq<byte>): Result<Signed> {
    var count :- ParseLength(data);
    if |count.rest| < AsInt64(64 * count.value) then Failure(EndOfInput)
    else
      var signatures :- ParseSignatures(count.rest, count.value);
      var message :- ParseVersioned(signatures.rest);
      Success(Signed(signatures.value, message))
  }

  lemma {:induction false} ParseSignaturesBack(signatures: seq<Signature>, rest: seq<byte>)
    ensures ParseSignatures(EncodeSignatures(signatures) + rest, |signatures|) == Success(Parsed(signatures, rest))
  {
    if signatures == [] {
      assert EncodeSignatures(signatures) + rest == rest;
    } else {
      var tail := EncodeSignatures(signatures[1..]) + rest;
      assert EncodeSignatures(signatures) + rest == signatures[0] + tail;
      SplitFront(signatures[0], tail);
      ParseSignaturesBack(signatures[1..], rest);
      assert signatures == [signatures[0]] + signatures[1..];
    }
  }

  lemma ParseSignedBack(t: Signed)
    requires 64 * |t.signatures| < INT64_LIMIT
    ensures ParseSigned(EncodeSigned(t)) ==
              match ParseVersioned(EncodeVersioned(t.message))
              case Success(m) => Success(Signed(t.signatures, m))
              case Failure(e) => Failure(e)
  {
    hide ParseVersioned, EncodeVersioned, ParseLength, ShortVec;
    var n, bytes := |t.signatures|, EncodeVersioned(t.message);
    Associate(ShortVec(n), EncodeSignatures(t.signatures), bytes);
    ParseLengthBack(n, EncodeSignatures(t.signatures) + bytes);
    SignaturesLength(t.signatures);
    ParseSignaturesBack(t.signatures, bytes);
  }

  /** Deserializing a serialized versioned transaction returns it exactly when its message comes back. */
  lemma SignedRoundTrip(t: Signed)
    requires 64 * |t.signatures| < INT64_LIMIT && GoSized(t.message)
    ensures ParseSigned(EncodeSigned(t)) == Success(t) <==> VersionedFits(t.message)
  {
    ParseSignedBack(t);
    VersionedRoundTrip(t.message);
    hide ParseVersioned, EncodeVersioned, VersionedFits, ParseSigned, EncodeSigned;
  }

  // ---------- Reading a legacy transaction ----------

  lemma {:induction false} InstructionsLength(ixs: seq<CompiledInstruction>)
    ensures |EncodeInstructions(ixs)| >= |ixs|
    ensures forall ix :: ix in ixs ==> |ix.accounts| + |ix.data| <= |EncodeInstructions(ixs)|
  {
    if ixs == [] {
    } else {
      InstructionsLength(ixs[1..]);
      assert ixs == [ixs[0]] + ixs[1..];
    }
  }

  /** A message of a few bytes has no part too long for a Go slice. */
  lemma SmallIsGoSized(m: Message)
    requires |EncodeMessage(m)| <= MAX_ALLOC
    ensures GoSized(Legacy(m))
  {
    KeysLength(m.accountKeys);
    InstructionsLength(m.instructions);
    hide EncodeKeys, EncodeInstructions, ShortVec;
  }

  /** The message with the cache of program ids that deserializing fills in. */
  function Inflated(m: Message): Message
    requires ProgramIndexesInRange(m.instructions, |m.accountKeys|)
  {
    m.(indexToProgramIds := ProgramIds(m.instructions, m.accountKeys))
  }

  lemma ExactIndexesInRange(ixs: seq<TransactionInstruction>, m: Message)
    requires IndexesExact(ixs, m)
    ensures ProgramIndexesInRange(m.instructions, |m.accountKeys|)
  {
    assert forall i :: 0 <= i < |ixs| ==> Names(m.accountKeys, m.instructions[i].programIdIndex, ixs[i].programId);
  }

  /** Whatever a legacy transaction's Serialize accepts, VersionedTransaction.Deserialize recovers: the same
      signatures in order and the same legacy message, exactly when its blockhash is 32 bytes. */
  lemma SerializedIsRecovered(t: TxState, verify: (PublicKey, seq<byte>, Signature) -> bool)
    requires SerializeOutcome(t, verify).Success?
    ensures CompileMessage(t).Success?
    ensures var m := CompileMessage(t).value;
            && ProgramIndexesInRange(m.instructions, |m.accountKeys|)
            && (ParseSigned(SerializeOutcome(t, verify).value)
                == Success(Signed(SignaturesOf(Compiled(t).signatures), Legacy(Inflated(m))))
                <==> |m.recentBlockhash| == 32)
  {
    hide CompileMessage, Compiled, EncodeMessage, ParseSigned, EncodeSigned, ShortVec;
    SerializedIsSmall(t, verify);
    SerializedIsVerified(t, verify);
    var m, pairs := CompileMessage(t).value, Compiled(t).signatures;
    ExactIndexesInRange(EffectiveInstructions(t), m);
    SerializedSize(t, verify, m, pairs);
    SameBytes(m, pairs);
    SignedRoundTrip(Signed(SignaturesOf(pairs), Legacy(Inflated(m))));
  }

  lemma SerializedSize(
    t: TxState, verify: (PublicKey, seq<byte>, Signature) -> bool, m: Message, pairs: seq<SignaturePubkeyPair>)
    requires |Envelope(SignaturesOf(pairs), EncodeMessage(m))| <= PACKET_DATA_SIZE
    requires ProgramIndexesInRange(m.instructions, |m.accountKeys|)
    ensures |pairs| < 256 && GoSized(Legacy(Inflated(m)))
  {
    EnvelopeLength(SignaturesOf(pairs), EncodeMessage(m));
    SmallIsGoSized(m);
    hide *;
  }

  /** The two envelopes are one; the cached program ids are not written. */
  lemma SameBytes(m: Message, pairs: seq<SignaturePubkeyPair>)
    requires ProgramIndexesInRange(m.instructions, |m.accountKeys|)
    ensures Envelope(SignaturesOf(pairs), EncodeMessage(m)) ==
            EncodeSigned(Signed(SignaturesOf(pairs), Legacy(Inflated(m))))
    ensures Inflated(m).recentBlockhash == m.recentBlockhash && Inflated(m).header == m.header
    ensures ByteHeader(m.header) && m.header.numRequiredSignatures < 0x80 ==>
              (VersionedFits(Legacy(Inflated(m))) <==> |m.recentBlockhash| == 32)
  {
    hide EncodeBody, ShortVec, EncodeSignatures, ProgramIds;
  }

  // ---------- The transaction ----------

  class VersionedTransaction {
    var signatures: seq<Signature>
    var message: VersionedMessage

    function State(): Signed
      reads this
    {
      Signed(signatures, message)
    }

    constructor (message: VersionedMessage, signatures: seq<Signature>)
      ensures State() == Signed(signatures, message)
    {
      this.message, this.signatures := message, signatures;
    }

    method Sign(signers: seq<Signer>) returns (r: Result<()>)
      modifies this`signatures
      ensures Slots(r, signatures) == SignSlots(old(signatures), message, signers)
    {
      var messageData := SerializeVersioned(message);
      var n := message.Header().numRequiredSignatures;
      if n < 0 || n > |message.StaticAccountKeys()| {
        return Failure(Panic);
      }
      var signerPubkeys := message.StaticAccountKeys()[..n];
      for i := 0 to |signers|
        invariant FillSlots(old(signatures), signerPubkeys, messageData, signers)
               == FillSlots(signatures, signerPubkeys, messageData, signers[i..])
      {
        assert signers[i..][1..] == signers[i + 1..];
        var signerIndex := FindIndex(signerPubkeys, signers[i].publicKey);
        if signerIndex < 0 {
          return Failure(NotASigner);
        }
        var ret :- signers[i].sign(messageData);
        if signerIndex >= |signatures| {
          return Failure(Panic);
        }
        signatures := signatures[signerIndex := ret];
      }
      r := Success(());
    }

    /** A key that does not sign, or has no slot, is a fault. */
    method AddSignature(publicKey: PublicKey, signature: Signature) returns (r: Result<()>)
      modifies this`signatures
      ensures r.Success? <==>
        && SignerPubkeys(message).Success? && publicKey in SignerPubkeys(message).value
        && FindIndex(SignerPubkeys(message).value, publicKey) < |old(signatures)|
      ensures r.Success? ==>
                signatures == old(signatures)[FindIndex(SignerPubkeys(message).value, publicKey) := signature]
      ensures r.Failure? ==> r.error == Panic && signatures == old(signatures)
    {
      var signerPubkeys :- SignerPubkeys(message);
      var signerIndex := FindIndex(signerPubkeys, publicKey);
      if signerIndex < 0 || signerIndex >= |signatures| {
        return Failure(Panic);
      }
      signatures := signatures[signerIndex := signature];
      r := Success(());
    }

    method Serialize() returns (output: seq<byte>)
      ensures output == EncodeSigned(State())
    {
      var serializedMessage := SerializeVersioned(message);
      var buf := new Buffer([]);
      buf.EncodeLength(|signatures|);
      ghost var start := buf.data;
      for i := 0 to |signatures|
        invariant buf.data + EncodeSignatures(signatures[i..]) == start + EncodeSignatures(signatures)
      {
        assert signatures[i..][1..] == signatures[i + 1..];
        Associate(buf.data, signatures[i], EncodeSignatures(signatures[i + 1..]));
        buf.Append(signatures[i]);
      }
      assert buf.data + EncodeSignatures([]) == buf.data;
      buf.Append(serializedMessage);
      output := buf.data;
    }

    /** The receiver is written only once everything has been read. */
    method Deserialize(bytes: seq<byte>) returns (r: Result<()>)
      modifies this
      ensures match ParseSigned(bytes)
              case Success(t) => r == Success(()) && State() == t
              case Failure(e) => r == Failure(e) && State() == old(State())
    {
      hide ParseVersioned;
      var decoded :- DecodeLength(bytes);
      var signaturesLength := decoded.length;
      var data := Rest(bytes, decoded.size);
      if |data| < AsInt64(64 * signaturesLength) {
        return Failure(EndOfInput);
      }
      ghost var all := ParseSignatures(data, signaturesLength);
      var read: seq<Signature> := [];
      var i := 0;
      AfterNone(all);
      while i < signaturesLength
        invariant State() == old(State())
        invariant all == After(read, ParseSignatures(data, signaturesLength - i))
        decreases signaturesLength - i
      {
        if |data| < 64 {
          return Failure(Panic);
        }
        AfterOne(read, data[..64], ParseSignatures(data[64..], signaturesLength - i - 1));
        read := read + [data[..64]];
        data := data[64..];
        i := i + 1;
      }
      AfterAll(read, data);
      var v :- DeserializeVersioned(data);
      message, signatures := v, read;
      r := Success(());
    }
  }

  /** NewVersionedTransaction: as many signatures as required, or none, which stands for empty slots. */
  method NewVersionedTransaction(message: VersionedMessage, signatures: seq<Signature>)
    returns (r: Result<VersionedTransaction>)
    ensures r.Failure? <==> signatures != [] && |signatures| != message.Header().numRequiredSignatures
    ensures r.Failure? ==> r.error == SignatureCountMismatch
    ensures r.Success? ==> fresh(r.value) && r.value.message == message
    ensures r.Success? && signatures != [] ==> r.value.signatures == signatures
    ensures r.Success? && signatures == [] ==>
      && |r.value.signatures| ==
         (if message.Header().numRequiredSignatures < 0 then 0 else message.Header().numRequiredSignatures)
      && forall i :: 0 <= i < |r.value.signatures| ==> r.value.signatures[i] == ZeroSignature()
  {
    if |signatures| > 0 {
      if |signatures| != message.Header().numRequiredSignatures {
        return Failure(SignatureCountMismatch);
      }
      var given := new VersionedTransaction(message, signatures);
      return Success(given);
    }
    var defaultSignatures: seq<Signature> := [];
    var i := 0;
    while i < message.Header().numRequiredSignatures
      invariant |defaultSignatures| == i && (i == 0 || i <= message.Header().numRequiredSignatures)
      invariant forall j :: 0 <= j < i ==> defaultSignatures[j] == ZeroSignature()
    {
      defaultSignatures := defaultSignatures + [ZeroSignature()];
      i := i + 1;
    }
    var ret := new VersionedTransaction(message, defaultSignatures);
    r := Success(ret);
  }
}
