/** The `Transaction` class (web3/transaction_legacy.go): its methods, each proved to do what the
    functions of LegacyCompile and LegacyLayout say, for every map iteration order. */
module LegacyTransaction {
  import opened Basics
  import opened Buffers
  import opened Messages
  import opened AccountMetas
  import opened Wire
  import opened LegacyCompile
  import opened LegacyLayout

  /** TransactionInstructionSlice.Metas. */
  method CollectMetas(ixs: seq<TransactionInstruction>) returns (out: seq<AccountMeta>)
    ensures out == Metas(ixs)
  {
    out := [];
    for i := 0 to |ixs|
      invariant out == Metas(ixs[..i])
    {
      assert ixs[..i + 1][..i] == ixs[..i];
      out := out + ixs[i].keys;
      out := out + [AccountMeta(ixs[i].programId, false, false)];
    }
    assert ixs[..|ixs|] == ixs;
  }

  /** Culling duplicates, sorting and moving the payer first: the result does not depend on the order the
      map comes out in, nor on how the sort works. */
  method UniqueMetas(ixs: seq<TransactionInstruction>, payer: PublicKey) returns (metas: seq<AccountMeta>)
    ensures metas == CompiledMetas(ixs, payer)
  {
    var all := CollectMetas(ixs);
    var uniqueMap := InsertMetas(all);
    var values := Values(uniqueMap);
    var sorted := Sort(values);
    metas := MoveToFirst(sorted, payer);
    MergedValuesDistinct(all);
    PermutedListing(sorted, values, uniqueMap.Values);
    SortedUnique(sorted, Canonical(uniqueMap.Values), uniqueMap.Values);
    CanonicalWithout(uniqueMap.Values, payer);
  }

  /** Compiling the instructions against the account keys. A missing key would fault; none is missing. */
  method CompileAgainst(ixs: seq<TransactionInstruction>, keys: seq<PublicKey>) returns (r: seq<CompiledInstruction>)
    requires forall k :: k in KeySet(Metas(ixs)) ==> k in keys
    ensures r == CompileInstructions(ixs, keys)
  {
    r := [];
    for i := 0 to |ixs|
      invariant r == CompileInstructions(ixs[..i], keys)
    {
      var ix := ixs[i];
      InstructionKeysUsed(ixs, i);
      var programIdIndex := FindIndex(keys, ix.programId);
      assert programIdIndex >= 0;
      var accounts: seq<byte> := [];
      for j := 0 to |ix.keys|
        invariant |accounts| == j
        invariant forall k :: 0 <= k < j ==> accounts[k] == AsByte(FindIndex(keys, ix.keys[k].pubkey))
      {
        var index := FindIndex(keys, ix.keys[j].pubkey);
        assert index >= 0;
        accounts := accounts + [AsByte(index)];
      }
      assert accounts == CompileInstruction(ix, keys).accounts;
      r := r + [CompiledInstruction(AsByte(programIdIndex), accounts, ix.data)];
    }
    assert ixs[..|ixs|] == ixs;
  }

  class Transaction {
    var signatures: seq<SignaturePubkeyPair>
    var instructions: seq<TransactionInstruction>
    var feePayer: Option<PublicKey>
    var lastValidBlockHeight: Option<nat>
    var recentBlockhash: Option<Blockhash>
    var minNonceContextSlot: Option<nat>
    var nonceInfo: Option<NonceInformation>

    function State(): TxState
      reads this
    {
      TxState(signatures, instructions, feePayer, recentBlockhash, nonceInfo)
    }

    constructor ()
      ensures State() == TxState([], [], None, None, None)
      ensures lastValidBlockHeight.None? && minNonceContextSlot.None?
    {
      signatures, instructions, feePayer := [], [], None;
      lastValidBlockHeight, recentBlockhash, minNonceContextSlot, nonceInfo := None, None, None, None;
    }

    method AddInstruction(keys: seq<AccountMeta>, programId: PublicKey, data: seq<byte>)
      modifies this`instructions
      ensures instructions == old(instructions) + [TransactionInstruction(keys, programId, data)]
    {
      instructions := instructions + [TransactionInstruction(keys, programId, data)];
    }

    method SetFeePayer(payer: PublicKey)
      modifies this`feePayer
      ensures feePayer == Some(payer)
    {
      feePayer := Some(payer);
    }

    /** Every key with a signature slot must be listed; it is made a signer where it stands. */
    method PromoteSigners(metas: seq<AccountMeta>) returns (r: Result<seq<AccountMeta>>)
      requires NoDuplicates(Keys(metas))
      ensures r == if AllKnown(PairKeys(signatures), metas) then Success(Promote(metas, PairKeys(signatures)))
                   else Failure(UnknownSigner)
    {
      var uniqueMetas := metas;
      ghost var keys := PairKeys(signatures);
      assert uniqueMetas == Promote(metas, keys[..0]);
      for i := 0 to |signatures|
        invariant AllKnown(keys[..i], metas)
        invariant uniqueMetas == Promote(metas, keys[..i])
      {
        var idx := FindIndex(Keys(uniqueMetas), signatures[i].publicKey);
        assert keys[..i + 1] == keys[..i] + [signatures[i].publicKey];
        if idx == -1 {
          assert keys[i] !in Keys(metas);
          return Failure(UnknownSigner);
        }
        forall j | 0 <= j < |metas| && metas[j].pubkey == signatures[i].publicKey ensures j == idx {
          FindIndexUnique(Keys(metas), j);
        }
        if !uniqueMetas[idx].isSigner {
          uniqueMetas := uniqueMetas[idx := uniqueMetas[idx].(isSigner := true)];
        }
        assert uniqueMetas == Promote(metas, keys[..i + 1]);
      }
      assert keys[..|signatures|] == keys;
      r := Success(uniqueMetas);
    }

    /** compileMessage: one message, whatever order the map of metas is ranged over. */
    method CompileToMessage() returns (r: Result<Message>)
      ensures r == CompileMessage(State())
    {
      hide CompiledMetas, Promote, Arranged, HeaderOf;
      var blockhash := recentBlockhash;
      var ixs := instructions;
      if nonceInfo.Some? {
        blockhash := Some(nonceInfo.value.nonce);
        if instructions == [] {
          return Failure(Panic);
        }
        if instructions[0] != nonceInfo.value.nonceInstruction {
          ixs := [nonceInfo.value.nonceInstruction] + ixs;
        }
      }
      if blockhash.None? {
        return Failure(BlockhashRequired);
      }
      var payer;
      if feePayer.Some? {
        payer := feePayer.value;
      } else if |signatures| > 0 {
        payer := signatures[0].publicKey;
      } else {
        return Failure(FeePayerRequired);
      }
      var metas := UniqueMetas(ixs, payer);
      CompiledMetasFacts(ixs, payer);
      var promoted :- PromoteSigners(metas);
      var once := Anatomy(State());
      var header := ToHeader(promoted);
      var signedKeys, unsignedKeys := ToKeys(promoted);
      var accountKeys := signedKeys + unsignedKeys;
      assert accountKeys == Keys(Arranged(promoted)) by {
        ArrangedKeys(promoted);
      }
      forall k | k in KeySet(Metas(ixs)) ensures k in accountKeys {
        ArrangedKeyMembers(promoted, k);
      }
      var compiledInstructions := CompileAgainst(ixs, accountKeys);
      r := Success(Message(header, accountKeys, blockhash.value, compiledInstructions, map[]));
    }

    /** compile: the slots are kept if they match the signed keys, else emptied. */
    method Compile() returns (r: Result<Message>)
      modifies this`signatures
      ensures r == old(CompileMessage(State()))
      ensures State() == old(Compiled(State()))
    {
      hide CompileMessage;
      var message :- CompileToMessage();
      CompiledHeader(State());
      var signedKeys := message.accountKeys[..message.header.numRequiredSignatures];
      if |signatures| == |signedKeys| {
        var valid := true;
        for index := 0 to |signatures|
          invariant valid <==> forall i :: 0 <= i < index ==> signatures[i].publicKey == signedKeys[i]
        {
          if signedKeys[index] != signatures[index].publicKey {
            valid := false;
          }
        }
        if valid {
          assert PairKeys(signatures) == signedKeys;
          return Success(message);
        }
        assert PairKeys(signatures) != signedKeys by {
          var i :| 0 <= i < |signatures| && signatures[i].publicKey != signedKeys[i];
          assert PairKeys(signatures)[i] != signedKeys[i];
        }
      }
      signatures := Blank(signedKeys);
      r := Success(message);
    }

    /** _addSignature. */
    method AddSignature(pubkey: PublicKey, signature: Signature) returns (r: Result<()>)
      modifies this`signatures
      ensures match Fill(old(signatures), pubkey, signature)
              case Success(filled) => r == Success(()) && signatures == filled
              case Failure(e) => r == Failure(e) && signatures == old(signatures)
    {
      var index := FindIndex(PairKeys(signatures), pubkey);
      if index < 0 {
        return Failure(UnknownSigner);
      }
      signatures := signatures[index := signatures[index].(signature := signature)];
      r := Success(());
    }

    /** _partialSign. */
    method AddSignatures(message: Message, signers: seq<Signer>) returns (r: Result<()>)
      modifies this`signatures
      ensures Signing(r, signatures) == PartialSign(old(signatures), EncodeMessage(message), signers)
    {
      var signData := SerializeMessage(message);
      for i := 0 to |signers|
        invariant PartialSign(old(signatures), signData, signers) == PartialSign(signatures, signData, signers[i..])
      {
        assert signers[i..][1..] == signers[i + 1..];
        var sign :- signers[i].sign(signData);
        var _ :- AddSignature(signers[i].publicKey, sign);
      }
      r := Success(());
    }

    /** Sign: dedupe the signers, open their slots, compile and sign. */
    method Sign(signers: seq<Signer>) returns (r: Result<()>)
      modifies this`signatures
      ensures Signing(r, signatures) == SignOutcome(old(State()), signers)
    {
      var seen: set<PublicKey> := {};
      var uniqueSigners: seq<Signer> := [];
      for i := 0 to |signers|
        invariant uniqueSigners == Dedupe(signers[..i])
        invariant forall k :: k in seen <==> k in SignerKeys(uniqueSigners)
      {
        var k := signers[i].publicKey;
        assert signers[..i + 1][..i] == signers[..i];
        if k !in seen {
          seen := seen + {k};
          assert SignerKeys(uniqueSigners + [signers[i]]) == SignerKeys(uniqueSigners) + [k];
          uniqueSigners := uniqueSigners + [signers[i]];
        }
      }
      assert signers[..|signers|] == signers;
      signatures := Blank(SignerKeys(uniqueSigners));
      var message :- Compile();
      r := AddSignatures(message, uniqueSigners);
    }

    /** getMessageSignednessErrors, with every signature required. */
    method SignednessErrors(message: seq<byte>, verify: (PublicKey, seq<byte>, Signature) -> bool)
      returns (missing: seq<PublicKey>, invalid: seq<PublicKey>)
      ensures missing == Missing(signatures) && invalid == Invalid(signatures, message, verify)
    {
      missing, invalid := [], [];
      for i := 0 to |signatures|
        invariant missing == Missing(signatures[..i]) && invalid == Invalid(signatures[..i], message, verify)
      {
        var entry := signatures[i];
        assert signatures[..i + 1][..i] == signatures[..i];
        if entry.signature == ZeroSignature() {
          missing := missing + [entry.publicKey];
        } else if !verify(entry.publicKey, message, entry.signature) {
          invalid := invalid + [entry.publicKey];
        }
      }
      assert signatures[..|signatures|] == signatures;
    }

    /** serialize: the envelope, if it fits one packet. */
    method SerializeEnvelope(signData: seq<byte>) returns (r: Result<seq<byte>>)
      ensures r == (if |signatures| >= 256 then Failure(TooManySignatures)
                    else if |Envelope(SignaturesOf(signatures), signData)| > PACKET_DATA_SIZE then
                      Failure(TransactionTooLarge)
                    else Success(Envelope(SignaturesOf(signatures), signData)))
    {
      if |signatures| >= 256 {
        return Failure(TooManySignatures);
      }
      var buf := new Buffer([]);
      buf.EncodeLength(|signatures|);
      ghost var start, all := buf.data, SignaturesOf(signatures);
      for i := 0 to |signatures|
        invariant buf.data + EncodeSignatures(all[i..]) == start + EncodeSignatures(all)
      {
        assert all[i..][1..] == all[i + 1..];
        Associate(buf.data, all[i], EncodeSignatures(all[i + 1..]));
        buf.Append(signatures[i].signature);
      }
      assert buf.data + EncodeSignatures([]) == buf.data;
      buf.Append(signData);
      assert buf.data == Envelope(SignaturesOf(signatures), signData);
      if |buf.data| > PACKET_DATA_SIZE {
        return Failure(TransactionTooLarge);
      }
      r := Success(buf.data);
    }

    /** Serialize. */
    method Serialize(verify: (PublicKey, seq<byte>, Signature) -> bool) returns (r: Result<seq<byte>>)
      modifies this`signatures
      ensures r == old(SerializeOutcome(State(), verify))
      ensures State() == old(Compiled(State()))
    {
      hide Envelope, Missing, Invalid, CompileMessage;
      var message :- Compile();
      var signData := SerializeMessage(message);
      var missing, invalid := SignednessErrors(signData, verify);
      if missing != [] || invalid != [] {
        return Failure(SignatureVerification);
      }
      r := SerializeEnvelope(signData);
    }
  }

  /** PopulateTransaction; reading past the keys of the message is a fault. */
  method PopulateTransaction(message: Message, signatures: seq<Signature>) returns (r: Result<Transaction>)
    ensures r.Success? <==> Populatable(message, signatures)
    ensures r.Success? ==> fresh(r.value) && r.value.State() == Populated(message, signatures)
    ensures r.Success? ==> r.value.lastValidBlockHeight.None? && r.value.minNonceContextSlot.None?
    ensures r.Failure? ==> r.error == Panic
  {
    var transaction := new Transaction();
    transaction.recentBlockhash := Some(message.recentBlockhash);
    if message.header.numRequiredSignatures > 0 {
      if |message.accountKeys| == 0 {
        return Failure(Panic);
      }
      transaction.SetFeePayer(message.accountKeys[0]);
    }
    if |signatures| > |message.accountKeys| {
      return Failure(Panic);
    }
    for index := 0 to |signatures|
      invariant transaction.feePayer ==
        (if message.header.numRequiredSignatures > 0 then Some(message.accountKeys[0]) else None)
      invariant transaction.recentBlockhash == Some(message.recentBlockhash) && transaction.nonceInfo == None
      invariant transaction.instructions == []
      invariant transaction.lastValidBlockHeight.None? && transaction.minNonceContextSlot.None?
      invariant |transaction.signatures| == index
      invariant forall i :: 0 <= i < index ==>
        transaction.signatures[i] == SignaturePubkeyPair(signatures[i], message.accountKeys[i])
    {
      transaction.signatures := transaction.signatures +
        [SignaturePubkeyPair(signatures[index], message.accountKeys[index])];
    }
    ghost var pairs := transaction.signatures;
    ghost var before := transaction.State();
    for i := 0 to |message.instructions|
      invariant transaction.State() == before.(instructions := transaction.instructions)
      invariant transaction.lastValidBlockHeight.None? && transaction.minNonceContextSlot.None?
      invariant forall j :: 0 <= j < i ==> InstructionInRange(message, message.instructions[j])
      invariant |transaction.instructions| == i
      invariant forall j :: 0 <= j < i ==>
        transaction.instructions[j] == PopulatedInstruction(message, PairKeys(pairs), message.instructions[j])
    {
      var ins := message.instructions[i];
      var keys :- PopulateKeys(message, transaction, ins.accounts);
      if ins.programIdIndex >= |message.accountKeys| {
        return Failure(Panic);
      }
      assert keys == PopulatedInstruction(message, PairKeys(pairs), ins).keys;
      transaction.AddInstruction(keys, message.accountKeys[ins.programIdIndex], ins.data);
    }
    assert Populatable(message, signatures);
    assert transaction.signatures == Populated(message, signatures).signatures;
    assert transaction.instructions == Populated(message, signatures).instructions;
    r := Success(transaction);
  }

  /** The inner loops: the flags of each account, a signer if a signature is held for its key. */
  method PopulateKeys(message: Message, transaction: Transaction, accounts: seq<byte>)
    returns (r: Result<seq<AccountMeta>>)
    ensures r.Success? <==> forall j :: 0 <= j < |accounts| ==> accounts[j] < |message.accountKeys|
    ensures r.Success? ==> |r.value| == |accounts| && forall j :: 0 <= j < |accounts| ==>
              r.value[j] == PopulatedMeta(message, PairKeys(transaction.signatures), accounts[j])
    ensures r.Failure? ==> r.error == Panic
  {
    var keys: seq<AccountMeta> := [];
    for j := 0 to |accounts|
      invariant |keys| == j
      invariant forall k :: 0 <= k < j ==> accounts[k] < |message.accountKeys|
      invariant forall k :: 0 <= k < j ==>
                keys[k] == PopulatedMeta(message, PairKeys(transaction.signatures), accounts[k])
    {
      var account := accounts[j];
      if account >= |message.accountKeys| {
        return Failure(Panic);
      }
      var pubkey := message.accountKeys[account];
      var isSigner := false;
      for s := 0 to |transaction.signatures|
        invariant isSigner <==> pubkey in PairKeys(transaction.signatures)[..s]
      {
        assert PairKeys(transaction.signatures)[..s + 1] ==
          PairKeys(transaction.signatures)[..s] + [transaction.signatures[s].publicKey];
        if transaction.signatures[s].publicKey == pubkey {
          isSigner := true;
        }
      }
      assert PairKeys(transaction.signatures)[..|transaction.signatures|] == PairKeys(transaction.signatures);
      if !isSigner {
        isSigner := IsSignerIndex(message.header, account);
      }
      keys := keys + [AccountMeta(pubkey, isSigner, LegacyIsAccountWritable(message, account))];
    }
    r := Success(keys);
  }
}
