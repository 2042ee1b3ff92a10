/** Compiling, signing and serializing a legacy transaction (web3/transaction_legacy.go): what each
    operation does to the transaction's state, as functions on `TxState`, and what follows for
    sequences of operations. The class that carries the state is in LegacyTransaction. */
module LegacyCompile {
  import opened Basics
  import opened Buffers
  import opened Messages
  import opened AccountMetas
  import opened Wire

  const PACKET_DATA_SIZE := 1280 - 40 - 8

  datatype SignaturePubkeyPair = SignaturePubkeyPair(signature: Signature, publicKey: PublicKey)

  /** A key and what it answers to a request to sign. */
  datatype Signer = Signer(publicKey: PublicKey, sign: seq<byte> -> Result<Signature>)

  datatype NonceInformation = NonceInformation(nonce: Blockhash, nonceInstruction: TransactionInstruction)

  datatype TxState = TxState(
    signatures: seq<SignaturePubkeyPair>, instructions: seq<TransactionInstruction>, feePayer: Option<PublicKey>,
    recentBlockhash: Option<Blockhash>, nonceInfo: Option<NonceInformation>)

  function PairKeys(pairs: seq<SignaturePubkeyPair>): (k: seq<PublicKey>)
    ensures |k| == |pairs|
  {
    seq(|pairs|, i requires 0 <= i < |pairs| => pairs[i].publicKey)
  }

  /** Empty signature slots for some keys. */
  function Blank(keys: seq<PublicKey>): (pairs: seq<SignaturePubkeyPair>)
    ensures PairKeys(pairs) == keys
  {
    seq(|keys|, i requires 0 <= i < |keys| => SignaturePubkeyPair(ZeroSignature(), keys[i]))
  }

  // ---------- compileMessage ----------

  /** A nonce transaction starts with its nonce instruction, added unless already there. */
  function EffectiveInstructions(t: TxState): seq<TransactionInstruction> {
    match t.nonceInfo
    case None => t.instructions
    case Some(n) =>
      if t.instructions != [] && t.instructions[0] == n.nonceInstruction then t.instructions
      else [n.nonceInstruction] + t.instructions
  }

  function EffectiveBlockhash(t: TxState): Option<Blockhash> {
    match t.nonceInfo
    case None => t.recentBlockhash
    case Some(n) => Some(n.nonce)
  }

  /** The explicit fee payer, or the first key with a signature slot. */
  function PayerOf(t: TxState): Option<PublicKey> {
    if t.feePayer.Some? then t.feePayer
    else if t.signatures != [] then Some(t.signatures[0].publicKey)
    else None
  }

  /** The payer, then every other key used, merged and sorted by priority. */
  ghost function CompiledMetas(instructions: seq<TransactionInstruction>, payer: PublicKey): seq<AccountMeta> {
    [AccountMeta(payer, true, true)] + Canonical(WithoutKey(MergeMetas(Metas(instructions)).Values, payer))
  }

  /** Keys with a signature slot are made signers where they stand, after sorting. */
  function Promote(metas: seq<AccountMeta>, keys: seq<PublicKey>): (r: seq<AccountMeta>)
    ensures Keys(r) == Keys(metas)
  {
    seq(|metas|, i requires 0 <= i < |metas| => metas[i].(isSigner := metas[i].isSigner || metas[i].pubkey in keys))
  }

  /** Indexes are cut to a byte. */
  function CompileInstruction(ix: TransactionInstruction, keys: seq<PublicKey>): CompiledInstruction {
    CompiledInstruction(
      AsByte(FindIndex(keys, ix.programId)),
      seq(|ix.keys|, j requires 0 <= j < |ix.keys| => AsByte(FindIndex(keys, ix.keys[j].pubkey))),
      ix.data)
  }

  function CompileInstructions(ixs: seq<TransactionInstruction>, keys: seq<PublicKey>): seq<CompiledInstruction> {
    seq(|ixs|, i requires 0 <= i < |ixs| => CompileInstruction(ixs[i], keys))
  }

  function MessageOf(metas: seq<AccountMeta>, blockhash: Blockhash, ixs: seq<TransactionInstruction>): Message {
    var keys := Keys(Arranged(metas));
    Message(HeaderOf(metas), keys, blockhash, CompileInstructions(ixs, keys), map[])
  }

  ghost predicate AllKnown(keys: seq<PublicKey>, metas: seq<AccountMeta>) {
    forall i :: 0 <= i < |keys| ==> keys[i] in Keys(metas)
  }

  /** What compileMessage returns: one message, whatever order the map of metas is ranged over.
      Looking at the first instruction of an empty nonce transaction is a fault. */
  ghost function CompileMessage(t: TxState): Result<Message> {
    if t.nonceInfo.Some? && t.instructions == [] then Failure(Panic)
    else if EffectiveBlockhash(t).None? then Failure(BlockhashRequired)
    else if PayerOf(t).None? then Failure(FeePayerRequired)
    else
      var ixs := EffectiveInstructions(t);
      var metas := CompiledMetas(ixs, PayerOf(t).value);
      var keys := PairKeys(t.signatures);
      if !AllKnown(keys, metas) then Failure(UnknownSigner)
      else Success(MessageOf(Promote(metas, keys), EffectiveBlockhash(t).value, ixs))
  }

  function SignedKeys(m: Message): seq<PublicKey> {
    var n := m.header.numRequiredSignatures;
    if 0 <= n <= |m.accountKeys| then m.accountKeys[..n] else []
  }

  /** The signature slots after compile: kept if they match the signed keys, else emptied. */
  function SlotsAfter(m: Message, signatures: seq<SignaturePubkeyPair>): seq<SignaturePubkeyPair> {
    if PairKeys(signatures) == SignedKeys(m) then signatures else Blank(SignedKeys(m))
  }

  // ---------- Facts about the compiled list ----------

  lemma OtherMetas(ms: seq<AccountMeta>, payer: PublicKey, m: AccountMeta)
    ensures m in WithoutKey(MergeMetas(ms).Values, payer) <==>
            m.pubkey in KeySet(ms) && m.pubkey != payer &&
              m == AccountMeta(m.pubkey, Signs(ms, m.pubkey), Writes(ms, m.pubkey))
  {
    var all := MergeMetas(ms);
    if m.pubkey in KeySet(ms) && m == AccountMeta(m.pubkey, Signs(ms, m.pubkey), Writes(ms, m.pubkey)) {
      assert m.pubkey in all && all[m.pubkey] == m;
    }
  }

  lemma CompiledMetasMembers(ixs: seq<TransactionInstruction>, payer: PublicKey, m: AccountMeta)
    ensures m in CompiledMetas(ixs, payer) <==>
            m.pubkey in KeySet(Metas(ixs)) + {payer} && m == MergedMeta(ixs, payer, m.pubkey)
  {
    var ms := Metas(ixs);
    var others := WithoutKey(MergeMetas(ms).Values, payer);
    OtherMetas(ms, payer, m);
    var tail := Canonical(others);
    assert m in tail <==> m in others;
    assert CompiledMetas(ixs, payer)[1..] == tail;
    assert m in CompiledMetas(ixs, payer) <==> m == CompiledMetas(ixs, payer)[0] || m in tail;
  }

  lemma CompiledMetasFacts(ixs: seq<TransactionInstruction>, payer: PublicKey)
    ensures var metas := CompiledMetas(ixs, payer);
            && NoDuplicates(Keys(metas)) && Grouped(metas)
            && metas[0] == AccountMeta(payer, true, true)
            && (forall m :: m in metas <==>
                 m.pubkey in KeySet(Metas(ixs)) + {payer} && m == MergedMeta(ixs, payer, m.pubkey))
  {
    var metas := CompiledMetas(ixs, payer);
    forall m ensures m in metas <==> m.pubkey in KeySet(Metas(ixs)) + {payer} && m == MergedMeta(ixs, payer, m.pubkey) {
      CompiledMetasMembers(ixs, payer, m);
    }
    var others := WithoutKey(MergeMetas(Metas(ixs)).Values, payer);
    assert others !! {metas[0]};
    PrependListing(metas[0], Canonical(others), others);
    SortedIsGrouped(Canonical(others));
    DistinctMetas(metas);
  }

  lemma PrependListing(m: AccountMeta, s: seq<AccountMeta>, elems: set<AccountMeta>)
    requires Lists(s, elems) && m !in elems
    ensures NoDuplicates([m] + s)
  {
  }

  lemma KeysMembers(metas: seq<AccountMeta>, k: PublicKey)
    ensures k in Keys(metas) <==> exists m :: m in metas && m.pubkey == k
  {
    if k in Keys(metas) {
      var i :| 0 <= i < |metas| && Keys(metas)[i] == k;
      assert metas[i] in metas;
    }
    if m :| m in metas && m.pubkey == k {
      var i :| 0 <= i < |metas| && metas[i] == m;
      assert Keys(metas)[i] == k;
    }
  }

  lemma ArrangedKeyMembers(metas: seq<AccountMeta>, k: PublicKey)
    ensures k in Keys(Arranged(metas)) <==> k in Keys(metas)
  {
    ArrangedMembers(metas);
    KeysMembers(metas, k);
    KeysMembers(Arranged(metas), k);
  }

  lemma SignedKeysOf(metas: seq<AccountMeta>, blockhash: Blockhash, ixs: seq<TransactionInstruction>)
    ensures var m := MessageOf(metas, blockhash, ixs);
            && 0 <= m.header.numRequiredSignatures <= |m.accountKeys| == |metas|
            && SignedKeys(m) == Keys(Signed(metas))
  {
    SplitBySigner(metas);
    ArrangedMembers(metas);
  }

  /** The metas behind a compiled message: the payer first, every key used once. */
  lemma Anatomy(t: TxState) returns (once: seq<AccountMeta>)
    requires CompileMessage(t).Success?
    ensures PayerOf(t).Some? && EffectiveBlockhash(t).Some?
    ensures once == Promote(CompiledMetas(EffectiveInstructions(t), PayerOf(t).value), PairKeys(t.signatures))
    ensures CompileMessage(t).value == MessageOf(once, EffectiveBlockhash(t).value, EffectiveInstructions(t))
    ensures once != [] && once[0] == AccountMeta(PayerOf(t).value, true, true) && NoDuplicates(Keys(once))
    ensures forall k :: k in Keys(once) <==> k in KeySet(Metas(EffectiveInstructions(t))) + {PayerOf(t).value}
  {
    var ixs, payer := EffectiveInstructions(t), PayerOf(t).value;
    var metas := CompiledMetas(ixs, payer);
    once := Promote(metas, PairKeys(t.signatures));
    CompiledMetasFacts(ixs, payer);
    CompiledKeysUsed(ixs, payer);
  }

  /** Compiling succeeds exactly with a blockhash, a payer, and a use for the key of every signature slot;
      and a nonce transaction must have an instruction to look at. */
  lemma CompileSucceeds(t: TxState)
    ensures CompileMessage(t).Success? <==>
              && (t.nonceInfo.Some? ==> t.instructions != [])
              && EffectiveBlockhash(t).Some? && PayerOf(t).Some?
              && forall k :: k in PairKeys(t.signatures) ==>
                   k in KeySet(Metas(EffectiveInstructions(t))) + {PayerOf(t).value}
  {
    hide CompiledMetas, Metas, EffectiveInstructions, MessageOf, Promote;
    if PayerOf(t).Some? {
      var keys, metas := PairKeys(t.signatures), CompiledMetas(EffectiveInstructions(t), PayerOf(t).value);
      CompiledKeysUsed(EffectiveInstructions(t), PayerOf(t).value);
      hide KeySet, Keys;
      assert AllKnown(keys, metas) <==> forall k :: k in keys ==> k in Keys(metas);
    }
  }

  lemma CompiledKeysUsed(ixs: seq<TransactionInstruction>, payer: PublicKey)
    ensures forall k :: k in Keys(CompiledMetas(ixs, payer)) <==> k in KeySet(Metas(ixs)) + {payer}
  {
    CompiledMetasFacts(ixs, payer);
    var metas := CompiledMetas(ixs, payer);
    hide CompiledMetas, Metas;
    forall k ensures k in Keys(metas) <==> k in KeySet(Metas(ixs)) + {payer} {
      KeysMembers(metas, k);
      assert k in KeySet(Metas(ixs)) + {payer} ==> MergedMeta(ixs, payer, k) in metas;
    }
  }

  // ---------- compile: the message is stable on the state it leaves behind ----------

  /** The state compile leaves. */
  ghost function Compiled(t: TxState): TxState {
    match CompileMessage(t)
    case Success(m) => t.(signatures := SlotsAfter(m, t.signatures))
    case Failure(_) => t
  }

  /** Compilation sees only the keys of the signature slots. */
  lemma CompileSeesKeys(t: TxState, signatures: seq<SignaturePubkeyPair>)
    requires PairKeys(signatures) == PairKeys(t.signatures)
    ensures CompileMessage(t.(signatures := signatures)) == CompileMessage(t)
    ensures CompileMessage(t).Success? ==>
              (SlotsAfter(CompileMessage(t).value, signatures) == signatures
               <==> PairKeys(t.signatures) == SignedKeys(CompileMessage(t).value)
                    || signatures == Blank(SignedKeys(CompileMessage(t).value)))
  {
    var t' := t.(signatures := signatures);
    if t.signatures != [] {
      assert PairKeys(signatures)[0] == PairKeys(t.signatures)[0];
    }
    assert PayerOf(t') == PayerOf(t);
  }

  /** Promoting the keys that already sign changes nothing: the second promotion finds the first one done. */
  lemma PromoteAgain(metas: seq<AccountMeta>, keys: seq<PublicKey>)
    requires NoDuplicates(Keys(metas))
    ensures Promote(metas, Keys(Signed(Promote(metas, keys)))) == Promote(metas, keys)
  {
    var once := Promote(metas, keys);
    var signers := Keys(Signed(once));
    forall i | 0 <= i < |metas| ensures metas[i].isSigner || metas[i].pubkey in signers <==> once[i].isSigner {
      KeysMembers(Signed(once), metas[i].pubkey);
      if once[i].isSigner {
        SplitMembers(once, once[i]);
        assert once[i] in once;
      }
      if metas[i].pubkey in signers {
        var m :| m in Signed(once) && m.pubkey == metas[i].pubkey;
        SplitMembers(once, m);
        var j :| 0 <= j < |once| && once[j] == m;
        assert Keys(metas)[j] == Keys(metas)[i];
      }
    }
  }

  /** Compiling again, whatever map order is met, gives the identical message and keeps every slot:
      promoted signers and an implicit fee payer included. */
  lemma CompileStable(t: TxState)
    requires CompileMessage(t).Success?
    ensures CompileMessage(Compiled(t)) == CompileMessage(t)
    ensures Compiled(Compiled(t)) == Compiled(t)
    ensures PairKeys(Compiled(t).signatures) == SignedKeys(CompileMessage(t).value)
  {
    var ixs, payer, keys := EffectiveInstructions(t), PayerOf(t).value, PairKeys(t.signatures);
    var metas := CompiledMetas(ixs, payer);
    var once := Promote(metas, keys);
    var t' := Compiled(t);
    CompiledMetasFacts(ixs, payer);
    SignedKeysOf(once, EffectiveBlockhash(t).value, ixs);
    PromoteAgain(metas, keys);
    var signers := Keys(Signed(once));
    assert PairKeys(t'.signatures) == signers;
    SignedFirst(once);
    assert PayerOf(t') == Some(payer) by {
      assert signers[0] == payer && t'.signatures[0].publicKey == PairKeys(t'.signatures)[0];
    }
    forall i | 0 <= i < |signers| ensures signers[i] in Keys(metas) {
      SplitMembers(once, Signed(once)[i]);
      KeysMembers(once, signers[i]);
    }
  }

  /** A signer at the front of the list stays at the front. */
  lemma {:induction false} SignedFirst(metas: seq<AccountMeta>)
    requires metas != [] && metas[0].isSigner
    ensures Signed(metas) != [] && Signed(metas)[0] == metas[0]
  {
    if |metas| == 1 {
    } else {
      SignedFirst(metas[..|metas| - 1]);
    }
  }

  // ---------- sign ----------

  /** The first signer for each key. */
  function Dedupe(signers: seq<Signer>): seq<Signer> {
    if signers == [] then []
    else
      var last := signers[|signers| - 1];
      var before := Dedupe(signers[..|signers| - 1]);
      if last.publicKey in SignerKeys(before) then before else before + [last]
  }

  function SignerKeys(signers: seq<Signer>): (k: seq<PublicKey>)
    ensures |k| == |signers|
  {
    seq(|signers|, i requires 0 <= i < |signers| => signers[i].publicKey)
  }

  /** _addSignature: fill the slot of a key. */
  function Fill(pairs: seq<SignaturePubkeyPair>, key: PublicKey, signature: Signature)
    : Result<seq<SignaturePubkeyPair>>
  {
    var i := FindIndex(PairKeys(pairs), key);
    if i < 0 then Failure(UnknownSigner) else Success(pairs[i := pairs[i].(signature := signature)])
  }

  datatype Signing = Signing(result: Result<()>, pairs: seq<SignaturePubkeyPair>)

  /** _partialSign: each signer in turn, stopping at the first failure with the slots filled so far. */
  function PartialSign(pairs: seq<SignaturePubkeyPair>, data: seq<byte>, signers: seq<Signer>): Signing
    decreases |signers|
  {
    if signers == [] then Signing(Success(()), pairs)
    else
      match signers[0].sign(data)
      case Failure(e) => Signing(Failure(e), pairs)
      case Success(signature) =>
        match Fill(pairs, signers[0].publicKey, signature)
        case Failure(e) => Signing(Failure(e), pairs)
        case Success(filled) => PartialSign(filled, data, signers[1..])
  }

  /** The state Sign compiles: one empty slot per distinct signer. */
  function WithSlots(t: TxState, signers: seq<Signer>): TxState {
    t.(signatures := Blank(SignerKeys(Dedupe(signers))))
  }

  ghost function SignOutcome(t: TxState, signers: seq<Signer>): Signing {
    var start := WithSlots(t, signers);
    match CompileMessage(start)
    case Failure(e) => Signing(Failure(e), start.signatures)
    case Success(m) => PartialSign(Compiled(start).signatures, EncodeMessage(m), Dedupe(signers))
  }

  /** What the first of the signers with a key answers. */
  function AnswerOf(signers: seq<Signer>, data: seq<byte>, key: PublicKey): Option<Result<Signature>> {
    if signers == [] then None
    else if signers[0].publicKey == key then Some(signers[0].sign(data))
    else AnswerOf(signers[1..], data, key)
  }

  /** After a successful signing each slot holds its signer's answer, or what it held before. */
  lemma {:induction false} PartialSignFills(pairs: seq<SignaturePubkeyPair>, data: seq<byte>, signers: seq<Signer>)
    requires NoDuplicates(PairKeys(pairs)) && NoDuplicates(SignerKeys(signers))
    requires PartialSign(pairs, data, signers).result.Success?
    ensures var after := PartialSign(pairs, data, signers).pairs;
            && PairKeys(after) == PairKeys(pairs)
            && forall i :: 0 <= i < |pairs| ==>
                 match AnswerOf(signers, data, pairs[i].publicKey)
                 case None => after[i] == pairs[i]
                 case Some(answer) => answer == Success(after[i].signature)
    decreases |signers|
  {
    if signers == [] {
    } else {
      var key := signers[0].publicKey;
      var filled := Fill(pairs, key, signers[0].sign(data).value).value;
      FillOne(pairs, key, signers[0].sign(data).value);
      TailKeys(signers);
      PartialSignFills(filled, data, signers[1..]);
      AnswerOfOthers(signers[1..], data, key);
    }
  }

  lemma {:induction false} AnswerOfOthers(signers: seq<Signer>, data: seq<byte>, key: PublicKey)
    ensures AnswerOf(signers, data, key).None? <==> key !in SignerKeys(signers)
  {
    if signers == [] {
    } else {
      AnswerOfOthers(signers[1..], data, key);
      assert SignerKeys(signers) == [signers[0].publicKey] + SignerKeys(signers[1..]);
    }
  }

  lemma FillOne(pairs: seq<SignaturePubkeyPair>, key: PublicKey, signature: Signature)
    requires NoDuplicates(PairKeys(pairs))
    ensures Fill(pairs, key, signature).Success? ==>
              var filled := Fill(pairs, key, signature).value;
              && PairKeys(filled) == PairKeys(pairs)
              && forall i :: 0 <= i < |pairs| ==>
                   filled[i] == if pairs[i].publicKey == key then SignaturePubkeyPair(signature, key) else pairs[i]
  {
    forall i | 0 <= i < |pairs| && pairs[i].publicKey == key ensures i == FindIndex(PairKeys(pairs), key) {
      FindIndexUnique(PairKeys(pairs), i);
    }
  }

  lemma TailKeys(signers: seq<Signer>)
    requires signers != [] && NoDuplicates(SignerKeys(signers))
    ensures NoDuplicates(SignerKeys(signers[1..])) && signers[0].publicKey !in SignerKeys(signers[1..])
  {
    var keys, tail := SignerKeys(signers), SignerKeys(signers[1..]);
    forall i | 0 <= i < |tail| ensures tail[i] == keys[i + 1] && tail[i] != keys[0] {
    }
    forall i, j | 0 <= i < j < |tail| ensures tail[i] != tail[j] {
      assert keys[i + 1] != keys[j + 1];
    }
  }

  lemma {:induction false} DedupeKeys(signers: seq<Signer>)
    ensures NoDuplicates(SignerKeys(Dedupe(signers)))
    ensures forall k :: k in SignerKeys(Dedupe(signers)) <==> k in SignerKeys(signers)
    ensures forall data, k :: AnswerOf(Dedupe(signers), data, k) == AnswerOf(signers, data, k)
  {
    if signers == [] {
    } else {
      var n := |signers| - 1;
      var before := Dedupe(signers[..n]);
      DedupeKeys(signers[..n]);
      assert signers == signers[..n] + [signers[n]];
      assert SignerKeys(signers) == SignerKeys(signers[..n]) + [signers[n].publicKey];
      assert SignerKeys(before + [signers[n]]) == SignerKeys(before) + [signers[n].publicKey];
      forall data, k ensures AnswerOf(Dedupe(signers), data, k) == AnswerOf(signers, data, k) {
        AnswerOfAppend(signers[..n], signers[n], data, k);
        AnswerOfAppend(before, signers[n], data, k);
        AnswerOfOthers(before, data, k);
      }
    }
  }

  lemma {:induction false} AnswerOfAppend(signers: seq<Signer>, last: Signer, data: seq<byte>, key: PublicKey)
    ensures AnswerOf(signers + [last], data, key) ==
            match AnswerOf(signers, data, key)
            case Some(answer) => Some(answer)
            case None => if last.publicKey == key then Some(last.sign(data)) else None
  {
    if signers == [] {
    } else {
      assert (signers + [last])[1..] == signers[1..] + [last];
      AnswerOfAppend(signers[1..], last, data, key);
    }
  }

  /** Every key with a signature slot gets one in the compiled state. */
  lemma SlotsSurvive(t: TxState)
    requires CompileMessage(t).Success?
    ensures forall k :: k in PairKeys(t.signatures) ==> k in SignedKeys(CompileMessage(t).value)
  {
    var once := Anatomy(t);
    SignedKeysOf(once, EffectiveBlockhash(t).value, EffectiveInstructions(t));
    CompileSucceeds(t);
    var m, keys := CompileMessage(t).value, PairKeys(t.signatures);
    PromotedSign(CompiledMetas(EffectiveInstructions(t), PayerOf(t).value), keys);
    hide CompileMessage, CompiledMetas, Promote, Signed, SignedKeys, MessageOf;
  }

  lemma PromotedSign(metas: seq<AccountMeta>, keys: seq<PublicKey>)
    ensures forall k :: k in keys && k in Keys(Promote(metas, keys)) ==> k in Keys(Signed(Promote(metas, keys)))
  {
    var once := Promote(metas, keys);
    forall k | k in keys && k in Keys(once) ensures k in Keys(Signed(once)) {
      var i :| 0 <= i < |once| && Keys(once)[i] == k;
      assert once[i].isSigner && once[i] in once;
      SplitMembers(once, once[i]);
      KeysMembers(Signed(once), k);
    }
  }

  /** With a slot for every signer, only a signer that does not answer can stop the signing. */
  lemma {:induction false} PartialSignSucceeds(pairs: seq<SignaturePubkeyPair>, data: seq<byte>, signers: seq<Signer>)
    requires forall i :: 0 <= i < |signers| ==> signers[i].publicKey in PairKeys(pairs)
    ensures PartialSign(pairs, data, signers).result.Success? <==>
            forall i :: 0 <= i < |signers| ==> signers[i].sign(data).Success?
    decreases |signers|
  {
    hide FindIndex;
    if signers == [] {
    } else {
      if signers[0].sign(data).Success? {
        var filled := Fill(pairs, signers[0].publicKey, signers[0].sign(data).value).value;
        assert PairKeys(filled) == PairKeys(pairs);
        PartialSignSucceeds(filled, data, signers[1..]);
      }
      assert forall j :: 0 < j < |signers| ==> signers[j] == signers[1..][j - 1];
      assert forall j :: 0 <= j < |signers| - 1 ==> signers[1..][j] == signers[j + 1];
    }
  }

  /** Sign succeeds exactly when the state it opens compiles and each of the distinct signers answers. */
  lemma SignSucceeds(t: TxState, signers: seq<Signer>)
    ensures var start, distinct := WithSlots(t, signers), Dedupe(signers);
            SignOutcome(t, signers).result.Success? <==>
              && CompileMessage(start).Success?
              && forall i :: 0 <= i < |distinct| ==>
                   distinct[i].sign(EncodeMessage(CompileMessage(start).value)).Success?
  {
    hide CompileMessage, EncodeMessage, Dedupe, SignedKeys, Compiled, PartialSign;
    var start, distinct := WithSlots(t, signers), Dedupe(signers);
    if CompileMessage(start).Failure? {
      assert SignOutcome(t, signers).result.Failure?;
    } else {
      var m, pairs := CompileMessage(start).value, Compiled(start).signatures;
      SlotsSurvive(start);
      CompileStable(start);
      assert PairKeys(start.signatures) == SignerKeys(distinct);
      forall i | 0 <= i < |distinct| ensures distinct[i].publicKey in PairKeys(pairs) {
        assert SignerKeys(distinct)[i] in SignedKeys(m);
      }
      PartialSignSucceeds(pairs, EncodeMessage(m), distinct);
      SignsCompiled(t, signers, m);
    }
  }

  lemma SignsCompiled(t: TxState, signers: seq<Signer>, m: Message)
    requires CompileMessage(WithSlots(t, signers)) == Success(m)
    ensures SignOutcome(t, signers) ==
            PartialSign(Compiled(WithSlots(t, signers)).signatures, EncodeMessage(m), Dedupe(signers))
  {
    hide CompileMessage, EncodeMessage, Dedupe, Compiled, PartialSign;
  }

  /** After a successful Sign, compiling again yields the message that was signed and clears nothing;
      each slot holds its signer's answer to exactly those bytes, and a slot without a signer is empty. */
  lemma SignedBytesAreSentBytes(t: TxState, signers: seq<Signer>)
    requires SignOutcome(t, signers).result.Success?
    ensures var t' := t.(signatures := SignOutcome(t, signers).pairs);
            && CompileMessage(WithSlots(t, signers)).Success?
            && var m := CompileMessage(WithSlots(t, signers)).value;
            && CompileMessage(t') == Success(m)
            && Compiled(t') == t'
            && PairKeys(t'.signatures) == SignedKeys(m)
            && NoDuplicates(SignedKeys(m))
            && forall i :: 0 <= i < |t'.signatures| ==>
                 match AnswerOf(signers, EncodeMessage(m), t'.signatures[i].publicKey)
                 case Some(answer) => answer == Success(t'.signatures[i].signature)
                 case None => t'.signatures[i].signature == ZeroSignature()
  {
    var start := WithSlots(t, signers);
    var m := CompileMessage(start).value;
    var compiled := Compiled(start);
    CompileStable(start);
    DedupeKeys(signers);
    SignedKeysDistinct(start);
    PartialSignFills(compiled.signatures, EncodeMessage(m), Dedupe(signers));
    var t' := t.(signatures := SignOutcome(t, signers).pairs);
    assert t' == compiled.(signatures := t'.signatures);
    CompileSeesKeys(compiled, t'.signatures);
  }

  lemma SignedKeysDistinct(t: TxState)
    requires CompileMessage(t).Success?
    ensures NoDuplicates(CompileMessage(t).value.accountKeys)
    ensures NoDuplicates(SignedKeys(CompileMessage(t).value))
  {
    hide CompileMessage, CompiledMetas, Promote;
    var once := Anatomy(t);
    ArrangedNoDuplicates(once);
  }

  // ---------- serialize ----------

  function SignaturesOf(pairs: seq<SignaturePubkeyPair>): seq<Signature> {
    seq(|pairs|, i requires 0 <= i < |pairs| => pairs[i].signature)
  }

  function EncodeSignatures(signatures: seq<Signature>): seq<byte> {
    if signatures == [] then [] else signatures[0] + EncodeSignatures(signatures[1..])
  }

  /** The keys whose slot is empty, and those whose signature does not verify over the message. */
  function Missing(pairs: seq<SignaturePubkeyPair>): seq<PublicKey> {
    if pairs == [] then []
    else
      var last := pairs[|pairs| - 1];
      Missing(pairs[..|pairs| - 1]) + (if last.signature == ZeroSignature() then [last.publicKey] else [])
  }

  function Invalid(
    pairs: seq<SignaturePubkeyPair>, data: seq<byte>, verify: (PublicKey, seq<byte>, Signature) -> bool): seq<PublicKey>
  {
    if pairs == [] then []
    else
      var last := pairs[|pairs| - 1];
      Invalid(pairs[..|pairs| - 1], data, verify)
      + (if last.signature != ZeroSignature() && !verify(last.publicKey, data, last.signature) then
           [last.publicKey]
         else
           [])
  }

  /** The signature count, the signatures and the message: the form of both transaction formats. */
  function Envelope(signatures: seq<Signature>, signData: seq<byte>): seq<byte> {
    ShortVec(|signatures|) + EncodeSignatures(signatures) + signData
  }

  /** Serialize: compile again, check every signature, write the envelope, enforce the packet size. */
  ghost function SerializeOutcome(t: TxState, verify: (PublicKey, seq<byte>, Signature) -> bool): Result<seq<byte>> {
    match CompileMessage(t)
    case Failure(e) => Failure(e)
    case Success(m) =>
      var pairs, signData := SlotsAfter(m, t.signatures), EncodeMessage(m);
      if Missing(pairs) != [] || Invalid(pairs, signData, verify) != [] then Failure(SignatureVerification)
      else if |pairs| >= 256 then Failure(TooManySignatures)
      else if |Envelope(SignaturesOf(pairs), signData)| > PACKET_DATA_SIZE then Failure(TransactionTooLarge)
      else Success(Envelope(SignaturesOf(pairs), signData))
  }

  lemma {:induction false} NoneMissing(pairs: seq<SignaturePubkeyPair>)
    ensures Missing(pairs) == [] <==> forall i :: 0 <= i < |pairs| ==> pairs[i].signature != ZeroSignature()
  {
    hide ZeroSignature;
    if pairs == [] {
    } else {
      NoneMissing(pairs[..|pairs| - 1]);
    }
  }

  lemma {:induction false} NoneInvalid(
    pairs: seq<SignaturePubkeyPair>, data: seq<byte>, verify: (PublicKey, seq<byte>, Signature) -> bool)
    ensures Invalid(pairs, data, verify) == [] <==>
            forall i :: 0 <= i < |pairs| ==>
              pairs[i].signature == ZeroSignature() || verify(pairs[i].publicKey, data, pairs[i].signature)
  {
    hide ZeroSignature;
    if pairs == [] {
    } else {
      NoneInvalid(pairs[..|pairs| - 1], data, verify);
    }
  }

  /** If Serialize succeeds there is one signature per required signer, and the one at each position
      verifies for the account key at that position over exactly the message bytes emitted; it then
      depends only on the size whether such a transaction goes out. */
  lemma SerializedIsVerified(t: TxState, verify: (PublicKey, seq<byte>, Signature) -> bool)
    requires CompileMessage(t).Success?
    ensures var m := CompileMessage(t).value;
            var pairs := Compiled(t).signatures;
            && |pairs| == m.header.numRequiredSignatures <= |m.accountKeys|
            && (SerializeOutcome(t, verify).Success? <==>
                  && (forall i :: 0 <= i < |pairs| ==>
                        pairs[i].publicKey == m.accountKeys[i] && pairs[i].signature != ZeroSignature()
                        && verify(m.accountKeys[i], EncodeMessage(m), pairs[i].signature))
                  && |Envelope(SignaturesOf(pairs), EncodeMessage(m))| <= 1232)
            && (SerializeOutcome(t, verify).Success? ==>
                  SerializeOutcome(t, verify).value == Envelope(SignaturesOf(pairs), EncodeMessage(m)))
  {
    hide CompiledMetas, Promote, Missing, Invalid, EncodeMessage, EncodeSignatures, ShortVec, ZeroSignature;
    var m := CompileMessage(t).value;
    var pairs := Compiled(t).signatures;
    CompileStable(t);
    var once := Anatomy(t);
    SignedKeysOf(once, EffectiveBlockhash(t).value, EffectiveInstructions(t));
    NoneMissing(pairs);
    NoneInvalid(pairs, EncodeMessage(m), verify);
    EnvelopeLength(SignaturesOf(pairs), EncodeMessage(m));
    forall i | 0 <= i < |pairs| ensures pairs[i].publicKey == m.accountKeys[i] {
      assert PairKeys(pairs)[i] == SignedKeys(m)[i];
    }
  }

  /** What the signers have to answer for the required key `k` so that it can be sent. */
  ghost predicate AnswersFor(
    k: PublicKey, signers: seq<Signer>, data: seq<byte>, verify: (PublicKey, seq<byte>, Signature) -> bool)
  {
    match AnswerOf(signers, data, k)
    case Some(Success(signature)) => signature != ZeroSignature() && verify(k, data, signature)
    case _ => false
  }

  /** From Sign to the wire: after a successful Sign, Serialize emits the signed message behind the signers'
      answers exactly when every required key has a signer whose answer is not zero and verifies over it,
      and all of it fits one packet. */
  lemma SignedThenSerialized(t: TxState, signers: seq<Signer>, verify: (PublicKey, seq<byte>, Signature) -> bool)
    requires SignOutcome(t, signers).result.Success?
    ensures var t' := t.(signatures := SignOutcome(t, signers).pairs);
            && CompileMessage(WithSlots(t, signers)).Success?
            && var m := CompileMessage(WithSlots(t, signers)).value;
            var data, answers := EncodeMessage(m), SignaturesOf(t'.signatures);
            && |answers| == m.header.numRequiredSignatures <= |m.accountKeys|
            && (SerializeOutcome(t', verify) == Success(Envelope(answers, data)) <==>
                  && (forall i :: 0 <= i < |answers| ==> AnswersFor(m.accountKeys[i], signers, data, verify))
                  && |Envelope(answers, data)| <= 1232)
            && (SerializeOutcome(t', verify).Success? ==>
                  && SerializeOutcome(t', verify).value == Envelope(answers, data)
                  && forall i :: 0 <= i < |answers| ==>
                       AnswerOf(signers, data, m.accountKeys[i]) == Some(Success(answers[i])))
  {
    hide CompileMessage, Compiled, EncodeMessage, SignOutcome, AnswerOf, Envelope, SerializeOutcome, ZeroSignature;
    SignedBytesAreSentBytes(t, signers);
    var t' := t.(signatures := SignOutcome(t, signers).pairs);
    SerializedIsVerified(t', verify);
    var m, pairs := CompileMessage(WithSlots(t, signers)).value, t'.signatures;
    forall i | 0 <= i < |pairs|
      ensures pairs[i].publicKey == m.accountKeys[i]
      ensures AnswersFor(m.accountKeys[i], signers, EncodeMessage(m), verify) <==>
                pairs[i].signature != ZeroSignature() && verify(m.accountKeys[i], EncodeMessage(m), pairs[i].signature)
    {
      assert PairKeys(pairs)[i] == SignedKeys(m)[i];
    }
  }

  lemma {:induction false} SignaturesLength(signatures: seq<Signature>)
    ensures |EncodeSignatures(signatures)| == 64 * |signatures|
  {
    if signatures == [] {
    } else {
      SignaturesLength(signatures[1..]);
    }
  }

  lemma EnvelopeLength(signatures: seq<Signature>, signData: seq<byte>)
    ensures |Envelope(signatures, signData)| == |ShortVec(|signatures|)| + 64 * |signatures| + |signData|
    ensures |Envelope(signatures, signData)| <= PACKET_DATA_SIZE ==> |signatures| < 256
  {
    SignaturesLength(signatures);
  }

  lemma {:induction false} KeysLength(keys: seq<PublicKey>)
    ensures |EncodeKeys(keys)| == 32 * |keys|
  {
    if keys == [] {
    } else {
      KeysLength(keys[1..]);
    }
  }

  /** Whatever Serialize accepts fits one packet, so it has few keys and signers: every conversion of a
      count or an index to a byte was exact, and the top bit of the first message byte is clear. */
  lemma SerializedIsSmall(t: TxState, verify: (PublicKey, seq<byte>, Signature) -> bool)
    requires SerializeOutcome(t, verify).Success?
    ensures CompileMessage(t).Success?
    ensures var m := CompileMessage(t).value;
            && 1 <= m.header.numRequiredSignatures <= 12
            && |m.accountKeys| <= 36
            && (|m.recentBlockhash| == 32 ==> |m.accountKeys| <= 35)
            && ByteHeader(m.header)
            && EncodeMessage(m)[0] == m.header.numRequiredSignatures < 0x80
            && IndexesExact(EffectiveInstructions(t), m)
  {
    hide CompileMessage, Compiled, EncodeMessage, EncodeSignatures, ShortVec;
    var m := CompileMessage(t).value;
    var pairs := Compiled(t).signatures;
    SerializedCompiles(t, verify);
    SerializedIsVerified(t, verify);
    EnvelopeLength(SignaturesOf(pairs), EncodeMessage(m));
    ShortVecDigits(|pairs|, []);
    MessageLength(m);
    CompiledHeader(t);
    CompiledIndexesExact(t);
  }

  lemma SerializedCompiles(t: TxState, verify: (PublicKey, seq<byte>, Signature) -> bool)
    requires SerializeOutcome(t, verify).Success?
    ensures CompileMessage(t).Success?
  {
  }

  lemma MessageLength(m: Message)
    ensures |EncodeMessage(m)| >= 5 + 32 * |m.accountKeys| + |m.recentBlockhash|
    ensures EncodeMessage(m)[0] == AsByte(m.header.numRequiredSignatures)
  {
    KeysLength(m.accountKeys);
    ShortVecDigits(|m.accountKeys|, []);
    ShortVecDigits(|m.instructions|, []);
  }

  /** The header counts of a compiled message: the payer is a writable signer, and the counts fit the keys. */
  lemma CompiledHeader(t: TxState)
    requires CompileMessage(t).Success?
    ensures var m := CompileMessage(t).value;
            && 1 <= m.header.numRequiredSignatures <= |m.accountKeys|
            && 0 <= m.header.numReadonlySignedAccounts <= m.header.numRequiredSignatures
            && 0 <= m.header.numReadonlyUnsignedAccounts <= |m.accountKeys| - m.header.numRequiredSignatures
  {
    hide CompileMessage, CompiledMetas, Promote;
    var once := Anatomy(t);
    SignedFirst(once);
    SplitBySigner(once);
    BelowMonotonic(once);
    ArrangedMembers(once);
  }

  /** Each byte index of a compiled instruction names the key it was compiled from. */
  ghost predicate IndexesExact(ixs: seq<TransactionInstruction>, m: Message) {
    && |m.instructions| == |ixs|
    && forall i :: 0 <= i < |ixs| ==>
         && Names(m.accountKeys, m.instructions[i].programIdIndex, ixs[i].programId)
         && m.instructions[i].data == ixs[i].data
         && |m.instructions[i].accounts| == |ixs[i].keys|
         && forall j :: 0 <= j < |ixs[i].keys| ==>
              Names(m.accountKeys, m.instructions[i].accounts[j], ixs[i].keys[j].pubkey)
  }

  predicate Names(keys: seq<PublicKey>, index: byte, key: PublicKey) {
    index < |keys| && keys[index] == key
  }

  /** Up to 256 keys every index fits its byte. */
  lemma CompiledIndexesExact(t: TxState)
    requires CompileMessage(t).Success? && |CompileMessage(t).value.accountKeys| <= 256
    ensures IndexesExact(EffectiveInstructions(t), CompileMessage(t).value)
  {
    hide CompileMessage, CompiledMetas, Promote, Arranged, HeaderOf, EffectiveInstructions;
    var m, ixs := CompileMessage(t).value, EffectiveInstructions(t);
    var once := Anatomy(t);
    forall k | k in KeySet(Metas(ixs)) ensures Names(m.accountKeys, AsByte(FindIndex(m.accountKeys, k)), k) {
      ArrangedKeyMembers(once, k);
      FirstNamed(m.accountKeys, k);
    }
    forall i | 0 <= i < |ixs|
      ensures Names(m.accountKeys, m.instructions[i].programIdIndex, ixs[i].programId)
      ensures forall j :: 0 <= j < |ixs[i].keys| ==>
              Names(m.accountKeys, m.instructions[i].accounts[j], ixs[i].keys[j].pubkey)
    {
      InstructionKeysUsed(ixs, i);
    }
  }

  lemma FirstNamed(keys: seq<PublicKey>, k: PublicKey)
    requires k in keys && |keys| <= 256
    ensures Names(keys, AsByte(FindIndex(keys, k)), k)
  {
    hide FindIndex;
  }
}
