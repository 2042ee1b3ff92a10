/** What compiling, signing, serializing and populating a legacy transaction come to, told from the transaction's own
    fields (web3/transaction_legacy.go:109-334). */
module LegacyMeaning {
  import opened Basics
  import opened Base58
  import opened Messages
  import opened AccountMetas
  import opened Wire
  import opened LegacyCompile
  import opened LegacyLayout
  import opened LegacyReadBack

  // ---------- What is asked of a key ----------

  /** A key is used, asked to sign or asked to be writable by the instructions or by the nonce instruction. */
  ghost predicate UsedBy(t: TxState, k: PublicKey) {
    Uses(t.instructions, k) || (t.nonceInfo.Some? && Uses([t.nonceInfo.value.nonceInstruction], k))
  }

  ghost predicate SignsFor(t: TxState, k: PublicKey) {
    AsksToSign(t.instructions, k) || (t.nonceInfo.Some? && AsksToSign([t.nonceInfo.value.nonceInstruction], k))
  }

  ghost predicate WritesFor(t: TxState, k: PublicKey) {
    AsksToWrite(t.instructions, k) || (t.nonceInfo.Some? && AsksToWrite([t.nonceInfo.value.nonceInstruction], k))
  }

  ghost predicate HasSlot(t: TxState, k: PublicKey) {
    exists i :: 0 <= i < |t.signatures| && t.signatures[i].publicKey == k
  }

  lemma SlotKeys(t: TxState, k: PublicKey)
    ensures HasSlot(t, k) <==> k in PairKeys(t.signatures)
  {
    if HasSlot(t, k) {
      var i :| 0 <= i < |t.signatures| && t.signatures[i].publicKey == k;
      assert PairKeys(t.signatures)[i] == k;
    }
  }

  /** A list's uses are those of its first instruction and of the others. */
  lemma UsesPrepend(ix: TransactionInstruction, ixs: seq<TransactionInstruction>, k: PublicKey)
    ensures Uses([ix] + ixs, k) <==> Uses([ix], k) || Uses(ixs, k)
    ensures AsksToSign([ix] + ixs, k) <==> AsksToSign([ix], k) || AsksToSign(ixs, k)
    ensures AsksToWrite([ix] + ixs, k) <==> AsksToWrite([ix], k) || AsksToWrite(ixs, k)
  {
    var all := [ix] + ixs;
    assert all[0] == ix && [ix][0] == ix;
    assert forall i :: 0 <= i < |ixs| ==> all[i + 1] == ixs[i];
    assert forall i :: 0 < i < |all| ==> all[i] == ixs[i - 1];
  }

  lemma EffectiveUses(t: TxState, k: PublicKey)
    ensures Uses(EffectiveInstructions(t), k) <==> UsedBy(t, k)
    ensures AsksToSign(EffectiveInstructions(t), k) <==> SignsFor(t, k)
    ensures AsksToWrite(EffectiveInstructions(t), k) <==> WritesFor(t, k)
  {
    hide Uses, AsksToSign, AsksToWrite;
    if t.nonceInfo.Some? {
      var ix := t.nonceInfo.value.nonceInstruction;
      UsesPrepend(ix, t.instructions, k);
      if t.instructions != [] {
        UsesPrepend(t.instructions[0], t.instructions[1..], k);
        assert t.instructions == [t.instructions[0]] + t.instructions[1..];
      }
    }
  }

  // ---------- What compileMessage returns ----------

  /** A byte stands for a key if it is the key's position, cut to eight bits. */
  ghost predicate StandsFor(keys: seq<PublicKey>, index: byte, k: PublicKey) {
    exists p :: 0 <= p < |keys| && keys[p] == k && index == p % 0x100
  }

  ghost predicate InstructionStands(keys: seq<PublicKey>, ix: TransactionInstruction, c: CompiledInstruction) {
    && StandsFor(keys, c.programIdIndex, ix.programId)
    && c.data == ix.data && |c.accounts| == |ix.keys|
    && forall j :: 0 <= j < |ix.keys| ==> StandsFor(keys, c.accounts[j], ix.keys[j].pubkey)
  }

  ghost predicate InstructionsStand(m: Message, ixs: seq<TransactionInstruction>) {
    |m.instructions| == |ixs| &&
    forall i :: 0 <= i < |ixs| ==> InstructionStands(m.accountKeys, ixs[i], m.instructions[i])
  }

  /** The payer is the fee payer set, or else the first key with a signature slot. Without a nonce the blockhash and
      the instructions are those of the transaction; with one the blockhash is the nonce, and the nonce instruction
      comes first, once. */
  lemma CompiledFields(t: TxState)
    requires CompileMessage(t).Success?
    ensures var m := CompileMessage(t).value;
            && m.accountKeys != []
            && (t.feePayer.Some? ==> m.accountKeys[0] == t.feePayer.value)
            && (t.feePayer.None? ==> t.signatures != [] && m.accountKeys[0] == t.signatures[0].publicKey)
            && match t.nonceInfo
               case None => t.recentBlockhash == Some(m.recentBlockhash) && InstructionsStand(m, t.instructions)
               case Some(n) =>
                 && m.recentBlockhash == n.nonce && t.instructions != []
                 && InstructionsStand(m,
                      if t.instructions[0] == n.nonceInstruction then t.instructions
                      else [n.nonceInstruction] + t.instructions)
  {
    CanonicalKeys(t);
    CompiledParts(t);
    CompileSucceeds(t);
    IndexesStand(t);
    hide CompileMessage, CompileInstructions, InstructionsStand, Metas;
  }

  lemma IndexesStand(t: TxState)
    requires CompileMessage(t).Success?
    ensures InstructionsStand(CompileMessage(t).value, EffectiveInstructions(t))
  {
    var m, ixs := CompileMessage(t).value, EffectiveInstructions(t);
    CanonicalKeys(t);
    CompiledParts(t);
    hide CompileMessage, EffectiveInstructions, Metas, KeySet;
    forall i | 0 <= i < |ixs| ensures InstructionStands(m.accountKeys, ixs[i], m.instructions[i]) {
      InstructionKeysUsed(ixs, i);
      ByteStands(m.accountKeys, ixs[i].programId);
      forall j | 0 <= j < |ixs[i].keys|
        ensures StandsFor(m.accountKeys, m.instructions[i].accounts[j], ixs[i].keys[j].pubkey)
      {
        ByteStands(m.accountKeys, ixs[i].keys[j].pubkey);
      }
    }
  }

  lemma ByteStands(keys: seq<PublicKey>, k: PublicKey)
    requires k in keys
    ensures StandsFor(keys, AsByte(FindIndex(keys, k)), k)
  {
    assert keys[FindIndex(keys, k)] == k;
  }

  /** The account keys are the payer and the keys used, each once. */
  lemma CompiledKeysUsedOnce(t: TxState)
    requires CompileMessage(t).Success?
    ensures var keys := CompileMessage(t).value.accountKeys;
            && keys != [] && NoDuplicates(keys)
            && forall k :: k in keys <==> k == keys[0] || UsedBy(t, k)
  {
    CanonicalKeys(t);
    hide CompileMessage, EffectiveInstructions, UsedBy, Metas, KeySet;
    var keys := CompileMessage(t).value.accountKeys;
    forall k ensures k in keys <==> k == keys[0] || UsedBy(t, k) {
      KeySetMeaning(EffectiveInstructions(t), k);
      EffectiveUses(t, k);
    }
  }

  /** Why compiling fails, in the order checked. */
  lemma CompileErrors(t: TxState)
    ensures var payer := if t.feePayer.Some? then t.feePayer.value
                         else if t.signatures != [] then t.signatures[0].publicKey else seq(32, _ => 0);
            if t.nonceInfo.Some? && t.instructions == [] then CompileMessage(t) == Failure(Panic)
            else if t.nonceInfo.None? && t.recentBlockhash.None? then CompileMessage(t) == Failure(BlockhashRequired)
            else if t.feePayer.None? && t.signatures == [] then CompileMessage(t) == Failure(FeePayerRequired)
            else if exists k :: HasSlot(t, k) && k != payer && !UsedBy(t, k) then
              CompileMessage(t) == Failure(UnknownSigner)
            else CompileMessage(t).Success?
  {
    CompileSucceeds(t);
    forall k ensures HasSlot(t, k) <==> k in PairKeys(t.signatures) {
      SlotKeys(t, k);
    }
    forall k ensures k in KeySet(Metas(EffectiveInstructions(t))) <==> UsedBy(t, k) {
      KeySetMeaning(EffectiveInstructions(t), k);
      EffectiveUses(t, k);
    }
    hide CompiledMetas, Metas, KeySet, UsedBy, HasSlot, MessageOf, EffectiveInstructions, Promote, Uses;
  }

  // ---------- The header and the order of the keys ----------

  /** How many of some keys nothing writes, the payer being written. */
  ghost function ReadonlyAmong(t: TxState, payer: PublicKey, keys: seq<PublicKey>): nat {
    if keys == [] then 0
    else
      var n := |keys| - 1;
      ReadonlyAmong(t, payer, keys[..n]) + if keys[n] == payer || WritesFor(t, keys[n]) then 0 else 1
  }

  ghost predicate ToldWriters(t: TxState, payer: PublicKey, s: seq<AccountMeta>) {
    forall i :: 0 <= i < |s| ==> (s[i].isWritable <==> s[i].pubkey == payer || WritesFor(t, s[i].pubkey))
  }

  lemma {:induction false} RankedSigners(t: TxState, payer: PublicKey, s: seq<AccountMeta>)
    requires ToldWriters(t, payer, s) && forall i :: 0 <= i < |s| ==> s[i].isSigner
    ensures Below(s, 1) + ReadonlyAmong(t, payer, Keys(s)) == |s| && Below(s, 2) == |s| && Below(s, 3) == |s|
  {
    hide WritesFor;
    if s == [] {
    } else {
      RankedSigners(t, payer, s[..|s| - 1]);
      assert Keys(s)[..|s| - 1] == Keys(s[..|s| - 1]);
    }
  }

  lemma {:induction false} RankedOthers(t: TxState, payer: PublicKey, s: seq<AccountMeta>)
    requires ToldWriters(t, payer, s) && forall i :: 0 <= i < |s| ==> !s[i].isSigner
    ensures Below(s, 1) == 0 && Below(s, 2) == 0 && Below(s, 3) + ReadonlyAmong(t, payer, Keys(s)) == |s|
  {
    hide WritesFor;
    if s == [] {
    } else {
      RankedOthers(t, payer, s[..|s| - 1]);
      assert Keys(s)[..|s| - 1] == Keys(s[..|s| - 1]);
    }
  }

  /** The header counts: the required signers are the payer, the keys asked to sign and those with a slot, all before
      the others; the other two counts are those of read-only keys on either side. */
  lemma CompiledCounts(t: TxState)
    requires CompileMessage(t).Success?
    ensures var m := CompileMessage(t).value;
            var h, keys, n := m.header, m.accountKeys, m.header.numRequiredSignatures;
            && 1 <= n <= |keys|
            && (forall i :: 0 <= i < |keys| ==> (i < n <==> i == 0 || SignsFor(t, keys[i]) || HasSlot(t, keys[i])))
            && h.numReadonlySignedAccounts == ReadonlyAmong(t, keys[0], keys[..n])
            && h.numReadonlyUnsignedAccounts == ReadonlyAmong(t, keys[0], keys[n..])
  {
    var once := Anatomy(t);
    var m, payer := CompileMessage(t).value, PayerOf(t).value;
    CompiledHeader(t);
    CanonicalKeys(t);
    hide CompileMessage, CompiledMetas, Promote, EffectiveInstructions, Metas, KeySet, PayerOf, ToldBy;
    forall x | x in once ensures ToldBy(t, payer, x) {
      OnceTold(t, payer, once, x);
    }
    var s, u := Signed(once), Unsigned(once);
    CountsTold(t, payer, once);
    assert m.accountKeys == Keys(s) + Keys(u) by {
      ArrangedKeys(once);
    }
    assert m.accountKeys[..|s|] == Keys(s) && m.accountKeys[|s|..] == Keys(u);
    hide Signed, Unsigned, HeaderOf, ReadonlyAmong, MustSign;
    forall i | 0 <= i < |m.accountKeys|
      ensures i < |s| <==> i == 0 || SignsFor(t, m.accountKeys[i]) || HasSlot(t, m.accountKeys[i])
    {
      SignerTold(t, m.accountKeys, s, u, i);
    }
  }

  lemma SignerTold(t: TxState, keys: seq<PublicKey>, s: seq<AccountMeta>, u: seq<AccountMeta>, i: nat)
    requires keys == Keys(s) + Keys(u) && NoDuplicates(keys) && i < |keys|
    requires forall j :: 0 <= j < |s| ==> MustSign(t, keys[0], s[j].pubkey)
    requires forall j :: 0 <= j < |u| ==> !MustSign(t, keys[0], u[j].pubkey)
    ensures i < |s| <==> i == 0 || SignsFor(t, keys[i]) || HasSlot(t, keys[i])
  {
    hide SignsFor, HasSlot;
    assert keys[i] == if i < |s| then s[i].pubkey else u[i - |s|].pubkey;
    PayerFirst(keys, i);
  }

  /** The header of told metas, signers before others. */
  lemma CountsTold(t: TxState, payer: PublicKey, once: seq<AccountMeta>)
    requires forall x :: x in once ==> ToldBy(t, payer, x)
    ensures var s, u, h := Signed(once), Unsigned(once), HeaderOf(once);
            && h.numRequiredSignatures == |s|
            && h.numReadonlySignedAccounts == ReadonlyAmong(t, payer, Keys(s))
            && h.numReadonlyUnsignedAccounts == ReadonlyAmong(t, payer, Keys(u))
            && (forall i :: 0 <= i < |s| ==> MustSign(t, payer, s[i].pubkey))
            && (forall i :: 0 <= i < |u| ==> !MustSign(t, payer, u[i].pubkey))
  {
    hide SignsFor, WritesFor, HasSlot, MustSign;
    var s, u := Signed(once), Unsigned(once);
    SplitBySigner(once);
    ArrangedMembers(once);
    forall i | 0 <= i < |s| ensures ToldBy(t, payer, s[i]) {
      assert s[i] == Arranged(once)[i];
    }
    forall i | 0 <= i < |u| ensures ToldBy(t, payer, u[i]) {
      assert u[i] == Arranged(once)[|s| + i];
    }
    hide Signed, Unsigned;
    RankedSigners(t, payer, s);
    RankedOthers(t, payer, u);
    SplitBelow(once, 1);
    SplitBelow(once, 2);
    SplitBelow(once, 3);
    hide Below, ReadonlyAmong;
  }

  lemma PayerFirst(keys: seq<PublicKey>, i: nat)
    requires NoDuplicates(keys) && i < |keys|
    ensures keys[i] == keys[0] <==> i == 0
  {
  }

  ghost predicate MustSign(t: TxState, payer: PublicKey, k: PublicKey) {
    k == payer || SignsFor(t, k) || HasSlot(t, k)
  }

  /** A compiled meta carries what is asked of its key. */
  ghost predicate ToldBy(t: TxState, payer: PublicKey, x: AccountMeta) {
    && (x.isSigner <==> MustSign(t, payer, x.pubkey))
    && (x.isWritable <==> x.pubkey == payer || WritesFor(t, x.pubkey))
  }

  lemma OnceTold(t: TxState, payer: PublicKey, once: seq<AccountMeta>, x: AccountMeta)
    requires once == Promote(CompiledMetas(EffectiveInstructions(t), payer), PairKeys(t.signatures)) && x in once
    ensures ToldBy(t, payer, x)
  {
    hide CompiledMetas, Promote, EffectiveInstructions, SignsFor, WritesFor, HasSlot, MergedMeta, AsksToSign;
    hide AsksToWrite;
    var ixs := EffectiveInstructions(t);
    PromotedMember(ixs, payer, PairKeys(t.signatures), x);
    MergedMetaMeaning(ixs, payer, x.pubkey);
    EffectiveUses(t, x.pubkey);
    SlotKeys(t, x.pubkey);
  }

  /** Keys asked to sign come before others, then writable ones before others, then by base-58 string. */
  ghost predicate Precedes(t: TxState, a: PublicKey, b: PublicKey) {
    if SignsFor(t, a) != SignsFor(t, b) then SignsFor(t, a)
    else if WritesFor(t, a) != WritesFor(t, b) then WritesFor(t, a)
    else KeyLess(a, b)
  }

  /** An other meta carries what is asked of its key before promotion. */
  lemma OtherTold(t: TxState, payer: PublicKey, x: AccountMeta)
    requires x in Others(EffectiveInstructions(t), payer)
    ensures x.pubkey != payer
    ensures x.isSigner <==> SignsFor(t, x.pubkey)
    ensures x.isWritable <==> WritesFor(t, x.pubkey)
  {
    var ixs := EffectiveInstructions(t);
    OtherMetas(Metas(ixs), payer, x);
    MergedMetaMeaning(ixs, payer, x.pubkey);
    EffectiveUses(t, x.pubkey);
    hide EffectiveInstructions, Metas, SignsFor, WritesFor, AsksToSign, AsksToWrite, MergeMetas;
  }

  lemma OtherPrecedes(t: TxState, payer: PublicKey, a: AccountMeta, b: AccountMeta)
    requires a in Others(EffectiveInstructions(t), payer) && b in Others(EffectiveInstructions(t), payer)
    ensures Precedes(t, a.pubkey, b.pubkey) <==> Before(a, b)
  {
    OtherTold(t, payer, a);
    OtherTold(t, payer, b);
    hide Others, SignsFor, WritesFor, KeyLess;
  }

  /** Every meta asked to sign is a signer of the compiled message, and so is the payer. */
  lemma CompiledSigners(t: TxState)
    requires CompileMessage(t).Success? && PayerOf(t).Some?
    ensures var m, metas := CompileMessage(t).value, CompiledMetas(EffectiveInstructions(t), PayerOf(t).value);
            && PayerOf(t).value in SignedKeys(m)
            && forall x :: x in metas && x.isSigner ==> x.pubkey in SignedKeys(m)
  {
    var once := Anatomy(t);
    var metas := CompiledMetas(EffectiveInstructions(t), PayerOf(t).value);
    CompiledMetasFacts(EffectiveInstructions(t), PayerOf(t).value);
    SignedKeysOf(once, EffectiveBlockhash(t).value, EffectiveInstructions(t));
    hide CompileMessage, CompiledMetas, EffectiveInstructions, SignedKeys, MessageOf, Metas, KeySet, PayerOf;
    forall x | x in metas && x.isSigner ensures x.pubkey in Keys(Signed(once)) {
      var j :| 0 <= j < |metas| && metas[j] == x;
      assert once[j] in once && once[j].isSigner && once[j].pubkey == x.pubkey;
      SplitMembers(once, once[j]);
      KeysMembers(Signed(once), x.pubkey);
    }
    assert metas[0] in metas;
  }

  lemma KeysLaidInParts(t: TxState)
    requires CompileMessage(t).Success? && PayerOf(t).Some?
    ensures var m, ixs, payer := CompileMessage(t).value, EffectiveInstructions(t), PayerOf(t).value;
            var c, signed := Canonical(Others(ixs, payer)), SignedKeys(m);
            m.accountKeys == [payer] + (Keys(Part(c, signed, true)) + Keys(Part(c, signed, false)))
  {
    var t', ixs := Compiled(t), EffectiveInstructions(t);
    CompileStable(t);
    CanonicalKeys(t);
    CanonicalKeys(t');
    CompiledSigners(t);
    assert EffectiveInstructions(t') == ixs;
    var once := Anatomy(t');
    hide CompileMessage, Compiled, CompiledMetas, Canonical, Others, Part, EffectiveInstructions, PayerOf, Arranged;
    hide Promote, HeaderOf, SignedKeys;
    KeysInParts(ixs, PayerOf(t).value, SignedKeys(CompileMessage(t).value));
  }

  lemma KeyAmongFirst(keys: seq<PublicKey>, n: nat, i: nat)
    requires NoDuplicates(keys) && n <= |keys| && i < |keys|
    ensures keys[i] in keys[..n] <==> i < n
  {
    if i < n {
      assert keys[..n][i] == keys[i];
    }
  }

  lemma SignerPosition(m: Message, payer: PublicKey, s: seq<AccountMeta>, u: seq<AccountMeta>, i: nat)
    requires m.accountKeys == [payer] + (Keys(s) + Keys(u)) && NoDuplicates(m.accountKeys)
    requires 1 <= m.header.numRequiredSignatures <= |m.accountKeys| && 1 <= i < |m.accountKeys|
    requires forall x :: x in s ==> x.pubkey in SignedKeys(m)
    requires forall x :: x in u ==> x.pubkey !in SignedKeys(m)
    ensures i < m.header.numRequiredSignatures <==> i <= |s|
  {
    KeyAmongFirst(m.accountKeys, m.header.numRequiredSignatures, i);
    var x := if i <= |s| then s[i - 1] else u[i - 1 - |s|];
    assert m.accountKeys[i] == x.pubkey;
    assert if i <= |s| then x in s else x in u;
  }

  /** The part of the signed keys ends where the required signers do. */
  lemma SignersFirst(m: Message, payer: PublicKey, s: seq<AccountMeta>, u: seq<AccountMeta>)
    requires m.accountKeys == [payer] + (Keys(s) + Keys(u)) && NoDuplicates(m.accountKeys)
    requires 1 <= m.header.numRequiredSignatures <= |m.accountKeys|
    requires forall x :: x in s ==> x.pubkey in SignedKeys(m)
    requires forall x :: x in u ==> x.pubkey !in SignedKeys(m)
    ensures m.header.numRequiredSignatures == 1 + |s|
    ensures forall i :: 1 <= i <= |s| ==> m.accountKeys[i] == s[i - 1].pubkey
    ensures forall i :: |s| < i < |m.accountKeys| ==> m.accountKeys[i] == u[i - 1 - |s|].pubkey
  {
    var n := m.header.numRequiredSignatures;
    var i := if n < 1 + |s| then n else 1 + |s|;
    if i < |m.accountKeys| {
      SignerPosition(m, payer, s, u, i);
    }
  }

  /** A sorted list of other metas has its keys in order. */
  lemma SortedPrecedes(t: TxState, payer: PublicKey, s: seq<AccountMeta>)
    requires Sorted(s) && forall x :: x in s ==> x in Others(EffectiveInstructions(t), payer)
    ensures forall i, j :: 0 <= i < j < |s| ==> !Precedes(t, s[j].pubkey, s[i].pubkey)
  {
    hide Others, EffectiveInstructions, Precedes, Before;
    forall i, j | 0 <= i < j < |s| ensures !Precedes(t, s[j].pubkey, s[i].pubkey) {
      assert s[i] in s && s[j] in s;
      OtherPrecedes(t, payer, s[j], s[i]);
    }
  }

  /** After the payer, the required signers are in that order, whether asked to sign or only given a slot, and so are
      the other keys. */
  lemma CompiledOrder(t: TxState)
    requires CompileMessage(t).Success?
    ensures var m := CompileMessage(t).value;
            var keys, n := m.accountKeys, m.header.numRequiredSignatures;
            forall i, j :: 1 <= i < j < |keys| && (j < n || i >= n) ==> !Precedes(t, keys[j], keys[i])
  {
    var m, ixs, payer := CompileMessage(t).value, EffectiveInstructions(t), PayerOf(t).value;
    CanonicalKeys(t);
    KeysLaidInParts(t);
    CompiledHeader(t);
    hide *;
    var c, signed := Canonical(Others(ixs, payer)), SignedKeys(m);
    var s, u := Part(c, signed, true), Part(c, signed, false);
    PartInOrder(t, payer, signed, true);
    PartInOrder(t, payer, signed, false);
    ListsOnce(m.accountKeys, KeySet(Metas(ixs)) + {payer});
    SignersFirst(m, payer, s, u);
  }

  lemma ListsOnce(keys: seq<PublicKey>, elems: set<PublicKey>)
    requires Lists(keys, elems)
    ensures NoDuplicates(keys)
  {
  }

  lemma PartInOrder(t: TxState, payer: PublicKey, signed: seq<PublicKey>, chosen: bool)
    ensures var s := Part(Canonical(Others(EffectiveInstructions(t), payer)), signed, chosen);
            && (forall x :: x in s ==> ((x.pubkey in signed) == chosen))
            && forall i, j :: 0 <= i < j < |s| ==> !Precedes(t, s[j].pubkey, s[i].pubkey)
  {
    var others := Others(EffectiveInstructions(t), payer);
    var c := Canonical(others);
    hide Others, EffectiveInstructions, Precedes, Canonical, Before;
    PartMembers(c, signed, chosen);
    PartKeeps(c, signed, chosen);
    hide Part;
    forall x | x in Part(c, signed, chosen) ensures x in others {
      var i :| 0 <= i < |c| && c[i] == x;
    }
    SortedPrecedes(t, payer, Part(c, signed, chosen));
  }

  // ---------- The slots after compiling and signing ----------

  /** One slot for each required signer, in order. Signatures are kept if the slots were just those before, and all
      emptied otherwise. */
  ghost predicate SlotsKeptOrEmptied(m: Message, before: seq<SignaturePubkeyPair>, after: seq<SignaturePubkeyPair>) {
    var n := m.header.numRequiredSignatures;
    && |after| == n <= |m.accountKeys|
    && (forall i :: 0 <= i < n ==> after[i].publicKey == m.accountKeys[i])
    && if |before| == n && forall j :: 0 <= j < n ==> before[j].publicKey == m.accountKeys[j] then after == before
       else forall i :: 0 <= i < n ==> after[i].signature == seq(64, _ => 0)
  }

  /** Compiling changes nothing but the slots. */
  lemma CompiledSlots(t: TxState)
    ensures match CompileMessage(t)
            case Failure(_) => Compiled(t) == t
            case Success(m) =>
              && Compiled(t) == t.(signatures := Compiled(t).signatures)
              && SlotsKeptOrEmptied(m, t.signatures, Compiled(t).signatures)
  {
    if CompileMessage(t).Success? {
      CompiledHeader(t);
      hide CompileMessage;
      SlotsAfterMeaning(CompileMessage(t).value, t.signatures);
    }
    hide CompileMessage, SlotsKeptOrEmptied, SlotsAfter;
  }

  lemma SlotsAfterMeaning(m: Message, before: seq<SignaturePubkeyPair>)
    requires 0 <= m.header.numRequiredSignatures <= |m.accountKeys|
    ensures SlotsKeptOrEmptied(m, before, SlotsAfter(m, before))
  {
    var n, after := m.header.numRequiredSignatures, SlotsAfter(m, before);
    if |before| == n && forall j :: 0 <= j < n ==> before[j].publicKey == m.accountKeys[j] {
      assert PairKeys(before) == SignedKeys(m);
    } else if PairKeys(before) == SignedKeys(m) {
      forall j | 0 <= j < n ensures before[j].publicKey == m.accountKeys[j] {
        assert PairKeys(before)[j] == SignedKeys(m)[j];
      }
    }
    forall i | 0 <= i < n ensures after[i].publicKey == m.accountKeys[i] {
      assert PairKeys(after)[i] == SignedKeys(m)[i];
    }
    assert ZeroSignature() == seq(64, _ => 0);
  }

  /** Signing in turn stops at the first signer that does not answer or has no slot, with the slots filled so far. */
  lemma {:induction false} PartialSignStops(
    pairs: seq<SignaturePubkeyPair>, data: seq<byte>, signers: seq<Signer>, stop: nat)
    requires stop < |signers|
    requires forall i :: 0 <= i < stop ==> signers[i].sign(data).Success? && signers[i].publicKey in PairKeys(pairs)
    ensures signers[stop].sign(data).Failure? ==>
              PartialSign(pairs, data, signers) ==
                Signing(Failure(signers[stop].sign(data).error), PartialSign(pairs, data, signers[..stop]).pairs)
    ensures signers[stop].sign(data).Success? && signers[stop].publicKey !in PairKeys(pairs) ==>
              PartialSign(pairs, data, signers) ==
                Signing(Failure(UnknownSigner), PartialSign(pairs, data, signers[..stop]).pairs)
    decreases |signers|
  {
    if stop == 0 {
      assert signers[..0] == [];
    } else {
      var key, answer := signers[0].publicKey, signers[0].sign(data).value;
      var filled := Fill(pairs, key, answer).value;
      assert PairKeys(filled) == PairKeys(pairs);
      assert signers[..stop][1..] == signers[1..][..stop - 1] && signers[..stop][0] == signers[0];
      PartialSignStops(filled, data, signers[1..], stop - 1);
    }
  }

  /** What is left when a signer does not answer: that one's error, the slots of the signers before it filled with
      their answers, and all others empty. */
  ghost predicate SignStopped(
    after: Signing, keys: seq<PublicKey>, data: seq<byte>, distinct: seq<Signer>, stop: nat)
    requires stop < |distinct| && distinct[stop].sign(data).Failure?
  {
    && after.result == Failure(distinct[stop].sign(data).error)
    && PairKeys(after.pairs) == keys
    && forall i :: 0 <= i < |after.pairs| ==>
         match AnswerOf(distinct[..stop], data, after.pairs[i].publicKey)
         case Some(answer) => answer == Success(after.pairs[i].signature)
         case None => after.pairs[i].signature == ZeroSignature()
  }

  ghost predicate FirstToFail(distinct: seq<Signer>, data: seq<byte>, stop: nat) {
    && stop < |distinct| && distinct[stop].sign(data).Failure?
    && forall i :: 0 <= i < stop ==> distinct[i].sign(data).Success?
  }

  /** Sign opens an empty slot for each distinct signer. If these do not compile it stops there, with that error;
      otherwise the first signer that does not answer stops it. */
  lemma SignStops(t: TxState, signers: seq<Signer>, stop: nat)
    ensures var start := t.(signatures := Blank(SignerKeys(Dedupe(signers))));
            match CompileMessage(start)
            case Failure(e) => SignOutcome(t, signers) == Signing(Failure(e), start.signatures)
            case Success(m) =>
              FirstToFail(Dedupe(signers), EncodeMessage(m), stop) ==>
                SignStopped(SignOutcome(t, signers), SignedKeys(m), EncodeMessage(m), Dedupe(signers), stop)
  {
    var start, distinct := t.(signatures := Blank(SignerKeys(Dedupe(signers)))), Dedupe(signers);
    assert start == WithSlots(t, signers);
    DedupeKeys(signers);
    hide CompileMessage, EncodeMessage, Dedupe, AnswerOf, PartialSign, SignedKeys;
    if CompileMessage(start).Success? {
      var m := CompileMessage(start).value;
      if FirstToFail(distinct, EncodeMessage(m), stop) {
        SignStopsAt(start, m, EncodeMessage(m), distinct, stop);
      }
    }
  }

  lemma SignStopsAt(start: TxState, m: Message, data: seq<byte>, distinct: seq<Signer>, stop: nat)
    requires CompileMessage(start) == Success(m)
    requires start.signatures == Blank(SignerKeys(distinct)) && NoDuplicates(SignerKeys(distinct))
    requires stop < |distinct| && distinct[stop].sign(data).Failure?
    requires forall i :: 0 <= i < stop ==> distinct[i].sign(data).Success?
    ensures SignStopped(PartialSign(Compiled(start).signatures, data, distinct), SignedKeys(m), data, distinct, stop)
  {
    SlotsSurvive(start);
    CompileStable(start);
    SignedKeysDistinct(start);
    var pairs, first := Compiled(start).signatures, distinct[..stop];
    hide CompileMessage, SignedKeys;
    forall i | 0 <= i < |distinct| ensures distinct[i].publicKey in PairKeys(pairs) {
      assert SignerKeys(distinct)[i] == distinct[i].publicKey;
    }
    PartialSignStops(pairs, data, distinct, stop);
    assert SignerKeys(first) == SignerKeys(distinct)[..stop];
    PartialSignSucceeds(pairs, data, first);
    PartialSignFills(pairs, data, first);
    hide PartialSign, AnswerOf;
    var after := PartialSign(pairs, data, first).pairs;
    forall i | 0 <= i < |pairs| ensures pairs[i].signature == ZeroSignature() || pairs == start.signatures {
    }
    assert |after| == |pairs|;
    forall i | 0 <= i < |after| ensures after[i].publicKey == pairs[i].publicKey {
      assert PairKeys(after)[i] == PairKeys(pairs)[i];
    }
  }

  // ---------- Serializing and populating ----------

  /** Serialize's errors, in the order checked: it does not compile, a required signature is empty or does not verify,
      or the packet is over 1232 bytes. */
  lemma SerializeErrors(t: TxState, verify: (PublicKey, seq<byte>, Signature) -> bool)
    ensures match CompileMessage(t)
            case Failure(e) => SerializeOutcome(t, verify) == Failure(e)
            case Success(m) =>
              var pairs, data := Compiled(t).signatures, EncodeMessage(m);
              if exists i :: 0 <= i < |pairs| &&
                   (pairs[i].signature == seq(64, _ => 0) || !verify(pairs[i].publicKey, data, pairs[i].signature)) then
                SerializeOutcome(t, verify) == Failure(SignatureVerification)
              else if |pairs| >= 256 then SerializeOutcome(t, verify) == Failure(TooManySignatures)
              else if |Envelope(SignaturesOf(pairs), data)| > 1232 then
                SerializeOutcome(t, verify) == Failure(TransactionTooLarge)
              else SerializeOutcome(t, verify).Success?
  {
    if CompileMessage(t).Success? {
      var pairs := Compiled(t).signatures;
      NoneMissing(pairs);
      NoneInvalid(pairs, EncodeMessage(CompileMessage(t).value), verify);
      assert ZeroSignature() == seq(64, _ => 0);
    }
    hide CompileMessage, Missing, Invalid, EncodeMessage, Envelope, SlotsAfter, ZeroSignature;
  }

  /** An instruction read from a message with the keys at its indexes. An account signs if it has one of the first
      signatures or stands among the required signers, and is writable if its position is. */
  ghost predicate ReadFrom(m: Message, signatures: nat, c: CompiledInstruction, ix: TransactionInstruction)
    requires signatures <= |m.accountKeys|
  {
    var keys, r := m.accountKeys, m.header.numRequiredSignatures;
    && c.programIdIndex < |keys| && ix.programId == keys[c.programIdIndex]
    && ix.data == c.data && |ix.keys| == |c.accounts|
    && forall j :: 0 <= j < |c.accounts| ==>
         var a := c.accounts[j];
         && a < |keys| && ix.keys[j].pubkey == keys[a]
         && (ix.keys[j].isSigner <==> a < r || exists s :: 0 <= s < signatures && keys[s] == keys[a])
         && (ix.keys[j].isWritable <==>
               if a < r then a < r - m.header.numReadonlySignedAccounts
               else a < |keys| - m.header.numReadonlyUnsignedAccounts)
  }

  /** What PopulateTransaction reads from a message: the first key as fee payer if any signature is required, the
      signatures with the first keys, and each instruction. */
  lemma PopulatedFields(m: Message, signatures: seq<Signature>)
    requires Populatable(m, signatures)
    ensures var back := Populated(m, signatures);
            && back.recentBlockhash == Some(m.recentBlockhash) && back.nonceInfo.None?
            && (if m.header.numRequiredSignatures > 0 then
                  m.accountKeys != [] && back.feePayer == Some(m.accountKeys[0])
                else
                  back.feePayer.None?)
            && |back.signatures| == |signatures| <= |m.accountKeys|
            && (forall i :: 0 <= i < |signatures| ==>
                  back.signatures[i] == SignaturePubkeyPair(signatures[i], m.accountKeys[i]))
            && |back.instructions| == |m.instructions|
            && forall i :: 0 <= i < |m.instructions| ==>
                 ReadFrom(m, |signatures|, m.instructions[i], back.instructions[i])
  {
    var back := Populated(m, signatures);
    var slots := m.accountKeys[..|signatures|];
    assert PairKeys(back.signatures) == slots;
    forall i | 0 <= i < |m.instructions| ensures ReadFrom(m, |signatures|, m.instructions[i], back.instructions[i]) {
      assert back.instructions[i] == PopulatedInstruction(m, slots, m.instructions[i]);
      PopulatedReads(m, |signatures|, m.instructions[i]);
    }
    hide ReadFrom, PopulatedInstruction;
  }

  lemma PopulatedReads(m: Message, signatures: nat, c: CompiledInstruction)
    requires signatures <= |m.accountKeys| && InstructionInRange(m, c)
    ensures ReadFrom(m, signatures, c, PopulatedInstruction(m, m.accountKeys[..signatures], c))
  {
    var ix := PopulatedInstruction(m, m.accountKeys[..signatures], c);
    forall j | 0 <= j < |c.accounts|
      ensures m.accountKeys[c.accounts[j]] in m.accountKeys[..signatures] <==>
              exists s :: 0 <= s < signatures && m.accountKeys[s] == m.accountKeys[c.accounts[j]]
    {
      if s :| 0 <= s < signatures && m.accountKeys[s] == m.accountKeys[c.accounts[j]] {
        assert m.accountKeys[..signatures][s] == m.accountKeys[c.accounts[j]];
      }
    }
  }

  /** It faults exactly on an index past the keys, more signatures than keys, or a required signature and no keys. */
  lemma PopulatableMeaning(m: Message, signatures: seq<Signature>)
    ensures !Populatable(m, signatures) <==>
            || (m.header.numRequiredSignatures > 0 && m.accountKeys == [])
            || |signatures| > |m.accountKeys|
            || exists i :: 0 <= i < |m.instructions| &&
                 (m.instructions[i].programIdIndex >= |m.accountKeys| ||
                  exists j :: 0 <= j < |m.instructions[i].accounts| && m.instructions[i].accounts[j] >= |m.accountKeys|)
  {
    if i :| 0 <= i < |m.instructions| && !InstructionInRange(m, m.instructions[i]) {
      assert m.instructions[i].programIdIndex >= |m.accountKeys| ||
             exists j :: 0 <= j < |m.instructions[i].accounts| && m.instructions[i].accounts[j] >= |m.accountKeys|;
    }
  }
}
