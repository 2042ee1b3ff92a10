/** What the layout of a compiled legacy message tells about its keys, and how PopulateTransaction
    reads a transaction back from it (web3/transaction_legacy.go:214-244, 295-334). */
module LegacyLayout {
  import opened Basics
  import opened Messages
  import opened AccountMetas
  import opened LegacyCompile

  /** The keys of a compiled message: no key twice, the fee payer first, exactly the keys used and the payer. */
  lemma CanonicalKeys(t: TxState)
    requires CompileMessage(t).Success?
    ensures var m := CompileMessage(t).value;
            && PayerOf(t).Some?
            && Lists(m.accountKeys, KeySet(Metas(EffectiveInstructions(t))) + {PayerOf(t).value})
            && m.accountKeys[0] == PayerOf(t).value
  {
    hide CompileMessage, CompiledMetas, Promote;
    var once := Anatomy(t);
    ArrangedNoDuplicates(once);
    SignedFirst(once);
    var keys := CompileMessage(t).value.accountKeys;
    forall k ensures k in keys <==> k in KeySet(Metas(EffectiveInstructions(t))) + {PayerOf(t).value} {
      ArrangedKeyMembers(once, k);
    }
    assert forall i :: 0 <= i < |keys| ==> keys[i] in keys;
  }

  /** Members of the same group keep their order, so grouping can be checked group by group. */
  ghost predicate GroupedAmong(s: seq<AccountMeta>, signers: bool) {
    forall i, j :: 0 <= i < j < |s| && s[i].isSigner == signers && s[j].isSigner == signers ==> Rank(s[i]) <= Rank(s[j])
  }

  lemma {:induction false} SplitGrouped(s: seq<AccountMeta>)
    ensures Grouped(Signed(s)) <==> GroupedAmong(s, true)
    ensures Grouped(Unsigned(s)) <==> GroupedAmong(s, false)
  {
    if s == [] {
    } else {
      var n := |s| - 1;
      SplitGrouped(s[..n]);
      GroupedAppend(s, Signed(s[..n]), true);
      GroupedAppend(s, Unsigned(s[..n]), false);
      assert Signed(s[..n]) + [] == Signed(s[..n]) && Unsigned(s[..n]) + [] == Unsigned(s[..n]);
    }
  }

  lemma GroupedAppend(s: seq<AccountMeta>, part: seq<AccountMeta>, signers: bool)
    requires s != [] && part == if signers then Signed(s[..|s| - 1]) else Unsigned(s[..|s| - 1])
    ensures var last := s[|s| - 1];
            && (GroupedAmong(s, signers) <==>
                  GroupedAmong(s[..|s| - 1], signers) && (last.isSigner == signers ==> Grouped1(part, last)))
            && (Grouped(part + [last]) <==> Grouped(part) && Grouped1(part, last))
  {
    hide Rank, Signed, Unsigned;
    var n, last := |s| - 1, s[|s| - 1];
    var init := s[..n];
    assert Grouped1(part, last) <==>
      forall i :: 0 <= i < n && init[i].isSigner == signers ==> Rank(init[i]) <= Rank(last) by {
      forall m ensures m in part <==> m in init && m.isSigner == signers {
        SplitMembers(init, m);
      }
    }
    AmongAppend(init, last, signers);
    assert s == init + [last];
    if Grouped(part + [last]) {
      forall i, j | 0 <= i < j < |part| ensures Rank(part[i]) <= Rank(part[j]) {
        assert (part + [last])[i] == part[i] && (part + [last])[j] == part[j];
      }
      forall i | 0 <= i < |part| ensures Rank(part[i]) <= Rank(last) {
        assert (part + [last])[i] == part[i] && (part + [last])[|part|] == last;
      }
    }
  }

  lemma AmongAppend(init: seq<AccountMeta>, last: AccountMeta, signers: bool)
    ensures GroupedAmong(init + [last], signers) <==>
              GroupedAmong(init, signers) &&
              (last.isSigner == signers ==>
                 forall i :: 0 <= i < |init| && init[i].isSigner == signers ==> Rank(init[i]) <= Rank(last))
  {
    hide Rank;
    var s := init + [last];
    if GroupedAmong(s, signers) {
      forall i, j | 0 <= i < j < |init| && init[i].isSigner == signers && init[j].isSigner == signers
        ensures Rank(init[i]) <= Rank(init[j])
      {
        assert s[i] == init[i] && s[j] == init[j];
      }
      forall i | 0 <= i < |init| && init[i].isSigner == signers && last.isSigner == signers
        ensures Rank(init[i]) <= Rank(last)
      {
        assert s[i] == init[i] && s[|init|] == last;
      }
    }
  }

  ghost predicate Grouped1(part: seq<AccountMeta>, last: AccountMeta) {
    forall m :: m in part ==> Rank(m) <= Rank(last)
  }

  lemma ArrangedGrouped(s: seq<AccountMeta>)
    ensures Grouped(Arranged(s)) <==> GroupedAmong(s, true) && GroupedAmong(s, false)
  {
    SplitGrouped(s);
    SplitBySigner(s);
    var a, c := Arranged(s), |Signed(s)|;
    assert forall i :: 0 <= i < c ==> a[i] == Signed(s)[i];
    assert forall i :: c <= i < |a| ==> a[i] == Unsigned(s)[i - c];
    if Grouped(a) {
      forall i, j | 0 <= i < j < |Unsigned(s)| ensures Rank(Unsigned(s)[i]) <= Rank(Unsigned(s)[j]) {
        assert Rank(a[i + c]) <= Rank(a[j + c]);
      }
    }
  }

  // ---------- Promotion against recovered flags ----------

  predicate IsReadonlySigner(m: AccountMeta) {
    m.isSigner && !m.isWritable
  }

  predicate IsPromotedWritable(m: AccountMeta, keys: seq<PublicKey>) {
    !m.isSigner && m.isWritable && m.pubkey in keys
  }

  /** On a list grouped before promotion, the promoted one is laid out by rank exactly when no writable
      key is promoted past a read-only signer. */
  lemma PromotionKeepsGroups(metas: seq<AccountMeta>, keys: seq<PublicKey>)
    requires Grouped(metas)
    ensures Grouped(Arranged(Promote(metas, keys))) <==>
            !((exists m :: m in metas && IsReadonlySigner(m)) &&
              (exists m :: m in metas && IsPromotedWritable(m, keys)))
  {
    var once := Promote(metas, keys);
    ArrangedGrouped(once);
    if r, w :| r in metas && IsReadonlySigner(r) && w in metas && IsPromotedWritable(w, keys) {
      var i :| 0 <= i < |metas| && metas[i] == r;
      var j :| 0 <= j < |metas| && metas[j] == w;
      assert i < j;
      assert Rank(once[i]) == 1 && Rank(once[j]) == 0;
    } else {
      NoPromotionPast(metas, keys);
    }
  }

  lemma NoPromotionPast(metas: seq<AccountMeta>, keys: seq<PublicKey>)
    requires Grouped(metas)
    requires !((exists m :: m in metas && IsReadonlySigner(m)) &&
             (exists m :: m in metas && IsPromotedWritable(m, keys)))
    ensures GroupedAmong(Promote(metas, keys), true) && GroupedAmong(Promote(metas, keys), false)
  {
    var once := Promote(metas, keys);
    forall i, j | 0 <= i < j < |once| && once[i].isSigner == once[j].isSigner ensures Rank(once[i]) <= Rank(once[j]) {
      var a, b := metas[i], metas[j];
      assert a in metas && b in metas && Rank(a) <= Rank(b);
      assert !(IsReadonlySigner(a) && IsPromotedWritable(b, keys));
    }
  }

  /** A key used read-only by a signer; a key in a signature slot that nothing asks to sign but something writes. */
  ghost predicate HasReadonlySigner(ixs: seq<TransactionInstruction>, payer: PublicKey) {
    exists k :: k in KeySet(Metas(ixs)) && IsReadonlySigner(MergedMeta(ixs, payer, k))
  }

  ghost predicate PromotesWritable(ixs: seq<TransactionInstruction>, payer: PublicKey, keys: seq<PublicKey>) {
    exists k :: k in KeySet(Metas(ixs)) && IsPromotedWritable(MergedMeta(ixs, payer, k), keys)
  }

  /** The position of every key tells its flags. */
  ghost predicate TellsFlags(m: Message, ixs: seq<TransactionInstruction>, payer: PublicKey, keys: seq<PublicKey>) {
    forall i :: 0 <= i < |m.accountKeys| ==>
      var meta := MergedMeta(ixs, payer, m.accountKeys[i]);
      && (IsSignerIndex(m.header, i) <==> meta.isSigner || meta.pubkey in keys)
      && (LegacyIsAccountWritable(m, i) <==> meta.isWritable)
  }

  /** IsAccountSigner and IsAccountWritable recover the merged flags of every key (signers including the
      promoted ones) exactly when no writable key is promoted while there is a read-only signer. */
  lemma FlagsRecovered(t: TxState)
    requires CompileMessage(t).Success?
    ensures var m, ixs, keys := CompileMessage(t).value, EffectiveInstructions(t), PairKeys(t.signatures);
            && PayerOf(t).Some?
            && var payer := PayerOf(t).value;
               (TellsFlags(m, ixs, payer, keys) <==>
                 !(HasReadonlySigner(ixs, payer) && PromotesWritable(ixs, payer, keys)))
  {
    var once := Anatomy(t);
    var m, ixs, keys, payer := CompileMessage(t).value, EffectiveInstructions(t), PairKeys(t.signatures),
      PayerOf(t).value;
    var metas := CompiledMetas(ixs, payer);
    hide *;
    CompiledMetasFacts(ixs, payer);
    PromotionKeepsGroups(metas, keys);
    ReadonlyPayer(ixs, payer, keys, metas);
    RecoveredIffGrouped(m, once);
    PromotedFlags(m, once, ixs, payer, keys);
  }

  /** A payer, a read-only signer and a writable account that signs without being asked to. */
  function PromotingTransaction(p: PublicKey, r: PublicKey, w: PublicKey, program: PublicKey): TxState {
    TxState(
      Blank([p, r, w]),
      [TransactionInstruction([AccountMeta(r, true, false), AccountMeta(w, false, true)], program, [])],
      Some(p), Some(SomeBlockhash(0)), None)
  }

  lemma PromotingFlags(p: PublicKey, r: PublicKey, w: PublicKey, program: PublicKey)
    requires NoDuplicates([p, r, w, program])
    ensures var ixs := PromotingTransaction(p, r, w, program).instructions;
            && r in KeySet(Metas(ixs)) && IsReadonlySigner(MergedMeta(ixs, p, r))
            && w in KeySet(Metas(ixs)) && IsPromotedWritable(MergedMeta(ixs, p, w), [p, r, w])
  {
    var ixs := PromotingTransaction(p, r, w, program).instructions;
    var keys := [p, r, w, program];
    assert keys[0] != keys[1] && keys[0] != keys[2] && keys[1] != keys[2] && keys[1] != keys[3] && keys[2] != keys[3];
    var ms := [AccountMeta(r, true, false), AccountMeta(w, false, true), AccountMeta(program, false, false)];
    assert ixs[..0] == [];
    assert Metas(ixs) == ms;
    assert ms[0] in ms && ms[1] in ms;
  }

  /** It compiles, and the flags of its keys are lost. */
  lemma PromotionLosesFlags(p: PublicKey, r: PublicKey, w: PublicKey, program: PublicKey)
    requires NoDuplicates([p, r, w, program])
    ensures var t := PromotingTransaction(p, r, w, program);
            && CompileMessage(t).Success?
            && !TellsFlags(CompileMessage(t).value, EffectiveInstructions(t), p, PairKeys(t.signatures))
  {
    hide CompileMessage, Metas, MergedMeta, IsReadonlySigner, IsPromotedWritable, TellsFlags, KeySet, NoDuplicates;
    var t := PromotingTransaction(p, r, w, program);
    PromotingFlags(p, r, w, program);
    assert PairKeys(t.signatures) == [p, r, w];
    CompileSucceeds(t);
    FlagsRecovered(t);
  }

  /** Reading the header of a laid-out list recovers its flags exactly when it is grouped. */
  lemma RecoveredIffGrouped(m: Message, once: seq<AccountMeta>)
    requires m.header == HeaderOf(once)
    ensures Recovers(Arranged(once), m.header) <==> Grouped(Arranged(once))
  {
    ArrangedMembers(once);
    GroupedIffRecovers(Arranged(once));
    ArrangedBelow(once, 1);
    ArrangedBelow(once, 2);
    ArrangedBelow(once, 3);
  }

  lemma PromotedFlags(
    m: Message, once: seq<AccountMeta>, ixs: seq<TransactionInstruction>, payer: PublicKey, keys: seq<PublicKey>)
    requires once == Promote(CompiledMetas(ixs, payer), keys)
    requires m.accountKeys == Keys(Arranged(once))
    ensures TellsFlags(m, ixs, payer, keys) <==> Recovers(Arranged(once), m.header)
  {
    var a := Arranged(once);
    ArrangedMembers(once);
    hide CompiledMetas, Promote, Arranged, MergedMeta;
    forall i | 0 <= i < |a| ensures CarriesFlags(a[i], MergedMeta(ixs, payer, a[i].pubkey), keys) {
      assert a[i] in once;
      PromotedMember(ixs, payer, keys, a[i]);
    }
  }

  /** A promoted meta has the merged flags of its key, and signs if it has a slot. */
  predicate CarriesFlags(m: AccountMeta, merged: AccountMeta, keys: seq<PublicKey>) {
    m == merged.(isSigner := merged.isSigner || merged.pubkey in keys)
  }

  lemma PromotedMember(ixs: seq<TransactionInstruction>, payer: PublicKey, keys: seq<PublicKey>, m: AccountMeta)
    requires m in Promote(CompiledMetas(ixs, payer), keys)
    ensures var meta := MergedMeta(ixs, payer, m.pubkey);
            m == meta.(isSigner := meta.isSigner || meta.pubkey in keys)
  {
    CompiledMetasFacts(ixs, payer);
    var metas := CompiledMetas(ixs, payer);
    hide CompiledMetas, MergedMeta;
    var j :| 0 <= j < |metas| && Promote(metas, keys)[j] == m;
    assert metas[j] in metas;
  }

  lemma ReadonlyPayer(ixs: seq<TransactionInstruction>, payer: PublicKey, keys: seq<PublicKey>, metas: seq<AccountMeta>)
    requires forall m :: m in metas <==>
             m.pubkey in KeySet(Metas(ixs)) + {payer} && m == MergedMeta(ixs, payer, m.pubkey)
    ensures (exists m :: m in metas && IsReadonlySigner(m)) <==> HasReadonlySigner(ixs, payer)
    ensures (exists m :: m in metas && IsPromotedWritable(m, keys)) <==> PromotesWritable(ixs, payer, keys)
  {
    if HasReadonlySigner(ixs, payer) {
      var k :| k in KeySet(Metas(ixs)) && IsReadonlySigner(MergedMeta(ixs, payer, k));
      assert MergedMeta(ixs, payer, k) in metas;
    }
    if PromotesWritable(ixs, payer, keys) {
      var k :| k in KeySet(Metas(ixs)) && IsPromotedWritable(MergedMeta(ixs, payer, k), keys);
      assert MergedMeta(ixs, payer, k) in metas;
    }
  }

  // ---------- PopulateTransaction ----------

  function PopulatedMeta(m: Message, signed: seq<PublicKey>, account: nat): AccountMeta
    requires account < |m.accountKeys|
  {
    AccountMeta(
      m.accountKeys[account],
      m.accountKeys[account] in signed || IsSignerIndex(m.header, account),
      LegacyIsAccountWritable(m, account))
  }

  predicate InstructionInRange(m: Message, ix: CompiledInstruction) {
    ix.programIdIndex < |m.accountKeys| && forall j :: 0 <= j < |ix.accounts| ==> ix.accounts[j] < |m.accountKeys|
  }

  function PopulatedInstruction(m: Message, signed: seq<PublicKey>, ix: CompiledInstruction): TransactionInstruction
    requires InstructionInRange(m, ix)
  {
    TransactionInstruction(
      seq(|ix.accounts|, j requires 0 <= j < |ix.accounts| => PopulatedMeta(m, signed, ix.accounts[j])),
      m.accountKeys[ix.programIdIndex],
      ix.data)
  }

  /** What PopulateTransaction reads without a fault. */
  predicate Populatable(m: Message, signatures: seq<Signature>) {
    && (m.header.numRequiredSignatures > 0 ==> m.accountKeys != [])
    && |signatures| <= |m.accountKeys|
    && forall i :: 0 <= i < |m.instructions| ==> InstructionInRange(m, m.instructions[i])
  }

  function Populated(m: Message, signatures: seq<Signature>): TxState
    requires Populatable(m, signatures)
  {
    var pairs := seq(|signatures|, i requires 0 <= i < |signatures| =>
      SignaturePubkeyPair(signatures[i], m.accountKeys[i]));
    var ixs := seq(|m.instructions|, i requires 0 <= i < |m.instructions| =>
      PopulatedInstruction(m, PairKeys(pairs), m.instructions[i]));
    var payer := if m.header.numRequiredSignatures > 0 then Some(m.accountKeys[0]) else None;
    TxState(pairs, ixs, payer, Some(m.recentBlockhash), None)
  }

  /** No slot belongs to a key that would have to be promoted. */
  ghost predicate NonePromoted(t: TxState) {
    PayerOf(t).Some? &&
    forall k :: k in PairKeys(t.signatures) ==> MergedMeta(EffectiveInstructions(t), PayerOf(t).value, k).isSigner
  }

  /** Merged flags of the normalized instructions are those of the original ones. */
  lemma NormalizedMerges(ixs: seq<TransactionInstruction>, payer: PublicKey, k: PublicKey)
    ensures MergedMeta(Normalized(ixs, payer), payer, k) == MergedMeta(ixs, payer, k)
    ensures k in KeySet(Metas(Normalized(ixs, payer))) <==> k in KeySet(Metas(ixs))
  {
    var normal := Normalized(ixs, payer);
    if i, j :| 0 <= i < |ixs| && 0 <= j < |ixs[i].keys| && ixs[i].keys[j].pubkey == k {
      assert normal[i].keys[j] == MergedMeta(ixs, payer, k);
      MergedAgain(ixs, payer, i, j);
      InstructionKeysUsed(normal, i);
      InstructionKeysUsed(ixs, i);
    } else {
      ProgramOnly(ixs, k);
      ProgramOnly(normal, k);
      forall i | 0 <= i < |ixs| ensures ixs[i].programId == k <==> normal[i].programId == k {
      }
      assert Invokes(ixs, k) <==> Invokes(normal, k) by {
        if Invokes(ixs, k) {
          var ix :| ix in ixs && ix.programId == k;
          var i :| 0 <= i < |ixs| && ixs[i] == ix;
          assert normal[i] in normal;
        }
        if Invokes(normal, k) {
          var ix :| ix in normal && ix.programId == k;
          var i :| 0 <= i < |normal| && normal[i] == ix;
          assert ixs[i] in ixs;
        }
      }
    }
  }

  /** A key that is nobody's account has no flags and is used only if it is a program. */
  lemma ProgramOnly(ixs: seq<TransactionInstruction>, k: PublicKey)
    requires forall i, j :: 0 <= i < |ixs| && 0 <= j < |ixs[i].keys| ==> ixs[i].keys[j].pubkey != k
    ensures !Signs(Metas(ixs), k) && !Writes(Metas(ixs), k)
    ensures k in KeySet(Metas(ixs)) <==> Invokes(ixs, k)
  {
    forall s, w | AccountMeta(k, s, w) in Metas(ixs) ensures !s && !w {
      MetasContain(ixs, AccountMeta(k, s, w));
    }
    if k in KeySet(Metas(ixs)) {
      UsedKeyOccurs(ixs, k);
    }
    if Invokes(ixs, k) {
      var ix :| ix in ixs && ix.programId == k;
      var i :| 0 <= i < |ixs| && ixs[i] == ix;
      InstructionKeysUsed(ixs, i);
    }
  }

  /** So the compiled list of the normalized instructions is the original one. */
  lemma NormalizedCompiles(ixs: seq<TransactionInstruction>, payer: PublicKey)
    ensures CompiledMetas(Normalized(ixs, payer), payer) == CompiledMetas(ixs, payer)
  {
    var a := WithoutKey(MergeMetas(Metas(Normalized(ixs, payer))).Values, payer);
    var b := WithoutKey(MergeMetas(Metas(ixs)).Values, payer);
    forall m ensures m in a <==> m in b {
      NormalizedMerges(ixs, payer, m.pubkey);
      OtherMetas(Metas(Normalized(ixs, payer)), payer, m);
      OtherMetas(Metas(ixs), payer, m);
    }
    assert a == b;
  }

  lemma PromoteNothing(metas: seq<AccountMeta>, keys: seq<PublicKey>)
    requires forall i :: 0 <= i < |metas| && metas[i].pubkey in keys ==> metas[i].isSigner
    ensures Promote(metas, keys) == metas
  {
  }

  /** PopulateTransaction undoes compile: read back with its full list of signatures, a message without
      promoted signers and with at most 256 keys compiles to itself and keeps every signature.
      This holds for nonce transactions too, whose nonce instruction is read back with the others. */
  lemma PopulateUndoesCompile(t: TxState, signatures: seq<Signature>)
    requires CompileMessage(t).Success? && NonePromoted(t)
    requires |CompileMessage(t).value.accountKeys| <= 256
    requires |signatures| == CompileMessage(t).value.header.numRequiredSignatures
    ensures var m := CompileMessage(t).value;
            && Populatable(m, signatures)
            && var back := Populated(m, signatures);
            && back.instructions == Normalized(EffectiveInstructions(t), PayerOf(t).value)
            && CompileMessage(back) == Success(m)
            && Compiled(back) == back
            && |back.signatures| == |signatures|
            && forall i :: 0 <= i < |signatures| ==>
                 back.signatures[i] == SignaturePubkeyPair(signatures[i], m.accountKeys[i])
  {
    var m, ixs, payer := CompileMessage(t).value, EffectiveInstructions(t), PayerOf(t).value;
    CompiledIndexesExact(t);
    CompiledHeader(t);
    CanonicalKeys(t);
    ReadBack(t, signatures);
    var back := Populated(m, signatures);
    var metas := CompiledMetas(ixs, payer);
    NormalizedCompiles(ixs, payer);
    UnpromotedMetas(t);
    SignedPrefix(t);
    assert PairKeys(back.signatures) == SignedKeys(m);
    assert CompiledMetas(EffectiveInstructions(back), PayerOf(back).value) == metas;
    assert m == MessageOf(metas, EffectiveBlockhash(t).value, ixs);
    assert CompileInstructions(back.instructions, m.accountKeys) == CompileInstructions(ixs, m.accountKeys) by {
      SameIndexes(ixs, payer, m.accountKeys);
    }
    hide CompiledMetas;
    PromoteNothing(metas, SignedKeys(m));
    forall i | 0 <= i < |SignedKeys(m)| ensures SignedKeys(m)[i] in Keys(metas) {
      assert Keys(metas)[i] == SignedKeys(m)[i];
    }
  }

  /** Without promotion the compiled list is laid out as it stands. */
  lemma UnpromotedMetas(t: TxState)
    requires CompileMessage(t).Success? && NonePromoted(t)
    ensures var m, metas := CompileMessage(t).value, CompiledMetas(EffectiveInstructions(t), PayerOf(t).value);
            && m == MessageOf(metas, EffectiveBlockhash(t).value, EffectiveInstructions(t))
            && Arranged(metas) == metas && m.accountKeys == Keys(metas)
            && Recovers(metas, m.header)
  {
    var ixs, payer, keys := EffectiveInstructions(t), PayerOf(t).value, PairKeys(t.signatures);
    var metas := CompiledMetas(ixs, payer);
    CompiledMetasFacts(ixs, payer);
    var once := Anatomy(t);
    hide CompiledMetas, CompileMessage, MergedMeta, EffectiveInstructions;
    forall i | 0 <= i < |metas| && metas[i].pubkey in keys ensures metas[i].isSigner {
      assert metas[i] in metas;
    }
    PromoteNothing(metas, keys);
    GroupedArranged(metas);
    GroupedIffRecovers(metas);
  }

  /** The signed keys are the keys of the signer metas, in place. */
  lemma SignedPrefix(t: TxState)
    requires CompileMessage(t).Success? && NonePromoted(t)
    ensures var m, metas := CompileMessage(t).value, CompiledMetas(EffectiveInstructions(t), PayerOf(t).value);
            && |SignedKeys(m)| == m.header.numRequiredSignatures
            && forall i :: 0 <= i < |metas| ==> (metas[i].pubkey in SignedKeys(m) <==> metas[i].isSigner)
  {
    UnpromotedMetas(t);
    CompiledHeader(t);
    SignedKeysDistinct(t);
    hide CompileMessage, CompiledMetas;
    var m, metas := CompileMessage(t).value, CompiledMetas(EffectiveInstructions(t), PayerOf(t).value);
    var n := m.header.numRequiredSignatures;
    forall i | 0 <= i < |metas| ensures metas[i].pubkey in SignedKeys(m) <==> metas[i].isSigner {
      assert metas[i].isSigner <==> i < n;
      if i < n {
        assert SignedKeys(m)[i] == metas[i].pubkey;
      }
      if metas[i].pubkey in SignedKeys(m) {
        var j :| 0 <= j < n && SignedKeys(m)[j] == metas[i].pubkey;
        assert m.accountKeys[j] == m.accountKeys[i];
      }
    }
  }

  /** Only the keys of an instruction matter to its indexes. */
  lemma SameIndexes(ixs: seq<TransactionInstruction>, payer: PublicKey, keys: seq<PublicKey>)
    ensures CompileInstructions(Normalized(ixs, payer), keys) == CompileInstructions(ixs, keys)
  {
    var normal := Normalized(ixs, payer);
    forall i | 0 <= i < |ixs| ensures CompileInstruction(normal[i], keys) == CompileInstruction(ixs[i], keys) {
      assert CompileInstruction(normal[i], keys).accounts == CompileInstruction(ixs[i], keys).accounts;
    }
  }

  /** The instructions read back are the original ones with merged flags. */
  lemma ReadBack(t: TxState, signatures: seq<Signature>)
    requires CompileMessage(t).Success? && NonePromoted(t)
    requires |CompileMessage(t).value.accountKeys| <= 256
    requires |signatures| == CompileMessage(t).value.header.numRequiredSignatures
    ensures var m := CompileMessage(t).value;
            Populatable(m, signatures) &&
            Populated(m, signatures).instructions == Normalized(EffectiveInstructions(t), PayerOf(t).value)
  {
    var m, ixs, payer := CompileMessage(t).value, EffectiveInstructions(t), PayerOf(t).value;
    CompiledIndexesExact(t);
    CompiledHeader(t);
    PopulatedMetas(t);
    SignedPrefixLength(t);
    hide CompileMessage, EffectiveInstructions, PopulatedMeta, MergedMeta, PayerOf;
    forall i | 0 <= i < |ixs|
      ensures InstructionInRange(m, m.instructions[i])
      ensures PopulatedInstruction(m, SignedKeys(m), m.instructions[i]) == NormalizedInstruction(ixs[i], ixs, payer)
    {
      ReadBackInstruction(m, ixs, payer, i);
    }
    var back := Populated(m, signatures);
    assert PairKeys(back.signatures) == SignedKeys(m);
    assert back.instructions == Normalized(ixs, payer);
  }

  lemma SignedPrefixLength(t: TxState)
    requires CompileMessage(t).Success?
    ensures var m := CompileMessage(t).value;
            && 0 <= m.header.numRequiredSignatures <= |m.accountKeys|
            && SignedKeys(m) == m.accountKeys[..m.header.numRequiredSignatures]
  {
    CompiledHeader(t);
  }

  /** Every position of an unpromoted message reads back as the merged meta of its key. */
  lemma PopulatedMetas(t: TxState)
    requires CompileMessage(t).Success? && NonePromoted(t)
    ensures var m := CompileMessage(t).value;
            forall a :: 0 <= a < |m.accountKeys| ==>
              PopulatedMeta(m, SignedKeys(m), a) ==
                MergedMeta(EffectiveInstructions(t), PayerOf(t).value, m.accountKeys[a])
  {
    var m, ixs, payer := CompileMessage(t).value, EffectiveInstructions(t), PayerOf(t).value;
    UnpromotedMetas(t);
    SignedPrefix(t);
    CompiledMetasFacts(ixs, payer);
    var metas := CompiledMetas(ixs, payer);
    hide CompileMessage, CompiledMetas, EffectiveInstructions, MergedMeta;
    forall a | 0 <= a < |metas| ensures PopulatedMeta(m, SignedKeys(m), a) == MergedMeta(ixs, payer, m.accountKeys[a]) {
      assert metas[a] in metas;
    }
  }

  lemma ReadBackInstruction(m: Message, ixs: seq<TransactionInstruction>, payer: PublicKey, i: nat)
    requires i < |ixs| && IndexesExact(ixs, m)
    requires forall a :: 0 <= a < |m.accountKeys| ==>
               PopulatedMeta(m, SignedKeys(m), a) == MergedMeta(ixs, payer, m.accountKeys[a])
    ensures InstructionInRange(m, m.instructions[i])
    ensures PopulatedInstruction(m, SignedKeys(m), m.instructions[i]) == NormalizedInstruction(ixs[i], ixs, payer)
  {
    hide PopulatedMeta, MergedMeta, SignedKeys;
    var ix, c := ixs[i], m.instructions[i];
    assert Names(m.accountKeys, c.programIdIndex, ix.programId);
    forall j | 0 <= j < |ix.keys|
      ensures c.accounts[j] < |m.accountKeys| && m.accountKeys[c.accounts[j]] == ix.keys[j].pubkey
    {
      assert Names(m.accountKeys, c.accounts[j], ix.keys[j].pubkey);
    }
    assert PopulatedInstruction(m, SignedKeys(m), c).keys == NormalizedInstruction(ix, ixs, payer).keys;
  }
}
