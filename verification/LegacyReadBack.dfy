/** Exactly when a legacy message read back by PopulateTransaction compiles to itself, promoted signers included
    (web3/transaction_legacy.go:214-260, 295-334). */
module LegacyReadBack {
  import opened Basics
  import opened Base58
  import opened Messages
  import opened AccountMetas
  import opened LegacyCompile
  import opened LegacyLayout

  // ---------- The two halves of a laid-out list ----------

  lemma PartLists(s: seq<AccountMeta>, elems: set<AccountMeta>, keys: seq<PublicKey>, chosen: bool)
    requires Lists(s, elems)
    ensures Lists(Part(s, keys, chosen), PartOf(elems, keys, chosen))
  {
    PartMembers(s, keys, chosen);
    PartKeeps(s, keys, chosen);
    var p := Part(s, keys, chosen);
    hide Part;
    forall i | 0 <= i < |p| ensures p[i] in PartOf(elems, keys, chosen) {
      assert p[i] in p;
    }
  }

  lemma {:induction false} PartPrepend(m: AccountMeta, s: seq<AccountMeta>, keys: seq<PublicKey>, chosen: bool)
    ensures Part([m] + s, keys, chosen) == (if (m.pubkey in keys) == chosen then [m] else []) + Part(s, keys, chosen)
  {
    var all := [m] + s;
    if s == [] {
      assert all[..0] == [] && all == [m];
    } else {
      var n := |s| - 1;
      assert all[..|all| - 1] == [m] + s[..n] && all[|all| - 1] == s[n];
      PartPrepend(m, s[..n], keys, chosen);
    }
  }

  lemma KeysAppend(s: seq<AccountMeta>, m: AccountMeta)
    ensures Keys(s + [m]) == Keys(s) + [m.pubkey]
    ensures Keys(s + []) == Keys(s)
  {
    assert s + [] == s;
  }

  /** If only keys among the promoted ones sign, promoting makes those keys the signers. */
  lemma {:induction false} PromotedParts(s: seq<AccountMeta>, keys: seq<PublicKey>)
    requires forall m :: m in s && m.isSigner ==> m.pubkey in keys
    ensures Keys(Signed(Promote(s, keys))) == Keys(Part(s, keys, true))
    ensures Keys(Unsigned(Promote(s, keys))) == Keys(Part(s, keys, false))
  {
    if s == [] {
    } else {
      var n := |s| - 1;
      var once := Promote(s, keys);
      assert once[..n] == Promote(s[..n], keys);
      assert s == s[..n] + [s[n]];
      PromotedParts(s[..n], keys);
      SplitNext(once);
      assert s[n] in s;
      assert once[n] == s[n].(isSigner := s[n].isSigner || s[n].pubkey in keys);
      hide Promote, Signed, Unsigned;
      KeysAppend(Signed(once[..n]), once[n]);
      KeysAppend(Unsigned(once[..n]), once[n]);
      KeysAppend(Part(s[..n], keys, true), s[n]);
      KeysAppend(Part(s[..n], keys, false), s[n]);
      assert Keys(Signed(once)) == Keys(Part(s, keys, true));
      assert Keys(Unsigned(once)) == Keys(Part(s, keys, false));
    }
  }

  /** The metas other than the payer's, before promotion. */
  ghost function Others(ixs: seq<TransactionInstruction>, payer: PublicKey): set<AccountMeta> {
    WithoutKey(MergeMetas(Metas(ixs)).Values, payer)
  }

  /** The account keys: the payer, the other signed keys, the rest, each part in priority order before promotion. */
  lemma KeysInParts(ixs: seq<TransactionInstruction>, payer: PublicKey, signed: seq<PublicKey>)
    requires payer in signed
    requires forall m :: m in CompiledMetas(ixs, payer) && m.isSigner ==> m.pubkey in signed
    ensures var c := Canonical(Others(ixs, payer));
            Keys(Arranged(Promote(CompiledMetas(ixs, payer), signed)))
            == [payer] + (Keys(Part(c, signed, true)) + Keys(Part(c, signed, false)))
  {
    var c, metas := Canonical(Others(ixs, payer)), CompiledMetas(ixs, payer);
    var first := AccountMeta(payer, true, true);
    assert metas == [first] + c;
    hide Part, Promote, Arranged, Canonical, Others, Signed, Unsigned, CompiledMetas;
    PromotedParts(metas, signed);
    PartPrepend(first, c, signed, true);
    PartPrepend(first, c, signed, false);
    ArrangedKeys(Promote(metas, signed));
    KeysPrepend(first, Part(c, signed, true));
    assert [] + Part(c, signed, false) == Part(c, signed, false);
    Associates(payer, Keys(Part(c, signed, true)), Keys(Part(c, signed, false)));
  }

  lemma KeysPrepend(m: AccountMeta, s: seq<AccountMeta>)
    ensures Keys([m] + s) == [m.pubkey] + Keys(s)
  {
  }

  lemma Associates(k: PublicKey, a: seq<PublicKey>, b: seq<PublicKey>)
    ensures ([k] + a) + b == [k] + (a + b)
  {
  }

  /** A listing has the keys of the sorted one exactly when it is sorted. */
  lemma KeysOfSorted(sorted: seq<AccountMeta>, l: seq<AccountMeta>, elems: set<AccountMeta>)
    requires Lists(sorted, elems) && Sorted(sorted) && Lists(l, elems) && DistinctKeys(elems)
    ensures Keys(sorted) == Keys(l) <==> Sorted(l)
  {
    hide Before;
    if Sorted(l) {
      SortedUnique(sorted, l, elems);
    }
    if Keys(sorted) == Keys(l) {
      forall i | 0 <= i < |l| ensures sorted[i] == l[i] {
        assert Keys(sorted)[i] == Keys(l)[i];
        assert sorted[i] in elems && l[i] in elems;
      }
      assert sorted == l;
    }
  }

  /** A list of signed metas and one of the others are laid out as compiling would, exactly when both are sorted. */
  lemma PartsInOrder(
    elems: set<AccountMeta>, signed: seq<PublicKey>, l: seq<AccountMeta>, l': seq<AccountMeta>)
    requires DistinctKeys(elems)
    requires Lists(l, PartOf(elems, signed, true)) && Lists(l', PartOf(elems, signed, false))
    ensures var c := Canonical(elems);
            Keys(Part(c, signed, true)) + Keys(Part(c, signed, false)) == Keys(l) + Keys(l') <==>
              Sorted(l) && Sorted(l')
  {
    var c := Canonical(elems);
    PartLists(c, elems, signed, true);
    PartLists(c, elems, signed, false);
    PartKeeps(c, signed, true);
    PartKeeps(c, signed, false);
    KeysOfSorted(Part(c, signed, true), l, PartOf(elems, signed, true));
    KeysOfSorted(Part(c, signed, false), l', PartOf(elems, signed, false));
    ListingLength(l, PartOf(elems, signed, true));
    ListingLength(Part(c, signed, true), PartOf(elems, signed, true));
    hide Part, PartOf, Canonical, Sorted, Lists;
    SameParts(Keys(Part(c, signed, true)), Keys(Part(c, signed, false)), Keys(l), Keys(l'));
  }

  // ---------- Counting ranks ----------

  /** A list whose ranks are nowhere lower has no more metas below any rank, and as many only if the same ones. */
  lemma {:induction false} BelowPointwise(a: seq<AccountMeta>, b: seq<AccountMeta>, r: nat)
    requires |a| == |b| && forall i :: 0 <= i < |a| ==> Rank(a[i]) >= Rank(b[i])
    ensures Below(a, r) <= Below(b, r)
    ensures Below(a, r) == Below(b, r) ==> forall i :: 0 <= i < |a| ==> (Rank(a[i]) < r <==> Rank(b[i]) < r)
  {
    hide Rank;
    if a == [] {
    } else {
      var n := |a| - 1;
      BelowPointwise(a[..n], b[..n], r);
      if Below(a, r) == Below(b, r) {
        forall i | 0 <= i < |a| ensures Rank(a[i]) < r <==> Rank(b[i]) < r {
          if i < n {
            assert a[..n][i] == a[i] && b[..n][i] == b[i];
          }
        }
      }
    }
  }

  /** The metas a header tells of some keys. */
  function Told(h: MessageHeader, keys: seq<PublicKey>): seq<AccountMeta> {
    seq(|keys|, i requires 0 <= i < |keys| => AccountMeta(keys[i], IsSignerIndex(h, i), IsStaticWritable(h, |keys|, i)))
  }

  /** Counts that fit the keys, the first of which is a writable signer. */
  predicate FittingHeader(h: MessageHeader, n: nat) {
    && 0 <= h.numReadonlySignedAccounts < h.numRequiredSignatures
    && 0 <= h.numReadonlyUnsignedAccounts && h.numRequiredSignatures + h.numReadonlyUnsignedAccounts <= n
  }

  lemma ToldHeader(h: MessageHeader, keys: seq<PublicKey>)
    requires FittingHeader(h, |keys|)
    ensures HeaderOf(Told(h, keys)) == h
  {
    var told := Told(h, keys);
    assert Grouped(told);
    CutAt(told, 1, h.numRequiredSignatures - h.numReadonlySignedAccounts);
    CutAt(told, 2, h.numRequiredSignatures);
    CutAt(told, 3, |keys| - h.numReadonlyUnsignedAccounts);
  }

  lemma CutAt(s: seq<AccountMeta>, r: nat, cut: nat)
    requires Grouped(s) && cut <= |s| && forall i :: 0 <= i < |s| ==> (Rank(s[i]) < r <==> i < cut)
    ensures Below(s, r) == cut
  {
    GroupedCut(s, r);
    hide Rank;
    var i := if Below(s, r) < cut then Below(s, r) else cut;
    assert i < |s| ==> (Rank(s[i]) < r <==> i < cut);
  }

  /** Metas with the told signers, of which only told ones write, have the header's counts exactly when all told
      ones write. */
  lemma CountsTellWriters(h: MessageHeader, s: seq<AccountMeta>)
    requires FittingHeader(h, |s|)
    requires forall i :: 0 <= i < |s| ==> (s[i].isSigner <==> IsSignerIndex(h, i))
    requires forall i :: 0 <= i < |s| && s[i].isWritable ==> IsStaticWritable(h, |s|, i)
    ensures HeaderOf(s) == h <==> forall i :: 0 <= i < |s| && IsStaticWritable(h, |s|, i) ==> s[i].isWritable
  {
    var told := Told(h, Keys(s));
    ToldHeader(h, Keys(s));
    BelowPointwise(s, told, 1);
    BelowPointwise(s, told, 3);
    if HeaderOf(s) == h {
      BelowPointwise(s, told, 2);
      forall i | 0 <= i < |s| && IsStaticWritable(h, |s|, i) ensures s[i].isWritable {
        assert Rank(s[i]) < 1 <==> Rank(told[i]) < 1;
        assert Rank(s[i]) < 3 <==> Rank(told[i]) < 3;
      }
    }
    if forall i :: 0 <= i < |s| && IsStaticWritable(h, |s|, i) ==> s[i].isWritable {
      assert s == told;
    }
  }

  // ---------- What is read back ----------

  predicate IndexesInRange(m: Message) {
    forall i :: 0 <= i < |m.instructions| ==> InstructionInRange(m, m.instructions[i])
  }

  /** The instructions read back with the full list of signatures. */
  function ReadInstructions(m: Message): seq<TransactionInstruction>
    requires IndexesInRange(m)
  {
    seq(|m.instructions|, i requires 0 <= i < |m.instructions| =>
      PopulatedInstruction(m, SignedKeys(m), m.instructions[i]))
  }

  /** The flags these ask for the key at a position. */
  function ReadMeta(m: Message, i: nat): AccountMeta
    requires IndexesInRange(m) && i < |m.accountKeys|
  {
    MergedMeta(ReadInstructions(m), m.accountKeys[0], m.accountKeys[i])
  }

  function ReadMetas(m: Message, from: nat, to: nat): (s: seq<AccountMeta>)
    requires IndexesInRange(m) && from <= to <= |m.accountKeys|
    ensures |s| == to - from && forall i :: 0 <= i < |s| ==> s[i] == ReadMeta(m, from + i)
  {
    seq(to - from, i requires 0 <= i < to - from => ReadMeta(m, from + i))
  }

  /** A message as a compiler leaves it: fitting counts, and the keys used and the payer, once each. */
  ghost predicate WellFormed(m: Message) {
    && FittingHeader(m.header, |m.accountKeys|) && IndexesInRange(m)
    && Lists(m.accountKeys, KeySet(Metas(ReadInstructions(m))) + {m.accountKeys[0]})
  }

  /** Read back, the signed keys and the others are each in priority order, the payer aside, and every key told to
      be writable is an account that some instruction writes. */
  ghost predicate ReadsBack(m: Message)
    requires WellFormed(m)
  {
    && Sorted(ReadMetas(m, 1, m.header.numRequiredSignatures))
    && Sorted(ReadMetas(m, m.header.numRequiredSignatures, |m.accountKeys|))
    && forall i :: 1 <= i < |m.accountKeys| && LegacyIsAccountWritable(m, i) ==> ReadMeta(m, i).isWritable
  }

  /** Reading back asks nothing of a key that its position does not tell. */
  lemma ReadFlags(m: Message, i: nat)
    requires WellFormed(m) && i < |m.accountKeys|
    ensures ReadMeta(m, i).isSigner ==> IsSignerIndex(m.header, i)
    ensures ReadMeta(m, i).isWritable ==> LegacyIsAccountWritable(m, i)
    ensures i == 0 ==> ReadMeta(m, i) == AccountMeta(m.accountKeys[0], true, true)
    ensures m.accountKeys[i] in SignedKeys(m) <==> IsSignerIndex(m.header, i)
  {
    SignedPosition(m, i);
    var k, ixs := m.accountKeys[i], ReadInstructions(m);
    forall s, w | AccountMeta(k, s, w) in Metas(ixs)
      ensures s ==> IsSignerIndex(m.header, i)
      ensures w ==> LegacyIsAccountWritable(m, i)
    {
      MetasContain(ixs, AccountMeta(k, s, w));
      ReadUse(m, i, s, w);
    }
    hide Metas, ReadInstructions, SignedKeys, Lists;
  }

  lemma SignedPosition(m: Message, i: nat)
    requires WellFormed(m) && i < |m.accountKeys|
    ensures m.accountKeys[i] in SignedKeys(m) <==> IsSignerIndex(m.header, i)
  {
    var signed := SignedKeys(m);
    if m.accountKeys[i] in signed {
      var j :| 0 <= j < |signed| && signed[j] == m.accountKeys[i];
      assert m.accountKeys[j] == m.accountKeys[i];
    }
    if i < m.header.numRequiredSignatures {
      assert signed[i] == m.accountKeys[i];
    }
  }

  lemma ReadUse(m: Message, i: nat, s: bool, w: bool)
    requires WellFormed(m) && i < |m.accountKeys|
    requires exists q :: 0 <= q < |ReadInstructions(m)| &&
               (AccountMeta(m.accountKeys[i], s, w) in ReadInstructions(m)[q].keys ||
                AccountMeta(m.accountKeys[i], s, w) == AccountMeta(ReadInstructions(m)[q].programId, false, false))
    ensures s ==> IsSignerIndex(m.header, i)
    ensures w ==> LegacyIsAccountWritable(m, i)
  {
    var ixs, k := ReadInstructions(m), m.accountKeys[i];
    var q :| 0 <= q < |ixs| &&
      (AccountMeta(k, s, w) in ixs[q].keys || AccountMeta(k, s, w) == AccountMeta(ixs[q].programId, false, false));
    if AccountMeta(k, s, w) in ixs[q].keys {
      var j :| 0 <= j < |ixs[q].keys| && ixs[q].keys[j] == AccountMeta(k, s, w);
      var account := m.instructions[q].accounts[j];
      assert m.accountKeys[account] == k && account == i;
      SignedPosition(m, i);
      hide SignedKeys;
      assert ixs[q].keys[j] == PopulatedMeta(m, SignedKeys(m), account);
    }
  }

  // ---------- Compiling what was read back ----------

  /** Instructions that name the same program and keys. */
  predicate SameUses(a: TransactionInstruction, b: TransactionInstruction) {
    a.programId == b.programId && Keys(a.keys) == Keys(b.keys)
  }

  lemma {:induction false} SameKeySet(a: seq<TransactionInstruction>, b: seq<TransactionInstruction>)
    requires |a| == |b|
    requires forall i :: 0 <= i < |a| ==> SameUses(a[i], b[i])
    ensures KeySet(Metas(a)) == KeySet(Metas(b))
  {
    if a == [] {
    } else {
      var n := |a| - 1;
      SameKeySet(a[..n], b[..n]);
      KeySetParts(Metas(a[..n]), a[n].keys, AccountMeta(a[n].programId, false, false));
      KeySetParts(Metas(b[..n]), b[n].keys, AccountMeta(b[n].programId, false, false));
    }
  }

  lemma KeySetParts(ms: seq<AccountMeta>, keys: seq<AccountMeta>, program: AccountMeta)
    ensures KeySet(ms + keys + [program]) == KeySet(ms) + (set k | k in Keys(keys)) + {program.pubkey}
  {
    var all := ms + keys + [program];
    forall x ensures x in all <==> x in ms || x in keys || x == program {
    }
    forall k ensures k in Keys(keys) <==> exists x :: x in keys && x.pubkey == k {
      KeysMembers(keys, k);
    }
  }

  lemma PopulatedSlots(m: Message, signatures: seq<Signature>)
    requires WellFormed(m) && |signatures| <= |m.accountKeys|
    ensures Populatable(m, signatures)
    ensures var back, slots := Populated(m, signatures), m.accountKeys[..|signatures|];
            && PairKeys(back.signatures) == slots && SignaturesOf(back.signatures) == signatures
            && back ==
               TxState(back.signatures, back.instructions, Some(m.accountKeys[0]), Some(m.recentBlockhash), None)
            && |back.instructions| == |m.instructions|
            && forall i :: 0 <= i < |m.instructions| ==>
                 back.instructions[i] == PopulatedInstruction(m, slots, m.instructions[i])
  {
    hide PopulatedInstruction, ReadInstructions, Metas, KeySet;
    var back, slots := Populated(m, signatures), m.accountKeys[..|signatures|];
    assert PairKeys(back.signatures) == slots;
    assert SignaturesOf(back.signatures) == signatures;
  }

  /** Read back with at most the required signatures, the state has their keys for slots and asks for the same as
      with all of them. */
  lemma ReadState(m: Message, signatures: seq<Signature>)
    requires WellFormed(m) && |signatures| <= m.header.numRequiredSignatures
    ensures Populatable(m, signatures)
    ensures var back := Populated(m, signatures);
            && PairKeys(back.signatures) == m.accountKeys[..|signatures|]
            && SignaturesOf(back.signatures) == signatures
            && back ==
               TxState(back.signatures, ReadInstructions(m), Some(m.accountKeys[0]), Some(m.recentBlockhash), None)
            && CompileMessage(back).Success?
  {
    PopulatedSlots(m, signatures);
    var back := Populated(m, signatures);
    forall i | 0 <= i < |m.instructions|
      ensures back.instructions[i] == PopulatedInstruction(m, SignedKeys(m), m.instructions[i])
    {
      SameRead(m, |signatures|, m.instructions[i]);
    }
    hide CompileMessage, PopulatedInstruction, Metas, SignedKeys, SignaturesOf, Populated;
    assert back.instructions == ReadInstructions(m);
    hide ReadInstructions;
    SlotsUsed(m, |signatures|);
    CompileSucceeds(back);
  }

  lemma SameRead(m: Message, slots: nat, ix: CompiledInstruction)
    requires WellFormed(m) && slots <= m.header.numRequiredSignatures && InstructionInRange(m, ix)
    ensures PopulatedInstruction(m, m.accountKeys[..slots], ix) == PopulatedInstruction(m, SignedKeys(m), ix)
  {
    forall a: nat | a < |m.accountKeys|
      ensures PopulatedMeta(m, m.accountKeys[..slots], a) == PopulatedMeta(m, SignedKeys(m), a)
    {
      SignedPosition(m, a);
      assert m.accountKeys[..slots] <= SignedKeys(m);
    }
    hide PopulatedMeta;
  }

  lemma SlotPosition(m: Message, slots: nat, i: nat)
    requires WellFormed(m) && slots <= |m.accountKeys| && i < |m.accountKeys|
    ensures m.accountKeys[i] in m.accountKeys[..slots] <==> i < slots
  {
    hide ReadInstructions;
    if i < slots {
      assert m.accountKeys[..slots][i] == m.accountKeys[i];
    }
  }

  lemma SlotsUsed(m: Message, slots: nat)
    requires WellFormed(m) && slots <= |m.accountKeys|
    ensures forall k :: k in m.accountKeys[..slots] ==> k in KeySet(Metas(ReadInstructions(m))) + {m.accountKeys[0]}
  {
    hide ReadInstructions, Metas, KeySet;
    forall k | k in m.accountKeys[..slots] ensures k in m.accountKeys {
    }
  }

  lemma {:induction false} PopulatedUses(m: Message, ixs: seq<TransactionInstruction>, slots: seq<PublicKey>)
    requires WellFormed(m) && |ixs| == |m.instructions|
    requires forall i :: 0 <= i < |ixs| ==> ixs[i] == PopulatedInstruction(m, slots, m.instructions[i])
    ensures KeySet(Metas(ixs)) == KeySet(Metas(ReadInstructions(m)))
  {
    forall i | 0 <= i < |ixs| ensures SameUses(ixs[i], ReadInstructions(m)[i]) {
    }
    hide ReadInstructions, PopulatedInstruction;
    SameKeySet(ixs, ReadInstructions(m));
  }

  /** With more signatures than required it compiles, but the further keys become signers. */
  lemma ReadTooMany(m: Message, signatures: seq<Signature>)
    requires WellFormed(m) && m.header.numRequiredSignatures < |signatures| <= |m.accountKeys|
    ensures Populatable(m, signatures)
    ensures var back := Populated(m, signatures);
            && PairKeys(back.signatures) == m.accountKeys[..|signatures|]
            && SignaturesOf(back.signatures) == signatures
            && CompileMessage(back).Success?
            && var m' := CompileMessage(back).value;
            !(m'.header == m.header && m'.accountKeys == m.accountKeys)
  {
    var back, r := Populated(m, signatures), m.header.numRequiredSignatures;
    PopulatedSlots(m, signatures);
    hide CompileMessage, SignaturesOf, Populated;
    PopulatedUses(m, back.instructions, m.accountKeys[..|signatures|]);
    hide ReadInstructions, Metas, KeySet;
    SlotsUsed(m, |signatures|);
    CompileSucceeds(back);
    SlotsSurvive(back);
    SlotPosition(m, |signatures|, r);
    SignedPosition(m, r);
  }

  /** The metas other than the payer's, split at the signers, are those read at the positions after the payer. */
  lemma ReadParts(m: Message)
    requires WellFormed(m)
    ensures var others, signed, n :=
              Others(ReadInstructions(m), m.accountKeys[0]), SignedKeys(m), m.header.numRequiredSignatures;
            && DistinctKeys(others)
            && Lists(ReadMetas(m, 1, n), PartOf(others, signed, true))
            && Lists(ReadMetas(m, n, |m.accountKeys|), PartOf(others, signed, false))
  {
    var ixs, payer, n := ReadInstructions(m), m.accountKeys[0], m.header.numRequiredSignatures;
    MergedValuesDistinct(Metas(ixs));
    ReadPart(m, 1, n, true);
    ReadPart(m, n, |m.accountKeys|, false);
  }

  lemma OthersRead(m: Message, x: AccountMeta)
    requires WellFormed(m)
    ensures x in Others(ReadInstructions(m), m.accountKeys[0]) <==>
            exists i :: 1 <= i < |m.accountKeys| && x == ReadMeta(m, i)
  {
    var ixs, payer := ReadInstructions(m), m.accountKeys[0];
    OtherMetas(Metas(ixs), payer, x);
    hide Metas, ReadInstructions;
    if x.pubkey in KeySet(Metas(ixs)) && x.pubkey != payer {
      var i :| 0 <= i < |m.accountKeys| && m.accountKeys[i] == x.pubkey;
      assert i >= 1;
      if x == AccountMeta(x.pubkey, Signs(Metas(ixs), x.pubkey), Writes(Metas(ixs), x.pubkey)) {
        assert x == ReadMeta(m, i);
      }
    }
    if i :| 1 <= i < |m.accountKeys| && x == ReadMeta(m, i) {
      assert m.accountKeys[i] != m.accountKeys[0];
      assert m.accountKeys[i] in KeySet(Metas(ixs)) + {payer};
    }
  }

  lemma ReadPart(m: Message, from: nat, to: nat, chosen: bool)
    requires WellFormed(m) && 1 <= from <= to <= |m.accountKeys|
    requires forall i :: 1 <= i < |m.accountKeys| ==> (from <= i < to <==> (IsSignerIndex(m.header, i) == chosen))
    ensures Lists(ReadMetas(m, from, to), PartOf(Others(ReadInstructions(m), m.accountKeys[0]), SignedKeys(m), chosen))
  {
    var others, s := Others(ReadInstructions(m), m.accountKeys[0]), ReadMetas(m, from, to);
    var part := PartOf(others, SignedKeys(m), chosen);
    forall i | 1 <= i < |m.accountKeys| ensures ReadMeta(m, i).pubkey == m.accountKeys[i] {
    }
    forall i | 0 <= i < |s| ensures s[i] in part {
      OthersRead(m, s[i]);
      SignedPosition(m, from + i);
    }
    forall x | x in part ensures x in s {
      OthersRead(m, x);
      var i :| 1 <= i < |m.accountKeys| && x == ReadMeta(m, i);
      SignedPosition(m, i);
      assert s[i - from] == x;
    }
    forall i, j | 0 <= i < j < |s| ensures s[i] != s[j] {
      assert m.accountKeys[from + i] != m.accountKeys[from + j];
    }
  }

  lemma SignersSigned(m: Message)
    requires WellFormed(m)
    ensures m.accountKeys[0] in SignedKeys(m)
    ensures forall x :: x in CompiledMetas(ReadInstructions(m), m.accountKeys[0]) && x.isSigner ==>
            x.pubkey in SignedKeys(m)
  {
    var ixs, payer := ReadInstructions(m), m.accountKeys[0];
    SignedPosition(m, 0);
    CompiledMetasFacts(ixs, payer);
    forall x | x in CompiledMetas(ixs, payer) && x.isSigner ensures x.pubkey in SignedKeys(m) {
      var i :| 0 <= i < |m.accountKeys| && m.accountKeys[i] == x.pubkey;
      ReadFlags(m, i);
    }
  }

  lemma KeysRead(m: Message)
    requires WellFormed(m)
    ensures var n := m.header.numRequiredSignatures;
            m.accountKeys == [m.accountKeys[0]] + (Keys(ReadMetas(m, 1, n)) + Keys(ReadMetas(m, n, |m.accountKeys|)))
  {
    hide ReadInstructions, Lists;
  }

  /** The metas behind what is read back with the first keys as slots. */
  ghost function Recompiled(m: Message, slots: nat): seq<AccountMeta>
    requires WellFormed(m) && slots <= |m.accountKeys|
  {
    Promote(CompiledMetas(ReadInstructions(m), m.accountKeys[0]), m.accountKeys[..slots])
  }

  /** The metas read back, in place, with the keys of the slots made signers. */
  function ReadList(m: Message, slots: nat): seq<AccountMeta>
    requires IndexesInRange(m) && slots <= |m.accountKeys|
  {
    Promote(ReadMetas(m, 0, |m.accountKeys|), m.accountKeys[..slots])
  }

  lemma ArrangedRead(m: Message, slots: nat)
    requires WellFormed(m) && slots <= |m.accountKeys|
    requires Keys(Arranged(Recompiled(m, slots))) == m.accountKeys
    ensures Arranged(Recompiled(m, slots)) == ReadList(m, slots)
    ensures HeaderOf(Recompiled(m, slots)) == HeaderOf(ReadList(m, slots))
  {
    var once := Recompiled(m, slots);
    var a := Arranged(once);
    SameCounts(once);
    ArrangedMembers(once);
    hide HeaderOf, Arranged, CompiledMetas, ReadInstructions;
    forall i | 0 <= i < |a| ensures a[i] == ReadList(m, slots)[i] {
      assert a[i] in once && a[i].pubkey == Keys(a)[i];
      PromotedMember(ReadInstructions(m), m.accountKeys[0], m.accountKeys[..slots], a[i]);
    }
  }

  lemma HeaderRead(m: Message)
    requires WellFormed(m)
    ensures HeaderOf(ReadList(m, m.header.numRequiredSignatures)) == m.header <==>
            forall i :: 1 <= i < |m.accountKeys| && LegacyIsAccountWritable(m, i) ==> ReadMeta(m, i).isWritable
  {
    var s := ReadList(m, m.header.numRequiredSignatures);
    forall i | 0 <= i < |s|
      ensures s[i].isWritable == ReadMeta(m, i).isWritable && (s[i].isSigner <==> IsSignerIndex(m.header, i))
      ensures s[i].isWritable ==> IsStaticWritable(m.header, |s|, i)
    {
      ReadFlags(m, i);
    }
    ReadFlags(m, 0);
    hide ReadMeta, HeaderOf, SignedKeys, WellFormed;
    CountsTellWriters(m.header, s);
  }

  /** With all slots, the header and the keys come back exactly when the message reads back in order. */
  lemma RecompiledInOrder(m: Message)
    requires WellFormed(m)
    ensures var once := Recompiled(m, m.header.numRequiredSignatures);
            HeaderOf(once) == m.header && Keys(Arranged(once)) == m.accountKeys <==> ReadsBack(m)
  {
    var ixs, payer, signed, n := ReadInstructions(m), m.accountKeys[0], SignedKeys(m), m.header.numRequiredSignatures;
    var once := Recompiled(m, n);
    assert once == Promote(CompiledMetas(ixs, payer), signed);
    hide ReadInstructions, CompiledMetas, Promote, Arranged, Canonical, Part, PartOf, Others;
    hide HeaderOf, ReadMetas, SignedKeys, Lists, Sorted, ReadMeta, Recompiled, ReadList;
    SignersSigned(m);
    KeysInParts(ixs, payer, signed);
    ReadParts(m);
    PartsInOrder(Others(ixs, payer), signed, ReadMetas(m, 1, n), ReadMetas(m, n, |m.accountKeys|));
    KeysRead(m);
    SameTails(payer,
      Keys(Part(Canonical(Others(ixs, payer)), signed, true)) +
        Keys(Part(Canonical(Others(ixs, payer)), signed, false)),
      Keys(ReadMetas(m, 1, n)) + Keys(ReadMetas(m, n, |m.accountKeys|)));
    if Keys(Arranged(once)) == m.accountKeys {
      ArrangedRead(m, n);
      HeaderRead(m);
    }
  }

  /** The required signers after the first ones, the payer aside, are accounts read back as signers. */
  ghost predicate SignersRead(m: Message, slots: nat)
    requires WellFormed(m)
  {
    forall i :: slots <= i < m.header.numRequiredSignatures && i != 0 ==> ReadMeta(m, i).isSigner
  }

  /** Then their slots are not needed to make them signers. */
  lemma SlotsNotNeeded(m: Message, slots: nat)
    requires WellFormed(m) && slots <= m.header.numRequiredSignatures && SignersRead(m, slots)
    ensures Recompiled(m, slots) == Recompiled(m, m.header.numRequiredSignatures)
  {
    var metas, all := CompiledMetas(ReadInstructions(m), m.accountKeys[0]), m.header.numRequiredSignatures;
    hide CompiledMetas;
    forall i | 0 <= i < |metas| && metas[i].pubkey in m.accountKeys[..all]
      ensures metas[i].isSigner || metas[i].pubkey in m.accountKeys[..slots]
    {
      assert metas[i] in metas;
      SignsAnyway(m, slots, metas[i]);
    }
    assert m.accountKeys[..slots] <= m.accountKeys[..all];
    hide ReadInstructions, WellFormed, SignersRead;
  }

  lemma SignsAnyway(m: Message, slots: nat, x: AccountMeta)
    requires WellFormed(m) && slots <= m.header.numRequiredSignatures && SignersRead(m, slots)
    requires x in CompiledMetas(ReadInstructions(m), m.accountKeys[0])
    requires x.pubkey in m.accountKeys[..m.header.numRequiredSignatures]
    ensures x.isSigner || x.pubkey in m.accountKeys[..slots]
  {
    CompiledMetasFacts(ReadInstructions(m), m.accountKeys[0]);
    hide CompiledMetas, ReadInstructions, Metas, KeySet;
    var i :| 0 <= i < m.header.numRequiredSignatures && m.accountKeys[i] == x.pubkey;
    assert x == ReadMeta(m, i);
    ReadFlags(m, i);
    SlotPosition(m, slots, i);
  }

  /** And the header can only come back if so. */
  lemma SlotsNeeded(m: Message, slots: nat)
    requires WellFormed(m) && slots <= m.header.numRequiredSignatures
    requires HeaderOf(ReadList(m, slots)) == m.header
    ensures SignersRead(m, slots)
  {
    var s, told := ReadList(m, slots), Told(m.header, m.accountKeys);
    forall i | 0 <= i < |s| ensures Rank(s[i]) >= Rank(told[i]) {
      ReadFlags(m, i);
      SlotPosition(m, slots, i);
    }
    ToldHeader(m.header, m.accountKeys);
    BelowPointwise(s, told, 2);
    forall i | slots <= i < m.header.numRequiredSignatures && i != 0 ensures ReadMeta(m, i).isSigner {
      assert Rank(s[i]) < 2 <==> Rank(told[i]) < 2;
      SlotPosition(m, slots, i);
    }
  }

  /** What is read back of a well-formed message compiles, with any number of signatures there are keys for; and to
      the same header and keys exactly when there are not more than required, the message reads back in order, and
      the required signers without a signature are read back as signers. */
  lemma ReadBackCompiles(m: Message, signatures: seq<Signature>)
    requires WellFormed(m) && |signatures| <= |m.accountKeys|
    ensures Populatable(m, signatures) && CompileMessage(Populated(m, signatures)).Success?
    ensures var m' := CompileMessage(Populated(m, signatures)).value;
            m'.header == m.header && m'.accountKeys == m.accountKeys <==>
            |signatures| <= m.header.numRequiredSignatures && ReadsBack(m) && SignersRead(m, |signatures|)
  {
    var slots := |signatures|;
    if slots > m.header.numRequiredSignatures {
      ReadTooMany(m, signatures);
    } else {
      ReadState(m, signatures);
      var once := Anatomy(Populated(m, signatures));
      assert once == Recompiled(m, slots);
      var m' := CompileMessage(Populated(m, signatures)).value;
      assert m'.header == HeaderOf(once) && m'.accountKeys == Keys(Arranged(once));
      hide CompileMessage, Populated, Recompiled, SignersRead, ReadsBack, HeaderOf, Arranged, ReadList, WellFormed;
      if m'.header == m.header && m'.accountKeys == m.accountKeys {
        ArrangedRead(m, slots);
        SlotsNeeded(m, slots);
      }
      if SignersRead(m, slots) {
        SlotsNotNeeded(m, slots);
      }
      RecompiledInOrder(m);
    }
  }

  lemma SameTails(k: PublicKey, a: seq<PublicKey>, b: seq<PublicKey>)
    ensures [k] + a == [k] + b <==> a == b
  {
    assert ([k] + a)[1..] == a && ([k] + b)[1..] == b;
  }

  lemma SameCounts(s: seq<AccountMeta>)
    ensures HeaderOf(Arranged(s)) == HeaderOf(s)
  {
    ArrangedBelow(s, 1);
    ArrangedBelow(s, 2);
    ArrangedBelow(s, 3);
    ArrangedMembers(s);
    hide Below, Arranged;
  }

  // ---------- Messages compiled from a transaction ----------

  /** What is read back names the same programs and keys. */
  lemma ReadUses(ixs: seq<TransactionInstruction>, m: Message)
    requires IndexesExact(ixs, m)
    ensures IndexesInRange(m) && |ReadInstructions(m)| == |ixs|
    ensures forall i :: 0 <= i < |ixs| ==>
              var read := ReadInstructions(m)[i];
              read.programId == ixs[i].programId && read.data == ixs[i].data && Keys(read.keys) == Keys(ixs[i].keys)
  {
    forall i | 0 <= i < |ixs| ensures InstructionInRange(m, m.instructions[i]) {
      assert Names(m.accountKeys, m.instructions[i].programIdIndex, ixs[i].programId);
      forall j | 0 <= j < |ixs[i].keys| ensures m.instructions[i].accounts[j] < |m.accountKeys| {
        assert Names(m.accountKeys, m.instructions[i].accounts[j], ixs[i].keys[j].pubkey);
      }
    }
    forall i | 0 <= i < |ixs|
      ensures ReadInstructions(m)[i].programId == ixs[i].programId && ReadInstructions(m)[i].data == ixs[i].data
      ensures Keys(ReadInstructions(m)[i].keys) == Keys(ixs[i].keys)
    {
      assert Names(m.accountKeys, m.instructions[i].programIdIndex, ixs[i].programId);
      forall j | 0 <= j < |ixs[i].keys| ensures Keys(ReadInstructions(m)[i].keys)[j] == Keys(ixs[i].keys)[j] {
        assert Names(m.accountKeys, m.instructions[i].accounts[j], ixs[i].keys[j].pubkey);
      }
    }
  }

  /** Only programs, keys and data matter to compiled instructions. */
  lemma SameCompiled(a: seq<TransactionInstruction>, b: seq<TransactionInstruction>, keys: seq<PublicKey>)
    requires |a| == |b|
    requires forall i :: 0 <= i < |a| ==>
               a[i].programId == b[i].programId && a[i].data == b[i].data && Keys(a[i].keys) == Keys(b[i].keys)
    ensures CompileInstructions(a, keys) == CompileInstructions(b, keys)
  {
    hide FindIndex;
    forall i | 0 <= i < |a| ensures CompileInstruction(a[i], keys) == CompileInstruction(b[i], keys) {
      assert |Keys(a[i].keys)| == |a[i].keys| && |Keys(b[i].keys)| == |b[i].keys|;
      forall j | 0 <= j < |a[i].keys| ensures a[i].keys[j].pubkey == b[i].keys[j].pubkey {
        assert Keys(a[i].keys)[j] == Keys(b[i].keys)[j];
      }
      assert CompileInstruction(a[i], keys).accounts == CompileInstruction(b[i], keys).accounts;
    }
  }

  lemma {:induction false} FirstWriter(s: seq<AccountMeta>)
    requires s != [] && Rank(s[0]) == 0
    ensures Below(s, 1) >= 1
  {
    hide Rank;
    if |s| == 1 {
    } else {
      FirstWriter(s[..|s| - 1]);
    }
  }

  lemma CompiledFits(t: TxState)
    requires CompileMessage(t).Success?
    ensures FittingHeader(CompileMessage(t).value.header, |CompileMessage(t).value.accountKeys|)
  {
    CompiledHeader(t);
    var once := Anatomy(t);
    hide CompileMessage, Promote, CompiledMetas;
    FirstWriter(once);
  }

  lemma CompiledIsWellFormed(t: TxState)
    requires CompileMessage(t).Success? && |CompileMessage(t).value.accountKeys| <= 256
    ensures WellFormed(CompileMessage(t).value)
  {
    var m, ixs := CompileMessage(t).value, EffectiveInstructions(t);
    CompiledFits(t);
    CompiledIndexesExact(t);
    CanonicalKeys(t);
    hide CompileMessage, EffectiveInstructions, ReadInstructions, IndexesExact, Lists, Metas, KeySet;
    ReadUses(ixs, m);
    SameKeySet(ReadInstructions(m), ixs);
  }

  /** Read back with any number of signatures there are keys for, any compiled message of at most 256 keys compiles
      again, and to itself exactly when there are not more than required, it reads back in order, and the required
      signers without a signature are read back as signers. Then a full list of signatures is kept, and a shorter
      one leaves every slot empty. */
  lemma PopulateReproduces(t: TxState, signatures: seq<Signature>)
    requires CompileMessage(t).Success? && |CompileMessage(t).value.accountKeys| <= 256
    requires |signatures| <= |CompileMessage(t).value.accountKeys|
    ensures var m, n := CompileMessage(t).value, CompileMessage(t).value.header.numRequiredSignatures;
            && WellFormed(m) && Populatable(m, signatures)
            && var back := Populated(m, signatures);
            && PairKeys(back.signatures) == m.accountKeys[..|signatures|]
            && SignaturesOf(back.signatures) == signatures
            && CompileMessage(back).Success?
            && (CompileMessage(back) == Success(m) <==>
                  |signatures| <= n && ReadsBack(m) && SignersRead(m, |signatures|))
            && (CompileMessage(back) == Success(m) ==>
                  Compiled(back).signatures == if |signatures| == n then back.signatures else Blank(SignedKeys(m)))
  {
    var m, ixs := CompileMessage(t).value, EffectiveInstructions(t);
    CompiledIsWellFormed(t);
    ReadBackCompiles(m, signatures);
    var back := Populated(m, signatures);
    if |signatures| > m.header.numRequiredSignatures {
      ReadTooMany(m, signatures);
    } else {
      ReadState(m, signatures);
      CompiledIndexesExact(t);
      ReadUses(ixs, m);
      SameCompiled(ReadInstructions(m), ixs, m.accountKeys);
      CompiledParts(t);
      CompiledParts(back);
      assert |m.accountKeys[..|signatures|]| == |signatures|;
    }
    hide CompileMessage, EffectiveInstructions, ReadInstructions, ReadsBack, WellFormed, Populated, SignersRead;
  }

  lemma CompiledParts(t: TxState)
    requires CompileMessage(t).Success?
    ensures var m := CompileMessage(t).value;
            && EffectiveBlockhash(t) == Some(m.recentBlockhash)
            && m.instructions == CompileInstructions(EffectiveInstructions(t), m.accountKeys)
            && m.indexToProgramIds == map[]
  {
    hide CompiledMetas, Promote, Arranged, AllKnown, HeaderOf;
  }

  // ---------- A message that does not come back ----------

  /** A payer, a read-only signer and a read-only account that signs without being asked to. */
  function CrowdedTransaction(p: PublicKey, r: PublicKey, x: PublicKey, program: PublicKey): TxState {
    TxState(
      Blank([p, r, x]),
      [TransactionInstruction([AccountMeta(r, true, false), AccountMeta(x, false, false)], program, [])],
      Some(p), Some(SomeBlockhash(0)), None)
  }

  lemma CrowdedMetas(p: PublicKey, r: PublicKey, x: PublicKey, program: PublicKey)
    requires NoDuplicates([p, r, x, program])
    ensures var ixs := CrowdedTransaction(p, r, x, program).instructions;
            && KeySet(Metas(ixs)) == {r, x, program}
            && MergedMeta(ixs, p, r) == AccountMeta(r, true, false)
            && MergedMeta(ixs, p, x) == AccountMeta(x, false, false)
            && MergedMeta(ixs, p, program) == AccountMeta(program, false, false)
  {
    var ixs := CrowdedTransaction(p, r, x, program).instructions;
    DistinctFour(p, r, x, program);
    hide NoDuplicates;
    var ms := [AccountMeta(r, true, false), AccountMeta(x, false, false), AccountMeta(program, false, false)];
    assert ixs[..0] == [];
    assert Metas(ixs) == ms;
    assert ms[0] in ms && ms[1] in ms && ms[2] in ms;
  }

  lemma CrowdedCompiles(p: PublicKey, r: PublicKey, x: PublicKey, program: PublicKey)
    requires NoDuplicates([p, r, x, program])
    ensures var t := CrowdedTransaction(p, r, x, program);
            && CompileMessage(t).Success?
            && var m := CompileMessage(t).value;
            && Lists(m.accountKeys, {p, r, x, program})
            && TellsFlags(m, t.instructions, p, [p, r, x])
            && p in SignedKeys(m) && r in SignedKeys(m) && x in SignedKeys(m)
  {
    hide CompileMessage, Metas, MergedMeta, TellsFlags, KeySet, SignedKeys;
    var t := CrowdedTransaction(p, r, x, program);
    CrowdedMetas(p, r, x, program);
    assert PairKeys(t.signatures) == [p, r, x];
    CompileSucceeds(t);
    CanonicalKeys(t);
    assert {r, x, program} + {p} == {p, r, x, program};
    assert !PromotesWritable(t.instructions, p, [p, r, x]);
    FlagsRecovered(t);
    SlotsSurvive(t);
    assert p in [p, r, x] && r in [p, r, x] && x in [p, r, x];
  }

  lemma CrowdedOther(
    ixs: seq<TransactionInstruction>, p: PublicKey, r: PublicKey, x: PublicKey, program: PublicKey, e: AccountMeta)
    requires NoDuplicates([p, r, x, program]) && ixs == CrowdedTransaction(p, r, x, program).instructions
    ensures e.pubkey in KeySet(Metas(ixs)) && e.pubkey != p && e == MergedMeta(ixs, p, e.pubkey) <==>
            e in {AccountMeta(r, true, false), AccountMeta(x, false, false), AccountMeta(program, false, false)}
  {
    CrowdedMetas(p, r, x, program);
    DistinctFour(p, r, x, program);
    hide Metas, MergedMeta, NoDuplicates;
  }

  lemma TwoSorted(c: seq<AccountMeta>, r: AccountMeta, x: AccountMeta)
    requires Lists(c, {r, x}) && Sorted(c) && r.pubkey != x.pubkey && Rank(r) < Rank(x)
    ensures c == [r, x]
  {
    BeforeOrder(r, x, r);
    hide Before, Rank;
    ListingLength(c, {r, x});
    assert |{r, x}| == 2;
    assert c[0] in {r, x} && c[1] in {r, x} && c[0] != c[1];
  }

  lemma SortedUniquely(c: seq<AccountMeta>, signed: seq<PublicKey>, r: AccountMeta, x: AccountMeta, g: AccountMeta)
    requires Lists(c, {r, x, g}) && Sorted(c)
    requires r.pubkey in signed && x.pubkey in signed && g.pubkey !in signed
    requires r.pubkey != x.pubkey && Rank(r) < Rank(x)
    ensures Keys(Part(c, signed, true)) == [r.pubkey, x.pubkey] && Keys(Part(c, signed, false)) == [g.pubkey]
  {
    PartLists(c, {r, x, g}, signed, true);
    PartLists(c, {r, x, g}, signed, false);
    PartKeeps(c, signed, true);
    assert PartOf({r, x, g}, signed, true) == {r, x} && PartOf({r, x, g}, signed, false) == {g};
    hide Part, PartOf, Rank, Sorted;
    TwoSorted(Part(c, signed, true), r, x);
    ListingLength(Part(c, signed, false), {g});
  }

  lemma CrowdedOthers(p: PublicKey, r: PublicKey, x: PublicKey, program: PublicKey)
    requires NoDuplicates([p, r, x, program])
    ensures Others(CrowdedTransaction(p, r, x, program).instructions, p) ==
            {AccountMeta(r, true, false), AccountMeta(x, false, false), AccountMeta(program, false, false)}
  {
    var ixs := CrowdedTransaction(p, r, x, program).instructions;
    hide Metas, MergeMetas, Signs, Writes, CrowdedTransaction;
    forall e ensures e in Others(ixs, p) <==>
                     e in {AccountMeta(r, true, false), AccountMeta(x, false, false),
                       AccountMeta(program, false, false)}
    {
      OtherMetas(Metas(ixs), p, e);
      CrowdedOther(ixs, p, r, x, program, e);
    }
  }

  lemma CrowdedSigners(p: PublicKey, r: PublicKey, x: PublicKey, program: PublicKey)
    requires NoDuplicates([p, r, x, program])
    ensures forall m :: m in CompiledMetas(CrowdedTransaction(p, r, x, program).instructions, p) && m.isSigner ==>
              m.pubkey in [p, r, x]
  {
    var ixs := CrowdedTransaction(p, r, x, program).instructions;
    CrowdedMetas(p, r, x, program);
    CompiledMetasFacts(ixs, p);
    hide CompiledMetas, Metas, MergedMeta, CrowdedTransaction, KeySet;
  }

  /** The requested signer is laid out before the promoted one. */
  lemma CrowdedOrder(p: PublicKey, r: PublicKey, x: PublicKey, program: PublicKey)
    requires NoDuplicates([p, r, x, program])
    ensures var t := CrowdedTransaction(p, r, x, program);
            && CompileMessage(t).Success?
            && CompileMessage(t).value.accountKeys == [p, r, x, program]
  {
    hide *;
    var t, signed := CrowdedTransaction(p, r, x, program), [p, r, x];
    CrowdedLaid(p, r, x, program);
    CrowdedOthers(p, r, x, program);
    CrowdedSigners(p, r, x, program);
    KeysInParts(t.instructions, p, signed);
    DistinctFour(p, r, x, program);
    var c := Canonical(Others(t.instructions, p));
    var rm, xm, gm := AccountMeta(r, true, false), AccountMeta(x, false, false), AccountMeta(program, false, false);
    RequestedFirst(rm, xm);
    SortedUniquely(c, signed, rm, xm, gm);
    assert [p] + ([r, x] + [program]) == [p, r, x, program];
  }

  lemma RequestedFirst(r: AccountMeta, x: AccountMeta)
    requires r.isSigner && !x.isSigner
    ensures Rank(r) < Rank(x)
  {
  }

  lemma CrowdedLaid(p: PublicKey, r: PublicKey, x: PublicKey, program: PublicKey)
    requires NoDuplicates([p, r, x, program])
    ensures var t := CrowdedTransaction(p, r, x, program);
            && CompileMessage(t).Success?
            && CompileMessage(t).value.accountKeys ==
                 Keys(Arranged(Promote(CompiledMetas(t.instructions, p), [p, r, x])))
  {
    var t := CrowdedTransaction(p, r, x, program);
    CrowdedCompiles(p, r, x, program);
    assert PairKeys(t.signatures) == [p, r, x];
    hide CompileMessage, CompiledMetas, Arranged, Promote, CompileInstructions;
    var once := Anatomy(t);
  }

  lemma DistinctFour(p: PublicKey, r: PublicKey, x: PublicKey, program: PublicKey)
    requires NoDuplicates([p, r, x, program])
    ensures p != r && p != x && p != program && r != x && r != program && x != program
  {
    var keys := [p, r, x, program];
    assert keys[0] != keys[1] && keys[0] != keys[2] && keys[0] != keys[3];
    assert keys[1] != keys[2] && keys[1] != keys[3] && keys[2] != keys[3];
  }

  /** An account at a signed position is read back as a signer. */
  lemma ReadSigner(m: Message, q: nat, j: nat)
    requires WellFormed(m) && q < |m.instructions| && j < |m.instructions[q].accounts|
    requires IsSignerIndex(m.header, m.instructions[q].accounts[j])
    ensures m.instructions[q].accounts[j] < |m.accountKeys|
    ensures ReadMeta(m, m.instructions[q].accounts[j]).isSigner
  {
    assert InstructionInRange(m, m.instructions[q]);
    var ixs, a := ReadInstructions(m), m.instructions[q].accounts[j];
    var read := ixs[q].keys[j];
    assert read == PopulatedMeta(m, SignedKeys(m), a) && read.isSigner && read.pubkey == m.accountKeys[a];
    MetasContain(ixs, read);
    assert read in ixs[q].keys;
  }

  /** If the promoted key is the smaller one, the message does not come back: read back, the two change places. */
  lemma CrowdedDoesNotReadBack(p: PublicKey, r: PublicKey, x: PublicKey, program: PublicKey)
    requires NoDuplicates([p, r, x, program]) && KeyLess(x, r)
    ensures var t := CrowdedTransaction(p, r, x, program);
            && CompileMessage(t).Success?
            && WellFormed(CompileMessage(t).value) && !ReadsBack(CompileMessage(t).value)
  {
    var t := CrowdedTransaction(p, r, x, program);
    CrowdedMetas(p, r, x, program);
    CrowdedCompiles(p, r, x, program);
    CrowdedOrder(p, r, x, program);
    CompiledIsWellFormed(t);
    CompiledIndexesExact(t);
    var m := CompileMessage(t).value;
    hide CompileMessage, Metas, MergedMeta, ReadInstructions, KeyLess;
    SignedPosition(m, 1);
    SignedPosition(m, 2);
    var c := m.instructions[0];
    assert Names(m.accountKeys, c.accounts[0], t.instructions[0].keys[0].pubkey);
    assert Names(m.accountKeys, c.accounts[1], t.instructions[0].keys[1].pubkey);
    DistinctPosition(m.accountKeys, c.accounts[0], 1);
    DistinctPosition(m.accountKeys, c.accounts[1], 2);
    ReadSigner(m, 0, 0);
    ReadSigner(m, 0, 1);
    ReadFlags(m, 1);
    ReadFlags(m, 2);
    ReadKeys(m);
    var l := ReadMetas(m, 1, m.header.numRequiredSignatures);
    assert l[0] == AccountMeta(r, true, false) && l[1] == AccountMeta(x, true, false);
    assert Before(l[1], l[0]);
  }

  lemma DistinctPosition(keys: seq<PublicKey>, i: nat, j: nat)
    requires NoDuplicates(keys) && i < |keys| && j < |keys| && keys[i] == keys[j]
    ensures i == j
  {
  }

  lemma ReadKeys(m: Message)
    requires IndexesInRange(m)
    ensures forall i :: 0 <= i < |m.accountKeys| ==> ReadMeta(m, i).pubkey == m.accountKeys[i]
  {
    hide ReadInstructions;
  }

  // ---------- A signer whose slot is needed ----------

  /** A program that signs only because it has a slot. */
  function SigningProgram(p: PublicKey, program: PublicKey): TxState {
    TxState(Blank([p, program]), [TransactionInstruction([], program, [])], Some(p), Some(SomeBlockhash(0)), None)
  }

  lemma SigningProgramCompiles(p: PublicKey, program: PublicKey)
    requires p != program
    ensures var t := SigningProgram(p, program);
            && CompileMessage(t).Success?
            && CompileMessage(t).value.accountKeys == [p, program]
            && CompileMessage(t).value.header.numRequiredSignatures == 2
  {
    hide CompileMessage, SignedKeys;
    var t, ixs := SigningProgram(p, program), [TransactionInstruction([], program, [])];
    assert ixs[..0] == [];
    assert Metas(ixs) == [AccountMeta(program, false, false)];
    assert KeySet(Metas(ixs)) + {p} == {p, program};
    assert PairKeys(t.signatures) == [p, program];
    CompileSucceeds(t);
    CanonicalKeys(t);
    CompiledFits(t);
    SlotsSurvive(t);
    var m := CompileMessage(t).value;
    ListingLength(m.accountKeys, {p, program});
    assert m.accountKeys == [p, program];
    assert program in [p, program];
    ProgramSigned(m, p, program);
  }

  lemma ProgramSigned(m: Message, p: PublicKey, program: PublicKey)
    requires m.accountKeys == [p, program] && p != program && program in SignedKeys(m)
    ensures m.header.numRequiredSignatures == 2
  {
  }

  /** Read back with the payer's signature only, its message does not come back. */
  lemma SigningProgramNeedsSlot(p: PublicKey, program: PublicKey)
    requires p != program
    ensures var t := SigningProgram(p, program);
            && CompileMessage(t).Success?
            && WellFormed(CompileMessage(t).value) && !SignersRead(CompileMessage(t).value, 1)
  {
    var t := SigningProgram(p, program);
    hide CompileMessage;
    SigningProgramCompiles(p, program);
    CompiledIsWellFormed(t);
    CompiledIndexesExact(t);
    var m := CompileMessage(t).value;
    ReadUses(t.instructions, m);
    hide WellFormed, IndexesExact, IndexesInRange;
    var read := ReadInstructions(m);
    assert |read[0].keys| == |Keys(read[0].keys)| == |Keys(t.instructions[0].keys)| == 0;
    assert read[..0] == [];
    assert Metas(read) == [AccountMeta(program, false, false)];
    assert !ReadMeta(m, 1).isSigner;
  }
}
