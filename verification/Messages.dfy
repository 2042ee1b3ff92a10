/** Account metas, instructions and the two message formats
    (web3/message_legacy.go, web3/message_v0.go, web3/message_compat.go). */
module Messages {
  import opened Basics

  datatype AccountMeta = AccountMeta(pubkey: PublicKey, isSigner: bool, isWritable: bool)

  datatype TransactionInstruction = TransactionInstruction(
    keys: seq<AccountMeta>, programId: PublicKey, data: seq<byte>)

  /** The counts are Go ints: nothing in the type keeps them in the range of a byte. */
  datatype MessageHeader = MessageHeader(
    numRequiredSignatures: int, numReadonlySignedAccounts: int, numReadonlyUnsignedAccounts: int)

  datatype CompiledInstruction = CompiledInstruction(
    programIdIndex: byte, accounts: seq<byte>, data: seq<byte>)

  datatype Message = Message(
    header: MessageHeader, accountKeys: seq<PublicKey>, recentBlockhash: Blockhash,
    instructions: seq<CompiledInstruction>, indexToProgramIds: map<int, PublicKey>)

  datatype MessageAddressTableLookup = MessageAddressTableLookup(
    accountKey: PublicKey, writableIndexes: seq<byte>, readonlyIndexes: seq<byte>)

  datatype MessageV0 = MessageV0(
    header: MessageHeader, staticAccountKeys: seq<PublicKey>, recentBlockhash: Blockhash,
    compiledInstructions: seq<CompiledInstruction>, addressTableLookups: seq<MessageAddressTableLookup>)

  datatype VersionedMessage = Legacy(message: Message) | V0(messageV0: MessageV0) {
    function Header(): MessageHeader {
      match this
      case Legacy(m) => m.header
      case V0(m) => m.header
    }

    function RecentBlockhash(): Blockhash {
      match this
      case Legacy(m) => m.recentBlockhash
      case V0(m) => m.recentBlockhash
    }

    function CompiledInstructions(): seq<CompiledInstruction> {
      match this
      case Legacy(m) => m.instructions
      case V0(m) => m.compiledInstructions
    }

    function StaticAccountKeys(): seq<PublicKey> {
      match this
      case Legacy(m) => m.accountKeys
      case V0(m) => m.staticAccountKeys
    }
  }

  // ---------- Flags read back from a header ----------

  function IsSignerIndex(h: MessageHeader, index: int): bool {
    index < h.numRequiredSignatures
  }

  /** Writable signers, read-only signers, writable others, read-only others. */
  function FlagRank(isSigner: bool, isWritable: bool): nat {
    if isSigner then (if isWritable then 0 else 1) else (if isWritable then 2 else 3)
  }

  /** Whether position `index` among `n` static keys is writable. */
  function IsStaticWritable(h: MessageHeader, n: int, index: int): bool {
    if index >= h.numRequiredSignatures then
      index - h.numRequiredSignatures < n - h.numRequiredSignatures - h.numReadonlyUnsignedAccounts
    else
      index < h.numRequiredSignatures - h.numReadonlySignedAccounts
  }

  function LegacyIsAccountWritable(m: Message, index: int): bool {
    IsStaticWritable(m.header, |m.accountKeys|, index)
  }

  function NumWritableLookups(lookups: seq<MessageAddressTableLookup>): nat {
    if lookups == [] then 0
    else NumWritableLookups(lookups[..|lookups| - 1]) + |lookups[|lookups| - 1].writableIndexes|
  }

  function NumReadonlyLookups(lookups: seq<MessageAddressTableLookup>): nat {
    if lookups == [] then 0
    else NumReadonlyLookups(lookups[..|lookups| - 1]) + |lookups[|lookups| - 1].readonlyIndexes|
  }

  function V0IsAccountWritable(m: MessageV0, index: int): bool {
    if index >= |m.staticAccountKeys| then
      index - |m.staticAccountKeys| < NumWritableLookups(m.addressTableLookups)
    else
      IsStaticWritable(m.header, |m.staticAccountKeys|, index)
  }

  // ---------- The cached program ids of a legacy message ----------

  /** `inflate` reads the key at each program index; an index past the keys is a fault. */
  predicate ProgramIndexesInRange(instructions: seq<CompiledInstruction>, n: nat) {
    forall i :: 0 <= i < |instructions| ==> instructions[i].programIdIndex < n
  }

  function ProgramIds(instructions: seq<CompiledInstruction>, keys: seq<PublicKey>): map<int, PublicKey>
    requires ProgramIndexesInRange(instructions, |keys|)
  {
    map ix | ix in instructions :: ix.programIdIndex := KeyAt(keys, ix.programIdIndex)
  }

  function KeyAt(keys: seq<PublicKey>, i: int): PublicKey {
    if 0 <= i < |keys| then keys[i] else seq(32, _ => 0)
  }

  /** Exactly the program indexes, each with the key there. */
  lemma ProgramIdsMeaning(instructions: seq<CompiledInstruction>, keys: seq<PublicKey>)
    requires ProgramIndexesInRange(instructions, |keys|)
    ensures var ids := ProgramIds(instructions, keys);
            && (forall p :: p in ids <==> exists i :: 0 <= i < |instructions| && instructions[i].programIdIndex == p)
            && forall p :: p in ids ==> 0 <= p < |keys| && ids[p] == keys[p]
  {
    var ids := ProgramIds(instructions, keys);
    forall p ensures p in ids <==> exists i :: 0 <= i < |instructions| && instructions[i].programIdIndex == p {
      if i :| 0 <= i < |instructions| && instructions[i].programIdIndex == p {
        assert instructions[i] in instructions;
      }
    }
  }

  /** The loop of inflate, and of NewMessage (web3/message_legacy.go:224-227, 237-243). */
  method Inflate(instructions: seq<CompiledInstruction>, keys: seq<PublicKey>) returns (r: Result<map<int, PublicKey>>)
    ensures r.Success? <==> ProgramIndexesInRange(instructions, |keys|)
    ensures r.Success? ==> r.value == ProgramIds(instructions, keys)
    ensures r.Success? ==>
              forall p :: p in r.value <==> exists i :: 0 <= i < |instructions| && instructions[i].programIdIndex == p
    ensures r.Success? ==> forall p :: p in r.value ==> 0 <= p < |keys| && r.value[p] == keys[p]
    ensures r.Failure? ==> r.error == Panic
  {
    var ids: map<int, PublicKey> := map[];
    for i := 0 to |instructions|
      invariant ProgramIndexesInRange(instructions[..i], |keys|)
      invariant ids == ProgramIds(instructions[..i], keys)
    {
      var ix := instructions[i];
      if ix.programIdIndex >= |keys| {
        return Failure(Panic);
      }
      assert instructions[..i + 1] == instructions[..i] + [ix];
      ids := ids[ix.programIdIndex := keys[ix.programIdIndex]];
    }
    assert instructions[..|instructions|] == instructions;
    ProgramIdsMeaning(instructions, keys);
    r := Success(ids);
  }

  // ---------- The flags an instruction list asks for ----------

  /** Every account an instruction list names, instruction by instruction, each program id last. */
  function Metas(instructions: seq<TransactionInstruction>): seq<AccountMeta> {
    if instructions == [] then []
    else
      var last := instructions[|instructions| - 1];
      Metas(instructions[..|instructions| - 1]) + last.keys + [AccountMeta(last.programId, false, false)]
  }

  /** Some meta for `k` asks for a signature; some meta for `k` asks for write access. */
  predicate Signs(ms: seq<AccountMeta>, k: PublicKey) {
    AccountMeta(k, true, false) in ms || AccountMeta(k, true, true) in ms
  }

  predicate Writes(ms: seq<AccountMeta>, k: PublicKey) {
    AccountMeta(k, false, true) in ms || AccountMeta(k, true, true) in ms
  }

  function KeySet(ms: seq<AccountMeta>): set<PublicKey> {
    set m | m in ms :: m.pubkey
  }

  /** One more meta adds its own flags to its own key. */
  lemma AppendMeta(ms: seq<AccountMeta>, m: AccountMeta)
    ensures KeySet(ms + [m]) == KeySet(ms) + {m.pubkey}
    ensures forall k :: Signs(ms + [m], k) <==> Signs(ms, k) || (m.pubkey == k && m.isSigner)
    ensures forall k :: Writes(ms + [m], k) <==> Writes(ms, k) || (m.pubkey == k && m.isWritable)
  {
    assert forall x :: x in ms + [m] <==> x in ms || x == m;
  }

  predicate Invokes(instructions: seq<TransactionInstruction>, k: PublicKey) {
    exists ix :: ix in instructions && ix.programId == k
  }

  /** The meta of a key with the flags of all its uses or-ed together; the payer signs and pays. */
  function MergedMeta(instructions: seq<TransactionInstruction>, payer: PublicKey, k: PublicKey): AccountMeta {
    var ms := Metas(instructions);
    AccountMeta(k, k == payer || Signs(ms, k), k == payer || Writes(ms, k))
  }

  function NormalizedInstruction(
    ix: TransactionInstruction, instructions: seq<TransactionInstruction>, payer: PublicKey): TransactionInstruction
  {
    TransactionInstruction(
      seq(|ix.keys|, j requires 0 <= j < |ix.keys| => MergedMeta(instructions, payer, ix.keys[j].pubkey)),
      ix.programId, ix.data)
  }

  /** The same instructions with every flag replaced by its merged value. */
  function Normalized(instructions: seq<TransactionInstruction>, payer: PublicKey): seq<TransactionInstruction> {
    seq(|instructions|, i requires 0 <= i < |instructions| =>
      NormalizedInstruction(instructions[i], instructions, payer))
  }

  lemma {:induction false} MetasContain(instructions: seq<TransactionInstruction>, m: AccountMeta)
    ensures m in Metas(instructions) <==>
            exists i :: 0 <= i < |instructions|
              && (m in instructions[i].keys || m == AccountMeta(instructions[i].programId, false, false))
  {
    if instructions == [] {
    } else {
      MetasContain(instructions[..|instructions| - 1], m);
    }
  }

  /** Every key an instruction names is in the flat list. */
  lemma InstructionKeysUsed(instructions: seq<TransactionInstruction>, i: nat)
    requires i < |instructions|
    ensures instructions[i].programId in KeySet(Metas(instructions))
    ensures forall j :: 0 <= j < |instructions[i].keys| ==>
            instructions[i].keys[j].pubkey in KeySet(Metas(instructions))
  {
    var ix := instructions[i];
    MetasContain(instructions, AccountMeta(ix.programId, false, false));
    forall j | 0 <= j < |ix.keys| ensures ix.keys[j].pubkey in KeySet(Metas(instructions)) {
      MetasContain(instructions, ix.keys[j]);
    }
  }

  /** A key in the flat list is the program or an account of some instruction. */
  lemma UsedKeyOccurs(instructions: seq<TransactionInstruction>, k: PublicKey)
    requires k in KeySet(Metas(instructions))
    ensures Invokes(instructions, k) ||
            exists i, j :: 0 <= i < |instructions| && 0 <= j < |instructions[i].keys| &&
              instructions[i].keys[j].pubkey == k
  {
    var m :| m in Metas(instructions) && m.pubkey == k;
    MetasContain(instructions, m);
    var i :| 0 <= i < |instructions|
      && (m in instructions[i].keys || m == AccountMeta(instructions[i].programId, false, false));
    if m in instructions[i].keys {
      var j :| 0 <= j < |instructions[i].keys| && instructions[i].keys[j] == m;
    } else {
      assert instructions[i] in instructions;
    }
  }

  /** Merging does not change the merged flags: normalizing twice is normalizing once. */
  lemma NormalizedIdempotent(instructions: seq<TransactionInstruction>, payer: PublicKey)
    ensures Normalized(Normalized(instructions, payer), payer) == Normalized(instructions, payer)
  {
    var normal := Normalized(instructions, payer);
    forall i, j | 0 <= i < |instructions| && 0 <= j < |instructions[i].keys|
      ensures MergedMeta(normal, payer, normal[i].keys[j].pubkey) == normal[i].keys[j]
    {
      MergedAgain(instructions, payer, i, j);
    }
    forall i | 0 <= i < |instructions| ensures Normalized(normal, payer)[i] == normal[i] {
      assert Normalized(normal, payer)[i].keys == normal[i].keys;
    }
  }

  lemma MergedAgain(instructions: seq<TransactionInstruction>, payer: PublicKey, i: nat, j: nat)
    requires i < |instructions| && j < |instructions[i].keys|
    ensures var normal := Normalized(instructions, payer);
            MergedMeta(normal, payer, normal[i].keys[j].pubkey) == normal[i].keys[j]
  {
    var normal := Normalized(instructions, payer);
    var m := normal[i].keys[j];
    var k := m.pubkey;
    MetasContain(normal, m);
    forall s, w | AccountMeta(k, s, w) in Metas(normal)
      ensures AccountMeta(k, s, w) in [m, AccountMeta(k, false, false)]
    {
      MetasContain(normal, AccountMeta(k, s, w));
      var i' :| 0 <= i' < |normal|
        && (AccountMeta(k, s, w) in normal[i'].keys ||
             AccountMeta(k, s, w) == AccountMeta(normal[i'].programId, false, false));
    }
  }

  // ---------- Uses of a key, instruction by instruction ----------

  /** Some account entry of an instruction asks the key to sign, or to be writable; a key is used as an account or
      as a program. */
  ghost predicate AsksToSign(instructions: seq<TransactionInstruction>, k: PublicKey) {
    exists i, j :: 0 <= i < |instructions| && 0 <= j < |instructions[i].keys|
      && instructions[i].keys[j].pubkey == k && instructions[i].keys[j].isSigner
  }

  ghost predicate AsksToWrite(instructions: seq<TransactionInstruction>, k: PublicKey) {
    exists i, j :: 0 <= i < |instructions| && 0 <= j < |instructions[i].keys|
      && instructions[i].keys[j].pubkey == k && instructions[i].keys[j].isWritable
  }

  ghost predicate Uses(instructions: seq<TransactionInstruction>, k: PublicKey) {
    exists i :: 0 <= i < |instructions| &&
      (instructions[i].programId == k ||
       exists j :: 0 <= j < |instructions[i].keys| && instructions[i].keys[j].pubkey == k)
  }

  lemma MetaOccurs(instructions: seq<TransactionInstruction>, m: AccountMeta)
    requires m in Metas(instructions) && (m.isSigner || m.isWritable)
    ensures exists i, j :: 0 <= i < |instructions| && 0 <= j < |instructions[i].keys| && instructions[i].keys[j] == m
  {
    MetasContain(instructions, m);
    var i :| 0 <= i < |instructions| && m in instructions[i].keys;
    var j :| 0 <= j < |instructions[i].keys| && instructions[i].keys[j] == m;
  }

  lemma AccountListed(instructions: seq<TransactionInstruction>, i: nat, j: nat)
    requires i < |instructions| && j < |instructions[i].keys|
    ensures instructions[i].keys[j] in Metas(instructions)
  {
    MetasContain(instructions, instructions[i].keys[j]);
  }

  /** Merged flags are what the instructions ask for, and the payer signs and writes. */
  lemma MergedMetaMeaning(instructions: seq<TransactionInstruction>, payer: PublicKey, k: PublicKey)
    ensures var meta := MergedMeta(instructions, payer, k);
            && meta.pubkey == k
            && (meta.isSigner <==> k == payer || AsksToSign(instructions, k))
            && (meta.isWritable <==> k == payer || AsksToWrite(instructions, k))
  {
    var ms := Metas(instructions);
    forall w | AccountMeta(k, true, w) in ms ensures AsksToSign(instructions, k) {
      MetaOccurs(instructions, AccountMeta(k, true, w));
    }
    forall s | AccountMeta(k, s, true) in ms ensures AsksToWrite(instructions, k) {
      MetaOccurs(instructions, AccountMeta(k, s, true));
    }
    hide Metas;
    if AsksToSign(instructions, k) {
      var i, j :| 0 <= i < |instructions| && 0 <= j < |instructions[i].keys|
        && instructions[i].keys[j].pubkey == k && instructions[i].keys[j].isSigner;
      AccountListed(instructions, i, j);
    }
    if AsksToWrite(instructions, k) {
      var i, j :| 0 <= i < |instructions| && 0 <= j < |instructions[i].keys|
        && instructions[i].keys[j].pubkey == k && instructions[i].keys[j].isWritable;
      AccountListed(instructions, i, j);
    }
  }

  lemma KeySetMeaning(instructions: seq<TransactionInstruction>, k: PublicKey)
    ensures k in KeySet(Metas(instructions)) <==> Uses(instructions, k)
  {
    if k in KeySet(Metas(instructions)) {
      UsedKeyOccurs(instructions, k);
    }
    if Uses(instructions, k) {
      var i :| 0 <= i < |instructions| && (instructions[i].programId == k ||
        exists j :: 0 <= j < |instructions[i].keys| && instructions[i].keys[j].pubkey == k);
      InstructionKeysUsed(instructions, i);
    }
  }
}
