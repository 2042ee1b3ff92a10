/** Account keys in segments, instructions as indexes into them, legacy messages, and resolving table lookups
    (web3/message_legacy.go:213-235, web3/message_v0.go:142-217, 406-454). */
module MessageCompiler {
  import opened Basics
  import opened Messages
  import opened CompiledKeys

  // ---------- Account keys in segments ----------

  datatype MessageAccountKeys = MessageAccountKeys(
    staticAccountKeys: seq<PublicKey>, accountKeysFromLookups: Option<LoadedAddresses>)
  {
    function KeySegments(): seq<seq<PublicKey>> {
      match accountKeysFromLookups
      case None => [staticAccountKeys]
      case Some(l) => [staticAccountKeys, l.writable, l.readonly]
    }

    /** All segments end to end. */
    function Flat(): seq<PublicKey> {
      match accountKeysFromLookups
      case None => staticAccountKeys
      case Some(l) => staticAccountKeys + l.writable + l.readonly
    }
  }

  function Concatenated(segments: seq<seq<PublicKey>>): seq<PublicKey> {
    if segments == [] then [] else segments[0] + Concatenated(segments[1..])
  }

  lemma FlatIsConcatenated(m: MessageAccountKeys)
    ensures Concatenated(m.KeySegments()) == m.Flat()
  {
    var s := m.KeySegments();
    if m.accountKeysFromLookups.Some? {
      var s1 := s[1..];
      var s2 := s1[1..];
      var s3 := s2[1..];
      assert s3 == [] && s2[0] == s[2] && s1[0] == s[1];
      assert Concatenated(s2) == s[2] && Concatenated(s1) == s[1] + s[2];
    } else {
      assert Concatenated(s) == s[0] + Concatenated(s[1..]);
    }
  }

  function At(keys: seq<PublicKey>, index: nat): Option<PublicKey> {
    if index < |keys| then Some(keys[index]) else None
  }

  /** MessageAccountKeys.Get: walking the segments finds the key at that position of all of them end to end. */
  method Get(m: MessageAccountKeys, index: nat) returns (r: Option<PublicKey>)
    ensures r == At(m.Flat(), index)
  {
    var segments := m.KeySegments();
    FlatIsConcatenated(m);
    var rest: nat := index;
    for s := 0 to |segments|
      invariant At(m.Flat(), index) == At(Concatenated(segments[s..]), rest)
    {
      assert segments[s..][1..] == segments[s + 1..];
      if rest < |segments[s]| {
        return Some(segments[s][rest]);
      } else {
        rest := rest - |segments[s]|;
      }
    }
    r := None;
  }

  // ---------- compileInstructions ----------

  /** `index` is the last position of `key`. */
  ghost predicate LastNames(keys: seq<PublicKey>, index: byte, key: PublicKey) {
    index < |keys| && keys[index] == key && forall j :: index < j < |keys| ==> keys[j] != key
  }

  ghost predicate InstructionCompiled(keys: seq<PublicKey>, ix: TransactionInstruction, c: CompiledInstruction) {
    && LastNames(keys, c.programIdIndex, ix.programId)
    && c.data == ix.data && |c.accounts| == |ix.keys|
    && forall j :: 0 <= j < |ix.keys| ==> LastNames(keys, c.accounts[j], ix.keys[j].pubkey)
  }

  /** Every byte index names the key it stands for. */
  ghost predicate CompiledAgainst(keys: seq<PublicKey>, ixs: seq<TransactionInstruction>, cs: seq<CompiledInstruction>)
  {
    |cs| == |ixs| && forall i :: 0 <= i < |ixs| ==> InstructionCompiled(keys, ixs[i], cs[i])
  }

  ghost predicate AllKeysIn(ixs: seq<TransactionInstruction>, keys: seq<PublicKey>) {
    forall k :: k in KeySet(Metas(ixs)) ==> k in keys
  }

  ghost predicate IndexMap(indexes: map<PublicKey, byte>, keys: seq<PublicKey>) {
    && (forall k :: k in indexes <==> k in keys)
    && (forall k :: k in indexes ==> LastNames(keys, indexes[k], k))
  }

  method IndexKeys(keys: seq<PublicKey>) returns (indexes: map<PublicKey, byte>)
    requires |keys| <= 256
    ensures IndexMap(indexes, keys)
  {
    indexes := map[];
    for index := 0 to |keys|
      invariant IndexMap(indexes, keys[..index])
    {
      assert keys[..index + 1] == keys[..index] + [keys[index]];
      indexes := indexes[keys[index] := index];
    }
    assert keys[..|keys|] == keys;
  }

  /** compileInstructions: an unknown key is noted and reported at the end. */
  method CompileInstructions(m: MessageAccountKeys, ixs: seq<TransactionInstruction>)
    returns (r: Result<seq<CompiledInstruction>>)
    ensures |m.Flat()| > 256 ==> r == Failure(AccountIndexOverflow)
    ensures |m.Flat()| <= 256 && !AllKeysIn(ixs, m.Flat()) ==> r == Failure(UnknownAccountKey)
    ensures |m.Flat()| <= 256 && AllKeysIn(ixs, m.Flat()) ==> r.Success? && CompiledAgainst(m.Flat(), ixs, r.value)
  {
    var flat := m.Flat();
    if |flat| > 256 {
      return Failure(AccountIndexOverflow);
    }
    var indexes := IndexKeys(flat);
    var unknown := false;
    var ret: seq<CompiledInstruction> := [];
    for i := 0 to |ixs|
      invariant |ret| == i
      invariant unknown ==> !AllKeysIn(ixs, flat)
      invariant !unknown ==> AllKeysIn(ixs[..i], flat)
      invariant !unknown ==> CompiledAgainst(flat, ixs[..i], ret)
    {
      var bad, c := CompileOne(indexes, flat, ixs[i]);
      PrefixKeys(ixs, i);
      unknown := unknown || bad;
      ret := ret + [c];
    }
    assert ixs[..|ixs|] == ixs;
    if unknown {
      return Failure(UnknownAccountKey);
    }
    r := Success(ret);
  }

  ghost predicate InstructionKeysIn(ix: TransactionInstruction, keys: seq<PublicKey>) {
    ix.programId in keys && forall j :: 0 <= j < |ix.keys| ==> ix.keys[j].pubkey in keys
  }

  lemma PrefixKeys(ixs: seq<TransactionInstruction>, i: nat)
    requires i < |ixs|
    ensures forall keys :: AllKeysIn(ixs, keys) ==> InstructionKeysIn(ixs[i], keys)
    ensures forall keys :: AllKeysIn(ixs[..i], keys) && InstructionKeysIn(ixs[i], keys) ==>
            AllKeysIn(ixs[..i + 1], keys)
  {
    InstructionKeysUsed(ixs, i);
    var ix := ixs[i];
    var p := AccountMeta(ix.programId, false, false);
    assert ixs[..i + 1][..i] == ixs[..i];
    forall k
      ensures k in KeySet(Metas(ixs[..i + 1])) <==>
              k in KeySet(Metas(ixs[..i])) || k == ix.programId ||
              exists j :: 0 <= j < |ix.keys| && ix.keys[j].pubkey == k
    {
      assert Metas(ixs[..i + 1]) == Metas(ixs[..i]) + ix.keys + [p];
      if j :| 0 <= j < |ix.keys| && ix.keys[j].pubkey == k {
        assert ix.keys[j] in Metas(ixs[..i + 1]);
      }
      assert p in Metas(ixs[..i + 1]);
    }
  }

  method CompileOne(indexes: map<PublicKey, byte>, ghost keys: seq<PublicKey>, ix: TransactionInstruction)
    returns (bad: bool, c: CompiledInstruction)
    requires IndexMap(indexes, keys)
    ensures bad <==> !InstructionKeysIn(ix, keys)
    ensures !bad ==> InstructionCompiled(keys, ix, c)
  {
    bad := ix.programId !in indexes;
    var programIdIndex: byte := if ix.programId in indexes then indexes[ix.programId] else 0;
    var accounts: seq<byte> := [];
    for j := 0 to |ix.keys|
      invariant |accounts| == j
      invariant bad <==> ix.programId !in keys || exists k :: 0 <= k < j && ix.keys[k].pubkey !in keys
      invariant !bad ==> forall k :: 0 <= k < j ==> LastNames(keys, accounts[k], ix.keys[k].pubkey)
    {
      var key := ix.keys[j].pubkey;
      if key !in indexes {
        bad := true;
      }
      accounts := accounts + [if key in indexes then indexes[key] else 0];
    }
    c := CompiledInstruction(programIdIndex, accounts, ix.data);
  }

  // ---------- Legacy messages ----------

  /** What a compiled legacy message is: the merged keys laid out, the payer first, the instructions indexed. */
  ghost predicate CompiledLegacy(
    payer: PublicKey, ixs: seq<TransactionInstruction>, blockhash: Blockhash, m: Message)
  {
    && Laid(Components(m.header, m.accountKeys), MergedKeys(ixs, payer), payer)
    && |m.accountKeys| <= 256
    && CompiledAgainst(m.accountKeys, ixs, m.instructions)
    && m.recentBlockhash == blockhash
    && ProgramIndexesInRange(m.instructions, |m.accountKeys|)
    && m.indexToProgramIds == ProgramIds(m.instructions, m.accountKeys)
  }

  lemma MergedCoverInstructions(ixs: seq<TransactionInstruction>, payer: PublicKey)
    ensures KeySet(Metas(ixs)) <= MergedKeys(ixs, payer).Keys
    ensures payer in MergedKeys(ixs, payer) && KeyRank(MergedKeys(ixs, payer)[payer]) == 0
  {
  }

  lemma CompiledInRange(keys: seq<PublicKey>, ixs: seq<TransactionInstruction>, cs: seq<CompiledInstruction>)
    requires CompiledAgainst(keys, ixs, cs)
    ensures ProgramIndexesInRange(cs, |keys|)
  {
    forall i | 0 <= i < |cs| ensures cs[i].programIdIndex < |keys| {
      assert InstructionCompiled(keys, ixs[i], cs[i]);
    }
  }

  /** NewMessage (CompileToLegacyMessage); the order the map was ranged over is the ghost result. It fails
      exactly when laying out the keys in that order does. */
  method NewMessage(payer: PublicKey, ixs: seq<TransactionInstruction>, blockhash: Blockhash)
    returns (r: Result<Message>, ghost order: seq<PublicKey>)
    ensures Lists(order, MergedKeys(ixs, payer).Keys)
    ensures r.Success? ==> CompiledLegacy(payer, ixs, blockhash, r.value)
    ensures match ComponentsInOrder(order, MergedKeys(ixs, payer), payer)
            case Success(c) => r.Success? && r.value.header == c.header && r.value.accountKeys == c.keys
            case Failure(e) => r == Failure(e)
    ensures |MergedKeys(ixs, payer)| <= 256 && OnlyPayerSignsAndWrites(MergedKeys(ixs, payer), payer) ==> r.Success?
  {
    hide MergedKeys, Laid, ComponentsInOrder, OnlyPayerSignsAndWrites;
    ghost var metas := MergedKeys(ixs, payer);
    var compiledKeys := new CompiledKeys(ixs, payer);
    var components;
    components, order := compiledKeys.GetMessageComponents();
    if |metas| <= 256 && OnlyPayerSignsAndWrites(metas, payer) {
      OnlyPayerSucceeds(order, metas, payer);
    }
    var c :- components;
    LaidFacts(c, metas, payer);
    ComponentsBound(order, metas, payer);
    MergedCoverInstructions(ixs, payer);
    // with every merged key static this cannot fail
    var compiled := CompileInstructions(MessageAccountKeys(c.keys, None), ixs);
    var instructions := compiled.value;
    CompiledInRange(c.keys, ixs, instructions);
    var ids := Inflate(instructions, c.keys);
    r := Success(Message(c.header, c.keys, blockhash, instructions, ids.value));
  }

  lemma LaidFacts(c: Components, metas: KeyMetaMap, payer: PublicKey)
    requires Laid(c, metas, payer)
    ensures Lists(c.keys, metas.Keys) && |c.keys| == |metas|
  {
    ListingLength(c.keys, metas.Keys);
  }

  lemma ComponentsBound(order: seq<PublicKey>, metas: KeyMetaMap, payer: PublicKey)
    requires ComponentsInOrder(order, metas, payer).Success?
    ensures |metas| <= 256
  {
  }

  // ---------- Resolving lookups ----------

  /** The first table with a key. */
  function FindTable(tables: seq<AddressLookupTableAccount>, key: PublicKey): Option<AddressLookupTableAccount> {
    if tables == [] then None
    else if tables[0].key == key then Some(tables[0])
    else FindTable(tables[1..], key)
  }

  predicate AllWithin(indexes: seq<byte>, n: nat) {
    forall i :: 0 <= i < |indexes| ==> indexes[i] < n
  }

  function Entries(addresses: seq<PublicKey>, indexes: seq<byte>): seq<PublicKey>
    requires AllWithin(indexes, |addresses|)
  {
    seq(|indexes|, i requires 0 <= i < |indexes| => addresses[indexes[i]])
  }

  function ResolveOne(l: MessageAddressTableLookup, tables: seq<AddressLookupTableAccount>): Result<LoadedAddresses> {
    match FindTable(tables, l.accountKey)
    case None => Failure(TableNotFound)
    case Some(t) =>
      if AllWithin(l.writableIndexes, |t.addresses|) && AllWithin(l.readonlyIndexes, |t.addresses|) then
        Success(LoadedAddresses(Entries(t.addresses, l.writableIndexes), Entries(t.addresses, l.readonlyIndexes)))
      else Failure(TableEntryNotFound)
  }

  /** What resolveAddressTableLookups returns. */
  function Resolve(ls: seq<MessageAddressTableLookup>, tables: seq<AddressLookupTableAccount>)
    : Result<LoadedAddresses>
  {
    if ls == [] then Success(LoadedAddresses([], []))
    else
      var before :- Resolve(ls[..|ls| - 1], tables);
      var last :- ResolveOne(ls[|ls| - 1], tables);
      Success(LoadedAddresses(before.writable + last.writable, before.readonly + last.readonly))
  }

  lemma {:induction false} ResolveFails(
    ls: seq<MessageAddressTableLookup>, n: nat, tables: seq<AddressLookupTableAccount>)
    requires n <= |ls| && Resolve(ls[..n], tables).Failure?
    ensures Resolve(ls, tables) == Resolve(ls[..n], tables)
  {
    if n < |ls| {
      assert ls[..|ls| - 1][..n] == ls[..n];
      ResolveFails(ls[..|ls| - 1], n, tables);
    } else {
      assert ls[..n] == ls;
    }
  }

  /** The first table with a key: none has it before. */
  lemma {:induction false} FindTableFirst(tables: seq<AddressLookupTableAccount>, key: PublicKey)
    ensures match FindTable(tables, key)
            case None => forall i :: 0 <= i < |tables| ==> tables[i].key != key
            case Some(t) =>
              exists i :: 0 <= i < |tables| && tables[i] == t && t.key == key
                && forall j :: 0 <= j < i ==> tables[j].key != key
  {
    if tables == [] {
    } else if tables[0].key != key {
      FindTableFirst(tables[1..], key);
      match FindTable(tables[1..], key)
      case None => assert forall i :: 0 < i < |tables| ==> tables[i] == tables[1..][i - 1];
      case Some(t) =>
        var i :| 0 <= i < |tables| - 1 && tables[1..][i] == t && forall j :: 0 <= j < i ==> tables[1..][j].key != key;
        assert tables[i + 1] == t;
        assert forall j :: 0 < j < i + 1 ==> tables[j] == tables[1..][j - 1];
    }
  }

  /** One lookup: without a table of its key, or with an index past the entries of the first one, it fails;
      otherwise it gives the entries at its indexes, in order. */
  lemma ResolveOneMeaning(l: MessageAddressTableLookup, tables: seq<AddressLookupTableAccount>, i: nat)
    requires i <= |tables| && (forall j :: 0 <= j < i ==> tables[j].key != l.accountKey)
    requires i < |tables| ==> tables[i].key == l.accountKey
    ensures i == |tables| ==> ResolveOne(l, tables) == Failure(TableNotFound)
    ensures i < |tables| ==>
              var entries, w, r := tables[i].addresses, l.writableIndexes, l.readonlyIndexes;
              match ResolveOne(l, tables)
              case Failure(e) =>
                && e == TableEntryNotFound
                && ((exists k :: 0 <= k < |w| && w[k] >= |entries|) || exists k :: 0 <= k < |r| && r[k] >= |entries|)
              case Success(loaded) =>
                && |loaded.writable| == |w| && |loaded.readonly| == |r|
                && (forall k :: 0 <= k < |w| ==> w[k] < |entries| && loaded.writable[k] == entries[w[k]])
                && (forall k :: 0 <= k < |r| ==> r[k] < |entries| && loaded.readonly[k] == entries[r[k]])
  {
    FindTableFirst(tables, l.accountKey);
    hide FindTable;
    if i < |tables| && FindTable(tables, l.accountKey).Some? {
      var t := FindTable(tables, l.accountKey).value;
      var k :| 0 <= k < |tables| && tables[k] == t && t.key == l.accountKey
        && forall j :: 0 <= j < k ==> tables[j].key != l.accountKey;
      assert k == i;
    }
  }

  /** Lookups resolve one after the other, writable and read-only entries apart; the first failure is the result. */
  lemma {:induction false} ResolveConcat(
    a: seq<MessageAddressTableLookup>, b: seq<MessageAddressTableLookup>, tables: seq<AddressLookupTableAccount>)
    ensures Resolve(a + b, tables) ==
            match Resolve(a, tables)
            case Failure(e) => Failure(e)
            case Success(x) =>
              match Resolve(b, tables)
              case Failure(e) => Failure(e)
              case Success(y) => Success(LoadedAddresses(x.writable + y.writable, x.readonly + y.readonly))
    ensures b != [] && |b| == 1 ==> Resolve(b, tables) == ResolveOne(b[0], tables)
  {
    hide ResolveOne;
    if b == [] {
      assert a + b == a;
      if Resolve(a, tables).Success? {
        assert Resolve(a, tables).value.writable + [] == Resolve(a, tables).value.writable;
        assert Resolve(a, tables).value.readonly + [] == Resolve(a, tables).value.readonly;
      }
    } else {
      var n := |b| - 1;
      assert (a + b)[..|a + b| - 1] == a + b[..n];
      ResolveConcat(a, b[..n], tables);
      ResolveStep(a + b, tables);
      ResolveStep(b, tables);
      if n == 0 && ResolveOne(b[0], tables).Success? {
        assert b[..0] == [];
        var l := ResolveOne(b[0], tables).value;
        assert [] + l.writable == l.writable && [] + l.readonly == l.readonly;
      }
      if Resolve(a, tables).Success? && Resolve(b[..n], tables).Success? && ResolveOne(b[n], tables).Success? {
        var x, y, l := Resolve(a, tables).value, Resolve(b[..n], tables).value, ResolveOne(b[n], tables).value;
        assert x.writable + y.writable + l.writable == x.writable + (y.writable + l.writable);
        assert x.readonly + y.readonly + l.readonly == x.readonly + (y.readonly + l.readonly);
      }
    }
  }

  lemma ResolveStep(ls: seq<MessageAddressTableLookup>, tables: seq<AddressLookupTableAccount>)
    requires ls != []
    ensures var before, last := Resolve(ls[..|ls| - 1], tables), ResolveOne(ls[|ls| - 1], tables);
            Resolve(ls, tables) ==
              if before.Failure? then before
              else if last.Failure? then last
              else Success(LoadedAddresses(
                before.value.writable + last.value.writable, before.value.readonly + last.value.readonly))
  {
    hide ResolveOne;
  }

  method ResolveIndexes(addresses: seq<PublicKey>, indexes: seq<byte>) returns (r: Result<seq<PublicKey>>)
    ensures r == if AllWithin(indexes, |addresses|) then Success(Entries(addresses, indexes))
            else Failure(TableEntryNotFound)
  {
    var out: seq<PublicKey> := [];
    for i := 0 to |indexes|
      invariant AllWithin(indexes[..i], |addresses|)
      invariant |out| == i && forall j :: 0 <= j < i ==> out[j] == addresses[indexes[j]]
    {
      if indexes[i] < |addresses| {
        out := out + [addresses[indexes[i]]];
      } else {
        return Failure(TableEntryNotFound);
      }
    }
    assert indexes[..|indexes|] == indexes;
    assert out == Entries(addresses, indexes);
    r := Success(out);
  }

  method LookUpTable(tables: seq<AddressLookupTableAccount>, key: PublicKey)
    returns (r: Option<AddressLookupTableAccount>)
    ensures r == FindTable(tables, key)
  {
    for i := 0 to |tables|
      invariant FindTable(tables, key) == FindTable(tables[i..], key)
    {
      assert tables[i..][1..] == tables[i + 1..];
      if tables[i].key == key {
        return Some(tables[i]);
      }
    }
    r := None;
  }

  method ResolveAddressTableLookups(ls: seq<MessageAddressTableLookup>, tables: seq<AddressLookupTableAccount>)
    returns (r: Result<LoadedAddresses>)
    ensures r == Resolve(ls, tables)
  {
    var loaded := LoadedAddresses([], []);
    for i := 0 to |ls|
      invariant Resolve(ls[..i], tables) == Success(loaded)
    {
      hide FindTable, AllWithin, Entries;
      assert ls[..i + 1][..i] == ls[..i];
      var found := LookUpTable(tables, ls[i].accountKey);
      if found.None? {
        ResolveFails(ls, i + 1, tables);
        return Failure(TableNotFound);
      }
      var writable := ResolveIndexes(found.value.addresses, ls[i].writableIndexes);
      if writable.Failure? {
        ResolveFails(ls, i + 1, tables);
        return Failure(writable.error);
      }
      var readonly := ResolveIndexes(found.value.addresses, ls[i].readonlyIndexes);
      if readonly.Failure? {
        ResolveFails(ls, i + 1, tables);
        return Failure(readonly.error);
      }
      loaded := LoadedAddresses(loaded.writable + writable.value, loaded.readonly + readonly.value);
    }
    assert ls[..|ls|] == ls;
    r := Success(loaded);
  }
}
