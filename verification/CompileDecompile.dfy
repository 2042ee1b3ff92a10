/** Compiling keeps the meaning of a transaction message: decompiling gives back the payer, the blockhash and
    the instructions with merged flags. Main results about the compilers and Decompiler. */
module CompileDecompile {
  import opened Basics
  import opened Messages
  import opened CompiledKeys
  import opened MessageCompiler
  import opened V0Compiler
  import opened Decompiler
  import opened Wire
  import LegacyLayout

  /** The message a faithful decompilation returns. */
  function Meant(payer: PublicKey, ixs: seq<TransactionInstruction>, blockhash: Blockhash): TransactionMessage {
    TransactionMessage(payer, Normalized(ixs, payer), blockhash)
  }

  // ---------- Which lookups resolve to the key they stand for ----------

  /** Looking a byte index up in the first table with a key gives `k`. */
  predicate ResolvesTo(tables: seq<AddressLookupTableAccount>, table: PublicKey, index: byte, k: PublicKey) {
    match FindTable(tables, table)
    case None => false
    case Some(t) => index < |t.addresses| && t.addresses[index] == k
  }

  /** Every key a table takes is found again through the byte recorded for it: a check on the tables and the
      merged keys alone, before compiling. It fails for a key at position 256 of its table, whose byte is 0,
      and for a table hidden behind another with the same key. */
  ghost predicate Faithful(
    metas: KeyMetaMap, tables: seq<AddressLookupTableAccount>, all: seq<AddressLookupTableAccount>)
  {
    if tables == [] then true
    else
      var init, t := tables[..|tables| - 1], tables[|tables| - 1];
      Faithful(metas, init, all)
      && forall k :: k in Taken(Left(metas, init), t) ==> ResolvesTo(all, t.key, IndexByte(t.addresses, k), k)
  }

  ghost predicate FaithfulExtraction(x: Extraction, all: seq<AddressLookupTableAccount>) {
    && (forall i :: 0 <= i < |x.keys.writable| ==>
          ResolvesTo(all, x.table.key, IndexByte(x.table.addresses, x.keys.writable[i]), x.keys.writable[i]))
    && (forall i :: 0 <= i < |x.keys.readonly| ==>
          ResolvesTo(all, x.table.key, IndexByte(x.table.addresses, x.keys.readonly[i]), x.keys.readonly[i]))
  }

  ghost predicate FaithfulLog(log: seq<Extraction>, all: seq<AddressLookupTableAccount>) {
    forall i :: 0 <= i < |log| ==> FaithfulExtraction(log[i], all)
  }

  lemma {:induction false} FaithfulIffLog(
    log: seq<Extraction>, metas: KeyMetaMap, tables: seq<AddressLookupTableAccount>,
    all: seq<AddressLookupTableAccount>)
    requires Chosen(log, metas, tables)
    ensures Faithful(metas, tables, all) <==> FaithfulLog(log, all)
  {
    hide ResolvesTo, IndexByte;
    if tables == [] {
    } else {
      var init, t := tables[..|tables| - 1], tables[|tables| - 1];
      var before := Left(metas, init);
      if Taken(before, t) == {} {
        FaithfulIffLog(log, metas, init, all);
      } else {
        var n := |log| - 1;
        FaithfulIffLog(log[..n], metas, init, all);
        TakenIffListed(log[n], before, t, all);
        FaithfulLogNext(log, all);
        hide Left, Chosen, Taken, FaithfulExtraction, FaithfulLog;
      }
    }
  }

  lemma FaithfulLogNext(log: seq<Extraction>, all: seq<AddressLookupTableAccount>)
    requires log != []
    ensures FaithfulLog(log, all) <==> FaithfulLog(log[..|log| - 1], all) && FaithfulExtraction(log[|log| - 1], all)
  {
    hide FaithfulExtraction;
    assert log == log[..|log| - 1] + [log[|log| - 1]];
  }

  lemma TakenIffListed(
    x: Extraction, before: KeyMetaMap, t: AddressLookupTableAccount, all: seq<AddressLookupTableAccount>)
    requires x.table == t
    requires Lists(x.keys.writable, WritableIn(before, t)) && Lists(x.keys.readonly, KeptReadonly(before, t))
    ensures FaithfulExtraction(x, all) <==>
            forall k :: k in Taken(before, t) ==> ResolvesTo(all, t.key, IndexByte(t.addresses, k), k)
  {
    hide ResolvesTo, IndexByte, WritableIn, KeptReadonly;
    var w, r := x.keys.writable, x.keys.readonly;
    if forall k :: k in Taken(before, t) ==> ResolvesTo(all, t.key, IndexByte(t.addresses, k), k) {
      assert forall i :: 0 <= i < |w| ==> w[i] in Taken(before, t);
      assert forall i :: 0 <= i < |r| ==> r[i] in Taken(before, t);
    }
    if FaithfulExtraction(x, all) {
      forall k | k in Taken(before, t) ensures ResolvesTo(all, t.key, IndexByte(t.addresses, k), k) {
        assert k in w || k in r;
      }
    }
  }

  /** One lookup resolves to its keys exactly when each of its bytes does. */
  lemma ResolveExtraction(x: Extraction, all: seq<AddressLookupTableAccount>)
    ensures ResolveOne(LookupOf(x), all) == Success(x.keys) <==>
            FaithfulExtraction(x, all) &&
            (x.keys.writable + x.keys.readonly == [] ==> FindTable(all, x.table.key).Some?)
    ensures ResolveOne(LookupOf(x), all).Success? ==>
              var l := ResolveOne(LookupOf(x), all).value;
              |l.writable| == |x.keys.writable| && |l.readonly| == |x.keys.readonly|
  {
    hide FindTable;
    var w, r := x.keys.writable, x.keys.readonly;
    if FindTable(all, x.table.key).Some? {
      var t := FindTable(all, x.table.key).value;
      EntriesExact(t.addresses, x.table.addresses, w);
      EntriesExact(t.addresses, x.table.addresses, r);
    } else if w != [] {
      assert !ResolvesTo(all, x.table.key, IndexByte(x.table.addresses, w[0]), w[0]);
    } else if r != [] {
      assert !ResolvesTo(all, x.table.key, IndexByte(x.table.addresses, r[0]), r[0]);
    }
  }

  lemma EntriesExact(addresses: seq<PublicKey>, from: seq<PublicKey>, keys: seq<PublicKey>)
    ensures (AllWithin(IndexBytes(from, keys), |addresses|) && Entries(addresses, IndexBytes(from, keys)) == keys)
            <==> forall i :: 0 <= i < |keys| ==>
                   IndexByte(from, keys[i]) < |addresses| && addresses[IndexByte(from, keys[i])] == keys[i]
  {
    hide IndexByte;
    var b := IndexBytes(from, keys);
    if forall i :: 0 <= i < |keys| ==> b[i] < |addresses| && addresses[b[i]] == keys[i] {
      assert Entries(addresses, b) == keys;
    } else if AllWithin(b, |addresses|) {
      var i :| 0 <= i < |keys| && !(b[i] < |addresses| && addresses[b[i]] == keys[i]);
      assert Entries(addresses, b)[i] != keys[i];
    }
  }

  /** A lookup is recorded only for a table that took something. */
  ghost predicate NoneEmpty(log: seq<Extraction>) {
    forall i :: 0 <= i < |log| ==> log[i].keys.writable + log[i].keys.readonly != []
  }

  lemma {:induction false} ChosenNotEmpty(
    log: seq<Extraction>, metas: KeyMetaMap, tables: seq<AddressLookupTableAccount>)
    requires Chosen(log, metas, tables)
    ensures NoneEmpty(log)
  {
    hide WritableIn, KeptReadonly, Overflows;
    if tables == [] {
    } else {
      var init, t := tables[..|tables| - 1], tables[|tables| - 1];
      var before := Left(metas, init);
      if Taken(before, t) == {} {
        ChosenNotEmpty(log, metas, init);
      } else {
        var n := |log| - 1;
        ChosenNotEmpty(log[..n], metas, init);
        ListedNotEmpty(log[n], before, t);
        hide Chosen, Left, Taken;
        assert forall i :: 0 <= i < n ==> log[i] == log[..n][i];
      }
    }
  }

  lemma ListedNotEmpty(x: Extraction, before: KeyMetaMap, t: AddressLookupTableAccount)
    requires Lists(x.keys.writable, WritableIn(before, t)) && Lists(x.keys.readonly, KeptReadonly(before, t))
    requires Taken(before, t) != {}
    ensures x.keys.writable + x.keys.readonly != []
  {
    hide WritableIn, KeptReadonly;
    var k :| k in Taken(before, t);
    assert k in x.keys.writable || k in x.keys.readonly;
  }

  /** All lookups together resolve to the keys that were drained exactly when each does. */
  lemma {:induction false} ResolveLog(log: seq<Extraction>, all: seq<AddressLookupTableAccount>)
    requires NoneEmpty(log)
    ensures Resolve(LookupsOf(log), all) == Success(LoadedAddresses(Writables(log), Readonlys(log))) <==>
            FaithfulLog(log, all)
    ensures Resolve(LookupsOf(log), all).Success? ==>
              var l := Resolve(LookupsOf(log), all).value;
              |l.writable| == |Writables(log)| && |l.readonly| == |Readonlys(log)|
  {
    if log == [] {
    } else {
      var n := |log| - 1;
      var init := log[..n];
      ResolveLog(init, all);
      ResolveExtraction(log[n], all);
      ResolveNext(log, all);
      FaithfulLogNext(log, all);
      hide Resolve, FaithfulLog, FaithfulExtraction, ResolveOne, LookupOf, LookupsOf;
      var a, b := Resolve(LookupsOf(init), all), ResolveOne(LookupOf(log[n]), all);
      if a.Success? && b.Success? {
        SameParts(a.value.writable, b.value.writable, Writables(init), log[n].keys.writable);
        SameParts(a.value.readonly, b.value.readonly, Readonlys(init), log[n].keys.readonly);
      }
    }
  }

  lemma ResolveNext(log: seq<Extraction>, all: seq<AddressLookupTableAccount>)
    requires log != []
    ensures var n := |log| - 1;
            var a, b := Resolve(LookupsOf(log[..n]), all), ResolveOne(LookupOf(log[n]), all);
            && (Resolve(LookupsOf(log), all).Success? <==> a.Success? && b.Success?)
            && (a.Success? && b.Success? ==>
                  Resolve(LookupsOf(log), all) ==
                    Success(LoadedAddresses(a.value.writable + b.value.writable, a.value.readonly + b.value.readonly)))
  {
    var n := |log| - 1;
    assert LookupsOf(log)[..n] == LookupsOf(log[..n]) && LookupsOf(log)[n] == LookupOf(log[n]);
    hide ResolveOne, LookupOf;
  }

  // ---------- Decompiling ----------

  /** The flags of a position in static keys followed by two segments of loaded keys, one writable, one not. */
  ghost predicate PositionsMean(
    h: MessageHeader, keys: MessageAccountKeys, ixs: seq<TransactionInstruction>, payer: PublicKey)
  {
    forall i :: 0 <= i < |keys.Flat()| ==> DecompiledMeta(h, keys, i) == MergedMeta(ixs, payer, keys.Flat()[i])
  }

  /** Indexed instructions over keys whose positions tell their flags decompile to the normalized ones. */
  lemma DecompilesToNormalized(
    h: MessageHeader, keys: MessageAccountKeys, ixs: seq<TransactionInstruction>, payer: PublicKey,
    cs: seq<CompiledInstruction>)
    requires PositionsMean(h, keys, ixs, payer) && CompiledAgainst(keys.Flat(), ixs, cs)
    ensures DecompileInstructions(h, keys, cs) == Success(Normalized(ixs, payer))
  {
    forall i | 0 <= i < |cs|
      ensures DecompileInstruction(h, keys, cs[i]) == Success(NormalizedInstruction(ixs[i], ixs, payer))
    {
      OneToNormalized(h, keys, ixs, payer, ixs[i], cs[i]);
    }
    DecompiledElements(h, keys, cs);
    hide DecompileInstructions, DecompileInstruction;
    if DecompileInstructions(h, keys, cs).Success? {
      assert DecompileInstructions(h, keys, cs).value == Normalized(ixs, payer);
    }
  }

  lemma OneToNormalized(
    h: MessageHeader, keys: MessageAccountKeys, ixs: seq<TransactionInstruction>, payer: PublicKey,
    ix: TransactionInstruction, c: CompiledInstruction)
    requires PositionsMean(h, keys, ixs, payer) && InstructionCompiled(keys.Flat(), ix, c)
    ensures DecompileInstruction(h, keys, c) == Success(NormalizedInstruction(ix, ixs, payer))
  {
    hide DecompiledMeta, MergedMeta;
    forall j | 0 <= j < |c.accounts|
      ensures c.accounts[j] < |keys.Flat()| && keys.Flat()[c.accounts[j]] == ix.keys[j].pubkey
    {
      assert LastNames(keys.Flat(), c.accounts[j], ix.keys[j].pubkey);
    }
    assert DecompileInstruction(h, keys, c).value.keys == NormalizedInstruction(ix, ixs, payer).keys;
  }

  lemma RankTells(m: CompiledKeyMeta, h: MessageHeader, n: nat, i: nat)
    requires KeyRank(m) == RankAt(h, n, i) && i < n
    requires 0 <= h.numReadonlySignedAccounts < h.numRequiredSignatures
    requires 0 <= h.numReadonlyUnsignedAccounts && h.numRequiredSignatures + h.numReadonlyUnsignedAccounts <= n
    ensures m.isSigner <==> i < h.numRequiredSignatures
    ensures m.isWritable <==> IsStaticWritable(h, n, i)
  {
  }

  /** A legacy message decompiles to what was compiled, whatever tables are passed. */
  lemma LegacyPreservesMeaning(
    payer: PublicKey, ixs: seq<TransactionInstruction>, blockhash: Blockhash, m: Message, args: DecompileArgs)
    requires CompiledLegacy(payer, ixs, blockhash, m)
    ensures Decompile(Legacy(m), args) == Success(Meant(payer, ixs, blockhash))
  {
    var keys := MessageAccountKeys(m.accountKeys, None);
    MergedKeysMeaning(ixs, payer);
    var metas := MergedKeys(ixs, payer);
    hide MergedKeys, MergedMeta, KeyRank;
    forall i | 0 <= i < |m.accountKeys|
      ensures DecompiledMeta(m.header, keys, i) == MergedMeta(ixs, payer, m.accountKeys[i])
    {
      RankTells(metas[m.accountKeys[i]], m.header, |m.accountKeys|, i);
      MergedPubkey(ixs, payer, m.accountKeys[i]);
    }
    DecompilesToNormalized(m.header, keys, ixs, payer, m.instructions);
  }

  lemma MergedPubkey(ixs: seq<TransactionInstruction>, payer: PublicKey, k: PublicKey)
    ensures MergedMeta(ixs, payer, k).pubkey == k
  {
  }

  /** The account keys of a compiled version 0 message once its lookups are resolved to the drained keys. */
  ghost predicate DrainedKeys(m: MessageV0, log: seq<Extraction>, keys: MessageAccountKeys) {
    && keys.staticAccountKeys == m.staticAccountKeys
    && match keys.accountKeysFromLookups
       case Some(l) => l == LoadedAddresses(Writables(log), Readonlys(log))
       case None => log == []
  }

  lemma V0Positions(
    payer: PublicKey, ixs: seq<TransactionInstruction>, blockhash: Blockhash, tables: seq<AddressLookupTableAccount>,
    m: MessageV0, log: seq<Extraction>, keys: MessageAccountKeys)
    requires CompiledV0(payer, ixs, blockhash, tables, m, log) && DrainedKeys(m, log, keys)
    ensures keys.Flat() == m.staticAccountKeys + Writables(log) + Readonlys(log)
    ensures PositionsMean(m.header, keys, ixs, payer)
  {
    LogMeans(payer, ixs, tables, log);
    hide MergedKeys, MergedMeta, CompiledAgainst, LookupsOf, Laid, DecompiledMeta, Left;
    if keys.accountKeysFromLookups.None? {
      assert Writables(log) == [] && Readonlys(log) == [];
    }
    hide Chosen, Writables, Readonlys;
    forall i | 0 <= i < |keys.Flat()|
      ensures DecompiledMeta(m.header, keys, i) == MergedMeta(ixs, payer, keys.Flat()[i])
    {
      V0Position(m.header, keys, Left(MergedKeys(ixs, payer), tables), Writables(log), Readonlys(log), ixs, payer, i);
    }
  }

  /** The flags of static and drained keys are their merged flags. */
  lemma LogMeans(
    payer: PublicKey, ixs: seq<TransactionInstruction>, tables: seq<AddressLookupTableAccount>, log: seq<Extraction>)
    requires Chosen(log, MergedKeys(ixs, payer), tables)
    ensures var left := Left(MergedKeys(ixs, payer), tables);
            forall k :: k in left ==>
              left[k].isSigner == MergedMeta(ixs, payer, k).isSigner &&
                left[k].isWritable == MergedMeta(ixs, payer, k).isWritable
    ensures forall k :: k in Writables(log) ==>
            !MergedMeta(ixs, payer, k).isSigner && MergedMeta(ixs, payer, k).isWritable
    ensures forall k :: k in Readonlys(log) ==>
            !MergedMeta(ixs, payer, k).isSigner && !MergedMeta(ixs, payer, k).isWritable
  {
    Conserved(log, MergedKeys(ixs, payer), tables);
    MergedKeysMeaning(ixs, payer);
    hide MergedKeys, MergedMeta, Left, Chosen, Writables, Readonlys;
  }

  lemma V0Position(
    h: MessageHeader, keys: MessageAccountKeys, left: KeyMetaMap, w: seq<PublicKey>, r: seq<PublicKey>,
    ixs: seq<TransactionInstruction>, payer: PublicKey, i: nat)
    requires Laid(Components(h, keys.staticAccountKeys), left, payer)
    requires keys.Flat() == keys.staticAccountKeys + w + r && i < |keys.Flat()|
    requires keys.accountKeysFromLookups == Some(LoadedAddresses(w, r)) || w + r == []
    requires forall k :: k in left ==>
               left[k].isSigner == MergedMeta(ixs, payer, k).isSigner &&
                 left[k].isWritable == MergedMeta(ixs, payer, k).isWritable
    requires forall k :: k in w ==> !MergedMeta(ixs, payer, k).isSigner && MergedMeta(ixs, payer, k).isWritable
    requires forall k :: k in r ==> !MergedMeta(ixs, payer, k).isSigner && !MergedMeta(ixs, payer, k).isWritable
    ensures DecompiledMeta(h, keys, i) == MergedMeta(ixs, payer, keys.Flat()[i])
  {
    var n := |keys.staticAccountKeys|;
    var k := keys.Flat()[i];
    MergedPubkey(ixs, payer, k);
    hide MergedMeta;
    if i < n {
      StaticPosition(h, keys.staticAccountKeys, left, payer, i);
      assert k == keys.staticAccountKeys[i];
    } else {
      LoadedPosition(keys.staticAccountKeys, w, r, i);
      LoadedFlags(h, keys, i);
    }
  }

  lemma StaticPosition(h: MessageHeader, static_: seq<PublicKey>, left: KeyMetaMap, payer: PublicKey, i: nat)
    requires Laid(Components(h, static_), left, payer) && i < |static_|
    ensures static_[i] in left
    ensures left[static_[i]].isSigner <==> i < h.numRequiredSignatures
    ensures left[static_[i]].isWritable <==> IsStaticWritable(h, |static_|, i)
  {
    RankTells(left[static_[i]], h, |static_|, i);
  }

  lemma LoadedPosition(a: seq<PublicKey>, w: seq<PublicKey>, r: seq<PublicKey>, p: nat)
    requires |a| <= p < |a + w + r|
    ensures if p < |a| + |w| then (a + w + r)[p] in w else (a + w + r)[p] in r
  {
    if p < |a| + |w| {
      assert (a + w + r)[p] == w[p - |a|];
    } else {
      assert (a + w + r)[p] == r[p - |a| - |w|];
    }
  }

  lemma LoadedFlags(h: MessageHeader, keys: MessageAccountKeys, i: nat)
    requires keys.accountKeysFromLookups.Some? && h.numRequiredSignatures <= |keys.staticAccountKeys|
    requires |keys.staticAccountKeys| <= i < |keys.Flat()|
    ensures var meta := DecompiledMeta(h, keys, i);
            !meta.isSigner &&
            (meta.isWritable <==>
              i < |keys.staticAccountKeys| + |keys.accountKeysFromLookups.value.writable|)
  {
  }

  /** Versioned compilation preserves meaning, for every payer, instructions, tables and map orders on which it
      succeeds, exactly when every drained key resolves to itself. */
  lemma V0PreservesMeaning(
    payer: PublicKey, ixs: seq<TransactionInstruction>, blockhash: Blockhash, tables: seq<AddressLookupTableAccount>,
    m: MessageV0, log: seq<Extraction>)
    requires CompiledV0(payer, ixs, blockhash, tables, m, log)
    ensures Decompile(V0(m), DecompileArgs(None, tables)) == Success(Meant(payer, ixs, blockhash))
            <==> Faithful(MergedKeys(ixs, payer), tables, tables)
  {
    var metas := MergedKeys(ixs, payer);
    FaithfulIffLog(log, metas, tables, tables);
    ChosenNotEmpty(log, metas, tables);
    ResolveLog(log, tables);
    if FaithfulLog(log, tables) {
      V0MeansWhenFaithful(payer, ixs, blockhash, tables, m, log);
    } else {
      V0DiffersWhenNot(payer, ixs, blockhash, tables, m, log);
    }
  }

  lemma V0MeansWhenFaithful(
    payer: PublicKey, ixs: seq<TransactionInstruction>, blockhash: Blockhash, tables: seq<AddressLookupTableAccount>,
    m: MessageV0, log: seq<Extraction>)
    requires CompiledV0(payer, ixs, blockhash, tables, m, log)
    requires Resolve(LookupsOf(log), tables) == Success(LoadedAddresses(Writables(log), Readonlys(log)))
    ensures Decompile(V0(m), DecompileArgs(None, tables)) == Success(Meant(payer, ixs, blockhash))
  {
    var loaded := LoadedAddresses(Writables(log), Readonlys(log));
    var keys := MessageAccountKeys(m.staticAccountKeys, if |tables| > 0 then Some(loaded) else None);
    V0Positions(payer, ixs, blockhash, tables, m, log, keys);
    DecompilesToNormalized(m.header, keys, ixs, payer, m.compiledInstructions);
    hide MergedKeys, CompiledAgainst, PositionsMean, DecompileInstructions, Left, Writables, Readonlys, Resolve;
    assert tables == [] ==> log == [];
    assert AccountKeysOf(V0(m), DecompileArgs(None, tables)) == Success(keys);
  }

  lemma V0DiffersWhenNot(
    payer: PublicKey, ixs: seq<TransactionInstruction>, blockhash: Blockhash, tables: seq<AddressLookupTableAccount>,
    m: MessageV0, log: seq<Extraction>)
    requires CompiledV0(payer, ixs, blockhash, tables, m, log)
    requires Resolve(LookupsOf(log), tables) != Success(LoadedAddresses(Writables(log), Readonlys(log)))
    requires Resolve(LookupsOf(log), tables).Success? ==>
              var l := Resolve(LookupsOf(log), tables).value;
              |l.writable| == |Writables(log)| && |l.readonly| == |Readonlys(log)|
    ensures Decompile(V0(m), DecompileArgs(None, tables)) != Success(Meant(payer, ixs, blockhash))
  {
    hide Chosen, Laid, Resolve, Writables, Readonlys, CompiledAgainst, DecompileInstructions, Normalized, LookupsOf;
    hide MergedKeys;
    var w, r := Writables(log), Readonlys(log);
    NoTables(log, MergedKeys(ixs, payer), tables);
    if Resolve(LookupsOf(log), tables).Success? {
      var l := Resolve(LookupsOf(log), tables).value;
      var keys := MessageAccountKeys(m.staticAccountKeys, Some(l));
      var flat := m.staticAccountKeys + w + r;
      var p := DifferingPosition(m.staticAccountKeys, w, r, l.writable, l.readonly);
      var i, j := DrainedAccount(payer, ixs, blockhash, tables, m, log, p);
      WrongAccount(m.header, keys, ixs, m.compiledInstructions, flat, p, i, j, payer);
    }
  }

  lemma NoTables(log: seq<Extraction>, metas: KeyMetaMap, tables: seq<AddressLookupTableAccount>)
    requires Chosen(log, metas, tables)
    ensures tables == [] ==> Resolve(LookupsOf(log), tables) == Success(LoadedAddresses(Writables(log), Readonlys(log)))
  {
  }

  /** The key at a looked-up position is an account of some instruction. */
  lemma DrainedAccount(
    payer: PublicKey, ixs: seq<TransactionInstruction>, blockhash: Blockhash, tables: seq<AddressLookupTableAccount>,
    m: MessageV0, log: seq<Extraction>, p: nat)
    returns (i: nat, j: nat)
    requires CompiledV0(payer, ixs, blockhash, tables, m, log)
    requires |m.staticAccountKeys| <= p < |m.staticAccountKeys + Writables(log) + Readonlys(log)|
    ensures var flat := m.staticAccountKeys + Writables(log) + Readonlys(log);
            && NoDuplicates(flat) && CompiledAgainst(flat, ixs, m.compiledInstructions)
            && i < |ixs| && j < |ixs[i].keys| && ixs[i].keys[j].pubkey == flat[p]
  {
    var metas, w, r := MergedKeys(ixs, payer), Writables(log), Readonlys(log);
    var flat := m.staticAccountKeys + w + r;
    Conserved(log, metas, tables);
    LaidFacts(Components(m.header, m.staticAccountKeys), Left(metas, tables), payer);
    FlatLists(log, metas, tables, m.staticAccountKeys);
    MergedKeysMeaning(ixs, payer);
    MergedCoverInstructions(ixs, payer);
    LoadedPosition(m.staticAccountKeys, w, r, p);
    hide MergedKeys, Left, Chosen, Writables, Readonlys, Laid, LookupsOf;
    UsedAsAccount(ixs, flat[p], payer);
    i, j :| 0 <= i < |ixs| && 0 <= j < |ixs[i].keys| && ixs[i].keys[j].pubkey == flat[p];
  }

  lemma DifferingPosition(
    a: seq<PublicKey>, w: seq<PublicKey>, r: seq<PublicKey>, w': seq<PublicKey>, r': seq<PublicKey>)
    returns (p: nat)
    requires |w| == |w'| && |r| == |r'| && (w != w' || r != r')
    ensures |a| <= p < |a + w + r| == |a + w' + r'| && (a + w + r)[p] != (a + w' + r')[p]
  {
    if w != w' {
      var i :| 0 <= i < |w| && w[i] != w'[i];
      p := |a| + i;
    } else {
      var i :| 0 <= i < |r| && r[i] != r'[i];
      p := |a| + |w| + i;
    }
  }

  /** A drained key is no program and not the payer, so it is an account of some instruction. */
  lemma UsedAsAccount(ixs: seq<TransactionInstruction>, k: PublicKey, payer: PublicKey)
    requires k in KeySet(Metas(ixs)) + {payer} && k != payer && !Invokes(ixs, k)
    ensures exists i, j :: 0 <= i < |ixs| && 0 <= j < |ixs[i].keys| && ixs[i].keys[j].pubkey == k
  {
    UsedKeyOccurs(ixs, k);
  }

  lemma WrongAccount(
    h: MessageHeader, keys: MessageAccountKeys, ixs: seq<TransactionInstruction>, cs: seq<CompiledInstruction>,
    flat: seq<PublicKey>, p: nat, i: nat, j: nat, payer: PublicKey)
    requires CompiledAgainst(flat, ixs, cs) && NoDuplicates(flat)
    requires p < |flat| == |keys.Flat()| && DecompiledMeta(h, keys, p) != MergedMeta(ixs, payer, flat[p])
    requires i < |ixs| && j < |ixs[i].keys| && ixs[i].keys[j].pubkey == flat[p]
    ensures DecompileInstructions(h, keys, cs) != Success(Normalized(ixs, payer))
  {
    assert InstructionCompiled(flat, ixs[i], cs[i]);
    assert LastNames(flat, cs[i].accounts[j], flat[p]);
    assert cs[i].accounts[j] == p;
    DecompiledElements(h, keys, cs);
    hide DecompileInstructions;
    if DecompileInstructions(h, keys, cs).Success? {
      var back := DecompileInstructions(h, keys, cs).value;
      assert back[i].keys[j] == DecompiledMeta(h, keys, p);
      assert Normalized(ixs, payer)[i].keys[j] == MergedMeta(ixs, payer, flat[p]);
    }
  }

  // ---------- Keys looked up by the caller ----------

  lemma {:induction false} LookupCounts(log: seq<Extraction>)
    ensures NumWritableLookups(LookupsOf(log)) == |Writables(log)|
    ensures NumReadonlyLookups(LookupsOf(log)) == |Readonlys(log)|
  {
    hide IndexByte;
    if log == [] {
    } else {
      LookupCounts(log[..|log| - 1]);
      assert LookupsOf(log)[..|log| - 1] == LookupsOf(log[..|log| - 1]);
    }
  }

  /** With keys the caller looked up, what was compiled comes back exactly when these are the drained ones, writable
      and read-only, each in order; whatever tables are passed beside them. */
  lemma SuppliedKeysPreserveMeaning(
    payer: PublicKey, ixs: seq<TransactionInstruction>, blockhash: Blockhash, tables: seq<AddressLookupTableAccount>,
    m: MessageV0, log: seq<Extraction>, given: LoadedAddresses, others: seq<AddressLookupTableAccount>)
    requires CompiledV0(payer, ixs, blockhash, tables, m, log)
    ensures Decompile(V0(m), DecompileArgs(Some(given), others)) == Success(Meant(payer, ixs, blockhash))
            <==> given.writable == Writables(log) && given.readonly == Readonlys(log)
  {
    hide Chosen, Laid, Writables, Readonlys, CompiledAgainst, DecompileInstructions, Normalized, LookupsOf, Left;
    hide MergedKeys, PositionsMean;
    var w, r, keys := Writables(log), Readonlys(log), MessageAccountKeys(m.staticAccountKeys, Some(given));
    LookupCounts(log);
    if given.writable == w && given.readonly == r {
      V0Positions(payer, ixs, blockhash, tables, m, log, keys);
      DecompilesToNormalized(m.header, keys, ixs, payer, m.compiledInstructions);
      LaidHeaderCounts(Components(m.header, m.staticAccountKeys), Left(MergedKeys(ixs, payer), tables), payer);
    } else if |given.writable| + |given.readonly| == |w| + |r| {
      var p := DifferingLoad(m.staticAccountKeys, w, r, given.writable, given.readonly);
      var i, j := DrainedAccount(payer, ixs, blockhash, tables, m, log, p);
      DifferingMeta(payer, ixs, blockhash, tables, m, log, given, p);
      WrongAccount(m.header, keys, ixs, m.compiledInstructions, m.staticAccountKeys + w + r, p, i, j, payer);
    }
  }

  lemma LaidHeaderCounts(c: Components, metas: KeyMetaMap, payer: PublicKey)
    requires Laid(c, metas, payer)
    ensures c.header.numRequiredSignatures - c.header.numReadonlySignedAccounts > 0
    ensures |c.keys| - c.header.numRequiredSignatures - c.header.numReadonlyUnsignedAccounts >= 0
    ensures c.keys != [] && c.keys[0] == payer
  {
  }

  /** Two loads of as many keys that are not the same differ at a position, in its key or in which list it falls in. */
  lemma DifferingLoad(
    a: seq<PublicKey>, w: seq<PublicKey>, r: seq<PublicKey>, w': seq<PublicKey>, r': seq<PublicKey>)
    returns (p: nat)
    requires |w| + |r| == |w'| + |r'| && !(w' == w && r' == r)
    ensures |a| <= p < |a + w + r| == |a + w' + r'|
    ensures (a + w + r)[p] != (a + w' + r')[p] || (p < |a| + |w| <==> p >= |a| + |w'|)
  {
    if |w| == |w'| {
      p := DifferingPosition(a, w, r, w', r');
    } else {
      p := |a| + if |w| < |w'| then |w| else |w'|;
    }
  }

  lemma DifferingMeta(
    payer: PublicKey, ixs: seq<TransactionInstruction>, blockhash: Blockhash, tables: seq<AddressLookupTableAccount>,
    m: MessageV0, log: seq<Extraction>, given: LoadedAddresses, p: nat)
    requires CompiledV0(payer, ixs, blockhash, tables, m, log)
    requires var n, w, r := |m.staticAccountKeys|, Writables(log), Readonlys(log);
             var flat, flat' := m.staticAccountKeys + w + r, m.staticAccountKeys + given.writable + given.readonly;
             && n <= p < |flat| == |flat'|
             && (flat[p] != flat'[p] || (p < n + |w| <==> p >= n + |given.writable|))
    ensures DecompiledMeta(m.header, MessageAccountKeys(m.staticAccountKeys, Some(given)), p) !=
            MergedMeta(ixs, payer, (m.staticAccountKeys + Writables(log) + Readonlys(log))[p])
  {
    var flat := m.staticAccountKeys + Writables(log) + Readonlys(log);
    LogMeans(payer, ixs, tables, log);
    LoadedPosition(m.staticAccountKeys, Writables(log), Readonlys(log), p);
    LaidHeaderCounts(Components(m.header, m.staticAccountKeys), Left(MergedKeys(ixs, payer), tables), payer);
    LaidFits(Components(m.header, m.staticAccountKeys), Left(MergedKeys(ixs, payer), tables), payer);
    LoadedFlags(m.header, MessageAccountKeys(m.staticAccountKeys, Some(given)), p);
    MergedPubkey(ixs, payer, flat[p]);
    hide MergedKeys, MergedMeta, Chosen, Laid, Left, Writables, Readonlys, CompiledAgainst, LookupsOf;
  }

  lemma LaidFits(c: Components, metas: KeyMetaMap, payer: PublicKey)
    requires Laid(c, metas, payer)
    ensures c.header.numRequiredSignatures <= |c.keys|
  {
  }

  // ---------- When lookups are faithful ----------

  /** Every key a table takes is among its first 256 entries. */
  ghost predicate WithinByte(metas: KeyMetaMap, tables: seq<AddressLookupTableAccount>) {
    if tables == [] then true
    else
      var init, t := tables[..|tables| - 1], tables[|tables| - 1];
      WithinByte(metas, init) && forall k :: k in Taken(Left(metas, init), t) ==> FindIndex(t.addresses, k) < 256
  }

  ghost predicate DistinctTables(tables: seq<AddressLookupTableAccount>) {
    forall i, j :: 0 <= i < j < |tables| ==> tables[i].key != tables[j].key
  }

  lemma {:induction false} FindDistinct(tables: seq<AddressLookupTableAccount>, i: nat)
    requires DistinctTables(tables) && i < |tables|
    ensures FindTable(tables, tables[i].key) == Some(tables[i])
  {
    if i == 0 {
    } else {
      assert DistinctTables(tables[1..]);
      FindDistinct(tables[1..], i - 1);
    }
  }

  /** A byte names the key it was cut from exactly when nothing was cut off: the first position is below 256. */
  lemma ByteNames(entries: seq<PublicKey>, k: PublicKey)
    requires k in entries
    ensures IndexByte(entries, k) < |entries| && entries[IndexByte(entries, k)] == k <==> FindIndex(entries, k) < 256
  {
    hide FindIndex;
    var p := FindIndex(entries, k);
    if p < 256 {
      assert IndexByte(entries, k) == p;
    } else {
      assert IndexByte(entries, k) < p;
    }
  }

  /** With distinct table keys, lookups are faithful exactly when no drained key sits past the first 256
      entries of its table; tables of at most 256 entries always are. */
  lemma {:induction false} FaithfulDistinct(
    metas: KeyMetaMap, tables: seq<AddressLookupTableAccount>, all: seq<AddressLookupTableAccount>)
    requires DistinctTables(all) && tables <= all
    ensures Faithful(metas, tables, all) <==> WithinByte(metas, tables)
    ensures (forall i :: 0 <= i < |all| ==> |all[i].addresses| <= 256) ==> Faithful(metas, tables, all)
  {
    hide IndexByte;
    if tables == [] {
    } else {
      var n := |tables| - 1;
      var init, t := tables[..n], tables[n];
      FaithfulDistinct(metas, init, all);
      FindDistinct(all, n);
      forall k | k in Taken(Left(metas, init), t)
        ensures ResolvesTo(all, t.key, IndexByte(t.addresses, k), k) <==> FindIndex(t.addresses, k) < 256
      {
        ByteNames(t.addresses, k);
      }
    }
  }

  /** Over all tables and orders: static, looked-up writable and looked-up read-only keys list the merged keys
      once each; signers, programs and the payer stay static; each recorded byte index names its key in its
      table unless the key is at position 256. */
  lemma DrainingConserves(
    payer: PublicKey, ixs: seq<TransactionInstruction>, blockhash: Blockhash, tables: seq<AddressLookupTableAccount>,
    m: MessageV0, log: seq<Extraction>)
    requires CompiledV0(payer, ixs, blockhash, tables, m, log)
    ensures Lists(m.staticAccountKeys + Writables(log) + Readonlys(log), KeySet(Metas(ixs)) + {payer})
    ensures forall k :: k in KeySet(Metas(ixs)) + {payer} && (MergedMeta(ixs, payer, k).isSigner || Invokes(ixs, k)) ==>
              k in m.staticAccountKeys
    ensures m.addressTableLookups == LookupsOf(log)
    ensures RecordedLog(log, tables)
  {
    hide MergedKeys, Left, Chosen, Laid, Writables, Readonlys, RecordsExactly, CompiledAgainst, LookupsOf;
    var metas := MergedKeys(ixs, payer);
    MergedKeysMeaning(ixs, payer);
    Conserved(log, metas, tables);
    LaidFacts(Components(m.header, m.staticAccountKeys), Left(metas, tables), payer);
    FlatLists(log, metas, tables, m.staticAccountKeys);
    RecordedIndexes(log, metas, tables);
  }

  ghost predicate RecordsExactly(x: Extraction) {
    && (forall i :: 0 <= i < |x.keys.writable| ==>
         RecordedAt(x.table.addresses, LookupOf(x).writableIndexes[i], x.keys.writable[i]))
    && (forall i :: 0 <= i < |x.keys.readonly| ==>
         RecordedAt(x.table.addresses, LookupOf(x).readonlyIndexes[i], x.keys.readonly[i]))
  }

  ghost predicate RecordedAt(entries: seq<PublicKey>, index: byte, k: PublicKey) {
    && k in entries && FindIndex(entries, k) <= 256
    && (index < |entries| && entries[index] == k <==> FindIndex(entries, k) != 256)
  }

  lemma RecordedKey(entries: seq<PublicKey>, k: PublicKey)
    requires k in entries && FindIndex(entries, k) <= 256
    ensures RecordedAt(entries, IndexByte(entries, k), k)
  {
    ByteNames(entries, k);
  }

  ghost predicate RecordedLog(log: seq<Extraction>, tables: seq<AddressLookupTableAccount>) {
    forall i :: 0 <= i < |log| ==> log[i].table in tables && RecordsExactly(log[i])
  }

  lemma {:induction false} RecordedIndexes(
    log: seq<Extraction>, metas: KeyMetaMap, tables: seq<AddressLookupTableAccount>)
    requires Chosen(log, metas, tables)
    ensures RecordedLog(log, tables)
  {
    if tables == [] {
    } else {
      var init, t := tables[..|tables| - 1], tables[|tables| - 1];
      if Taken(Left(metas, init), t) == {} {
        RecordedIndexes(log, metas, init);
        hide Chosen, RecordsExactly, Left, Taken;
        assert forall x :: x in init ==> x in tables;
      } else {
        RecordedIndexes(log[..|log| - 1], metas, init);
        ListedExactly(log[|log| - 1], Left(metas, init));
        hide Chosen, RecordedLog, RecordsExactly, Left, Taken;
        RecordedMore(log, tables);
      }
    }
  }

  lemma RecordedMore(log: seq<Extraction>, tables: seq<AddressLookupTableAccount>)
    requires log != [] && tables != []
    requires RecordedLog(log[..|log| - 1], tables[..|tables| - 1])
    requires log[|log| - 1].table == tables[|tables| - 1] && RecordsExactly(log[|log| - 1])
    ensures RecordedLog(log, tables)
  {
    hide RecordsExactly;
    assert forall x :: x in tables[..|tables| - 1] ==> x in tables;
    assert forall i :: 0 <= i < |log| - 1 ==> log[i] == log[..|log| - 1][i];
  }

  lemma ListedExactly(x: Extraction, before: KeyMetaMap)
    requires !Overflows(x.table.addresses, WritableIn(before, x.table))
    requires Lists(x.keys.writable, WritableIn(before, x.table)) &&
             Lists(x.keys.readonly, KeptReadonly(before, x.table))
    ensures RecordsExactly(x)
  {
    hide FindIndex;
    var entries := x.table.addresses;
    forall i | 0 <= i < |x.keys.writable|
      ensures RecordedAt(entries, LookupOf(x).writableIndexes[i], x.keys.writable[i])
    {
      RecordedKey(entries, x.keys.writable[i]);
    }
    forall i | 0 <= i < |x.keys.readonly|
      ensures RecordedAt(entries, LookupOf(x).readonlyIndexes[i], x.keys.readonly[i])
    {
      assert !Overflows(entries, KeptReadonly(before, x.table));
      RecordedKey(entries, x.keys.readonly[i]);
    }
  }

  // ---------- The two compilers ----------

  /** Both formats decompile to the same transaction message exactly when the lookups are faithful. */
  lemma CompilersAgree(
    payer: PublicKey, ixs: seq<TransactionInstruction>, blockhash: Blockhash, tables: seq<AddressLookupTableAccount>,
    legacy: Message, v0: MessageV0, log: seq<Extraction>)
    requires CompiledLegacy(payer, ixs, blockhash, legacy) && CompiledV0(payer, ixs, blockhash, tables, v0, log)
    ensures Decompile(Legacy(legacy), DecompileArgs(None, tables)) == Decompile(V0(v0), DecompileArgs(None, tables))
            <==> Faithful(MergedKeys(ixs, payer), tables, tables)
  {
    hide Decompile, CompiledLegacy, CompiledV0, Faithful;
    LegacyPreservesMeaning(payer, ixs, blockhash, legacy, DecompileArgs(None, tables));
    V0PreservesMeaning(payer, ixs, blockhash, tables, v0, log);
  }

  /** The merged keys of normalized instructions are the merged keys. */
  lemma MergedKeysNormalized(ixs: seq<TransactionInstruction>, payer: PublicKey)
    ensures MergedKeys(Normalized(ixs, payer), payer) == MergedKeys(ixs, payer)
  {
    var normal := Normalized(ixs, payer);
    MergedKeysMeaning(ixs, payer);
    MergedKeysMeaning(normal, payer);
    forall k ensures (k in KeySet(Metas(normal)) <==> k in KeySet(Metas(ixs)))
             && MergedMeta(normal, payer, k) == MergedMeta(ixs, payer, k) && (Invokes(normal, k) <==> Invokes(ixs, k)) {
      LegacyLayout.NormalizedMerges(ixs, payer, k);
      SamePrograms(ixs, payer, k);
    }
    hide MergedKeys, MergedMeta, Invokes, Normalized, KeySet, Metas;
    SameMerged(MergedKeys(normal, payer), MergedKeys(ixs, payer), KeySet(Metas(ixs)) + {payer});
  }

  lemma SameMerged(a: KeyMetaMap, b: KeyMetaMap, keys: set<PublicKey>)
    requires a.Keys == keys && b.Keys == keys
    requires forall k :: k in keys ==> a[k] == b[k]
    ensures a == b
  {
  }

  lemma SamePrograms(ixs: seq<TransactionInstruction>, payer: PublicKey, k: PublicKey)
    ensures Invokes(Normalized(ixs, payer), k) <==> Invokes(ixs, k)
  {
    var normal := Normalized(ixs, payer);
    if ix :| ix in ixs && ix.programId == k {
      var i :| 0 <= i < |ixs| && ixs[i] == ix;
      assert normal[i] in normal;
    }
    if ix :| ix in normal && ix.programId == k {
      var i :| 0 <= i < |normal| && normal[i] == ix;
      assert ixs[i] in ixs;
    }
  }

  /** Compiling what was decompiled and decompiling it changes nothing: in the legacy format always, */
  lemma LegacySecondPass(
    payer: PublicKey, ixs: seq<TransactionInstruction>, blockhash: Blockhash, m: Message, args: DecompileArgs)
    requires CompiledLegacy(payer, Normalized(ixs, payer), blockhash, m)
    ensures Decompile(Legacy(m), args) == Success(Meant(payer, ixs, blockhash))
  {
    hide Decompile, CompiledLegacy;
    NormalizedIdempotent(ixs, payer);
    LegacyPreservesMeaning(payer, Normalized(ixs, payer), blockhash, m, args);
  }

  /** and in version 0 exactly when the lookups of the first pass are faithful. */
  lemma V0SecondPass(
    payer: PublicKey, ixs: seq<TransactionInstruction>, blockhash: Blockhash, tables: seq<AddressLookupTableAccount>,
    m: MessageV0, log: seq<Extraction>)
    requires CompiledV0(payer, Normalized(ixs, payer), blockhash, tables, m, log)
    ensures Decompile(V0(m), DecompileArgs(None, tables)) == Success(Meant(payer, ixs, blockhash))
            <==> Faithful(MergedKeys(ixs, payer), tables, tables)
  {
    hide Decompile, CompiledV0, Faithful;
    NormalizedIdempotent(ixs, payer);
    MergedKeysNormalized(ixs, payer);
    V0PreservesMeaning(payer, Normalized(ixs, payer), blockhash, tables, m, log);
  }

  // ---------- Through the wire ----------

  lemma LaidHeader(c: Components, metas: KeyMetaMap, payer: PublicKey)
    requires Laid(c, metas, payer) && |c.keys| <= 256
    ensures c.header.numRequiredSignatures < 0x100 ==> ByteHeader(c.header)
  {
  }

  /** A compiled legacy message survives the wire exactly when it has under 128 signers and a 32-byte
      blockhash; then what comes back decompiles to the same instructions. */
  lemma LegacySurvivesWire(
    payer: PublicKey, ixs: seq<TransactionInstruction>, blockhash: Blockhash, m: Message, args: DecompileArgs)
    requires CompiledLegacy(payer, ixs, blockhash, m) && GoSized(Legacy(m))
    ensures ParseVersioned(EncodeVersioned(Legacy(m))) == Success(Legacy(m))
            <==> m.header.numRequiredSignatures < 128 && |blockhash| == 32
    ensures m.header.numRequiredSignatures < 128 && |blockhash| == 32 ==>
              Decompile(ParseVersioned(EncodeVersioned(Legacy(m))).value, args) == Success(Meant(payer, ixs, blockhash))
  {
    hide Decompile, ParseVersioned, EncodeVersioned;
    VersionedRoundTrip(Legacy(m));
    LegacyPreservesMeaning(payer, ixs, blockhash, m, args);
    LaidHeader(Components(m.header, m.accountKeys), MergedKeys(ixs, payer), payer);
  }

  /** A compiled version 0 message survives it with under 256 signers and a 32-byte blockhash. */
  lemma V0SurvivesWire(
    payer: PublicKey, ixs: seq<TransactionInstruction>, blockhash: Blockhash, tables: seq<AddressLookupTableAccount>,
    m: MessageV0, log: seq<Extraction>)
    requires CompiledV0(payer, ixs, blockhash, tables, m, log) && GoSized(V0(m))
    ensures ParseVersioned(EncodeVersioned(V0(m))) == Success(V0(m))
            <==> m.header.numRequiredSignatures < 256 && |blockhash| == 32
    ensures m.header.numRequiredSignatures < 256 && |blockhash| == 32 &&
            Faithful(MergedKeys(ixs, payer), tables, tables) ==>
              Decompile(ParseVersioned(EncodeVersioned(V0(m))).value, DecompileArgs(None, tables))
              == Success(Meant(payer, ixs, blockhash))
  {
    VersionedRoundTrip(V0(m));
    V0PreservesMeaning(payer, ixs, blockhash, tables, m, log);
    V0Header(payer, ixs, blockhash, tables, m, log);
    hide Decompile, ParseVersioned, EncodeVersioned, CompiledV0, Faithful;
  }

  lemma V0Header(
    payer: PublicKey, ixs: seq<TransactionInstruction>, blockhash: Blockhash, tables: seq<AddressLookupTableAccount>,
    m: MessageV0, log: seq<Extraction>)
    requires CompiledV0(payer, ixs, blockhash, tables, m, log)
    ensures m.header.numRequiredSignatures < 0x100 ==> ByteHeader(m.header)
    ensures m.recentBlockhash == blockhash
  {
    var metas := MergedKeys(ixs, payer);
    var left := Left(metas, tables);
    Conserved(log, metas, tables);
    SmallerMap(left.Keys, metas.Keys);
    LaidFacts(Components(m.header, m.staticAccountKeys), left, payer);
    hide MergedKeys, Left, Chosen;
    LaidHeader(Components(m.header, m.staticAccountKeys), left, payer);
  }

  // ---------- Inputs on which meaning is lost ----------

  function SampleKey(b: byte): PublicKey {
    seq(32, _ => b)
  }

  /** One writable account of one program. */
  function SampleInstructions(): seq<TransactionInstruction> {
    [TransactionInstruction([AccountMeta(SampleKey(2), false, true)], SampleKey(1), [])]
  }

  /** A table with the account at position 256. */
  function LongTable(): AddressLookupTableAccount {
    AddressLookupTableAccount(SampleKey(9), seq(256, _ => SampleKey(3)) + [SampleKey(2)])
  }

  /** Two tables with one key, the account in the second. */
  function TwinTables(): seq<AddressLookupTableAccount> {
    [AddressLookupTableAccount(SampleKey(9), [SampleKey(3)]), AddressLookupTableAccount(SampleKey(9), [SampleKey(2)])]
  }

  lemma SampleKeysDiffer(a: byte, b: byte)
    ensures SampleKey(a) == SampleKey(b) <==> a == b
  {
    assert SampleKey(a)[0] == a && SampleKey(b)[0] == b;
  }

  lemma SampleMerged()
    ensures var metas := MergedKeys(SampleInstructions(), SampleKey(0));
            && SampleKey(2) in metas && metas[SampleKey(2)] == CompiledKeyMeta(false, true, false)
  {
    var ixs, payer, k := SampleInstructions(), SampleKey(0), SampleKey(2);
    SampleKeysDiffer(2, 0);
    SampleKeysDiffer(2, 1);
    SampleKeysDiffer(0, 1);
    MergedKeysMeaning(ixs, payer);
    SampleMetas();
    hide MergedKeys, Metas, SampleInstructions, SampleKey, Signs, Writes, KeySet, Invokes;
  }

  lemma SampleMetas()
    ensures var ms, k := Metas(SampleInstructions()), SampleKey(2);
            k in KeySet(ms) && !Signs(ms, k) && Writes(ms, k) && !Invokes(SampleInstructions(), k)
  {
    SampleKeysDiffer(2, 1);
    hide SampleKey;
    var m := AccountMeta(SampleKey(2), false, true);
    assert SampleInstructions()[..0] == [];
    assert Metas(SampleInstructions()) == [m, AccountMeta(SampleKey(1), false, false)];
    assert m in Metas(SampleInstructions());
  }

  lemma SampleMergedKeys()
    ensures var metas := MergedKeys(SampleInstructions(), SampleKey(0));
            && metas.Keys == {SampleKey(0), SampleKey(1), SampleKey(2)}
            && OnlyPayerSignsAndWrites(metas, SampleKey(0))
  {
    var ixs, payer, k := SampleInstructions(), SampleKey(0), SampleKey(1);
    MergedKeysMeaning(ixs, payer);
    SampleMerged();
    SampleUnsigned(k);
    SampleKeysDiffer(0, 1);
    SampleKeysDiffer(0, 2);
    hide MergedKeys, Metas, SampleInstructions, SampleKey, Signs, Writes, KeySet, Invokes;
    assert MergedKeys(ixs, payer).Keys == {payer, k, SampleKey(2)};
  }

  lemma SampleUnsigned(k: PublicKey)
    requires k == SampleKey(1)
    ensures var ms := Metas(SampleInstructions());
            KeySet(ms) == {SampleKey(1), SampleKey(2)} && !Signs(ms, k)
  {
    var ms := [AccountMeta(SampleKey(2), false, true), AccountMeta(SampleKey(1), false, false)];
    hide SampleKey;
    assert SampleInstructions()[..0] == [];
    assert Metas(SampleInstructions()) == ms;
    assert ms[0] in ms && ms[1] in ms;
    assert KeySet(ms) == {SampleKey(1), SampleKey(2)};
  }

  /** No key of a table of at most 257 entries is past position 256. */
  lemma {:induction false} ShortTablesDrainCleanly(metas: KeyMetaMap, tables: seq<AddressLookupTableAccount>)
    requires forall i :: 0 <= i < |tables| ==> |tables[i].addresses| <= 257
    ensures DrainsCleanly(metas, tables)
  {
    hide FindIndex, WritableIn, ReadonlyIn;
    if tables == [] {
    } else {
      ShortTablesDrainCleanly(metas, tables[..|tables| - 1]);
    }
  }

  /** The sample compiles in every order with short tables. */
  lemma SampleCompiles(tables: seq<AddressLookupTableAccount>)
    requires forall i :: 0 <= i < |tables| ==> |tables[i].addresses| <= 257
    ensures Compilable(SampleKey(0), SampleInstructions(), tables)
  {
    SampleMergedKeys();
    ShortTablesDrainCleanly(MergedKeys(SampleInstructions(), SampleKey(0)), tables);
    hide MergedKeys, SampleInstructions, SampleKey, DrainsCleanly, OnlyPayerSignsAndWrites;
    var metas := MergedKeys(SampleInstructions(), SampleKey(0));
    assert |metas| == |metas.Keys|;
    assert |{SampleKey(0), SampleKey(1), SampleKey(2)}| <= 3;
  }

  /** An account at position 256 of its table compiles, as the one at position 0. */
  lemma Position256IsLost()
    ensures Compilable(SampleKey(0), SampleInstructions(), [LongTable()])
    ensures !Faithful(MergedKeys(SampleInstructions(), SampleKey(0)), [LongTable()], [LongTable()])
  {
    hide *;
    SampleMerged();
    LongTablePosition();
    OutOfByte(MergedKeys(SampleInstructions(), SampleKey(0)), LongTable(), SampleKey(2));
    SampleCompiles([LongTable()]);
  }

  lemma OutOfByte(metas: KeyMetaMap, t: AddressLookupTableAccount, k: PublicKey)
    requires k in metas && metas[k] == CompiledKeyMeta(false, true, false)
    requires k in t.addresses && FindIndex(t.addresses, k) >= 256
    ensures !Faithful(metas, [t], [t])
  {
    FaithfulDistinct(metas, [t], [t]);
    DrainedWritable(metas, t, k);
    hide Taken, FindIndex, Faithful;
    var tables := [t];
    assert tables[..|tables| - 1] == [] && tables[|tables| - 1] == t;
    assert Left(metas, []) == metas;
    assert !WithinByte(metas, tables);
  }

  lemma LongTablePosition()
    ensures |LongTable().addresses| == 257
    ensures SampleKey(2) in LongTable().addresses && FindIndex(LongTable().addresses, SampleKey(2)) == 256
  {
    SampleKeysDiffer(2, 3);
    hide SampleKey, FindIndex;
    assert LongTable().addresses[256] == SampleKey(2);
    assert forall i :: 0 <= i < 256 ==> LongTable().addresses[i] == SampleKey(3);
  }

  lemma DrainedWritable(metas: KeyMetaMap, t: AddressLookupTableAccount, k: PublicKey)
    requires k in metas && metas[k] == CompiledKeyMeta(false, true, false) && k in t.addresses
    ensures k in Taken(metas, t)
  {
    hide FindIndex, ReadonlyIn;
  }

  /** An account of the second of two tables with one key is looked up in the first. */
  lemma TwinTableIsLost()
    ensures Compilable(SampleKey(0), SampleInstructions(), TwinTables())
    ensures !Faithful(MergedKeys(SampleInstructions(), SampleKey(0)), TwinTables(), TwinTables())
  {
    SampleCompiles(TwinTables());
    hide Compilable;
    var metas, k := MergedKeys(SampleInstructions(), SampleKey(0)), SampleKey(2);
    SampleMerged();
    SampleKeysDiffer(2, 3);
    var all := TwinTables();
    var init, t := all[..1], all[1];
    hide MergedKeys, SampleKey, SampleInstructions, FindIndex, Overflows;
    assert init[..0] == [] && Left(metas, init) == metas - Taken(metas, all[0]);
    assert k !in all[0].addresses && k in t.addresses;
    assert k !in Taken(metas, all[0]);
    DrainedWritable(Left(metas, init), t, k);
    assert FindTable(all, t.key) == Some(all[0]);
    assert !ResolvesTo(all, t.key, IndexByte(t.addresses, k), k);
  }
}
