/** Compiling to a version 0 message: draining keys into a list of tables, in every order
    (web3/message_v0.go:71-104, web3/message_compiled_keys.go:102-144). */
module V0Compiler {
  import opened Basics
  import opened Messages
  import opened CompiledKeys
  import opened MessageCompiler

  // ---------- Draining a list of tables ----------

  /** The keys one table takes. */
  ghost function Taken(metas: KeyMetaMap, t: AddressLookupTableAccount): set<PublicKey> {
    WritableIn(metas, t) + KeptReadonly(metas, t)
  }

  /** The keys left static after some tables, if no table loses any. */
  ghost function Left(metas: KeyMetaMap, tables: seq<AddressLookupTableAccount>): KeyMetaMap {
    if tables == [] then metas
    else
      var before := Left(metas, tables[..|tables| - 1]);
      before - Taken(before, tables[|tables| - 1])
  }

  /** A table that contributed, with the keys taken from it in the order they came out. */
  datatype Extraction = Extraction(table: AddressLookupTableAccount, keys: LoadedAddresses)

  function LookupOf(x: Extraction): MessageAddressTableLookup {
    MessageAddressTableLookup(
      x.table.key, IndexBytes(x.table.addresses, x.keys.writable), IndexBytes(x.table.addresses, x.keys.readonly))
  }

  function LookupsOf(log: seq<Extraction>): seq<MessageAddressTableLookup> {
    seq(|log|, i requires 0 <= i < |log| => LookupOf(log[i]))
  }

  function Writables(log: seq<Extraction>): seq<PublicKey> {
    if log == [] then [] else Writables(log[..|log| - 1]) + log[|log| - 1].keys.writable
  }

  function Readonlys(log: seq<Extraction>): seq<PublicKey> {
    if log == [] then [] else Readonlys(log[..|log| - 1]) + log[|log| - 1].keys.readonly
  }

  /** The log records what each table took, skipping those that took nothing. */
  ghost predicate Chosen(log: seq<Extraction>, metas: KeyMetaMap, tables: seq<AddressLookupTableAccount>) {
    if tables == [] then log == []
    else
      var init, t := tables[..|tables| - 1], tables[|tables| - 1];
      var before := Left(metas, init);
      !Overflows(t.addresses, WritableIn(before, t)) &&
      if Taken(before, t) == {} then Chosen(log, metas, init)
      else
        && log != [] && Chosen(log[..|log| - 1], metas, init)
        && var x := log[|log| - 1];
        && x.table == t
        && Lists(x.keys.writable, WritableIn(before, t)) && Lists(x.keys.readonly, KeptReadonly(before, t))
  }

  // ---------- Keys lost on the way ----------

  /** The map after some tables, each of which deleted what it took and what it lost. */
  ghost function After(metas: KeyMetaMap, tables: seq<AddressLookupTableAccount>, losts: seq<set<PublicKey>>)
    : KeyMetaMap
    requires |losts| == |tables|
  {
    if tables == [] then metas
    else
      var n := |tables| - 1;
      var before := After(metas, tables[..n], losts[..n]);
      before - (Taken(before, tables[n]) + losts[n])
  }

  /** A run of the table loop: what each table loses in it is what it may lose. */
  ghost predicate Losing(metas: KeyMetaMap, tables: seq<AddressLookupTableAccount>, losts: seq<set<PublicKey>>)
    : (losing: bool)
    ensures losing ==> |losts| == |tables|
  {
    |losts| == |tables| &&
    (tables != [] ==>
      var n := |tables| - 1;
      Losing(metas, tables[..n], losts[..n]) && MayLose(After(metas, tables[..n], losts[..n]), tables[n], losts[n]))
  }

  /** No first drain of the run meets a key past 256. */
  ghost predicate TablesPass(metas: KeyMetaMap, tables: seq<AddressLookupTableAccount>, losts: seq<set<PublicKey>>)
    requires |losts| == |tables|
  {
    tables != [] ==>
      var n := |tables| - 1;
      TablesPass(metas, tables[..n], losts[..n])
      && !Overflows(tables[n].addresses, WritableIn(After(metas, tables[..n], losts[..n]), tables[n]))
  }

  predicate NothingLost(losts: seq<set<PublicKey>>) {
    forall i :: 0 <= i < |losts| ==> losts[i] == {}
  }

  /** No writable key looked for is past position 256 of its table, and no table with such a read-only key
      has another one to lose. */
  ghost predicate DrainsCleanly(metas: KeyMetaMap, tables: seq<AddressLookupTableAccount>) {
    tables != [] ==>
      var init, t := tables[..|tables| - 1], tables[|tables| - 1];
      var before := Left(metas, init);
      && DrainsCleanly(metas, init)
      && !Overflows(t.addresses, WritableIn(before, t))
      && forall lost :: MayLose(before, t, lost) ==> lost == {}
  }

  /** The same, in terms of positions. */
  lemma LosesNothing(before: KeyMetaMap, t: AddressLookupTableAccount)
    ensures (forall lost :: MayLose(before, t, lost) ==> lost == {}) <==>
            (Overflows(t.addresses, ReadonlyIn(before, t)) ==>
               forall k :: k in ReadonlyIn(before, t) ==> FindIndex(t.addresses, k) > 256)
  {
    hide FindIndex, ReadonlyIn;
    if k :|
      Overflows(t.addresses, ReadonlyIn(before, t)) && k in ReadonlyIn(before, t) && FindIndex(t.addresses, k) <= 256
    {
      assert MayLose(before, t, {k});
    }
    forall lost | MayLose(before, t, lost) && lost != {}
      ensures exists k :: k in ReadonlyIn(before, t) && FindIndex(t.addresses, k) <= 256
    {
      var k :| k in lost;
    }
  }

  // ---------- Version 0 messages ----------

  /** What a compiled version 0 message is. */
  ghost predicate CompiledV0(
    payer: PublicKey, ixs: seq<TransactionInstruction>, blockhash: Blockhash, tables: seq<AddressLookupTableAccount>,
    m: MessageV0, log: seq<Extraction>)
  {
    var metas := MergedKeys(ixs, payer);
    && Chosen(log, metas, tables)
    && m.addressTableLookups == LookupsOf(log)
    && Laid(Components(m.header, m.staticAccountKeys), Left(metas, tables), payer)
    && CompiledAgainst(m.staticAccountKeys + Writables(log) + Readonlys(log), ixs, m.compiledInstructions)
    && m.recentBlockhash == blockhash
    && |metas| <= 256
  }

  /** Every order succeeds on these, and only on these. */
  ghost predicate Compilable(payer: PublicKey, ixs: seq<TransactionInstruction>, tables: seq<AddressLookupTableAccount>)
  {
    var metas := MergedKeys(ixs, payer);
    |metas| <= 256 && OnlyPayerSignsAndWrites(metas, payer) && DrainsCleanly(metas, tables)
  }

  /** Whether a run of the table loop and an order of the keys it leaves compile. */
  ghost predicate Compiles(
    metas: KeyMetaMap, payer: PublicKey, tables: seq<AddressLookupTableAccount>, losts: seq<set<PublicKey>>,
    order: seq<PublicKey>)
    requires |losts| == |tables|
  {
    && TablesPass(metas, tables, losts)
    && ComponentsInOrder(order, After(metas, tables, losts), payer).Success?
    && NothingLost(losts) && |metas| <= 256
  }

  /** Why indexing fails: too many keys, static and looked up, or else one is missing. */
  function IndexError(numStaticKeys: nat, log: seq<Extraction>): Error {
    if numStaticKeys + |Writables(log)| + |Readonlys(log)| > 256 then AccountIndexOverflow else UnknownAccountKey
  }

  /** A key deleted without being recorded: it is in no list any more. */
  ghost predicate IsGone(k: PublicKey, cur: KeyMetaMap, metas: KeyMetaMap, log: seq<Extraction>) {
    k in metas && !metas[k].isSigner && k !in cur && k !in Writables(log) && k !in Readonlys(log)
  }

  /** The state of the table loop. */
  ghost predicate Extracting(
    cur: KeyMetaMap, metas: KeyMetaMap, log: seq<Extraction>, tables: seq<AddressLookupTableAccount>,
    losts: seq<set<PublicKey>>)
  {
    && Losing(metas, tables, losts) && TablesPass(metas, tables, losts) && cur == After(metas, tables, losts)
    && cur.Keys <= metas.Keys && (forall k :: k in cur ==> cur[k] == metas[k])
    && if NothingLost(losts) then cur == Left(metas, tables) && Chosen(log, metas, tables)
       else exists k :: IsGone(k, cur, metas, log)
  }

  /** One table more. A key once lost stays lost. */
  lemma ExtractNext(
    before: KeyMetaMap, metas: KeyMetaMap, log: seq<Extraction>, tables: seq<AddressLookupTableAccount>,
    losts: seq<set<PublicKey>>,
    t: AddressLookupTableAccount, x: Option<Extracted>, after: KeyMetaMap, lost: set<PublicKey>)
    requires Extracting(before, metas, log, tables, losts)
    requires ExtractOutcome(before, t, Success(x), after, lost)
    ensures Extracting(after, metas, LogAfter(log, t, x), tables + [t], losts + [lost])
            && (x.Some? ==> x.value.lookup == LookupOf(Extraction(t, x.value.keys)))
  {
    RunNext(before, metas, tables, losts, t, x, after, lost);
    OutcomeShrinks(before, t, x, after, lost);
    hide ExtractOutcome, Losing, TablesPass, After, IsGone, Left, Chosen, LogAfter, LookupOf, NothingLost;
    LostNext(losts, lost);
    if NothingLost(losts) && lost == {} {
      NoneLost(before, metas, log, tables, t, x, after);
    } else if NothingLost(losts) {
      var k :| k in lost;
      LostForever(before, metas, log, tables, t, x, after, lost, k);
    } else {
      var k :| IsGone(k, before, metas, log);
      StillLost(before, metas, log, t, x, after, lost, k);
    }
  }

  lemma LostNext(losts: seq<set<PublicKey>>, lost: set<PublicKey>)
    ensures NothingLost(losts + [lost]) <==> NothingLost(losts) && lost == {}
  {
    var all := losts + [lost];
    assert all[|losts|] == lost && forall i :: 0 <= i < |losts| ==> all[i] == losts[i];
  }

  lemma RunNext(
    before: KeyMetaMap, metas: KeyMetaMap, tables: seq<AddressLookupTableAccount>, losts: seq<set<PublicKey>>,
    t: AddressLookupTableAccount, x: Option<Extracted>, after: KeyMetaMap, lost: set<PublicKey>)
    requires Losing(metas, tables, losts) && TablesPass(metas, tables, losts) && before == After(metas, tables, losts)
    requires ExtractOutcome(before, t, Success(x), after, lost)
    ensures Losing(metas, tables + [t], losts + [lost]) && TablesPass(metas, tables + [t], losts + [lost])
    ensures after == After(metas, tables + [t], losts + [lost])
  {
    var all, all' := tables + [t], losts + [lost];
    assert all[..|all| - 1] == tables && all'[..|all| - 1] == losts;
    hide Overflows, WritableIn, ReadonlyIn, MayLose, KeptReadonly;
    assert WritableIn(before, t) + KeptReadonly(before, t) + lost == Taken(before, t) + lost;
  }

  lemma OutcomeShrinks(
    before: KeyMetaMap, t: AddressLookupTableAccount, x: Option<Extracted>, after: KeyMetaMap, lost: set<PublicKey>)
    requires ExtractOutcome(before, t, Success(x), after, lost)
    ensures after.Keys <= before.Keys && (forall k :: k in after ==> after[k] == before[k])
    ensures x.Some? ==> x.value.lookup == LookupOf(Extraction(t, x.value.keys))
  {
    hide Overflows, WritableIn, ReadonlyIn, MayLose, KeptReadonly, Lists;
  }

  function LogAfter(log: seq<Extraction>, t: AddressLookupTableAccount, x: Option<Extracted>): seq<Extraction> {
    if x.Some? then log + [Extraction(t, x.value.keys)] else log
  }

  lemma LogNext(log: seq<Extraction>, t: AddressLookupTableAccount, x: Option<Extracted>)
    ensures x.Some? ==> Writables(LogAfter(log, t, x)) == Writables(log) + x.value.keys.writable
    ensures x.Some? ==> Readonlys(LogAfter(log, t, x)) == Readonlys(log) + x.value.keys.readonly
    ensures x.None? ==> LogAfter(log, t, x) == log
  {
    if x.Some? {
      assert LogAfter(log, t, x)[..|log|] == log;
    }
  }

  lemma NoneLost(
    before: KeyMetaMap, metas: KeyMetaMap, log: seq<Extraction>, tables: seq<AddressLookupTableAccount>,
    t: AddressLookupTableAccount, x: Option<Extracted>, after: KeyMetaMap)
    requires before == Left(metas, tables) && Chosen(log, metas, tables)
    requires ExtractOutcome(before, t, Success(x), after, {})
    ensures after == Left(metas, tables + [t]) && Chosen(LogAfter(log, t, x), metas, tables + [t])
  {
    hide ExtractOutcome, Left, Chosen, Taken, WritableIn, KeptReadonly, Overflows, LogAfter, LookupOf;
    OutcomeTaken(before, t, x, after);
    LeftNext(metas, tables, t);
    ChosenNext(log, metas, tables, t, x);
  }

  /** What a table took when its second drain lost nothing. */
  ghost predicate TakenBy(before: KeyMetaMap, t: AddressLookupTableAccount, x: Option<Extracted>) {
    && !Overflows(t.addresses, WritableIn(before, t))
    && (x.None? <==> Taken(before, t) == {})
    && (x.Some? ==>
          Lists(x.value.keys.writable, WritableIn(before, t)) && Lists(x.value.keys.readonly, KeptReadonly(before, t)))
  }

  lemma OutcomeTaken(before: KeyMetaMap, t: AddressLookupTableAccount, x: Option<Extracted>, after: KeyMetaMap)
    requires ExtractOutcome(before, t, Success(x), after, {})
    ensures TakenBy(before, t, x) && after == before - Taken(before, t)
  {
    hide WritableIn, ReadonlyIn, KeptReadonly, Overflows, IndexBytes, Lists;
    assert WritableIn(before, t) + KeptReadonly(before, t) + {} == Taken(before, t);
  }

  lemma LeftNext(metas: KeyMetaMap, tables: seq<AddressLookupTableAccount>, t: AddressLookupTableAccount)
    ensures Left(metas, tables + [t]) == Left(metas, tables) - Taken(Left(metas, tables), t)
  {
    hide Taken;
    var all := tables + [t];
    assert all[..|all| - 1] == tables && all[|all| - 1] == t;
  }

  lemma ChosenNext(
    log: seq<Extraction>, metas: KeyMetaMap, tables: seq<AddressLookupTableAccount>, t: AddressLookupTableAccount,
    x: Option<Extracted>)
    requires Chosen(log, metas, tables) && TakenBy(Left(metas, tables), t, x)
    ensures Chosen(LogAfter(log, t, x), metas, tables + [t])
  {
    hide Left, Taken, WritableIn, KeptReadonly, Overflows, Lists;
    var all := tables + [t];
    assert all[..|all| - 1] == tables && all[|all| - 1] == t;
    if x.Some? {
      var more := LogAfter(log, t, x);
      assert more[..|more| - 1] == log && more[|more| - 1] == Extraction(t, x.value.keys);
    }
  }

  /** A key no longer in the map is in no list taken from it. */
  lemma StillLost(
    before: KeyMetaMap, metas: KeyMetaMap, log: seq<Extraction>, t: AddressLookupTableAccount, x: Option<Extracted>,
    after: KeyMetaMap, lost: set<PublicKey>, k: PublicKey)
    requires ExtractOutcome(before, t, Success(x), after, lost) && IsGone(k, before, metas, log)
    ensures IsGone(k, after, metas, LogAfter(log, t, x))
  {
    NotTaken(before, t, x, after, lost, k);
    LogNext(log, t, x);
    hide ExtractOutcome, Writables, Readonlys;
  }

  lemma NotTaken(
    before: KeyMetaMap, t: AddressLookupTableAccount, x: Option<Extracted>, after: KeyMetaMap, lost: set<PublicKey>,
    k: PublicKey)
    requires ExtractOutcome(before, t, Success(x), after, lost) && (k !in before || k in lost)
    ensures k !in after && (x.Some? ==> k !in x.value.keys.writable && k !in x.value.keys.readonly)
    ensures k in lost ==> k in before && !before[k].isSigner
  {
    assert k !in WritableIn(before, t);
    assert k in lost ==> KeptReadonly(before, t) == {};
    assert k !in KeptReadonly(before, t);
    assert k in lost ==> k in ReadonlyIn(before, t);
    hide Overflows, WritableIn, KeptReadonly;
  }

  /** A key deleted by a failed second drain is recorded nowhere, and so it stays lost. */
  lemma LostForever(
    before: KeyMetaMap, metas: KeyMetaMap, log: seq<Extraction>, tables: seq<AddressLookupTableAccount>,
    t: AddressLookupTableAccount, x: Option<Extracted>, after: KeyMetaMap, lost: set<PublicKey>, k: PublicKey)
    requires before == Left(metas, tables) && Chosen(log, metas, tables)
    requires ExtractOutcome(before, t, Success(x), after, lost) && k in lost
    ensures IsGone(k, after, metas, LogAfter(log, t, x))
  {
    hide ExtractOutcome, Left, Chosen, Writables, Readonlys;
    Conserved(log, metas, tables);
    NotTaken(before, t, x, after, lost, k);
    LogNext(log, t, x);
  }

  /** Draining conserves keys, over all tables and orders: each key of the map is left static or recorded in
      exactly one list, with the flags that list stands for. */
  lemma {:induction false} Conserved(log: seq<Extraction>, metas: KeyMetaMap, tables: seq<AddressLookupTableAccount>)
    requires Chosen(log, metas, tables)
    ensures NoDuplicates(Writables(log) + Readonlys(log))
    ensures var left := Left(metas, tables);
            && left.Keys <= metas.Keys && (forall k :: k in left ==> left[k] == metas[k])
            && (forall k :: k in Writables(log) ==> k in metas && k !in left && IsDrainableWritable(metas[k]))
            && (forall k :: k in Readonlys(log) ==> k in metas && k !in left && IsDrainableReadonly(metas[k]))
            && (forall k :: k in metas ==> k in left || k in Writables(log) || k in Readonlys(log))
  {
    if tables == [] {
    } else {
      var init, t := tables[..|tables| - 1], tables[|tables| - 1];
      var before := Left(metas, init);
      if Taken(before, t) == {} {
        Conserved(log, metas, init);
      } else {
        var n := |log| - 1;
        Conserved(log[..n], metas, init);
        var w, r, x := Writables(log[..n]), Readonlys(log[..n]), log[n].keys;
        assert forall k :: k in x.writable <==> k in WritableIn(before, t);
        assert forall k :: k in x.readonly <==> k in KeptReadonly(before, t);
        DistinctHalves(w, r);
        hide Left, Chosen, Writables, Readonlys;
        Concat(w, x.writable);
        Concat(r, x.readonly);
        Concat(w + x.writable, r + x.readonly);
      }
    }
  }

  lemma DistinctHalves(a: seq<PublicKey>, b: seq<PublicKey>)
    requires NoDuplicates(a + b)
    ensures NoDuplicates(a) && NoDuplicates(b) && forall k :: k in a ==> k !in b
  {
    var s := a + b;
    forall i, j | 0 <= i < j < |a| ensures a[i] != a[j] {
      assert s[i] == a[i] && s[j] == a[j];
    }
    forall i, j | 0 <= i < j < |b| ensures b[i] != b[j] {
      assert s[|a| + i] == b[i] && s[|a| + j] == b[j];
    }
    forall i, j | 0 <= i < |a| && 0 <= j < |b| ensures a[i] != b[j] {
      assert s[i] == a[i] && s[|a| + j] == b[j];
    }
  }

  /** All the keys of a compiled message, static and looked up, list the keys of the map once each. */
  lemma FlatLists(
    log: seq<Extraction>, metas: KeyMetaMap, tables: seq<AddressLookupTableAccount>, static_: seq<PublicKey>)
    requires Chosen(log, metas, tables) && Lists(static_, Left(metas, tables).Keys)
    ensures Lists(static_ + Writables(log) + Readonlys(log), metas.Keys)
  {
    Conserved(log, metas, tables);
    hide Left, Chosen, Writables, Readonlys;
    var w, r := Writables(log), Readonlys(log);
    DistinctHalves(w, r);
    Concat(static_, w);
    Concat(static_ + w, r);
    var flat := static_ + w + r;
    forall i | 0 <= i < |flat| ensures flat[i] in metas.Keys {
      assert flat[i] in flat;
    }
  }

  /** NewMessage0 (CompileToV0Message). The ghost results are the log of what each table took, what each table
      lost, and the order in which the remaining keys were laid out: it succeeds exactly when these compile. */
  method NewMessage0(
    payer: PublicKey, ixs: seq<TransactionInstruction>, blockhash: Blockhash, tables: seq<AddressLookupTableAccount>)
    returns (r: Result<MessageV0>, ghost log: seq<Extraction>, ghost losts: seq<set<PublicKey>>,
      ghost order: seq<PublicKey>)
    ensures r.Success? ==> CompiledV0(payer, ixs, blockhash, tables, r.value, log)
    ensures Losing(MergedKeys(ixs, payer), tables, losts) &&
            Lists(order, After(MergedKeys(ixs, payer), tables, losts).Keys)
    ensures r.Success? <==> Compiles(MergedKeys(ixs, payer), payer, tables, losts, order)
    ensures !TablesPass(MergedKeys(ixs, payer), tables, losts) ==> r == Failure(TableIndexExceeded)
    ensures TablesPass(MergedKeys(ixs, payer), tables, losts) ==>
              match ComponentsInOrder(order, After(MergedKeys(ixs, payer), tables, losts), payer)
              case Success(c) =>
                if r.Success? then r.value.header == c.header && r.value.staticAccountKeys == c.keys
                else r == Failure(IndexError(|c.keys|, log))
              case Failure(e) => r == Failure(e)
    ensures Compilable(payer, ixs, tables) ==> r.Success?
  {
    hide MergedKeys, ExtractOutcome, Extracting, Compilable, Losing, TablesPass, After, Lists, ComponentsInOrder;
    ghost var metas := MergedKeys(ixs, payer);
    var compiledKeys := new CompiledKeys(ixs, payer);
    var lookups: seq<MessageAddressTableLookup> := [];
    var loaded := LoadedAddresses([], []);
    log, losts := [], [];
    StartExtracting(metas);
    assert tables[..0] == [];
    for i := 0 to |tables|
      invariant compiledKeys.payer == payer
      invariant Extracting(compiledKeys.keyMetaMap, metas, log, tables[..i], losts)
      invariant lookups == LookupsOf(log)
      invariant loaded == LoadedAddresses(Writables(log), Readonlys(log))
    {
      ghost var before := compiledKeys.keyMetaMap;
      var extracted, lost := compiledKeys.ExtractTableLookup(tables[i]);
      assert tables[..i + 1] == tables[..i] + [tables[i]];
      if extracted.Failure? {
        losts := FirstDrainFails(before, metas, log, tables, i, losts, extracted, compiledKeys.keyMetaMap, lost);
        order := SomeListing(After(metas, tables, losts).Keys);
        CompilableCompiles(payer, ixs, tables, losts, order);
        return Failure(extracted.error), log, losts, order;
      }
      ExtractNext(before, metas, log, tables[..i], losts, tables[i], extracted.value, compiledKeys.keyMetaMap, lost);
      losts := losts + [lost];
      if extracted.value.Some? {
        var x := extracted.value.value;
        assert (log + [Extraction(tables[i], x.keys)])[..|log|] == log;
        lookups := lookups + [x.lookup];
        loaded := LoadedAddresses(loaded.writable + x.keys.writable, loaded.readonly + x.keys.readonly);
        log := log + [Extraction(tables[i], x.keys)];
      }
    }
    assert tables[..|tables|] == tables;
    r, order := Finish(compiledKeys, payer, ixs, blockhash, tables, metas, lookups, loaded, log, losts);
    CompilableCompiles(payer, ixs, tables, losts, order);
  }

  lemma StartExtracting(metas: KeyMetaMap)
    ensures Extracting(metas, metas, [], [], [])
  {
  }

  /** A run that stops at a table, continued by tables that lose nothing. */
  lemma FirstDrainFails(
    before: KeyMetaMap, metas: KeyMetaMap, log: seq<Extraction>, tables: seq<AddressLookupTableAccount>, i: nat,
    losts: seq<set<PublicKey>>, r: Result<Option<Extracted>>, after: KeyMetaMap, lost: set<PublicKey>)
    returns (losts': seq<set<PublicKey>>)
    requires i < |tables| && Extracting(before, metas, log, tables[..i], losts)
    requires ExtractOutcome(before, tables[i], r, after, lost) && r.Failure?
    ensures Losing(metas, tables, losts') && !TablesPass(metas, tables, losts')
    ensures r.error == TableIndexExceeded
  {
    assert Overflows(tables[i].addresses, WritableIn(before, tables[i]));
    hide ExtractOutcome, Overflows, WritableIn;
    assert tables[..i + 1][..i] == tables[..i] && (losts + [{}])[..i] == losts;
    LosingNone(before, tables[i]);
    hide MayLose;
    losts' := Continued(metas, tables, i + 1, losts + [{}]);
  }

  lemma SmallerMap(a: set<PublicKey>, b: set<PublicKey>)
    requires a <= b
    ensures |a| <= |b|
  {
    assert b == a + (b - a);
  }

  lemma LosingNone(before: KeyMetaMap, t: AddressLookupTableAccount)
    ensures MayLose(before, t, {})
  {
  }

  lemma {:induction false} Continued(
    metas: KeyMetaMap, tables: seq<AddressLookupTableAccount>, i: nat, losts: seq<set<PublicKey>>)
    returns (losts': seq<set<PublicKey>>)
    requires i <= |tables| && Losing(metas, tables[..i], losts)
    ensures Losing(metas, tables, losts') && losts <= losts'
    ensures !TablesPass(metas, tables[..i], losts) ==> !TablesPass(metas, tables, losts')
    ensures NothingLost(losts') <==> NothingLost(losts)
  {
    if i == |tables| {
      assert tables[..i] == tables;
      losts' := losts;
    } else {
      var n := |tables| - 1;
      assert tables[..n][..i] == tables[..i];
      var init := Continued(metas, tables[..n], i, losts);
      losts' := init + [{}];
      LostNext(init, {});
      RunContinues(metas, tables, init);
      hide Losing, TablesPass, NothingLost;
    }
  }

  /** A table that loses nothing continues any run. */
  lemma RunContinues(metas: KeyMetaMap, tables: seq<AddressLookupTableAccount>, init: seq<set<PublicKey>>)
    requires tables != [] && Losing(metas, tables[..|tables| - 1], init)
    ensures Losing(metas, tables, init + [{}])
    ensures TablesPass(metas, tables, init + [{}]) ==> TablesPass(metas, tables[..|tables| - 1], init)
  {
    LosingNone(After(metas, tables[..|tables| - 1], init), tables[|tables| - 1]);
    hide MayLose, Overflows, WritableIn;
    assert (init + [{}])[..|init|] == init;
  }

  /** The part of NewMessage0 after the tables. A lost key shows up here as an unknown key. */
  method Finish(
    compiledKeys: CompiledKeys, payer: PublicKey, ixs: seq<TransactionInstruction>, blockhash: Blockhash,
    ghost tables: seq<AddressLookupTableAccount>, ghost metas: KeyMetaMap, lookups: seq<MessageAddressTableLookup>,
    loaded: LoadedAddresses, ghost log: seq<Extraction>, ghost losts: seq<set<PublicKey>>)
    returns (r: Result<MessageV0>, ghost order: seq<PublicKey>)
    requires metas == MergedKeys(ixs, payer) && compiledKeys.payer == payer
    requires Extracting(compiledKeys.keyMetaMap, metas, log, tables, losts)
    requires lookups == LookupsOf(log) && loaded == LoadedAddresses(Writables(log), Readonlys(log))
    ensures Losing(metas, tables, losts) && TablesPass(metas, tables, losts)
    ensures Lists(order, After(metas, tables, losts).Keys)
    ensures r.Success? ==> CompiledV0(payer, ixs, blockhash, tables, r.value, log)
    ensures r.Success? <==> Compiles(metas, payer, tables, losts, order)
    ensures match ComponentsInOrder(order, After(metas, tables, losts), payer)
            case Success(c) =>
              if r.Success? then r.value.header == c.header && r.value.staticAccountKeys == c.keys
              else r == Failure(IndexError(|c.keys|, log))
            case Failure(e) => r == Failure(e)
  {
    ghost var cur := compiledKeys.keyMetaMap;
    var components;
    components, order := compiledKeys.GetMessageComponents();
    hide MergedKeys, ComponentsInOrder, Laid, Losing, TablesPass, After, Left, Chosen, Lists, IsGone, NothingLost;
    if components.Failure? {
      return Failure(components.error), order;
    }
    var c := components.value;
    LaidFacts(c, cur, payer);
    var keys := MessageAccountKeys(c.keys, Some(loaded));
    KeysAtTheEnd(cur, metas, log, tables, losts, c.keys, ixs, payer);
    hide Extracting;
    var instructions := CompileInstructions(keys, ixs);
    if instructions.Failure? {
      return Failure(instructions.error), order;
    }
    r := Success(MessageV0(c.header, c.keys, blockhash, instructions.value, lookups));
  }

  /** Without a lost key, static and looked-up keys cover the instructions; with one, they do not. */
  lemma KeysAtTheEnd(
    cur: KeyMetaMap, metas: KeyMetaMap, log: seq<Extraction>, tables: seq<AddressLookupTableAccount>,
    losts: seq<set<PublicKey>>, static_: seq<PublicKey>, ixs: seq<TransactionInstruction>, payer: PublicKey)
    requires Extracting(cur, metas, log, tables, losts) && Lists(static_, cur.Keys)
    requires metas == MergedKeys(ixs, payer)
    ensures var flat := static_ + Writables(log) + Readonlys(log);
            && (AllKeysIn(ixs, flat) <==> NothingLost(losts))
            && (NothingLost(losts) ==> |flat| == |metas| && cur == Left(metas, tables) && Chosen(log, metas, tables))
  {
    var flat := static_ + Writables(log) + Readonlys(log);
    MergedKeysMeaning(ixs, payer);
    MergedCoverInstructions(ixs, payer);
    hide MergedKeys, NothingLost, Losing, TablesPass, After;
    if NothingLost(losts) {
      FlatLists(log, metas, tables, static_);
      ListingLength(flat, metas.Keys);
    } else {
      hide Left, Chosen;
      var k :| IsGone(k, cur, metas, log);
      assert k in KeySet(Metas(ixs)) && k !in flat;
    }
  }

  // ---------- When every order compiles ----------

  /** What stays static keeps its flags, and signers stay. */
  lemma {:induction false} LeftKeeps(metas: KeyMetaMap, tables: seq<AddressLookupTableAccount>)
    ensures var left := Left(metas, tables);
            && left.Keys <= metas.Keys && (forall k :: k in left ==> left[k] == metas[k])
            && (forall k :: k in metas && metas[k].isSigner ==> k in left)
  {
    if tables == [] {
    } else {
      LeftKeeps(metas, tables[..|tables| - 1]);
      hide Overflows;
    }
  }

  /** When the tables drain cleanly there is one run of the table loop: nothing is lost. */
  lemma {:induction false} CleanRun(
    metas: KeyMetaMap, tables: seq<AddressLookupTableAccount>, losts: seq<set<PublicKey>>)
    requires DrainsCleanly(metas, tables)
    requires Losing(metas, tables, losts) || (|losts| == |tables| && NothingLost(losts))
    ensures Losing(metas, tables, losts) && NothingLost(losts)
    ensures TablesPass(metas, tables, losts) && After(metas, tables, losts) == Left(metas, tables)
  {
    if tables == [] {
    } else {
      var n := |tables| - 1;
      assert losts == losts[..n] + [losts[n]];
      LostNext(losts[..n], losts[n]);
      CleanRun(metas, tables[..n], losts[..n]);
      LosingNone(Left(metas, tables[..n]), tables[n]);
      hide MayLose, Overflows, Taken, WritableIn, NothingLost;
      var before := Left(metas, tables[..n]);
      assert losts[n] == {};
      assert Taken(before, tables[n]) + {} == Taken(before, tables[n]);
    }
  }

  /** When they do not, some run fails or loses a key. */
  lemma {:induction false} UncleanRun(metas: KeyMetaMap, tables: seq<AddressLookupTableAccount>)
    returns (losts: seq<set<PublicKey>>)
    requires !DrainsCleanly(metas, tables)
    ensures Losing(metas, tables, losts) && !(TablesPass(metas, tables, losts) && NothingLost(losts))
  {
    var n := |tables| - 1;
    var init, t := tables[..n], tables[n];
    if DrainsCleanly(metas, init) {
      var none: seq<set<PublicKey>> := seq(n, _ => {});
      CleanRun(metas, init, none);
      var before := Left(metas, init);
      LosingNone(before, t);
      hide MayLose, Overflows, WritableIn, DrainsCleanly;
      if Overflows(t.addresses, WritableIn(before, t)) {
        losts := none + [{}];
      } else {
        var lost := SomeLoss(metas, tables);
        losts := none + [lost];
      }
      assert losts[..n] == none && !(losts[n] == {} && !Overflows(t.addresses, WritableIn(before, t)));
    } else {
      var some := UncleanRun(metas, init);
      losts := Continued(metas, tables, n, some);
      ContinuedFails(metas, tables, n, some, losts);
    }
  }

  lemma SomeLoss(metas: KeyMetaMap, tables: seq<AddressLookupTableAccount>) returns (lost: set<PublicKey>)
    requires tables != [] && !DrainsCleanly(metas, tables) && DrainsCleanly(metas, tables[..|tables| - 1])
    requires var before := Left(metas, tables[..|tables| - 1]);
             !Overflows(tables[|tables| - 1].addresses, WritableIn(before, tables[|tables| - 1]))
    ensures lost != {} && MayLose(Left(metas, tables[..|tables| - 1]), tables[|tables| - 1], lost)
  {
    hide MayLose, Overflows, WritableIn, Left;
    lost :| lost != {} && MayLose(Left(metas, tables[..|tables| - 1]), tables[|tables| - 1], lost);
  }

  lemma ContinuedFails(
    metas: KeyMetaMap, tables: seq<AddressLookupTableAccount>, i: nat, some: seq<set<PublicKey>>,
    losts: seq<set<PublicKey>>)
    requires i <= |tables| && |some| == i && |losts| == |tables|
    requires !(TablesPass(metas, tables[..i], some) && NothingLost(some))
    requires !TablesPass(metas, tables[..i], some) ==> !TablesPass(metas, tables, losts)
    requires NothingLost(losts) <==> NothingLost(some)
    ensures !(TablesPass(metas, tables, losts) && NothingLost(losts))
  {
  }

  lemma PayerMerged(ixs: seq<TransactionInstruction>, payer: PublicKey, tables: seq<AddressLookupTableAccount>)
    ensures var metas := MergedKeys(ixs, payer);
            var left := Left(metas, tables);
            && payer in left && KeyRank(left[payer]) == 0 && |left| <= |metas|
            && (OnlyPayerSignsAndWrites(left, payer) <==> OnlyPayerSignsAndWrites(metas, payer))
  {
    var metas := MergedKeys(ixs, payer);
    MergedCoverInstructions(ixs, payer);
    LeftKeeps(metas, tables);
    hide MergedKeys, Left;
    SmallerMap(Left(metas, tables).Keys, metas.Keys);
  }

  /** On a compilable input every run and every order compiles. */
  lemma CompilableCompiles(
    payer: PublicKey, ixs: seq<TransactionInstruction>, tables: seq<AddressLookupTableAccount>,
    losts: seq<set<PublicKey>>, order: seq<PublicKey>)
    requires Losing(MergedKeys(ixs, payer), tables, losts) &&
             Lists(order, After(MergedKeys(ixs, payer), tables, losts).Keys)
    ensures Compilable(payer, ixs, tables) ==> Compiles(MergedKeys(ixs, payer), payer, tables, losts, order)
  {
    if Compilable(payer, ixs, tables) {
      var metas := MergedKeys(ixs, payer);
      CleanRun(metas, tables, losts);
      PayerMerged(ixs, payer, tables);
      hide MergedKeys, DrainsCleanly, Losing, TablesPass, After, Left, OnlyPayerSignsAndWrites, ComponentsInOrder;
      hide NothingLost, Lists;
      OnlyPayerSucceeds(order, Left(metas, tables), payer);
    }
  }

  /** Version 0 compilation succeeds in every order, of the tables' drains and of the final layout, exactly when
      there are at most 256 keys, the payer alone signs and writes, and the tables drain cleanly. */
  lemma CompilesInEveryOrder(payer: PublicKey, ixs: seq<TransactionInstruction>, tables: seq<AddressLookupTableAccount>)
    ensures var metas := MergedKeys(ixs, payer);
            (forall losts, order :: Losing(metas, tables, losts) && Lists(order, After(metas, tables, losts).Keys) ==>
               Compiles(metas, payer, tables, losts, order))
            <==> Compilable(payer, ixs, tables)
  {
    var metas := MergedKeys(ixs, payer);
    hide MergedKeys, Losing, TablesPass, After, Left, OnlyPayerSignsAndWrites, ComponentsInOrder, NothingLost, Lists;
    hide DrainsCleanly;
    forall losts, order | Losing(metas, tables, losts) && Lists(order, After(metas, tables, losts).Keys)
      ensures Compilable(payer, ixs, tables) ==> Compiles(metas, payer, tables, losts, order)
    {
      CompilableCompiles(payer, ixs, tables, losts, order);
    }
    if !Compilable(payer, ixs, tables) {
      var losts, order := FailingRun(payer, ixs, tables);
      assert !Compiles(metas, payer, tables, losts, order);
    }
  }

  lemma FailingRun(payer: PublicKey, ixs: seq<TransactionInstruction>, tables: seq<AddressLookupTableAccount>)
    returns (losts: seq<set<PublicKey>>, order: seq<PublicKey>)
    requires !Compilable(payer, ixs, tables)
    ensures var metas := MergedKeys(ixs, payer);
            && Losing(metas, tables, losts) && Lists(order, After(metas, tables, losts).Keys)
            && !Compiles(metas, payer, tables, losts, order)
  {
    var metas := MergedKeys(ixs, payer);
    hide MergedKeys, Losing, TablesPass, After, Left, OnlyPayerSignsAndWrites, ComponentsInOrder, NothingLost, Lists;
    hide DrainsCleanly;
    if !DrainsCleanly(metas, tables) {
      losts := UncleanRun(metas, tables);
      order := SomeListing(After(metas, tables, losts).Keys);
    } else {
      losts := NoLosses(|tables|);
      CleanRun(metas, tables, losts);
      PayerMerged(ixs, payer, tables);
      order := SomeListing(Left(metas, tables).Keys);
      if |metas| <= 256 {
        SucceedsInEveryOrder(Left(metas, tables), payer);
        order :| Lists(order, Left(metas, tables).Keys) &&
          ComponentsInOrder(order, Left(metas, tables), payer).Failure?;
      }
    }
  }

  lemma NoLosses(n: nat) returns (losts: seq<set<PublicKey>>)
    ensures |losts| == n && NothingLost(losts)
  {
    losts := seq(n, _ => {});
  }
}
