/** NewTransactionMessageFrom, the decompiler (web3/message.go:19-97), and the account keys it works on
    (web3/message_v0.go:110-116, 406-425, web3/message_compat.go:62-71). */
module Decompiler {
  import opened Basics
  import opened Messages
  import opened CompiledKeys
  import opened MessageCompiler

  datatype TransactionMessage = TransactionMessage(
    payerKey: PublicKey, instructions: seq<TransactionInstruction>, recentBlockhash: Blockhash)

  datatype DecompileArgs = DecompileArgs(
    accountKeysFromLookups: Option<LoadedAddresses>, tables: seq<AddressLookupTableAccount>)

  // ---------- What the decompiler computes ----------

  function AccountKeysOf(m: VersionedMessage, args: DecompileArgs): Result<MessageAccountKeys> {
    match m
    case Legacy(m) => Success(MessageAccountKeys(m.accountKeys, None))
    case V0(m) =>
      var ls := m.addressTableLookups;
      if args.accountKeysFromLookups.Some? then
        var given := args.accountKeysFromLookups.value;
        if NumReadonlyLookups(ls) + NumWritableLookups(ls) != |given.writable| + |given.readonly| then
          Failure(LookupCountMismatch)
        else Success(MessageAccountKeys(m.staticAccountKeys, args.accountKeysFromLookups))
      else if |args.tables| > 0 then
        var loaded :- Resolve(ls, args.tables);
        Success(MessageAccountKeys(m.staticAccountKeys, Some(loaded)))
      else if |ls| > 0 then Failure(LookupsNotResolved)
      else Success(MessageAccountKeys(m.staticAccountKeys, None))
  }

  /** The flags given to a position. */
  function DecompiledMeta(h: MessageHeader, keys: MessageAccountKeys, index: nat): AccountMeta
    requires index < |keys.Flat()|
  {
    var n := |keys.staticAccountKeys|;
    var isWritable :=
      if index < h.numRequiredSignatures then index < h.numRequiredSignatures - h.numReadonlySignedAccounts
      else if index < n then
        index - h.numRequiredSignatures < n - h.numRequiredSignatures - h.numReadonlyUnsignedAccounts
      else index - n < |keys.accountKeysFromLookups.value.writable|;
    AccountMeta(keys.Flat()[index], index < h.numRequiredSignatures, isWritable)
  }

  function DecompileInstruction(h: MessageHeader, keys: MessageAccountKeys, c: CompiledInstruction)
    : Result<TransactionInstruction>
  {
    if !AllWithin(c.accounts, |keys.Flat()|) then Failure(AccountIndexNotFound)
    else if c.programIdIndex >= |keys.Flat()| then Failure(ProgramIndexNotFound)
    else Success(TransactionInstruction(
      seq(|c.accounts|, j requires 0 <= j < |c.accounts| => DecompiledMeta(h, keys, c.accounts[j])),
      keys.Flat()[c.programIdIndex], c.data))
  }

  function DecompileInstructions(h: MessageHeader, keys: MessageAccountKeys, cs: seq<CompiledInstruction>)
    : Result<seq<TransactionInstruction>>
  {
    if cs == [] then Success([])
    else
      var before :- DecompileInstructions(h, keys, cs[..|cs| - 1]);
      var last :- DecompileInstruction(h, keys, cs[|cs| - 1]);
      Success(before + [last])
  }

  function Decompile(m: VersionedMessage, args: DecompileArgs): Result<TransactionMessage> {
    var h := m.Header();
    if h.numRequiredSignatures - h.numReadonlySignedAccounts <= 0 then Failure(InvalidHeader)
    else if |m.StaticAccountKeys()| - h.numRequiredSignatures - h.numReadonlyUnsignedAccounts < 0 then
      Failure(InvalidHeader)
    else
      var keys :- AccountKeysOf(m, args);
      if keys.Flat() == [] then Failure(NoAccountKeys)
      else
        var instructions :- DecompileInstructions(h, keys, m.CompiledInstructions());
        Success(TransactionMessage(keys.Flat()[0], instructions, m.RecentBlockhash()))
  }

  // ---------- The loops ----------

  method NumAccountKeysFromLookups(ls: seq<MessageAddressTableLookup>) returns (count: nat)
    ensures count == NumReadonlyLookups(ls) + NumWritableLookups(ls)
  {
    count := 0;
    for i := 0 to |ls|
      invariant count == NumReadonlyLookups(ls[..i]) + NumWritableLookups(ls[..i])
    {
      assert ls[..i + 1][..i] == ls[..i];
      count := count + |ls[i].readonlyIndexes| + |ls[i].writableIndexes|;
    }
    assert ls[..|ls|] == ls;
  }

  method GetAccountKeys(m: VersionedMessage, args: DecompileArgs) returns (r: Result<MessageAccountKeys>)
    ensures r == AccountKeysOf(m, args)
  {
    match m {
      case Legacy(m) =>
        r := Success(MessageAccountKeys(m.accountKeys, None));
      case V0(m) =>
        if args.accountKeysFromLookups.Some? {
          var given := args.accountKeysFromLookups.value;
          var count := NumAccountKeysFromLookups(m.addressTableLookups);
          if count != |given.writable| + |given.readonly| {
            return Failure(LookupCountMismatch);
          }
          r := Success(MessageAccountKeys(m.staticAccountKeys, args.accountKeysFromLookups));
        } else if |args.tables| > 0 {
          var loaded :- ResolveAddressTableLookups(m.addressTableLookups, args.tables);
          r := Success(MessageAccountKeys(m.staticAccountKeys, Some(loaded)));
        } else if |m.addressTableLookups| > 0 {
          r := Failure(LookupsNotResolved);
        } else {
          r := Success(MessageAccountKeys(m.staticAccountKeys, None));
        }
    }
  }

  lemma {:induction false} DecompileFails(
    h: MessageHeader, keys: MessageAccountKeys, cs: seq<CompiledInstruction>, n: nat)
    requires n <= |cs| && DecompileInstructions(h, keys, cs[..n]).Failure?
    ensures DecompileInstructions(h, keys, cs) == DecompileInstructions(h, keys, cs[..n])
  {
    if n < |cs| {
      assert cs[..|cs| - 1][..n] == cs[..n];
      DecompileFails(h, keys, cs[..|cs| - 1], n);
    } else {
      assert cs[..n] == cs;
    }
  }

  /** The inner loop, then the program id. */
  method DecompileOne(h: MessageHeader, keys: MessageAccountKeys, c: CompiledInstruction)
    returns (r: Result<TransactionInstruction>)
    ensures r == DecompileInstruction(h, keys, c)
  {
    var numWritableSignedAccounts := h.numRequiredSignatures - h.numReadonlySignedAccounts;
    var numWritableUnsignedAccounts :=
      |keys.staticAccountKeys| - h.numRequiredSignatures - h.numReadonlyUnsignedAccounts;
    var metas: seq<AccountMeta> := [];
    for j := 0 to |c.accounts|
      invariant AllWithin(c.accounts[..j], |keys.Flat()|)
      invariant |metas| == j && forall i :: 0 <= i < j ==> metas[i] == DecompiledMeta(h, keys, c.accounts[i])
    {
      var keyIndex := c.accounts[j];
      var pubkey := Get(keys, keyIndex);
      if pubkey.None? {
        return Failure(AccountIndexNotFound);
      }
      var isSigner := keyIndex < h.numRequiredSignatures;
      var isWritable := false;
      if isSigner {
        isWritable := keyIndex < numWritableSignedAccounts;
      } else if keyIndex < |keys.staticAccountKeys| {
        isWritable := keyIndex - h.numRequiredSignatures < numWritableUnsignedAccounts;
      } else {
        isWritable := keyIndex - |keys.staticAccountKeys| < |keys.accountKeysFromLookups.value.writable|;
      }
      metas := metas + [AccountMeta(pubkey.value, isSigner, isWritable)];
    }
    assert c.accounts[..|c.accounts|] == c.accounts;
    var programId := Get(keys, c.programIdIndex);
    if programId.None? {
      return Failure(ProgramIndexNotFound);
    }
    assert metas == DecompileInstruction(h, keys, c).value.keys;
    r := Success(TransactionInstruction(metas, programId.value, c.data));
  }

  /** NewTransactionMessageFrom. */
  method NewTransactionMessageFrom(m: VersionedMessage, args: DecompileArgs) returns (r: Result<TransactionMessage>)
    ensures r == Decompile(m, args)
  {
    hide DecompileInstruction, AccountKeysOf;
    var h := m.Header();
    if h.numRequiredSignatures - h.numReadonlySignedAccounts <= 0 {
      return Failure(InvalidHeader);
    }
    if |m.StaticAccountKeys()| - h.numRequiredSignatures - h.numReadonlyUnsignedAccounts < 0 {
      return Failure(InvalidHeader);
    }
    var keys :- GetAccountKeys(m, args);
    var payerKey := Get(keys, 0);
    if payerKey.None? {
      return Failure(NoAccountKeys);
    }
    var cs := m.CompiledInstructions();
    var instructions: seq<TransactionInstruction> := [];
    for i := 0 to |cs|
      invariant DecompileInstructions(h, keys, cs[..i]) == Success(instructions)
    {
      assert cs[..i + 1][..i] == cs[..i];
      var one := DecompileOne(h, keys, cs[i]);
      if one.Failure? {
        DecompileFails(h, keys, cs, i + 1);
        return Failure(one.error);
      }
      instructions := instructions + [one.value];
    }
    assert cs[..|cs|] == cs;
    r := Success(TransactionMessage(payerKey.value, instructions, m.RecentBlockhash()));
  }

  lemma {:induction false} DecompiledElements(h: MessageHeader, keys: MessageAccountKeys, cs: seq<CompiledInstruction>)
    ensures match DecompileInstructions(h, keys, cs)
            case Success(ixs) => |ixs| == |cs| && forall i :: 0 <= i < |cs| ==>
              DecompileInstruction(h, keys, cs[i]) == Success(ixs[i])
            case Failure(_) => exists i :: 0 <= i < |cs| && DecompileInstruction(h, keys, cs[i]).Failure?
  {
    hide DecompileInstruction;
    if cs == [] {
    } else {
      DecompiledElements(h, keys, cs[..|cs| - 1]);
    }
  }

  // ---------- What is accepted and what is read ----------

  /** The keys a version 0 message is read with. Those the caller looked up need only be as many as the message looks
      up, and take their places after the static ones, the writable before the read-only, each in order; without them
      the lookups are resolved, and without tables there must be none. */
  lemma AccountKeysMeaning(m: MessageV0, args: DecompileArgs)
    ensures var ls, n := m.addressTableLookups, |m.staticAccountKeys|;
            match args.accountKeysFromLookups
            case Some(given) =>
              if |given.writable| + |given.readonly| != NumWritableLookups(ls) + NumReadonlyLookups(ls) then
                AccountKeysOf(V0(m), args) == Failure(LookupCountMismatch)
              else
                && AccountKeysOf(V0(m), args).Success?
                && var keys, w := AccountKeysOf(V0(m), args).value.Flat(), |given.writable|;
                && |keys| == n + w + |given.readonly|
                && (forall i :: 0 <= i < n ==> keys[i] == m.staticAccountKeys[i])
                && (forall i :: 0 <= i < w ==> keys[n + i] == given.writable[i])
                && (forall i :: 0 <= i < |given.readonly| ==> keys[n + w + i] == given.readonly[i])
            case None =>
              if args.tables != [] then
                match Resolve(ls, args.tables)
                case Failure(e) => AccountKeysOf(V0(m), args) == Failure(e)
                case Success(l) =>
                  && AccountKeysOf(V0(m), args).Success?
                  && AccountKeysOf(V0(m), args).value.Flat() == m.staticAccountKeys + l.writable + l.readonly
              else if ls != [] then AccountKeysOf(V0(m), args) == Failure(LookupsNotResolved)
              else
                && AccountKeysOf(V0(m), args).Success?
                && AccountKeysOf(V0(m), args).value.Flat() == m.staticAccountKeys
  {
    hide Resolve;
  }

  ghost predicate IndexesWithin(c: CompiledInstruction, n: nat) {
    c.programIdIndex < n && forall j :: 0 <= j < |c.accounts| ==> c.accounts[j] < n
  }

  /** A message is accepted exactly with a writable signer and room for its counts among the static keys, keys to read
      it with, at least one of them, and all indexes among them. Otherwise it fails in this order, an instruction's
      account indexes before its program index. */
  lemma DecompileAccepts(m: VersionedMessage, args: DecompileArgs, bad: nat)
    ensures var h, n, keys := m.Header(), |m.StaticAccountKeys()|, AccountKeysOf(m, args);
            if h.numRequiredSignatures <= h.numReadonlySignedAccounts
              || h.numRequiredSignatures + h.numReadonlyUnsignedAccounts > n then
              Decompile(m, args) == Failure(InvalidHeader)
            else if keys.Failure? then Decompile(m, args) == Failure(keys.error)
            else
              var all, cs := |keys.value.Flat()|, m.CompiledInstructions();
              if all == 0 then Decompile(m, args) == Failure(NoAccountKeys)
              else
                && (Decompile(m, args).Success? <==> forall i :: 0 <= i < |cs| ==> IndexesWithin(cs[i], all))
                && (bad < |cs| && !IndexesWithin(cs[bad], all)
                    && (forall i :: 0 <= i < bad ==> IndexesWithin(cs[i], all)) ==>
                      Decompile(m, args) == Failure(
                        if exists j :: 0 <= j < |cs[bad].accounts| && cs[bad].accounts[j] >= all then
                          AccountIndexNotFound
                        else ProgramIndexNotFound))
  {
    hide AccountKeysOf, DecompileInstructions, DecompileInstruction;
    if AccountKeysOf(m, args).Success? {
      var h, keys, cs := m.Header(), AccountKeysOf(m, args).value, m.CompiledInstructions();
      DecompiledElements(h, keys, cs);
      forall c: CompiledInstruction
        ensures IndexesWithin(c, |keys.Flat()|) <==> DecompileInstruction(h, keys, c).Success?
      {
        IndexesDecide(h, keys, c);
      }
      if bad < |cs| && !IndexesWithin(cs[bad], |keys.Flat()|)
        && forall i :: 0 <= i < bad ==> IndexesWithin(cs[i], |keys.Flat()|)
      {
        FirstBad(h, keys, cs, bad);
        IndexesDecide(h, keys, cs[bad]);
      }
    }
  }

  lemma IndexesDecide(h: MessageHeader, keys: MessageAccountKeys, c: CompiledInstruction)
    ensures IndexesWithin(c, |keys.Flat()|) <==> DecompileInstruction(h, keys, c).Success?
    ensures !IndexesWithin(c, |keys.Flat()|) ==>
              DecompileInstruction(h, keys, c) == Failure(
                if exists j :: 0 <= j < |c.accounts| && c.accounts[j] >= |keys.Flat()| then AccountIndexNotFound
                else ProgramIndexNotFound)
  {
    hide DecompiledMeta;
  }

  lemma FirstBad(h: MessageHeader, keys: MessageAccountKeys, cs: seq<CompiledInstruction>, bad: nat)
    requires bad < |cs| && DecompileInstruction(h, keys, cs[bad]).Failure?
    requires forall i :: 0 <= i < bad ==> DecompileInstruction(h, keys, cs[i]).Success?
    ensures DecompileInstructions(h, keys, cs) == Failure(DecompileInstruction(h, keys, cs[bad]).error)
  {
    hide DecompileInstruction;
    DecompiledElements(h, keys, cs[..bad]);
    assert cs[..bad + 1][..bad] == cs[..bad];
    assert DecompileInstructions(h, keys, cs[..bad + 1]) == Failure(DecompileInstruction(h, keys, cs[bad]).error);
    DecompileFails(h, keys, cs, bad + 1);
  }

  /** An instruction read with the keys at its indexes: the first required signers are signers, writable but for the
      last of them; other static keys are writable but for the last of them; looked-up keys if loaded as such. */
  ghost predicate ReadWith(
    h: MessageHeader, keys: seq<PublicKey>, static_: nat, writables: nat, c: CompiledInstruction,
    ix: TransactionInstruction)
  {
    && c.programIdIndex < |keys| && ix.programId == keys[c.programIdIndex]
    && ix.data == c.data && |ix.keys| == |c.accounts|
    && forall j :: 0 <= j < |c.accounts| ==>
         var a, r := c.accounts[j], h.numRequiredSignatures;
         && a < |keys| && ix.keys[j].pubkey == keys[a]
         && (ix.keys[j].isSigner <==> a < r)
         && (ix.keys[j].isWritable <==>
               if a < r then a < r - h.numReadonlySignedAccounts
               else if a < static_ then a < static_ - h.numReadonlyUnsignedAccounts
               else a < static_ + writables)
  }

  /** What an accepted message decompiles to. */
  lemma DecompiledFields(m: VersionedMessage, args: DecompileArgs)
    requires Decompile(m, args).Success?
    ensures AccountKeysOf(m, args).Success?
    ensures var back, keys, cs := Decompile(m, args).value, AccountKeysOf(m, args).value, m.CompiledInstructions();
            var writables :=
              if keys.accountKeysFromLookups.Some? then |keys.accountKeysFromLookups.value.writable| else 0;
            && keys.staticAccountKeys == m.StaticAccountKeys()
            && (m.Legacy? ==> keys.accountKeysFromLookups.None?)
            && keys.Flat() != [] && back.payerKey == keys.Flat()[0]
            && back.recentBlockhash == m.RecentBlockhash()
            && |back.instructions| == |cs|
            && forall i :: 0 <= i < |cs| ==>
                 ReadWith(m.Header(), keys.Flat(), |m.StaticAccountKeys()|, writables, cs[i], back.instructions[i])
  {
    var keys, cs := AccountKeysOf(m, args).value, m.CompiledInstructions();
    DecompiledElements(m.Header(), keys, cs);
    hide DecompileInstructions, DecompileInstruction, Resolve;
    var writables := if keys.accountKeysFromLookups.Some? then |keys.accountKeysFromLookups.value.writable| else 0;
    var back := Decompile(m, args).value;
    forall i | 0 <= i < |cs|
      ensures ReadWith(m.Header(), keys.Flat(), |m.StaticAccountKeys()|, writables, cs[i], back.instructions[i])
    {
      InstructionReads(m.Header(), keys, cs[i]);
    }
  }

  lemma InstructionReads(h: MessageHeader, keys: MessageAccountKeys, c: CompiledInstruction)
    requires DecompileInstruction(h, keys, c).Success?
    ensures var writables :=
              if keys.accountKeysFromLookups.Some? then |keys.accountKeysFromLookups.value.writable| else 0;
            ReadWith(
              h, keys.Flat(), |keys.staticAccountKeys|, writables, c, DecompileInstruction(h, keys, c).value)
  {
  }

  // ---------- Flags agree with the message's own accessors ----------

  lemma {:induction false} ResolvedLengths(ls: seq<MessageAddressTableLookup>, tables: seq<AddressLookupTableAccount>)
    requires Resolve(ls, tables).Success?
    ensures |Resolve(ls, tables).value.writable| == NumWritableLookups(ls)
    ensures |Resolve(ls, tables).value.readonly| == NumReadonlyLookups(ls)
  {
    if ls == [] {
    } else {
      ResolvedLengths(ls[..|ls| - 1], tables);
    }
  }

  function Min(a: int, b: int): int {
    if a < b then a else b
  }

  function Max(a: int, b: int): int {
    if a < b then b else a
  }

  function Clamp(x: int, low: int, high: int): int {
    Min(Max(x, low), high)
  }

  /** Between two limits, two ends that differ there have an index that only one of them has passed. */
  lemma EndsDiffer(a: int, b: int, low: int, high: int) returns (i: int)
    requires low <= high && Clamp(a, low, high) != Clamp(b, low, high)
    ensures low <= i < high && (i < a <==> b <= i)
  {
    i := Min(Clamp(a, low, high), Clamp(b, low, high));
  }

  /** The keys of a message, looked-up ones included. */
  function KeyCount(m: MessageV0): nat {
    |m.staticAccountKeys| + NumWritableLookups(m.addressTableLookups) + NumReadonlyLookups(m.addressTableLookups)
  }

  /** How many looked-up keys count as writable: the caller's, or those of the lookups. */
  function LoadedWritables(m: MessageV0, args: DecompileArgs): nat {
    if args.accountKeysFromLookups.Some? then |args.accountKeysFromLookups.value.writable|
    else NumWritableLookups(m.addressTableLookups)
  }

  /** Where required signers reach past the static keys, into the looked-up ones, the decompiler takes the
      writable ones to end with the writable signers and IsAccountWritable with the writable lookups; after the
      required signers, the decompiler takes them to end with the `loaded` writable keys. Both ends, cut to each
      of the two stretches, must coincide; where a stretch is empty there is nothing to check. */
  predicate FlagsAligned(m: MessageV0, loaded: nat) {
    var h, n, w := m.header, |m.staticAccountKeys|, NumWritableLookups(m.addressTableLookups);
    var signers := Clamp(h.numRequiredSignatures, n, KeyCount(m));
    && Clamp(h.numRequiredSignatures - h.numReadonlySignedAccounts, n, signers) == Clamp(n + w, n, signers)
    && Clamp(n + loaded, signers, KeyCount(m)) == Clamp(n + w, signers, KeyCount(m))
  }

  /** Where the writable keys of the stretch an index is in end, as the decompiler sees it. */
  function WritableEnd(m: MessageV0, loaded: nat, index: nat): int {
    var h := m.header;
    if index < h.numRequiredSignatures then h.numRequiredSignatures - h.numReadonlySignedAccounts
    else |m.staticAccountKeys| + loaded
  }

  lemma V0KeyCounts(m: MessageV0, args: DecompileArgs)
    requires Decompile(V0(m), args).Success?
    ensures var keys := AccountKeysOf(V0(m), args).value;
            && keys.staticAccountKeys == m.staticAccountKeys
            && |keys.Flat()| == KeyCount(m) && |m.staticAccountKeys| + LoadedWritables(m, args) <= KeyCount(m)
            && (keys.accountKeysFromLookups.Some? ==>
                  |keys.accountKeysFromLookups.value.writable| == LoadedWritables(m, args))
            && (keys.accountKeysFromLookups.None? ==> m.addressTableLookups == [])
  {
    if args.accountKeysFromLookups.None? && |args.tables| > 0 {
      ResolvedLengths(m.addressTableLookups, args.tables);
    }
  }

  lemma FlagsAt(m: MessageV0, args: DecompileArgs, index: nat)
    requires Decompile(V0(m), args).Success?
    requires index < |AccountKeysOf(V0(m), args).value.Flat()|
    ensures var meta, n := DecompiledMeta(m.header, AccountKeysOf(V0(m), args).value, index), |m.staticAccountKeys|;
            && (meta.isSigner <==> IsSignerIndex(m.header, index))
            && (index < n ==> (meta.isWritable <==> V0IsAccountWritable(m, index)))
            && (index >= n ==>
                  && (meta.isWritable <==> index < WritableEnd(m, LoadedWritables(m, args), index))
                  && (V0IsAccountWritable(m, index) <==> index < n + NumWritableLookups(m.addressTableLookups)))
  {
    V0KeyCounts(m, args);
    hide AccountKeysOf, Decompile, NumWritableLookups, NumReadonlyLookups, LoadedWritables;
  }

  lemma AlignedAt(m: MessageV0, loaded: nat, index: nat)
    requires FlagsAligned(m, loaded)
    requires |m.staticAccountKeys| <= index < KeyCount(m)
    ensures index < WritableEnd(m, loaded, index) <==>
            index < |m.staticAccountKeys| + NumWritableLookups(m.addressTableLookups)
  {
    hide NumWritableLookups, NumReadonlyLookups;
  }

  lemma MisalignedAt(m: MessageV0, loaded: nat) returns (index: nat)
    requires !FlagsAligned(m, loaded)
    requires |m.staticAccountKeys| + loaded <= KeyCount(m)
    ensures |m.staticAccountKeys| <= index < KeyCount(m)
    ensures index < WritableEnd(m, loaded, index) <==>
            index >= |m.staticAccountKeys| + NumWritableLookups(m.addressTableLookups)
  {
    hide NumWritableLookups, NumReadonlyLookups;
    var h, n, w := m.header, |m.staticAccountKeys|, NumWritableLookups(m.addressTableLookups);
    var signers := Clamp(h.numRequiredSignatures, n, KeyCount(m));
    var writers := h.numRequiredSignatures - h.numReadonlySignedAccounts;
    if Clamp(writers, n, signers) != Clamp(n + w, n, signers) {
      index := EndsDiffer(writers, n + w, n, signers);
    } else {
      index := EndsDiffer(n + loaded, n + w, signers, KeyCount(m));
    }
  }

  /** For any version 0 message the decompiler accepts, compiled or not, with tables, with keys looked up by the
      caller, or with neither, the signer flag given to every index, into lookups too, is that of IsAccountSigner,
      and the writable flags are all those of IsAccountWritable exactly when the header, the lookup counts and the
      number of writable keys loaded are aligned. */
  lemma V0FlagsAgree(m: MessageV0, args: DecompileArgs)
    requires Decompile(V0(m), args).Success?
    ensures var keys := AccountKeysOf(V0(m), args).value;
            && (forall index: nat :: index < |keys.Flat()| ==>
                  (DecompiledMeta(m.header, keys, index).isSigner <==> IsSignerIndex(m.header, index)))
            && ((forall index: nat :: index < |keys.Flat()| ==>
                   (DecompiledMeta(m.header, keys, index).isWritable <==> V0IsAccountWritable(m, index)))
                <==> FlagsAligned(m, LoadedWritables(m, args)))
  {
    V0KeyCounts(m, args);
    hide AccountKeysOf, Decompile, NumWritableLookups, NumReadonlyLookups, LoadedWritables, DecompiledMeta;
    hide V0IsAccountWritable, IsSignerIndex, FlagsAligned;
    var keys := AccountKeysOf(V0(m), args).value;
    forall index: nat | index < |keys.Flat()|
      ensures DecompiledMeta(m.header, keys, index).isSigner <==> IsSignerIndex(m.header, index)
      ensures FlagsAligned(m, LoadedWritables(m, args)) ==>
                (DecompiledMeta(m.header, keys, index).isWritable <==> V0IsAccountWritable(m, index))
    {
      FlagsAt(m, args, index);
      if FlagsAligned(m, LoadedWritables(m, args)) && index >= |m.staticAccountKeys| {
        AlignedAt(m, LoadedWritables(m, args), index);
      }
    }
    if !FlagsAligned(m, LoadedWritables(m, args)) {
      var index := MisalignedAt(m, LoadedWritables(m, args));
      FlagsAt(m, args, index);
    }
  }

  /** So on every message whose last header count is not negative, which holds of all headers from a compiler or
      the wire, they agree with tables always, and with keys looked up by the caller exactly if as many of these are
      writable as the message says. */
  lemma NonnegativeCountAgrees(m: MessageV0, args: DecompileArgs)
    requires Decompile(V0(m), args).Success? && m.header.numReadonlyUnsignedAccounts >= 0
    ensures var keys := AccountKeysOf(V0(m), args).value;
            (forall index: nat :: index < |keys.Flat()| ==>
               && (DecompiledMeta(m.header, keys, index).isSigner <==> IsSignerIndex(m.header, index))
               && (DecompiledMeta(m.header, keys, index).isWritable <==> V0IsAccountWritable(m, index)))
            <==> LoadedWritables(m, args) == NumWritableLookups(m.addressTableLookups)
    ensures args.accountKeysFromLookups.None? ==>
              LoadedWritables(m, args) == NumWritableLookups(m.addressTableLookups)
  {
    V0FlagsAgree(m, args);
    assert FlagsAligned(m, LoadedWritables(m, args)) <==>
           LoadedWritables(m, args) == NumWritableLookups(m.addressTableLookups);
    hide DecompiledMeta, V0IsAccountWritable, FlagsAligned, AccountKeysOf, Decompile;
  }

  /** A payer, and one key to be looked up to read. */
  function OneReadonlyLookup(p: PublicKey, k: PublicKey): MessageV0 {
    MessageV0(MessageHeader(1, 0, 0), [p], SomeBlockhash(0), [], [MessageAddressTableLookup(k, [], [0])])
  }

  /** Loaded as a writable one, the count of keys still matches. */
  lemma OtherSplitDisagrees(p: PublicKey, k: PublicKey)
    ensures var m, args := OneReadonlyLookup(p, k), DecompileArgs(Some(LoadedAddresses([k], [])), []);
            && Decompile(V0(m), args).Success?
            && |AccountKeysOf(V0(m), args).value.Flat()| == 2
            && DecompiledMeta(m.header, AccountKeysOf(V0(m), args).value, 1).isWritable
            && !V0IsAccountWritable(m, 1) && !FlagsAligned(m, LoadedWritables(m, args))
  {
    var ls := OneReadonlyLookup(p, k).addressTableLookups;
    assert ls[..|ls| - 1] == [];
    assert NumWritableLookups(ls) == 0;
    assert NumReadonlyLookups(ls) == NumReadonlyLookups([]) + |ls[0].readonlyIndexes|;
  }

  /** A header that claims three signers and minus two read-only keys over one static key. */
  function NegativeCount(k: PublicKey): MessageV0 {
    MessageV0(MessageHeader(3, 0, -2), [k], SomeBlockhash(0), [], [MessageAddressTableLookup(k, [], [0])])
  }

  lemma NegativeCountDisagrees(k: PublicKey)
    ensures var m, args := NegativeCount(k), DecompileArgs(None, [AddressLookupTableAccount(k, [k])]);
            && Decompile(V0(m), args).Success?
            && |AccountKeysOf(V0(m), args).value.Flat()| == 2
            && DecompiledMeta(m.header, AccountKeysOf(V0(m), args).value, 1).isWritable
            && !V0IsAccountWritable(m, 1) && !FlagsAligned(m, LoadedWritables(m, args))
  {
    var l, t := MessageAddressTableLookup(k, [], [0]), AddressLookupTableAccount(k, [k]);
    var ls := [l];
    assert ls[..|ls| - 1] == [] && ls[|ls| - 1] == l;
    assert Entries([k], [0]) == [k] && Entries([k], []) == [];
    assert ResolveOne(l, [t]) == Success(LoadedAddresses([], [k]));
    hide ResolveOne;
    var none: seq<PublicKey> := [];
    assert none + [k] == [k] && none + none == none;
    assert Resolve(ls, [t]) == Success(LoadedAddresses([], [k]));
    assert NumWritableLookups(ls) == 0 && NumReadonlyLookups(ls) == 1;
  }

  lemma LegacyFlagsAgree(m: Message, args: DecompileArgs, index: nat)
    requires index < |m.accountKeys|
    ensures var meta := DecompiledMeta(m.header, AccountKeysOf(Legacy(m), args).value, index);
            && (meta.isSigner <==> IsSignerIndex(m.header, index))
            && (meta.isWritable <==> LegacyIsAccountWritable(m, index))
  {
  }
}
