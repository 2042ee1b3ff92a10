/** Merging account flags into a map of keys, draining keys into lookup tables, and laying the rest out
    (web3/message_compiled_keys.go). Go ranges over a map in an arbitrary order; each such loop here picks
    any remaining key, so what is proved holds for every order. */
module CompiledKeys {
  import opened Basics
  import opened Messages

  datatype CompiledKeyMeta = CompiledKeyMeta(isSigner: bool, isWritable: bool, isInvoked: bool)

  type KeyMetaMap = map<PublicKey, CompiledKeyMeta>

  datatype AddressLookupTableAccount = AddressLookupTableAccount(key: PublicKey, addresses: seq<PublicKey>)

  datatype LoadedAddresses = LoadedAddresses(writable: seq<PublicKey>, readonly: seq<PublicKey>)

  // ---------- Merged flags ----------

  function ProgramSet(ixs: seq<TransactionInstruction>): set<PublicKey> {
    set ix | ix in ixs :: ix.programId
  }

  /** One entry for each key named, with its flags or-ed; the payer signs and writes. */
  function MergedFor(ms: seq<AccountMeta>, invoked: set<PublicKey>, payer: PublicKey): KeyMetaMap {
    map k | k in KeySet(ms) + invoked + {payer} ::
      CompiledKeyMeta(k == payer || Signs(ms, k), k == payer || Writes(ms, k), k in invoked)
  }

  function MergedKeys(ixs: seq<TransactionInstruction>, payer: PublicKey): KeyMetaMap {
    MergedFor(Metas(ixs), ProgramSet(ixs), payer)
  }

  /** The map agrees with the merged metas: exactly the keys used and the payer, invoked if a program. */
  lemma MergedKeysMeaning(ixs: seq<TransactionInstruction>, payer: PublicKey)
    ensures MergedKeys(ixs, payer).Keys == KeySet(Metas(ixs)) + {payer}
    ensures forall k :: k in MergedKeys(ixs, payer) ==>
              var meta := MergedMeta(ixs, payer, k);
              MergedKeys(ixs, payer)[k] == CompiledKeyMeta(meta.isSigner, meta.isWritable, Invokes(ixs, k))
  {
    forall k | k in ProgramSet(ixs) ensures k in KeySet(Metas(ixs)) {
      var ix :| ix in ixs && ix.programId == k;
      var i :| 0 <= i < |ixs| && ixs[i] == ix;
      InstructionKeysUsed(ixs, i);
    }
  }

  /** One more account meta. */
  lemma MergeAccount(ms: seq<AccountMeta>, m: AccountMeta, invoked: set<PublicKey>, payer: PublicKey)
    ensures var k, old_ := m.pubkey, MergedFor(ms, invoked, payer);
            var before := if k in old_ then old_[k] else CompiledKeyMeta(false, false, false);
            MergedFor(ms + [m], invoked, payer) ==
              old_[k := CompiledKeyMeta(
                before.isSigner || m.isSigner, before.isWritable || m.isWritable, before.isInvoked)]
  {
    AppendMeta(ms, m);
  }

  /** One more invoked program, listed or not. */
  lemma MergeProgram(ms: seq<AccountMeta>, k: PublicKey, invoked: set<PublicKey>, payer: PublicKey)
    ensures var old_ := MergedFor(ms, invoked, payer);
            var before := if k in old_ then old_[k] else CompiledKeyMeta(false, false, false);
            MergedFor(ms, invoked + {k}, payer) == old_[k := before.(isInvoked := true)]
    ensures k in invoked ==>
            MergedFor(ms + [AccountMeta(k, false, false)], invoked, payer) == MergedFor(ms, invoked, payer)
  {
    MergeAccount(ms, AccountMeta(k, false, false), invoked, payer);
  }

  lemma InstructionMerged(ixs: seq<TransactionInstruction>, i: nat, payer: PublicKey)
    requires i < |ixs|
    ensures MergedFor(Metas(ixs[..i]) + ixs[i].keys, ProgramSet(ixs[..i]) + {ixs[i].programId}, payer)
            == MergedKeys(ixs[..i + 1], payer)
  {
    var ix := ixs[i];
    assert ixs[..i + 1] == ixs[..i] + [ix];
    assert ProgramSet(ixs[..i + 1]) == ProgramSet(ixs[..i]) + {ix.programId};
    hide MergedFor;
    MergeProgram(Metas(ixs[..i]) + ix.keys, ix.programId, ProgramSet(ixs[..i]) + {ix.programId}, payer);
  }

  // ---------- Static layout ----------

  function KeyRank(m: CompiledKeyMeta): nat {
    FlagRank(m.isSigner, m.isWritable)
  }

  /** The keys of one rank, in the order met. */
  function Select(order: seq<PublicKey>, metas: KeyMetaMap, rank: nat): seq<PublicKey> {
    if order == [] then []
    else
      var last := order[|order| - 1];
      Select(order[..|order| - 1], metas, rank)
      + (if last in metas && KeyRank(metas[last]) == rank then [last] else [])
  }

  datatype Components = Components(header: MessageHeader, keys: seq<PublicKey>)

  /** getMessageComponents when the map is ranged over in a given order. */
  function ComponentsInOrder(order: seq<PublicKey>, metas: KeyMetaMap, payer: PublicKey): Result<Components> {
    if |metas| > 256 then Failure(TooManyStaticKeys)
    else
      var writableSigners, readonlySigners := Select(order, metas, 0), Select(order, metas, 1);
      var writableNonSigners, readonlyNonSigners := Select(order, metas, 2), Select(order, metas, 3);
      if writableSigners == [] then Failure(NoWritableSigner)
      else if writableSigners[0] != payer then Failure(FirstSignerNotPayer)
      else Success(Components(
        MessageHeader(|writableSigners| + |readonlySigners|, |readonlySigners|, |readonlyNonSigners|),
        writableSigners + readonlySigners + writableNonSigners + readonlyNonSigners))
  }

  /** The rank a header gives to position `i` of `n`. */
  function RankAt(h: MessageHeader, n: int, i: int): nat {
    if i < h.numRequiredSignatures - h.numReadonlySignedAccounts then 0
    else if i < h.numRequiredSignatures then 1
    else if i < n - h.numReadonlyUnsignedAccounts then 2
    else 3
  }

  /** Every key of the map once, the payer first, and the header counts tell each key's rank. */
  ghost predicate Laid(c: Components, metas: KeyMetaMap, payer: PublicKey) {
    && Lists(c.keys, metas.Keys)
    && c.keys != [] && c.keys[0] == payer
    && 0 <= c.header.numReadonlySignedAccounts < c.header.numRequiredSignatures
    && 0 <= c.header.numReadonlyUnsignedAccounts
    && c.header.numRequiredSignatures + c.header.numReadonlyUnsignedAccounts <= |c.keys|
    && forall i :: 0 <= i < |c.keys| ==> KeyRank(metas[c.keys[i]]) == RankAt(c.header, |c.keys|, i)
  }

  lemma {:induction false} SelectMembers(order: seq<PublicKey>, metas: KeyMetaMap, rank: nat)
    ensures forall k :: k in Select(order, metas, rank) <==> k in order && k in metas && KeyRank(metas[k]) == rank
    ensures NoDuplicates(order) ==> NoDuplicates(Select(order, metas, rank))
  {
    hide KeyRank;
    if order == [] {
    } else {
      var n := |order| - 1;
      SelectMembers(order[..n], metas, rank);
      assert order == order[..n] + [order[n]];
      var s := Select(order[..n], metas, rank);
      forall i | 0 <= i < |s| ensures s[i] in order[..n] {
        assert s[i] in s;
      }
    }
  }

  lemma SelectNext(order: seq<PublicKey>, key: PublicKey, metas: KeyMetaMap, rank: nat)
    requires key in metas
    ensures Select(order + [key], metas, rank) ==
            if KeyRank(metas[key]) == rank then Select(order, metas, rank) + [key] else Select(order, metas, rank)
  {
    assert (order + [key])[..|order|] == order;
  }

  /** Two segments of different ranks share no key. */
  lemma Concat(a: seq<PublicKey>, b: seq<PublicKey>)
    requires NoDuplicates(a) && NoDuplicates(b) && forall k :: k in a ==> k !in b
    ensures NoDuplicates(a + b)
    ensures forall k :: k in a + b <==> k in a || k in b
  {
    forall i, j | 0 <= i < |a| && 0 <= j < |b| ensures a[i] != b[j] {
      assert a[i] in a && b[j] in b;
    }
  }

  /** In every order in which getMessageComponents succeeds, the result is laid out. */
  lemma ComponentsLaid(order: seq<PublicKey>, metas: KeyMetaMap, payer: PublicKey)
    requires Lists(order, metas.Keys) && ComponentsInOrder(order, metas, payer).Success?
    ensures Laid(ComponentsInOrder(order, metas, payer).value, metas, payer)
  {
    SelectSegment(order, metas, 0);
    SelectSegment(order, metas, 1);
    SelectSegment(order, metas, 2);
    SelectSegment(order, metas, 3);
    hide Select, IsSegment, Laid;
    SegmentsLaid(Select(order, metas, 0), Select(order, metas, 1), Select(order, metas, 2), Select(order, metas, 3),
      metas, payer);
  }

  lemma SelectSegment(order: seq<PublicKey>, metas: KeyMetaMap, rank: nat)
    requires Lists(order, metas.Keys)
    ensures IsSegment(Select(order, metas, rank), metas, rank)
  {
    SelectMembers(order, metas, rank);
    hide Select, KeyRank;
    var s := Select(order, metas, rank);
    assert forall i :: 0 <= i < |s| ==> s[i] in s;
  }

  ghost predicate IsSegment(s: seq<PublicKey>, metas: KeyMetaMap, rank: nat) {
    && NoDuplicates(s)
    && (forall i :: 0 <= i < |s| ==> s[i] in metas && KeyRank(metas[s[i]]) == rank)
    && (forall k :: k in metas && KeyRank(metas[k]) == rank ==> k in s)
  }

  /** Four segments, one per rank, put end to end. */
  lemma SegmentsLaid(
    s0: seq<PublicKey>, s1: seq<PublicKey>, s2: seq<PublicKey>, s3: seq<PublicKey>, metas: KeyMetaMap, payer: PublicKey)
    requires IsSegment(s0, metas, 0) && IsSegment(s1, metas, 1) && IsSegment(s2, metas, 2) && IsSegment(s3, metas, 3)
    requires s0 != [] && s0[0] == payer
    ensures Laid(Components(MessageHeader(|s0| + |s1|, |s1|, |s3|), s0 + s1 + s2 + s3), metas, payer)
  {
    var keys, h := s0 + s1 + s2 + s3, MessageHeader(|s0| + |s1|, |s1|, |s3|);
    assert NoDuplicates(keys) by {
      hide KeyRank;
      Concat(s0, s1);
      Concat(s0 + s1, s2);
      Concat(s0 + s1 + s2, s3);
    }
    forall i | 0 <= i < |keys| ensures keys[i] in metas.Keys && KeyRank(metas[keys[i]]) == RankAt(h, |keys|, i) {
      hide KeyRank;
      SegmentAt(s0, s1, s2, s3, i);
    }
    forall k | k in metas.Keys ensures k in keys {
      KeyRankBound(metas[k]);
    }
  }

  lemma KeyRankBound(m: CompiledKeyMeta)
    ensures KeyRank(m) in {0, 1, 2, 3}
  {
  }

  /** Which segment a position falls in. */
  lemma SegmentAt(s0: seq<PublicKey>, s1: seq<PublicKey>, s2: seq<PublicKey>, s3: seq<PublicKey>, i: nat)
    requires i < |s0| + |s1| + |s2| + |s3|
    ensures var s := s0 + s1 + s2 + s3;
            s[i] in (if i < |s0| then s0 else if i < |s0| + |s1| then s1 else if i < |s0| + |s1| + |s2| then s2 else s3)
  {
    var s := s0 + s1 + s2 + s3;
    if i < |s0| {
      assert s[i] == s0[i];
    } else if i < |s0| + |s1| {
      assert s[i] == s1[i - |s0|];
    } else if i < |s0| + |s1| + |s2| {
      assert s[i] == s2[i - |s0| - |s1|];
    } else {
      assert s[i] == s3[i - |s0| - |s1| - |s2|];
    }
  }

  /** No other key signs and writes. */
  ghost predicate OnlyPayerSignsAndWrites(metas: KeyMetaMap, payer: PublicKey) {
    payer in metas && forall k :: k in metas ==> (KeyRank(metas[k]) == 0 <==> k == payer)
  }

  /** It succeeds in every order exactly when there are at most 256 keys and the payer is the only writable
      signer: with another one, some order meets that one first. */
  lemma SucceedsInEveryOrder(metas: KeyMetaMap, payer: PublicKey)
    requires payer in metas && KeyRank(metas[payer]) == 0
    ensures (forall order :: Lists(order, metas.Keys) ==> ComponentsInOrder(order, metas, payer).Success?)
            <==> |metas| <= 256 && OnlyPayerSignsAndWrites(metas, payer)
  {
    if |metas| <= 256 && OnlyPayerSignsAndWrites(metas, payer) {
      forall order | Lists(order, metas.Keys) ensures ComponentsInOrder(order, metas, payer).Success? {
        OnlyPayerSucceeds(order, metas, payer);
      }
    } else if |metas| <= 256 {
      var k :| k in metas && KeyRank(metas[k]) == 0 && k != payer;
      var rest := SomeListing(metas.Keys - {k});
      var order := [k] + rest;
      SelectFirst(k, rest, metas);
      assert Lists(order, metas.Keys);
      assert ComponentsInOrder(order, metas, payer) == Failure(FirstSignerNotPayer);
    } else {
      var order := SomeListing(metas.Keys);
      assert ComponentsInOrder(order, metas, payer).Failure?;
    }
  }

  lemma OnlyPayerSucceeds(order: seq<PublicKey>, metas: KeyMetaMap, payer: PublicKey)
    requires Lists(order, metas.Keys) && |metas| <= 256 && OnlyPayerSignsAndWrites(metas, payer)
    ensures ComponentsInOrder(order, metas, payer).Success?
  {
    SelectMembers(order, metas, 0);
    var s := Select(order, metas, 0);
    assert payer in s;
    assert s[0] in s;
  }

  lemma {:induction false} SelectFirst(k: PublicKey, rest: seq<PublicKey>, metas: KeyMetaMap)
    requires k in metas && KeyRank(metas[k]) == 0
    ensures var s := Select([k] + rest, metas, 0); s != [] && s[0] == k
  {
    var order := [k] + rest;
    if rest == [] {
      assert order[..0] == [];
    } else {
      assert order[..|order| - 1] == [k] + rest[..|rest| - 1];
      SelectFirst(k, rest[..|rest| - 1], metas);
    }
  }

  // ---------- Draining ----------

  predicate IsDrainableWritable(m: CompiledKeyMeta) {
    !m.isSigner && !m.isInvoked && m.isWritable
  }

  predicate IsDrainableReadonly(m: CompiledKeyMeta) {
    !m.isSigner && !m.isInvoked && !m.isWritable
  }

  /** The keys a drain looks for in a table and finds there. */
  ghost function Found(metas: KeyMetaMap, entries: seq<PublicKey>, filter: CompiledKeyMeta -> bool): set<PublicKey> {
    set k | k in metas && filter(metas[k]) && k in entries
  }

  /** The guard of the drain: an index past 256 is refused; 256 itself is let through. */
  ghost predicate Overflows(entries: seq<PublicKey>, keys: set<PublicKey>) {
    exists k :: k in keys && FindIndex(entries, k) > 256
  }

  /** The byte recorded for a key: 256 is cut to 0. */
  function IndexByte(entries: seq<PublicKey>, k: PublicKey): byte {
    AsByte(FindIndex(entries, k))
  }

  function IndexBytes(entries: seq<PublicKey>, keys: seq<PublicKey>): seq<byte> {
    seq(|keys|, i requires 0 <= i < |keys| => IndexByte(entries, keys[i]))
  }

  datatype Drain = Drain(indexes: seq<byte>, keys: seq<PublicKey>)

  /** What a drain may do, over all orders: on success it takes exactly the keys found, in some order; if one
      of them is past 256 it fails with some of the others already deleted. */
  ghost predicate DrainOutcome(
    before: KeyMetaMap, entries: seq<PublicKey>, filter: CompiledKeyMeta -> bool, r: Result<Drain>, after: KeyMetaMap)
  {
    var found := Found(before, entries, filter);
    match r
    case Success(d) =>
      && !Overflows(entries, found)
      && Lists(d.keys, found) && d.indexes == IndexBytes(entries, d.keys)
      && after == before - found
    case Failure(e) =>
      && e == TableIndexExceeded && Overflows(entries, found)
      && exists lost: set<PublicKey> :: lost <= found && !Overflows(entries, lost) && after == before - lost
  }

  datatype Extracted = Extracted(lookup: MessageAddressTableLookup, keys: LoadedAddresses)

  ghost function WritableIn(metas: KeyMetaMap, t: AddressLookupTableAccount): set<PublicKey> {
    Found(metas, t.addresses, IsDrainableWritable)
  }

  ghost function ReadonlyIn(metas: KeyMetaMap, t: AddressLookupTableAccount): set<PublicKey> {
    Found(metas, t.addresses, IsDrainableReadonly)
  }

  /** The read-only keys a table takes: all it holds, or none if one of them is past 256. */
  ghost function KeptReadonly(metas: KeyMetaMap, t: AddressLookupTableAccount): set<PublicKey> {
    if Overflows(t.addresses, ReadonlyIn(metas, t)) then {} else ReadonlyIn(metas, t)
  }

  /** What a table can delete without recording it: what some order of the second drain meets before a key
      past 256 stops it. */
  ghost predicate MayLose(before: KeyMetaMap, t: AddressLookupTableAccount, lost: set<PublicKey>) {
    && lost <= ReadonlyIn(before, t) && !Overflows(t.addresses, lost)
    && (lost != {} ==> Overflows(t.addresses, ReadonlyIn(before, t)))
  }

  /** What extractTableLookup may do. The error of the second drain is dropped: its keys stay unrecorded,
      and the ones it had already deleted are lost. */
  ghost predicate ExtractOutcome(
    before: KeyMetaMap, t: AddressLookupTableAccount, r: Result<Option<Extracted>>, after: KeyMetaMap,
    lost: set<PublicKey>)
  {
    var w, kept := WritableIn(before, t), KeptReadonly(before, t);
    if Overflows(t.addresses, w) then r == Failure(TableIndexExceeded)
    else
      && r.Success?
      && var x := r.value;
      && MayLose(before, t, lost)
      && after == before - (w + kept + lost)
      && (x.None? <==> w + kept == {})
      && (x.Some? ==>
            && Lists(x.value.keys.writable, w) && Lists(x.value.keys.readonly, kept)
            && x.value.lookup == MessageAddressTableLookup(
                 t.key, IndexBytes(t.addresses, x.value.keys.writable), IndexBytes(t.addresses, x.value.keys.readonly)))
  }

  /** The found keys an order meets before the first one past 256. */
  ghost function MetBeforeStop(order: seq<PublicKey>, entries: seq<PublicKey>, found: set<PublicKey>): set<PublicKey> {
    if order == [] || (order[0] in found && FindIndex(entries, order[0]) > 256) then {}
    else (if order[0] in found then {order[0]} else {}) + MetBeforeStop(order[1..], entries, found)
  }

  /** Every set a table may lose is lost in some order of the map. */
  lemma LossHasAnOrder(before: KeyMetaMap, t: AddressLookupTableAccount, lost: set<PublicKey>)
    returns (order: seq<PublicKey>)
    requires MayLose(before, t, lost) && Overflows(t.addresses, ReadonlyIn(before, t))
    ensures Lists(order, before.Keys) && MetBeforeStop(order, t.addresses, ReadonlyIn(before, t)) == lost
  {
    var found := ReadonlyIn(before, t);
    assert found <= before.Keys;
    hide ReadonlyIn, FindIndex;
    var k :| k in found && FindIndex(t.addresses, k) > 256;
    var first, rest := SomeListing(lost), SomeListing(before.Keys - lost - {k});
    order := first + ([k] + rest);
    ThreeParts(first, k, rest, lost, before.Keys);
    ListedAll(first, lost);
    hide Lists;
    MetPrefix(first, [k] + rest, t.addresses, found);
    StopsAtOnce(k, rest, t.addresses, found);
  }

  lemma ListedAll(s: seq<PublicKey>, elems: set<PublicKey>)
    requires Lists(s, elems)
    ensures forall x :: x in elems <==> x in s
    ensures forall i :: 0 <= i < |s| ==> s[i] in elems
  {
  }

  lemma StopsAtOnce(k: PublicKey, rest: seq<PublicKey>, entries: seq<PublicKey>, found: set<PublicKey>)
    requires k in found && FindIndex(entries, k) > 256
    ensures MetBeforeStop([k] + rest, entries, found) == {}
  {
    hide FindIndex;
  }

  lemma ThreeParts(
    first: seq<PublicKey>, k: PublicKey, rest: seq<PublicKey>, lost: set<PublicKey>, keys: set<PublicKey>)
    requires Lists(first, lost) && Lists(rest, keys - lost - {k})
    requires lost <= keys && k in keys && k !in lost
    ensures Lists(first + ([k] + rest), keys)
  {
    var order := first + ([k] + rest);
    forall x | x in keys ensures x in order {
      assert x in first || x == k || x in rest;
      assert order[|first|] == k;
    }
    forall i | 0 <= i < |order|
      ensures order[i] in (if i < |first| then lost else if i == |first| then {k} else keys - lost - {k})
    {
    }
    forall i, j | 0 <= i < j < |order| ensures order[i] != order[j] {
      if j < |first| {
        assert first[i] != first[j];
      } else if i > |first| {
        assert rest[i - |first| - 1] != rest[j - |first| - 1];
      }
    }
  }

  lemma {:induction false} MetPrefix(
    first: seq<PublicKey>, rest: seq<PublicKey>, entries: seq<PublicKey>, found: set<PublicKey>)
    requires forall i :: 0 <= i < |first| ==> first[i] in found && FindIndex(entries, first[i]) <= 256
    ensures forall x :: x in MetBeforeStop(first + rest, entries, found) <==>
            x in first || x in MetBeforeStop(rest, entries, found)
  {
    hide FindIndex;
    if first == [] {
      assert first + rest == rest;
    } else {
      assert (first + rest)[1..] == first[1..] + rest;
      MetPrefix(first[1..], rest, entries, found);
      assert first == [first[0]] + first[1..];
    }
  }

  lemma ExtendListing(s: seq<PublicKey>, elems: set<PublicKey>, k: PublicKey)
    requires Lists(s, elems) && k !in elems
    ensures Lists(s + [k], elems + {k})
  {
  }

  class CompiledKeys {
    const payer: PublicKey
    var keyMetaMap: KeyMetaMap

    /** NewCompileKeys. */
    constructor (instructions: seq<TransactionInstruction>, payer: PublicKey)
      ensures this.payer == payer && keyMetaMap == MergedKeys(instructions, payer)
    {
      this.payer := payer;
      keyMetaMap := map[payer := CompiledKeyMeta(true, true, false)];
      new;
      for i := 0 to |instructions|
        invariant keyMetaMap == MergedKeys(instructions[..i], payer)
      {
        hide MergedFor, Metas, ProgramSet;
        MergeInstruction(instructions[i], Metas(instructions[..i]), ProgramSet(instructions[..i]));
        InstructionMerged(instructions, i, payer);
      }
      assert instructions[..|instructions|] == instructions;
    }

    /** One turn of the outer loop: the program first, then each account. */
    method MergeInstruction(ix: TransactionInstruction, ghost ms: seq<AccountMeta>, ghost invoked: set<PublicKey>)
      requires keyMetaMap == MergedFor(ms, invoked, payer)
      modifies this
      ensures keyMetaMap == MergedFor(ms + ix.keys, invoked + {ix.programId}, payer)
    {
      hide MergedFor;
      MergeProgram(ms, ix.programId, invoked, payer);
      SetInvoked(ix.programId);
      assert ms + ix.keys[..0] == ms;
      for j := 0 to |ix.keys|
        invariant keyMetaMap == MergedFor(ms + ix.keys[..j], invoked + {ix.programId}, payer)
      {
        MergeAccount(ms + ix.keys[..j], ix.keys[j], invoked + {ix.programId}, payer);
        assert ms + ix.keys[..j + 1] == ms + ix.keys[..j] + [ix.keys[j]];
        MergeFlags(ix.keys[j]);
      }
      assert ix.keys[..|ix.keys|] == ix.keys;
    }

    /** getOrInsertDefault(key).IsInvoked = true */
    method SetInvoked(key: PublicKey)
      modifies this
      ensures keyMetaMap == old(keyMetaMap)[key :=
                (if key in old(keyMetaMap) then old(keyMetaMap)[key] else CompiledKeyMeta(false, false, false))
                .(isInvoked := true)]
    {
      var keyMeta := if key in keyMetaMap then keyMetaMap[key] else CompiledKeyMeta(false, false, false);
      keyMetaMap := keyMetaMap[key := keyMeta.(isInvoked := true)];
    }

    /** getOrInsertDefault(meta.Pubkey), then each flag set unless already set. */
    method MergeFlags(m: AccountMeta)
      modifies this
      ensures var before :=
                if m.pubkey in old(keyMetaMap) then old(keyMetaMap)[m.pubkey] else CompiledKeyMeta(false, false, false);
              keyMetaMap == old(keyMetaMap)[m.pubkey :=
                CompiledKeyMeta(before.isSigner || m.isSigner, before.isWritable || m.isWritable, before.isInvoked)]
    {
      var keyMeta := if m.pubkey in keyMetaMap then keyMetaMap[m.pubkey] else CompiledKeyMeta(false, false, false);
      if !keyMeta.isSigner {
        keyMeta := keyMeta.(isSigner := m.isSigner);
      }
      if !keyMeta.isWritable {
        keyMeta := keyMeta.(isWritable := m.isWritable);
      }
      keyMetaMap := keyMetaMap[m.pubkey := keyMeta];
    }

    /** getMessageComponents: the order of the range is the ghost result. */
    method GetMessageComponents() returns (r: Result<Components>, ghost order: seq<PublicKey>)
      ensures Lists(order, keyMetaMap.Keys)
      ensures r == ComponentsInOrder(order, keyMetaMap, payer)
      ensures |keyMetaMap| > 256 <==> r == Failure(TooManyStaticKeys)
      ensures r.Success? ==> Laid(r.value, keyMetaMap, payer)
    {
      hide Select, Laid, Lists;
      if |keyMetaMap| > 256 {
        return Failure(TooManyStaticKeys), SomeListing(keyMetaMap.Keys);
      }
      var writableSigners, readonlySigners, writableNonSigners, readonlyNonSigners;
      writableSigners, readonlySigners, writableNonSigners, readonlyNonSigners, order := RangeSegments();
      if |writableSigners| <= 0 {
        return Failure(NoWritableSigner), order;
      }
      if writableSigners[0] != payer {
        return Failure(FirstSignerNotPayer), order;
      }
      var accounts := writableSigners + readonlySigners + writableNonSigners + readonlyNonSigners;
      ComponentsLaid(order, keyMetaMap, payer);
      r := Success(Components(
        MessageHeader(|writableSigners| + |readonlySigners|, |readonlySigners|, |readonlyNonSigners|), accounts));
    }

    /** The loop that sorts the keys into segments. */
    method RangeSegments() returns (
        s0: seq<PublicKey>, s1: seq<PublicKey>, s2: seq<PublicKey>, s3: seq<PublicKey>, ghost order: seq<PublicKey>)
      ensures Lists(order, keyMetaMap.Keys)
      ensures s0 == Select(order, keyMetaMap, 0) && s1 == Select(order, keyMetaMap, 1)
      ensures s2 == Select(order, keyMetaMap, 2) && s3 == Select(order, keyMetaMap, 3)
    {
      s0, s1, s2, s3, order := [], [], [], [], [];
      var pending := keyMetaMap.Keys;
      while pending != {}
        invariant pending <= keyMetaMap.Keys
        invariant Lists(order, keyMetaMap.Keys - pending)
        invariant s0 == Select(order, keyMetaMap, 0) && s1 == Select(order, keyMetaMap, 1)
        invariant s2 == Select(order, keyMetaMap, 2) && s3 == Select(order, keyMetaMap, 3)
        decreases |pending|
      {
        hide Select;
        var key :| key in pending;
        var value := keyMetaMap[key];
        ExtendListing(order, keyMetaMap.Keys - pending, key);
        assert keyMetaMap.Keys - (pending - {key}) == keyMetaMap.Keys - pending + {key};
        SelectNext(order, key, keyMetaMap, 0);
        SelectNext(order, key, keyMetaMap, 1);
        SelectNext(order, key, keyMetaMap, 2);
        SelectNext(order, key, keyMetaMap, 3);
        pending := pending - {key};
        order := order + [key];
        if value.isSigner && value.isWritable {
          s0 := s0 + [key];
        }
        if value.isSigner && !value.isWritable {
          s1 := s1 + [key];
        }
        if !value.isSigner && value.isWritable {
          s2 := s2 + [key];
        }
        if !value.isSigner && !value.isWritable {
          s3 := s3 + [key];
        }
      }
    }

    /** drainKeysFoundInLookupTable: deletes from the map while ranging over it. */
    method DrainKeysFoundInLookupTable(entries: seq<PublicKey>, filter: CompiledKeyMeta -> bool)
      returns (r: Result<Drain>)
      modifies this
      ensures DrainOutcome(old(keyMetaMap), entries, filter, r, keyMetaMap)
    {
      hide Found, FindIndex, IndexBytes, Overflows, Lists;
      var indexes: seq<byte>, drained: seq<PublicKey> := [], [];
      var pending := keyMetaMap.Keys;
      ghost var all := keyMetaMap;
      ghost var found := Found(all, entries, filter);
      ghost var taken: set<PublicKey> := {};
      DrainNone(entries);
      FoundKeys(all, entries, filter);
      while pending != {}
        invariant pending <= all.Keys
        invariant taken == found - pending
        invariant keyMetaMap == all - taken
        invariant Lists(drained, taken) && indexes == IndexBytes(entries, drained) && !Overflows(entries, taken)
        decreases |pending|
      {
        var address :| address in pending;
        var keyMeta := keyMetaMap[address];
        var lookupTableIndex := FindIndex(entries, address);
        FoundMember(all, entries, filter, address);
        if filter(keyMeta) {
          if lookupTableIndex >= 0 {
            if lookupTableIndex > 256 {
              DrainStops(entries, found, address);
              return Failure(TableIndexExceeded);
            }
            DrainOne(entries, drained, taken, address);
            assert found - (pending - {address}) == taken + {address};
            assert all - (taken + {address}) == keyMetaMap - {address};
            indexes := indexes + [AsByte(lookupTableIndex)];
            drained := drained + [address];
            keyMetaMap := keyMetaMap - {address};
            taken := taken + {address};
          }
        }
        assert address !in found || address in taken;
        assert found - (pending - {address}) == taken;
        pending := pending - {address};
      }
      assert found - {} == found;
      r := Success(Drain(indexes, drained));
    }

    /** extractTableLookup. */
    method ExtractTableLookup(t: AddressLookupTableAccount)
      returns (r: Result<Option<Extracted>>, ghost lost: set<PublicKey>)
      modifies this
      ensures ExtractOutcome(old(keyMetaMap), t, r, keyMetaMap, lost)
    {
      ghost var before := keyMetaMap;
      lost := {};
      var writable := DrainKeysFoundInLookupTable(t.addresses, IsDrainableWritable);
      if writable.Failure? {
        return Failure(writable.error), {};
      }
      ghost var between := keyMetaMap;
      var readonly := DrainKeysFoundInLookupTable(t.addresses, IsDrainableReadonly);
      // the error of this second drain is dropped: its results are empty
      var ro := if readonly.Success? then readonly.value else Drain([], []);
      lost := SecondDrain(before, t, between, readonly, keyMetaMap);
      ExtractDone(before, t, writable.value, ro, keyMetaMap, lost);
      hide ExtractOutcome, DrainOutcome;
      if |writable.value.indexes| == 0 && |ro.indexes| == 0 {
        return Success(None), lost;
      }
      r := Success(Some(Extracted(
        MessageAddressTableLookup(t.key, writable.value.indexes, ro.indexes),
        LoadedAddresses(writable.value.keys, ro.keys))));
    }
  }

  lemma DrainNone(entries: seq<PublicKey>)
    ensures IndexBytes(entries, []) == [] && !Overflows(entries, {}) && Lists<PublicKey>([], {})
  {
  }

  lemma FoundKeys(metas: KeyMetaMap, entries: seq<PublicKey>, filter: CompiledKeyMeta -> bool)
    ensures Found(metas, entries, filter) <= metas.Keys
  {
  }

  lemma FoundMember(metas: KeyMetaMap, entries: seq<PublicKey>, filter: CompiledKeyMeta -> bool, k: PublicKey)
    requires k in metas
    ensures k in Found(metas, entries, filter) <==> filter(metas[k]) && FindIndex(entries, k) >= 0
  {
  }

  lemma DrainStops(entries: seq<PublicKey>, found: set<PublicKey>, k: PublicKey)
    requires k in found && FindIndex(entries, k) > 256
    ensures Overflows(entries, found)
  {
  }

  lemma DrainOne(entries: seq<PublicKey>, drained: seq<PublicKey>, taken: set<PublicKey>, k: PublicKey)
    requires Lists(drained, taken) && !Overflows(entries, taken) && k !in taken && FindIndex(entries, k) <= 256
    ensures Lists(drained + [k], taken + {k}) && !Overflows(entries, taken + {k})
    ensures IndexBytes(entries, drained + [k]) == IndexBytes(entries, drained) + [AsByte(FindIndex(entries, k))]
  {
    ExtendListing(drained, taken, k);
  }

  /** The end of extractTableLookup: a lookup is recorded unless both lists came out empty. */
  lemma ExtractDone(
    before: KeyMetaMap, t: AddressLookupTableAccount, w: Drain, ro: Drain, after: KeyMetaMap, lost: set<PublicKey>)
    requires !Overflows(t.addresses, WritableIn(before, t))
    requires Lists(w.keys, WritableIn(before, t)) && w.indexes == IndexBytes(t.addresses, w.keys)
    requires Lists(ro.keys, KeptReadonly(before, t)) && ro.indexes == IndexBytes(t.addresses, ro.keys)
    requires MayLose(before, t, lost)
    requires after == before - WritableIn(before, t) - (KeptReadonly(before, t) + lost)
    ensures var x := if |w.indexes| == 0 && |ro.indexes| == 0 then None
                     else Some(Extracted(MessageAddressTableLookup(t.key, w.indexes, ro.indexes),
                       LoadedAddresses(w.keys, ro.keys)));
            ExtractOutcome(before, t, Success(x), after, lost)
  {
    hide WritableIn, ReadonlyIn, KeptReadonly, Overflows, IndexBytes, MayLose;
    var wk, kept := WritableIn(before, t), KeptReadonly(before, t);
    assert |w.indexes| == |w.keys| && |ro.indexes| == |ro.keys| by {
      IndexBytesLength(t.addresses, w.keys);
      IndexBytesLength(t.addresses, ro.keys);
    }
    EmptyListing(w.keys, wk);
    EmptyListing(ro.keys, kept);
    RemoveTwice(before, wk, kept, lost);
    hide Lists;
    assert wk + kept == {} <==> wk == {} && kept == {};
  }

  lemma IndexBytesLength(entries: seq<PublicKey>, keys: seq<PublicKey>)
    ensures |IndexBytes(entries, keys)| == |keys|
  {
  }

  lemma EmptyListing(s: seq<PublicKey>, elems: set<PublicKey>)
    requires Lists(s, elems)
    ensures s == [] <==> elems == {}
  {
    if s != [] {
      assert s[0] in elems;
    }
  }

  lemma RemoveTwice(m: KeyMetaMap, a: set<PublicKey>, b: set<PublicKey>, c: set<PublicKey>)
    ensures m - a - (b + c) == m - (a + b + c)
  {
  }

  /** What a successful first drain and any second drain leave and record. */
  lemma SecondDrain(
    before: KeyMetaMap, t: AddressLookupTableAccount, between: KeyMetaMap, second: Result<Drain>, after: KeyMetaMap)
    returns (lost: set<PublicKey>)
    requires between == before - WritableIn(before, t)
    requires DrainOutcome(between, t.addresses, IsDrainableReadonly, second, after)
    ensures MayLose(before, t, lost)
    ensures after == between - (KeptReadonly(before, t) + lost)
    ensures var ro := if second.Success? then second.value else Drain([], []);
            Lists(ro.keys, KeptReadonly(before, t)) && ro.indexes == IndexBytes(t.addresses, ro.keys)
  {
    assert ReadonlyIn(between, t) == ReadonlyIn(before, t);
    if second.Success? {
      lost := {};
    } else {
      lost :| lost <= ReadonlyIn(between, t) && !Overflows(t.addresses, lost) && after == between - lost;
    }
  }
}
