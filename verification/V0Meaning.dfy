/** Which keys the version 0 compiler looks up and which it keeps static, told from the instructions and the tables
    (web3/message_compiled_keys.go:60-144). */
module V0Meaning {
  import opened Basics
  import opened Messages
  import opened CompiledKeys
  import opened MessageCompiler
  import opened V0Compiler

  // ---------- Laying out the keys left ----------

  predicate SignsAndWrites(metas: KeyMetaMap, k: PublicKey) {
    k in metas && metas[k].isSigner && metas[k].isWritable
  }

  /** Why laying out the keys fails in an order of the map: over 256 of them, or the first one that signs and writes is
      not the payer, or there is none. */
  lemma LayoutErrors(order: seq<PublicKey>, metas: KeyMetaMap, payer: PublicKey, first: nat)
    requires Lists(order, metas.Keys)
    requires first <= |order| && forall i :: 0 <= i < first ==> !SignsAndWrites(metas, order[i])
    ensures |metas| > 256 ==> ComponentsInOrder(order, metas, payer) == Failure(TooManyStaticKeys)
    ensures |metas| <= 256 && first == |order| ==>
              ComponentsInOrder(order, metas, payer) == Failure(NoWritableSigner)
    ensures |metas| <= 256 && first < |order| && SignsAndWrites(metas, order[first]) ==>
              if order[first] == payer then ComponentsInOrder(order, metas, payer).Success?
              else ComponentsInOrder(order, metas, payer) == Failure(FirstSignerNotPayer)
  {
    if first == |order| {
      NoneSelected(order, metas);
      assert order[..first] == order;
    } else if SignsAndWrites(metas, order[first]) {
      NoneSelected(order[..first], metas);
      SelectAfter(order, metas, first);
    }
    hide Select;
  }

  lemma {:induction false} NoneSelected(order: seq<PublicKey>, metas: KeyMetaMap)
    requires forall i :: 0 <= i < |order| ==> !SignsAndWrites(metas, order[i])
    ensures Select(order, metas, 0) == []
  {
    if order == [] {
    } else {
      NoneSelected(order[..|order| - 1], metas);
    }
  }

  lemma {:induction false} SelectAfter(order: seq<PublicKey>, metas: KeyMetaMap, first: nat)
    requires first < |order| && Select(order[..first], metas, 0) == [] && SignsAndWrites(metas, order[first])
    ensures Select(order, metas, 0) != [] && Select(order, metas, 0)[0] == order[first]
  {
    if |order| == first + 1 {
    } else {
      var init := order[..|order| - 1];
      assert init[..first] == order[..first];
      SelectAfter(init, metas, first);
    }
  }

  // ---------- Draining ----------

  /** The first position of a key in a table. */
  predicate EntryAtFirst(t: AddressLookupTableAccount, p: nat, k: PublicKey) {
    p < |t.addresses| && t.addresses[p] == k && forall q :: 0 <= q < p ==> t.addresses[q] != k
  }

  lemma EntryIndex(t: AddressLookupTableAccount, k: PublicKey)
    requires k in t.addresses
    ensures EntryAtFirst(t, FindIndex(t.addresses, k), k)
  {
  }

  /** A table whose read-only drain fails: it holds a key that is only read past position 256. */
  ghost predicate StopsReading(metas: KeyMetaMap, t: AddressLookupTableAccount) {
    exists k, p: nat :: p > 256 && EntryAtFirst(t, p, k)
      && k in metas && !metas[k].isSigner && !metas[k].isInvoked && !metas[k].isWritable
  }

  /** A key left after some tables that hold it signs, is a program, or is only read while the table stops reading. */
  lemma {:induction false} LeftOver(metas: KeyMetaMap, tables: seq<AddressLookupTableAccount>, k: PublicKey, i: nat)
    requires k in Left(metas, tables) && i < |tables| && k in tables[i].addresses
    ensures k in metas
    ensures metas[k].isSigner || metas[k].isInvoked || (!metas[k].isWritable && StopsReading(metas, tables[i]))
  {
    var n := |tables| - 1;
    var before, t := Left(metas, tables[..n]), tables[n];
    LeftWithin(metas, tables[..n]);
    if i < n {
      LeftOver(metas, tables[..n], k, i);
    } else if !metas[k].isSigner && !metas[k].isInvoked {
      assert k !in WritableIn(before, t) && k !in KeptReadonly(before, t);
      if !metas[k].isWritable {
        assert k in ReadonlyIn(before, t);
        assert Overflows(t.addresses, ReadonlyIn(before, t));
        var other :| other in ReadonlyIn(before, t) && FindIndex(t.addresses, other) > 256;
        EntryIndex(t, other);
        assert other in before;
      }
    }
  }

  lemma {:induction false} LeftWithin(metas: KeyMetaMap, tables: seq<AddressLookupTableAccount>)
    ensures Left(metas, tables).Keys <= metas.Keys && forall k :: k in Left(metas, tables) ==>
              Left(metas, tables)[k] == metas[k]
  {
    hide Taken;
    if tables == [] {
    } else {
      LeftWithin(metas, tables[..|tables| - 1]);
    }
  }

  /** What is looked up is in some table. */
  lemma {:induction false} LookedUpInTable(
    log: seq<Extraction>, metas: KeyMetaMap, tables: seq<AddressLookupTableAccount>, k: PublicKey)
    requires Chosen(log, metas, tables) && (k in Writables(log) || k in Readonlys(log))
    ensures exists i :: 0 <= i < |tables| && k in tables[i].addresses
  {
    var n := |tables| - 1;
    var init, t := tables[..n], tables[n];
    var before := Left(metas, init);
    if Taken(before, t) == {} {
      LookedUpInTable(log, metas, init, k);
      var i :| 0 <= i < |init| && k in init[i].addresses;
      assert tables[i] == init[i];
    } else {
      var x := log[|log| - 1];
      if k in x.keys.writable || k in x.keys.readonly {
        TakenInTable(before, t, x, k);
      } else {
        LookedUpInTable(log[..|log| - 1], metas, init, k);
        var i :| 0 <= i < |init| && k in init[i].addresses;
        assert tables[i] == init[i];
      }
    }
  }

  lemma TakenInTable(before: KeyMetaMap, t: AddressLookupTableAccount, x: Extraction, k: PublicKey)
    requires Lists(x.keys.writable, WritableIn(before, t)) && Lists(x.keys.readonly, KeptReadonly(before, t))
    requires k in x.keys.writable || k in x.keys.readonly
    ensures k in t.addresses
  {
    if k in x.keys.writable {
      var i :| 0 <= i < |x.keys.writable| && x.keys.writable[i] == k;
    } else {
      var i :| 0 <= i < |x.keys.readonly| && x.keys.readonly[i] == k;
    }
  }

  /** A key that never has to be static: no signer, not the payer and no program. */
  ghost predicate MayBeLookedUp(payer: PublicKey, ixs: seq<TransactionInstruction>, k: PublicKey) {
    k != payer && !AsksToSign(ixs, k) && (forall i :: 0 <= i < |ixs| ==> ixs[i].programId != k) && Uses(ixs, k)
  }

  /** A table is read no further once it holds a key that may be looked up and is only read past position 256. */
  ghost predicate ReadsNothing(payer: PublicKey, ixs: seq<TransactionInstruction>, t: AddressLookupTableAccount) {
    exists k, p: nat ::
      p > 256 && EntryAtFirst(t, p, k) && MayBeLookedUp(payer, ixs, k) && !AsksToWrite(ixs, k)
  }

  /** The keys of a compiled version 0 message: those looked up to write, or to read, are in a table, may be looked up
      and are written, or not. One that may be looked up and is in a table stays static only if it is not written and
      every table that holds it reads nothing. */
  lemma LookedUpWhenFound(
    payer: PublicKey, ixs: seq<TransactionInstruction>, blockhash: Blockhash, tables: seq<AddressLookupTableAccount>,
    m: MessageV0, log: seq<Extraction>, k: PublicKey)
    requires CompiledV0(payer, ixs, blockhash, tables, m, log)
    ensures k in Writables(log) ==> MayBeLookedUp(payer, ixs, k) && AsksToWrite(ixs, k)
    ensures k in Readonlys(log) ==> MayBeLookedUp(payer, ixs, k) && !AsksToWrite(ixs, k)
    ensures k in Writables(log) || k in Readonlys(log) ==> exists i :: 0 <= i < |tables| && k in tables[i].addresses
    ensures k in m.staticAccountKeys && MayBeLookedUp(payer, ixs, k) ==>
              forall i :: 0 <= i < |tables| && k in tables[i].addresses ==>
                !AsksToWrite(ixs, k) && ReadsNothing(payer, ixs, tables[i])
  {
    var metas := MergedKeys(ixs, payer);
    Conserved(log, metas, tables);
    KeyTold(payer, ixs, k);
    assert k in m.staticAccountKeys ==> k in Left(metas, tables).Keys;
    hide MergedKeys, CompiledAgainst, Laid, Chosen, Left, Writables, Readonlys, MayBeLookedUp, AsksToWrite;
    if k in Writables(log) || k in Readonlys(log) {
      LookedUpInTable(log, metas, tables, k);
    }
    if k in m.staticAccountKeys && MayBeLookedUp(payer, ixs, k) {
      forall i | 0 <= i < |tables| && k in tables[i].addresses
        ensures !AsksToWrite(ixs, k) && ReadsNothing(payer, ixs, tables[i])
      {
        LeftOver(metas, tables, k, i);
        StopsToo(payer, ixs, tables[i]);
      }
    }
  }

  lemma KeyTold(payer: PublicKey, ixs: seq<TransactionInstruction>, k: PublicKey)
    ensures var metas := MergedKeys(ixs, payer);
            k in metas ==>
              && (!metas[k].isSigner && !metas[k].isInvoked <==> MayBeLookedUp(payer, ixs, k))
              && (metas[k].isWritable <==> k == payer || AsksToWrite(ixs, k))
  {
    MergedKeysMeaning(ixs, payer);
    MergedMetaMeaning(ixs, payer, k);
    KeySetMeaning(ixs, k);
    assert Invokes(ixs, k) <==> exists i :: 0 <= i < |ixs| && ixs[i].programId == k by {
      if Invokes(ixs, k) {
        var ix :| ix in ixs && ix.programId == k;
        var i :| 0 <= i < |ixs| && ixs[i] == ix;
      }
    }
    hide MergedKeys, Metas, KeySet, MergedMeta, AsksToSign, AsksToWrite, Uses;
  }

  lemma StopsToo(payer: PublicKey, ixs: seq<TransactionInstruction>, t: AddressLookupTableAccount)
    ensures StopsReading(MergedKeys(ixs, payer), t) ==> ReadsNothing(payer, ixs, t)
  {
    var metas := MergedKeys(ixs, payer);
    hide MergedKeys, MayBeLookedUp, AsksToWrite, EntryAtFirst;
    if StopsReading(metas, t) {
      var k, p: nat :| p > 256 && EntryAtFirst(t, p, k)
        && k in metas && !metas[k].isSigner && !metas[k].isInvoked && !metas[k].isWritable;
      KeyTold(payer, ixs, k);
    }
  }
}
