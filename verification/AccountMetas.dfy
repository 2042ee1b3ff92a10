/** `AccountMetaSlice` and `ByPriority`: deduplicating, sorting and laying out account metas
    (web3/message_legacy.go:11-60, web3/transaction_legacy.go:389-405, web3/utils/map.go). */
module AccountMetas {
  import opened Basics
  import opened Base58
  import opened Messages

  // ---------- The sort order ----------

  function Rank(m: AccountMeta): nat {
    FlagRank(m.isSigner, m.isWritable)
  }

  /** ByPriority.Less. */
  predicate Before(a: AccountMeta, b: AccountMeta) {
    if a.isSigner != b.isSigner then a.isSigner
    else if a.isWritable != b.isWritable then a.isWritable
    else KeyLess(a.pubkey, b.pubkey)
  }

  lemma BeforeOrder(a: AccountMeta, b: AccountMeta, c: AccountMeta)
    ensures Before(a, b) || Before(b, a) || a.pubkey == b.pubkey
    ensures !(Before(a, b) && Before(b, a))
    ensures Before(a, b) && Before(b, c) ==> Before(a, c)
    ensures Before(a, b) ==> Rank(a) <= Rank(b)
    ensures Rank(a) < Rank(b) ==> Before(a, b)
  {
    KeyOrder(a.pubkey, b.pubkey, c.pubkey);
  }

  /** What sort.Sort promises. */
  ghost predicate Sorted(s: seq<AccountMeta>) {
    forall i, j :: 0 <= i < j < |s| ==> !Before(s[j], s[i])
  }

  ghost predicate DistinctKeys(elems: set<AccountMeta>) {
    forall a, b :: a in elems && b in elems && a.pubkey == b.pubkey ==> a == b
  }

  /** Sorting is deterministic: two sorted listings of metas with distinct keys are the same list. */
  lemma {:induction false} SortedUnique(a: seq<AccountMeta>, b: seq<AccountMeta>, elems: set<AccountMeta>)
    requires Lists(a, elems) && Lists(b, elems) && Sorted(a) && Sorted(b) && DistinctKeys(elems)
    ensures a == b
  {
    ListingLength(a, elems);
    ListingLength(b, elems);
    if a == [] {
    } else {
      SameFirst(a, b, elems);
      SortedTail(a, elems);
      SortedTail(b, elems);
      hide Lists, Sorted;
      SortedUnique(a[1..], b[1..], elems - {a[0]});
      assert a == [a[0]] + a[1..] && b == [b[0]] + b[1..];
      assert a == b;
    }
  }

  lemma SameFirst(a: seq<AccountMeta>, b: seq<AccountMeta>, elems: set<AccountMeta>)
    requires Lists(a, elems) && Lists(b, elems) && Sorted(a) && Sorted(b) && DistinctKeys(elems)
    requires a != [] && b != []
    ensures a[0] == b[0]
  {
    hide Before;
    assert a[0] in b && b[0] in a;
    var j :| 0 <= j < |b| && b[j] == a[0];
    var i :| 0 <= i < |a| && a[i] == b[0];
    BeforeOrder(a[0], b[0], a[0]);
  }

  lemma SortedTail(s: seq<AccountMeta>, elems: set<AccountMeta>)
    requires Lists(s, elems) && Sorted(s) && s != []
    ensures Lists(s[1..], elems - {s[0]}) && Sorted(s[1..])
  {
    hide Before;
    forall x | x in elems - {s[0]} ensures x in s[1..] {
      var i :| 0 <= i < |s| && s[i] == x;
      assert s[1..][i - 1] == x;
    }
  }

  /** A reference sort: it shows that sorted permutations exist. */
  function Insert(m: AccountMeta, s: seq<AccountMeta>): (r: seq<AccountMeta>)
    ensures multiset(r) == multiset(s) + multiset{m}
  {
    if s == [] then [m]
    else if Before(s[0], m) then
      assert s == [s[0]] + s[1..];
      [s[0]] + Insert(m, s[1..])
    else [m] + s
  }

  function InsertionSort(s: seq<AccountMeta>): (r: seq<AccountMeta>)
    ensures multiset(r) == multiset(s)
  {
    if s == [] then []
    else
      assert s == [s[0]] + s[1..];
      Insert(s[0], InsertionSort(s[1..]))
  }

  lemma {:induction false} InsertSorted(m: AccountMeta, s: seq<AccountMeta>)
    requires Sorted(s)
    ensures Sorted(Insert(m, s))
  {
    hide Before;
    if s == [] {
    } else if Before(s[0], m) {
      var rest := Insert(m, s[1..]);
      InsertSorted(m, s[1..]);
      forall x | x in rest ensures !Before(x, s[0]) {
        assert x in multiset(rest);
        BeforeOrder(s[0], m, s[0]);
        if x != m {
          assert x in s[1..];
        }
      }
    } else {
      forall j | 0 <= j < |s| ensures !Before(s[j], m) {
        BeforeOrder(s[j], m, s[0]);
        BeforeOrder(s[j], s[0], s[j]);
        BeforeOrder(m, s[0], s[j]);
        NotBeforeTransitive(m, s[0], s[j]);
      }
    }
  }

  lemma NotBeforeTransitive(a: AccountMeta, b: AccountMeta, c: AccountMeta)
    requires !Before(b, a) && !Before(c, b)
    ensures !Before(c, a)
  {
    BeforeOrder(a, b, c);
    BeforeOrder(b, c, a);
    BeforeOrder(c, a, b);
  }

  lemma {:induction false} InsertionSortSorted(s: seq<AccountMeta>)
    ensures Sorted(InsertionSort(s))
  {
    if s == [] {
    } else {
      InsertionSortSorted(s[1..]);
      InsertSorted(s[0], InsertionSort(s[1..]));
    }
  }

  /** sort.Sort(ByPriority(s)) is a library call: callers may rely on its contract alone. */
  method Sort(s: seq<AccountMeta>) returns (r: seq<AccountMeta>)
    ensures multiset(r) == multiset(s) && Sorted(r)
  {
    r := InsertionSort(s);
    InsertionSortSorted(s);
  }

  lemma {:induction false} OnceEach(s: seq<AccountMeta>)
    ensures NoDuplicates(s) <==> forall x :: multiset(s)[x] <= 1
  {
    if s == [] {
    } else {
      var n := |s| - 1;
      assert s == s[..n] + [s[n]];
      OnceEach(s[..n]);
      assert NoDuplicates(s) <==> NoDuplicates(s[..n]) && s[n] !in s[..n];
      assert s[n] in s[..n] <==> multiset(s[..n])[s[n]] > 0;
      assert forall x :: multiset(s)[x] == multiset(s[..n])[x] + (if x == s[n] then 1 else 0);
    }
  }

  lemma PermutedListing(r: seq<AccountMeta>, s: seq<AccountMeta>, elems: set<AccountMeta>)
    requires Lists(s, elems) && multiset(r) == multiset(s)
    ensures Lists(r, elems)
  {
    OnceEach(r);
    OnceEach(s);
    assert forall x :: x in r <==> x in multiset(r);
    assert forall x :: x in s <==> x in multiset(s);
    forall i | 0 <= i < |r| ensures r[i] in elems {
      assert r[i] in s;
    }
  }

  // ---------- The canonical list of a set of metas ----------

  /** The one sorted list of a set of metas with distinct keys. */
  ghost function Canonical(elems: set<AccountMeta>): (s: seq<AccountMeta>)
    ensures Lists(s, elems) && Sorted(s)
  {
    var s := SomeListing(elems);
    InsertionSortSorted(s);
    PermutedListing(InsertionSort(s), s, elems);
    InsertionSort(s)
  }

  // ---------- MoveToFirst ----------

  /** The metas whose key is, or is not, among some keys. */
  function Part(s: seq<AccountMeta>, keys: seq<PublicKey>, chosen: bool): seq<AccountMeta> {
    if s == [] then []
    else
      var last := s[|s| - 1];
      Part(s[..|s| - 1], keys, chosen) + (if (last.pubkey in keys) == chosen then [last] else [])
  }

  function PartOf(elems: set<AccountMeta>, keys: seq<PublicKey>, chosen: bool): set<AccountMeta> {
    set m | m in elems && (m.pubkey in keys) == chosen
  }

  lemma {:induction false} PartMembers(s: seq<AccountMeta>, keys: seq<PublicKey>, chosen: bool)
    ensures forall m :: m in Part(s, keys, chosen) <==> m in s && (m.pubkey in keys) == chosen
  {
    if s == [] {
    } else {
      var n := |s| - 1;
      PartMembers(s[..n], keys, chosen);
      assert s == s[..n] + [s[n]];
    }
  }

  /** Picking or removing metas keeps the rest in order. */
  lemma {:induction false} PartKeeps(s: seq<AccountMeta>, keys: seq<PublicKey>, chosen: bool)
    ensures NoDuplicates(s) ==> NoDuplicates(Part(s, keys, chosen))
    ensures Sorted(s) ==> Sorted(Part(s, keys, chosen))
  {
    hide Before;
    if s == [] {
    } else {
      var n := |s| - 1;
      var p := Part(s[..n], keys, chosen);
      PartKeeps(s[..n], keys, chosen);
      forall i | 0 <= i < |p| ensures exists j :: 0 <= j < n && s[j] == p[i] {
        PartMembers(s[..n], keys, chosen);
        assert p[i] in s[..n];
      }
    }
  }

  /** RemoveEle on a key. */
  function Without(s: seq<AccountMeta>, key: PublicKey): seq<AccountMeta> {
    Part(s, [key], false)
  }

  function WithoutKey(elems: set<AccountMeta>, key: PublicKey): set<AccountMeta> {
    PartOf(elems, [key], false)
  }

  /** Removing goes meta by meta and leaves the others in order. */
  lemma {:induction false} WithoutConcat(a: seq<AccountMeta>, b: seq<AccountMeta>, key: PublicKey)
    ensures Without(a + b, key) == Without(a, key) + Without(b, key)
    ensures |b| == 1 ==> Without(b, key) == if b[0].pubkey == key then [] else b
  {
    if b == [] {
      assert a + b == a && Without(a, key) + [] == Without(a, key);
    } else {
      var n := |b| - 1;
      assert (a + b)[..|a + b| - 1] == a + b[..n];
      WithoutConcat(a, b[..n], key);
      assert n == 0 ==> b[..n] == [] && b == [b[0]];
    }
  }

  method MoveToFirst(s: seq<AccountMeta>, pub: PublicKey) returns (r: seq<AccountMeta>)
    ensures r == [AccountMeta(pub, true, true)] + Without(s, pub)
  {
    var ret := [];
    for i := 0 to |s|
      invariant ret == Without(s[..i], pub)
    {
      assert s[..i + 1][..i] == s[..i];
      if s[i].pubkey != pub {
        ret := ret + [s[i]];
      }
    }
    assert s[..|s|] == s;
    r := [AccountMeta(pub, true, true)] + ret;
  }

  /** Removing the payer after sorting or before sorting is the same. */
  lemma CanonicalWithout(elems: set<AccountMeta>, key: PublicKey)
    requires DistinctKeys(elems)
    ensures Without(Canonical(elems), key) == Canonical(WithoutKey(elems, key))
  {
    hide Before, Canonical;
    var s := Canonical(elems);
    PartKeeps(s, [key], false);
    PartMembers(s, [key], false);
    hide Part;
    forall i | 0 <= i < |Without(s, key)| ensures Without(s, key)[i] in WithoutKey(elems, key) {
      assert Without(s, key)[i] in s;
    }
    SortedUnique(Without(s, key), Canonical(WithoutKey(elems, key)), WithoutKey(elems, key));
  }

  // ---------- Laying metas out ----------

  function Keys(s: seq<AccountMeta>): (k: seq<PublicKey>)
    ensures |k| == |s|
    ensures forall i :: 0 <= i < |s| ==> k[i] == s[i].pubkey
  {
    seq(|s|, i requires 0 <= i < |s| => s[i].pubkey)
  }

  function Signed(s: seq<AccountMeta>): seq<AccountMeta> {
    if s == [] then []
    else Signed(s[..|s| - 1]) + (if s[|s| - 1].isSigner then [s[|s| - 1]] else [])
  }

  function Unsigned(s: seq<AccountMeta>): seq<AccountMeta> {
    if s == [] then []
    else Unsigned(s[..|s| - 1]) + (if s[|s| - 1].isSigner then [] else [s[|s| - 1]])
  }

  /** The order the keys of a message end up in: signers first, otherwise as listed. */
  function Arranged(s: seq<AccountMeta>): seq<AccountMeta> {
    Signed(s) + Unsigned(s)
  }

  /** How many metas rank below `r`. */
  function Below(s: seq<AccountMeta>, r: nat): nat {
    if s == [] then 0
    else Below(s[..|s| - 1], r) + (if Rank(s[|s| - 1]) < r then 1 else 0)
  }

  function HeaderOf(s: seq<AccountMeta>): MessageHeader {
    MessageHeader(Below(s, 2), Below(s, 2) - Below(s, 1), |s| - Below(s, 3))
  }

  method ToHeader(s: seq<AccountMeta>) returns (h: MessageHeader)
    ensures h == HeaderOf(s)
  {
    h := MessageHeader(0, 0, 0);
    for i := 0 to |s|
      invariant h == HeaderOf(s[..i])
    {
      assert s[..i + 1][..i] == s[..i];
      if s[i].isSigner {
        h := h.(numRequiredSignatures := h.numRequiredSignatures + 1);
        if !s[i].isWritable {
          h := h.(numReadonlySignedAccounts := h.numReadonlySignedAccounts + 1);
        }
      } else {
        if !s[i].isWritable {
          h := h.(numReadonlyUnsignedAccounts := h.numReadonlyUnsignedAccounts + 1);
        }
      }
    }
    assert s[..|s|] == s;
  }

  method ToKeys(s: seq<AccountMeta>) returns (signedKeys: seq<PublicKey>, unsignedKeys: seq<PublicKey>)
    ensures signedKeys == Keys(Signed(s)) && unsignedKeys == Keys(Unsigned(s))
  {
    signedKeys, unsignedKeys := [], [];
    for i := 0 to |s|
      invariant signedKeys == Keys(Signed(s[..i])) && unsignedKeys == Keys(Unsigned(s[..i]))
    {
      assert s[..i + 1][..i] == s[..i];
      if s[i].isSigner {
        signedKeys := signedKeys + [s[i].pubkey];
      } else {
        unsignedKeys := unsignedKeys + [s[i].pubkey];
      }
    }
    assert s[..|s|] == s;
  }

  lemma ArrangedKeys(metas: seq<AccountMeta>)
    ensures Keys(Signed(metas)) + Keys(Unsigned(metas)) == Keys(Arranged(metas))
  {
  }

  lemma {:induction false} BelowConcat(a: seq<AccountMeta>, b: seq<AccountMeta>, r: nat)
    ensures Below(a + b, r) == Below(a, r) + Below(b, r)
  {
    if b == [] {
      assert a + b == a;
    } else {
      var n := |b| - 1;
      assert (a + b)[..|a + b| - 1] == a + b[..n];
      BelowConcat(a, b[..n], r);
    }
  }

  /** Arranging only permutes. */
  lemma {:induction false} ArrangedPermutes(s: seq<AccountMeta>)
    ensures multiset(Arranged(s)) == multiset(s)
  {
    if s == [] {
    } else {
      var n := |s| - 1;
      assert s == s[..n] + [s[n]];
      ArrangedPermutes(s[..n]);
    }
  }

  lemma ArrangedMembers(s: seq<AccountMeta>)
    ensures |Arranged(s)| == |s|
    ensures forall m :: m in Arranged(s) <==> m in s
  {
    ArrangedPermutes(s);
    assert |multiset(Arranged(s))| == |Arranged(s)| && |multiset(s)| == |s|;
    assert forall m :: m in Arranged(s) <==> m in multiset(Arranged(s));
    assert forall m :: m in s <==> m in multiset(s);
  }

  lemma {:induction false} SplitBySigner(s: seq<AccountMeta>)
    ensures |Signed(s)| == Below(s, 2)
    ensures forall i :: 0 <= i < |Signed(s)| ==> Signed(s)[i].isSigner
    ensures forall i :: 0 <= i < |Unsigned(s)| ==> !Unsigned(s)[i].isSigner
  {
    if s == [] {
    } else {
      SplitBySigner(s[..|s| - 1]);
    }
  }

  lemma SplitMembers(s: seq<AccountMeta>, m: AccountMeta)
    ensures m in Signed(s) <==> m in s && m.isSigner
    ensures m in Unsigned(s) <==> m in s && !m.isSigner
  {
    SplitBySigner(s);
    ArrangedMembers(s);
    assert m in Arranged(s) <==> m in Signed(s) || m in Unsigned(s);
  }

  lemma BelowAppend(s: seq<AccountMeta>, m: AccountMeta, r: nat)
    ensures Below(s + [m], r) == Below(s, r) + (if Rank(m) < r then 1 else 0)
  {
    hide Rank;
    assert (s + [m])[..|s|] == s;
  }

  lemma SplitNext(s: seq<AccountMeta>)
    requires s != []
    ensures var init, last := s[..|s| - 1], s[|s| - 1];
            && s == init + [last]
            && Signed(s) == (if last.isSigner then Signed(init) + [last] else Signed(init))
            && Unsigned(s) == (if last.isSigner then Unsigned(init) else Unsigned(init) + [last])
  {
  }

  lemma {:induction false} SplitBelow(s: seq<AccountMeta>, r: nat)
    ensures Below(Signed(s), r) + Below(Unsigned(s), r) == Below(s, r)
  {
    if s == [] {
    } else {
      var init, last := s[..|s| - 1], s[|s| - 1];
      SplitNext(s);
      SplitBelow(init, r);
      BelowAppend(init, last, r);
      BelowAppend(Signed(init), last, r);
      BelowAppend(Unsigned(init), last, r);
      hide Rank, Below, Signed, Unsigned;
      assert Below(Signed(s), r) + Below(Unsigned(s), r) == Below(s, r);
    }
  }

  lemma ArrangedBelow(s: seq<AccountMeta>, r: nat)
    ensures Below(Arranged(s), r) == Below(s, r)
  {
    SplitBelow(s, r);
    BelowConcat(Signed(s), Unsigned(s), r);
    hide Below;
  }

  lemma DistinctMetas(s: seq<AccountMeta>)
    ensures NoDuplicates(Keys(s)) <==>
            NoDuplicates(s) && forall a, b :: a in s && b in s && a.pubkey == b.pubkey ==> a == b
  {
    if NoDuplicates(s) && forall a, b :: a in s && b in s && a.pubkey == b.pubkey ==> a == b {
      forall i, j | 0 <= i < j < |s| ensures Keys(s)[i] != Keys(s)[j] {
        assert s[i] in s && s[j] in s;
      }
    }
    if NoDuplicates(Keys(s)) {
      forall i, j | 0 <= i < j < |s| ensures s[i] != s[j] {
        assert Keys(s)[i] != Keys(s)[j];
      }
      forall a, b | a in s && b in s && a != b ensures a.pubkey != b.pubkey {
        var i :| 0 <= i < |s| && s[i] == a;
        var j :| 0 <= j < |s| && s[j] == b;
        assert Keys(s)[i] != Keys(s)[j];
      }
    }
  }

  lemma ArrangedNoDuplicates(s: seq<AccountMeta>)
    requires NoDuplicates(Keys(s))
    ensures NoDuplicates(Keys(Arranged(s)))
  {
    DistinctMetas(s);
    ArrangedPermutes(s);
    ArrangedMembers(s);
    OnceEach(s);
    OnceEach(Arranged(s));
    DistinctMetas(Arranged(s));
  }

  // ---------- Reading flags back ----------

  /** Ranks never decrease along the list. */
  ghost predicate Grouped(s: seq<AccountMeta>) {
    forall i, j :: 0 <= i < j < |s| ==> Rank(s[i]) <= Rank(s[j])
  }

  /** The header and the position of a key tell exactly its flags. */
  ghost predicate Recovers(s: seq<AccountMeta>, h: MessageHeader) {
    forall i :: 0 <= i < |s| ==>
      && (IsSignerIndex(h, i) <==> s[i].isSigner)
      && (IsStaticWritable(h, |s|, i) <==> s[i].isWritable)
  }

  lemma {:induction false} GroupedCut(s: seq<AccountMeta>, r: nat)
    requires Grouped(s)
    ensures Below(s, r) <= |s|
    ensures forall i :: 0 <= i < |s| ==> (Rank(s[i]) < r <==> i < Below(s, r))
  {
    if s == [] {
    } else {
      var n := |s| - 1;
      GroupedCut(s[..n], r);
      if Rank(s[n]) < r && n > 0 {
        assert Rank(s[..n][n - 1]) < r;
      }
    }
  }

  lemma {:induction false} BelowMonotonic(s: seq<AccountMeta>)
    ensures Below(s, 1) <= Below(s, 2) <= Below(s, 3) <= |s|
  {
    if s == [] {
    } else {
      BelowMonotonic(s[..|s| - 1]);
    }
  }

  /** The counts tell every flag exactly when the list is grouped by rank. */
  lemma GroupedIffRecovers(s: seq<AccountMeta>)
    ensures Grouped(s) <==> Recovers(s, HeaderOf(s))
  {
    BelowMonotonic(s);
    if Grouped(s) {
      GroupedCut(s, 1);
      GroupedCut(s, 2);
      GroupedCut(s, 3);
    }
  }

  lemma {:induction false} AllSigners(s: seq<AccountMeta>)
    requires forall i :: 0 <= i < |s| ==> s[i].isSigner
    ensures Signed(s) == s && Unsigned(s) == []
  {
    if s == [] {
    } else {
      var n := |s| - 1;
      AllSigners(s[..n]);
      assert s == s[..n] + [s[n]];
    }
  }

  /** Laying out a grouped list leaves it as it is. */
  lemma {:induction false} GroupedArranged(s: seq<AccountMeta>)
    requires Grouped(s)
    ensures Arranged(s) == s
  {
    if s == [] {
    } else {
      var n := |s| - 1;
      if s[n].isSigner {
        AllSigners(s);
      } else {
        GroupedArranged(s[..n]);
      }
    }
  }

  lemma SortedIsGrouped(s: seq<AccountMeta>)
    requires Sorted(s)
    ensures Grouped(s)
  {
    forall i, j | 0 <= i < j < |s| ensures Rank(s[i]) <= Rank(s[j]) {
      BeforeOrder(s[j], s[i], s[j]);
    }
  }

  // ---------- Key-value maps of metas ----------

  /** The map of merged metas: one entry per key, flags or-ed. */
  function MergeMetas(ms: seq<AccountMeta>): map<PublicKey, AccountMeta> {
    map k | k in KeySet(ms) :: AccountMeta(k, Signs(ms, k), Writes(ms, k))
  }

  lemma MergedValuesDistinct(ms: seq<AccountMeta>)
    ensures DistinctKeys(MergeMetas(ms).Values)
  {
  }

  lemma MergeStep(ms: seq<AccountMeta>, m: AccountMeta)
    ensures MergeMetas(ms + [m]) == MergeMetas(ms)[m.pubkey :=
              AccountMeta(m.pubkey, Signs(ms, m.pubkey) || m.isSigner, Writes(ms, m.pubkey) || m.isWritable)]
    ensures m.pubkey !in KeySet(ms) ==> !Signs(ms, m.pubkey) && !Writes(ms, m.pubkey)
  {
    AppendMeta(ms, m);
  }

  /** Inserting each meta, or-ing the flags of a key already present (KVMap.InsertOrUpdate). */
  method InsertMetas(ms: seq<AccountMeta>) returns (uniqueMap: map<PublicKey, AccountMeta>)
    ensures uniqueMap == MergeMetas(ms)
  {
    uniqueMap := map[];
    for i := 0 to |ms|
      invariant uniqueMap == MergeMetas(ms[..i])
    {
      var m := ms[i];
      assert ms[..i + 1] == ms[..i] + [m];
      MergeStep(ms[..i], m);
      if m.pubkey in uniqueMap {
        var v := uniqueMap[m.pubkey];
        v := v.(isWritable := v.isWritable || m.isWritable);
        v := v.(isSigner := v.isSigner || m.isSigner);
        uniqueMap := uniqueMap[m.pubkey := v];
      } else {
        uniqueMap := uniqueMap[m.pubkey := m];
      }
    }
    assert ms[..|ms|] == ms;
  }

  /** KVMap.Values: a Go `range` over a map, so any order may come out. */
  method Values(m: map<PublicKey, AccountMeta>) returns (out: seq<AccountMeta>)
    requires forall k :: k in m ==> m[k].pubkey == k
    ensures Lists(out, m.Values)
  {
    out := [];
    var pending := m.Keys;
    while pending != {}
      invariant pending <= m.Keys
      invariant forall k :: k in m.Keys - pending ==> m[k] in out
      invariant forall i :: 0 <= i < |out| ==> out[i].pubkey in m.Keys - pending && out[i] == m[out[i].pubkey]
      invariant NoDuplicates(out)
      decreases |pending|
    {
      var k :| k in pending;
      pending := pending - {k};
      out := out + [m[k]];
    }
  }
}
