/** The history of a connection over a whole run (web3/connection.go): what it has recorded, the emptied lists
    included, and when a signature can be recorded a second time. */
module BlockhashHistory {
  import opened Basics
  import opened Messages
  import opened Wire
  import opened LegacyCompile
  import opened BlockhashCache
  import LegacyLayout

  // ---------- The whole history of a run ----------

  datatype Entry = Entry(kind: Kind, blockhash: Blockhash, signature: Signature)

  /** The signature a call records, with the blockhash it was made under. */
  ghost function Recording(call: Call, c: Cache, w: World, disableCaching: bool): Option<Entry> {
    if call.signers == [] || call.tx.nonceInfo.Some? || (call.kind == Simulate && call.tx.feePayer.None?) then None
    else
      var t := if call.kind == Send then call.tx else SimulatedCopy(call.tx);
      var l := SigningLoop(call.kind, t, call.signers, c, w, disableCaching);
      if l.result.Failure? then None
      else Some(Entry(call.kind, l.cache.info.latest.value.blockhash, FirstSignature(l.tx)))
  }

  function Appended(h: seq<Entry>, e: Option<Entry>): seq<Entry> {
    match e
    case None => h
    case Some(e) => h + [e]
  }

  /** Everything recorded in a run, emptied lists included. */
  ghost function History(calls: seq<Call>, w: World, disableCaching: bool): seq<Entry> {
    if calls == [] then []
    else
      var init := calls[..|calls| - 1];
      Appended(History(init, w, disableCaching),
        Recording(calls[|calls| - 1], Run(init, w, disableCaching), w, disableCaching))
  }

  predicate Serves(w: World, i: nat, blockhash: Blockhash) {
    w.reply(i).Success? && w.reply(i).value.blockhash == blockhash
  }

  /** Once the server has moved on to another blockhash it does not go back. */
  ghost predicate NeverServedAgain(w: World) {
    forall i: nat, j: nat, k: nat, b: Blockhash ::
      i < j < k && Serves(w, i, b) && w.reply(j).Success? && Serves(w, k, b) ==> Serves(w, j, b)
  }

  ghost predicate ServedBy(w: World, j: nat, blockhash: Blockhash) {
    exists i: nat :: i <= j && Serves(w, i, blockhash)
  }

  /** The cache stands for the history: what was recorded under the cached blockhash is in its lists, and all
      else under blockhashes served no later than it was. */
  ghost predicate Remembers(h: seq<Entry>, c: Cache, w: World) {
    && NoDuplicates(h)
    && match c.info.latest
       case None => h == []
       case Some(l) =>
         && (exists j: nat :: j < c.asked && w.reply(j) == Success(l) &&
              forall e :: e in h ==> ServedBy(w, j, e.blockhash))
         && forall e :: e in h && e.blockhash == l.blockhash ==> e.signature in Recorded(c.info, e.kind)
  }

  /** Over a whole run no signature is recorded a second time for one kind of call under one blockhash, if the
      server does not return to a blockhash it had left. */
  lemma {:induction false} HistoryHasNoRepeats(calls: seq<Call>, w: World, disableCaching: bool)
    requires NeverServedAgain(w)
    ensures NoDuplicates(History(calls, w, disableCaching))
    ensures Remembers(History(calls, w, disableCaching), Run(calls, w, disableCaching), w)
  {
    if calls == [] {
    } else {
      var n := |calls| - 1;
      HistoryHasNoRepeats(calls[..n], w, disableCaching);
      hide Remembers, Recording, CacheAfter, NoDuplicates;
      CallRemembered(History(calls[..n], w, disableCaching), Run(calls[..n], w, disableCaching), w, calls[n],
        disableCaching);
      RememberedOnce(History(calls, w, disableCaching), Run(calls, w, disableCaching), w);
    }
  }

  lemma RememberedOnce(h: seq<Entry>, c: Cache, w: World)
    requires Remembers(h, c, w)
    ensures NoDuplicates(h)
  {
  }

  lemma CallRemembered(h: seq<Entry>, c: Cache, w: World, call: Call, disableCaching: bool)
    requires NeverServedAgain(w) && Remembers(h, c, w)
    ensures Remembers(Appended(h, Recording(call, c, w, disableCaching)), CacheAfter(call, c, w, disableCaching), w)
  {
    hide Remembers, FetchBlockhash, SigningLoop, SignedOnce, Serialized, FirstSignature, ZeroSignature;
    hide NeverServedAgain;
    FetchRemembers(h, c, w, disableCaching);
    if call.tx.nonceInfo.None? && call.signers != [] {
      LoopRemembers(h, call.kind, call.tx, call.signers, c, w, disableCaching);
      LoopRemembers(h, call.kind, SimulatedCopy(call.tx), call.signers, c, w, disableCaching);
    }
    SignedOnceKeepsCache(call.tx, call.signers, c, call.verify);
    SignedOnceKeepsCache(SimulatedCopy(call.tx), call.signers, c, call.verify);
    SerializedKeepsCache(c, call.verify);
  }

  lemma FetchRemembers(h: seq<Entry>, c: Cache, w: World, disableCache: bool)
    requires NeverServedAgain(w) && Remembers(h, c, w)
    ensures Remembers(h, FetchBlockhash(c, w, disableCache).cache, w)
  {
    FetchReusesOrReplaces(c, w, disableCache);
    FetchAsks(c, w, disableCache);
    hide FetchBlockhash, NoDuplicates, NeverServedAgain, Expired, Serves;
    var f := FetchBlockhash(c, w, disableCache);
    if f.result.Success? && f.cache.info != c.info {
      ReplacedRemembers(h, c, f.cache, w, f.result.value);
    }
  }

  /** Under a new blockhash nothing has been recorded yet: the server had never served it before the one it
      replaces. */
  lemma ReplacedRemembers(h: seq<Entry>, c: Cache, after: Cache, w: World, latest: LatestBlockhash)
    requires NeverServedAgain(w) && Remembers(h, c, w)
    requires c.asked < after.asked && w.reply(after.asked - 1) == Success(latest) && after.info.latest == Some(latest)
    requires c.info.latest.Some? ==> c.info.latest.value.blockhash != latest.blockhash
    ensures Remembers(h, after, w)
  {
    hide NoDuplicates;
    var k: nat := after.asked - 1;
    assert k < after.asked && w.reply(k) == Success(latest);
    if c.info.latest.Some? {
      var j: nat :| j < c.asked && w.reply(j) == Success(c.info.latest.value) &&
        forall e :: e in h ==> ServedBy(w, j, e.blockhash);
      forall e | e in h ensures ServedBy(w, k, e.blockhash) && e.blockhash != latest.blockhash {
        var i: nat :| i <= j && Serves(w, i, e.blockhash);
        assert e.blockhash == latest.blockhash ==> i < j && Serves(w, i, latest.blockhash);
        assert j < k && Serves(w, k, latest.blockhash) && w.reply(j).Success? && !Serves(w, j, latest.blockhash);
      }
    }
  }

  lemma FetchAsks(c: Cache, w: World, disableCache: bool)
    ensures var f := FetchBlockhash(c, w, disableCache);
            && c.asked <= f.cache.asked
            && (f.result.Success? && f.cache.info != c.info ==>
                  c.asked < f.cache.asked && w.reply(f.cache.asked - 1) == f.result)
  {
    hide Poll;
  }

  lemma {:induction false} LoopRemembers(
    h: seq<Entry>, kind: Kind, t: TxState, signers: seq<Signer>, c: Cache, w: World, disableCache: bool)
    requires NeverServedAgain(w) && Remembers(h, c, w)
    ensures var l := SigningLoop(kind, t, signers, c, w, disableCache);
            var recorded :=
              if l.result.Success? then
                Some(Entry(kind, l.cache.info.latest.value.blockhash, FirstSignature(l.tx)))
              else
                None;
            Remembers(Appended(h, recorded), l.cache, w)
    decreases if disableCache then 0 else 1
  {
    hide Remembers, SignOutcome, FetchBlockhash, FirstSignature, ZeroSignature, Recorded, Record, NeverServedAgain;
    var f := FetchBlockhash(c, w, disableCache);
    FetchRemembers(h, c, w, disableCache);
    if f.result.Success? {
      var latest := f.result.value;
      var under := t.(recentBlockhash := Some(latest.blockhash));
      var signed := under.(signatures := SignOutcome(under, signers).pairs);
      var s := FirstSignature(signed);
      if SignOutcome(under, signers).result.Success? && s != ZeroSignature() {
        if s !in Recorded(f.cache.info, kind) {
          RecordRemembers(h, f.cache, w, latest, kind, s);
          RecordKeepsLatest(f.cache.info, kind, s);
        } else if !disableCache {
          LoopRemembers(h, kind, signed, signers, f.cache, w, true);
        }
      }
    }
  }

  lemma RecordKeepsLatest(info: BlockhashInfo, kind: Kind, s: Signature)
    ensures Record(info, kind, s).latest == info.latest
  {
  }

  lemma RecordRemembers(h: seq<Entry>, c: Cache, w: World, latest: LatestBlockhash, kind: Kind, s: Signature)
    requires Remembers(h, c, w) && c.info.latest == Some(latest) && s !in Recorded(c.info, kind)
    ensures Remembers(h + [Entry(kind, latest.blockhash, s)], c.(info := Record(c.info, kind, s)), w)
  {
    var e := Entry(kind, latest.blockhash, s);
    var after := c.(info := Record(c.info, kind, s));
    assert e !in h;
    var j: nat :| j < c.asked && w.reply(j) == Success(latest) && forall e' :: e' in h ==> ServedBy(w, j, e'.blockhash);
    assert Serves(w, j, latest.blockhash);
    forall e' | e' in h + [e] ensures ServedBy(w, j, e'.blockhash) {
      assert e' in h || e' == e;
    }
    assert w.reply(j) == Success(latest) && j < after.asked;
  }

  // ---------- Sends that record whatever is served ----------

  /** A signer's answers to message bytes, none of them the empty signature. */
  ghost predicate Answers(sign: seq<byte> -> Signature) {
    forall data :: sign(data) != ZeroSignature()
  }

  /** A send of a transaction that only its payer signs. */
  function PlainSend(payer: PublicKey, sign: seq<byte> -> Signature, verify: Verify): Call {
    Call(Send, TxState([], [], Some(payer), None, None), [Signer(payer, data => Success(sign(data)))], verify)
  }

  /** The first signature of a call's transaction when signed under a blockhash. */
  ghost function SignatureUnder(call: Call, blockhash: Blockhash): Signature {
    var under := call.tx.(recentBlockhash := Some(blockhash));
    FirstSignature(under.(signatures := SignOutcome(under, call.signers).pairs))
  }

  /** A plain send can be signed under any blockhash, and what it was signed with before makes no difference. */
  lemma PlainlySigned(
    payer: PublicKey, sign: seq<byte> -> Signature, verify: Verify, blockhash: Blockhash, t: TxState)
    requires Answers(sign) && SameButSigned(t, PlainSend(payer, sign, verify).tx)
    ensures var call, under := PlainSend(payer, sign, verify), t.(recentBlockhash := Some(blockhash));
            && SignOutcome(under, call.signers).result.Success?
            && FirstSignature(under.(signatures := SignOutcome(under, call.signers).pairs)) ==
                 SignatureUnder(call, blockhash) != ZeroSignature()
  {
    var call, under := PlainSend(payer, sign, verify), t.(recentBlockhash := Some(blockhash));
    assert call.signers[..0] == [];
    assert Dedupe(call.signers) == call.signers;
    var start := WithSlots(under, call.signers);
    assert start == WithSlots(call.tx.(recentBlockhash := Some(blockhash)), call.signers);
    assert PairKeys(start.signatures) == [payer];
    hide CompileMessage, SignOutcome, Compiled, EncodeMessage, ZeroSignature, Dedupe;
    CompileSucceeds(start);
    SignSucceeds(under, call.signers);
    SignedBytesAreSentBytes(under, call.signers);
    CompiledHeader(start);
    LegacyLayout.CanonicalKeys(start);
    var m, pairs := CompileMessage(start).value, SignOutcome(under, call.signers).pairs;
    FirstSigned(m, pairs);
    assert AnswerOf(call.signers, EncodeMessage(m), payer) == Some(Success(sign(EncodeMessage(m))));
  }

  lemma RunAppend(calls: seq<Call>, call: Call, w: World, disableCaching: bool)
    ensures Run(calls + [call], w, disableCaching) == CacheAfter(call, Run(calls, w, disableCaching), w, disableCaching)
    ensures History(calls + [call], w, disableCaching) ==
            Appended(History(calls, w, disableCaching),
              Recording(call, Run(calls, w, disableCaching), w, disableCaching))
  {
    hide CacheAfter, Recording;
    assert (calls + [call])[..|calls|] == calls;
  }

  /** The signature a call would get under the cached blockhash has been recorded. */
  ghost predicate UsedUp(call: Call, c: Cache) {
    c.info.latest.Some? ==> SignatureUnder(call, c.info.latest.value.blockhash) in c.info.sent
  }

  /** The poll such a call comes down to: at once, or after looking at the clock. */
  function PollOf(c: Cache, w: World, disableCaching: bool): Fetched {
    Poll(if disableCaching then c else c.(ticks := c.ticks + 1), w, POLL_ATTEMPTS)
  }

  /** A plain send whose signature under the cached blockhash is used up polls, with caching or without: with an
      unexpired blockhash the first pass ends in a duplicate, and the second one fetches. */
  lemma {:induction false} LoopPolls(
    payer: PublicKey, sign: seq<byte> -> Signature, verify: Verify, t: TxState, c: Cache, w: World, disableCache: bool)
    requires Answers(sign) && SameButSigned(t, PlainSend(payer, sign, verify).tx)
    requires UsedUp(PlainSend(payer, sign, verify), c)
    ensures var call, f := PlainSend(payer, sign, verify), PollOf(c, w, disableCache);
            var l := SigningLoop(Send, t, call.signers, c, w, disableCache);
            match f.result
            case Failure(_) => l.result.Failure? && l.cache == f.cache
            case Success(latest) =>
              var s := SignatureUnder(call, latest.blockhash);
              && l.result.Success? && FirstSignature(l.tx) == s
              && l.cache == f.cache.(info := Record(f.cache.info, Send, s))
    decreases if disableCache then 0 else 1
  {
    var call, f := PlainSend(payer, sign, verify), FetchBlockhash(c, w, disableCache);
    FetchReusesOrReplaces(c, w, disableCache);
    hide Poll, SignOutcome, FirstSignature, ZeroSignature, Answers, SignatureUnder, Expired;
    if f.result.Success? {
      PlainlySigned(payer, sign, verify, f.result.value.blockhash, t);
      if f.cache.info == c.info {
        var under := t.(recentBlockhash := Some(f.result.value.blockhash));
        var signed := under.(signatures := SignOutcome(under, call.signers).pairs);
        LoopPolls(payer, sign, verify, signed, f.cache, w, true);
      }
    }
  }

  /** Each such send records its signature under a new blockhash, or fails to fetch one and records nothing. */
  lemma PlainlyRecorded(
    payer: PublicKey, sign: seq<byte> -> Signature, verify: Verify, c: Cache, w: World, disableCaching: bool)
    requires Answers(sign) && UsedUp(PlainSend(payer, sign, verify), c)
    ensures var call, f := PlainSend(payer, sign, verify), PollOf(c, w, disableCaching);
            var after := CacheAfter(call, c, w, disableCaching);
            && after.asked == f.cache.asked && after.info.latest == f.cache.info.latest && UsedUp(call, after)
            && Recording(call, c, w, disableCaching) ==
                 match f.result
                 case Failure(_) => None
                 case Success(l) => Some(Entry(Send, l.blockhash, SignatureUnder(call, l.blockhash)))
  {
    var call := PlainSend(payer, sign, verify);
    hide Poll, SigningLoop, FirstSignature, ZeroSignature, Serialized, Answers, SignatureUnder;
    LoopPolls(payer, sign, verify, call.tx, c, w, disableCaching);
    SerializedKeepsCache(c, verify);
  }

  /** The blockhashes of the first `m` replies, failures left out and equal neighbours merged. */
  function Served(w: World, m: nat): seq<Blockhash> {
    if m == 0 then []
    else
      var before := Served(w, m - 1);
      match w.reply(m - 1)
      case Failure(_) => before
      case Success(l) => if before != [] && before[|before| - 1] == l.blockhash then before else before + [l.blockhash]
  }

  /** The cached blockhash is the last one served. */
  predicate UpToDate(c: Cache, w: World) {
    var served := Served(w, c.asked);
    match c.info.latest
    case None => served == []
    case Some(l) => served != [] && served[|served| - 1] == l.blockhash
  }

  /** One more reply is taken in. */
  lemma ServedNext(c: Cache, w: World)
    requires UpToDate(c, w)
    ensures var reply, served, next := w.reply(c.asked), Served(w, c.asked), Served(w, c.asked + 1);
            if reply.Success? && !IsCached(c.info, reply.value.blockhash) then
              next == served + [reply.value.blockhash] && UpToDate(Replaced(c, w, reply.value), w)
            else next == served && UpToDate(c.(asked := c.asked + 1), w)
  {
  }

  /** Polling takes in what is served up to the first change. */
  lemma {:induction false} PollServes(c: Cache, w: World, attempts: nat)
    requires UpToDate(c, w)
    ensures var f := Poll(c, w, attempts);
            && UpToDate(f.cache, w) && (attempts > 0 ==> c.asked < f.cache.asked)
            && Served(w, f.cache.asked) ==
                 Served(w, c.asked) + (if f.result.Success? then [f.result.value.blockhash] else [])
    decreases attempts
  {
    assert Served(w, c.asked) + [] == Served(w, c.asked);
    hide Poll, Served, UpToDate;
    if attempts == 0 {
      PollNone(c, w);
    } else {
      PollNext(c, w, attempts);
      ServedNext(c, w);
      if w.reply(c.asked).Success? && IsCached(c.info, w.reply(c.asked).value.blockhash) {
        PollServes(c.(asked := c.asked + 1), w, attempts - 1);
      }
    }
  }

  function Repeated(call: Call, n: nat): seq<Call> {
    if n == 0 then [] else Repeated(call, n - 1) + [call]
  }

  /** The history of n such sends is what the server has served, at least n replies of it. */
  lemma {:induction false} PlainHistory(
    payer: PublicKey, sign: seq<byte> -> Signature, verify: Verify, w: World, n: nat, disableCaching: bool)
    requires Answers(sign)
    ensures var call := PlainSend(payer, sign, verify);
            var calls := Repeated(call, n);
            var c := Run(calls, w, disableCaching);
            && UpToDate(c, w) && UsedUp(call, c) && n <= c.asked
            && AllUnder(History(calls, w, disableCaching), call, Served(w, c.asked))
  {
    hide PlainSend, CacheAfter, Recording, Poll, Served, AllUnder, SignatureUnder, Answers;
    var call := PlainSend(payer, sign, verify);
    if n == 0 {
      NothingServed(call, w, disableCaching);
    } else {
      var calls := Repeated(call, n - 1);
      PlainHistory(payer, sign, verify, w, n - 1, disableCaching);
      RunAppend(calls, call, w, disableCaching);
      var c := Run(calls, w, disableCaching);
      PlainlyRecorded(payer, sign, verify, c, w, disableCaching);
      PollServes(if disableCaching then c else c.(ticks := c.ticks + 1), w, POLL_ATTEMPTS);
      var f := PollOf(c, w, disableCaching);
      SameServed(CacheAfter(call, c, w, disableCaching), f.cache, w);
      hide Run, History, UpToDate, UsedUp, PollOf;
      if f.result.Success? {
        UnderAppend(History(calls, w, disableCaching), call, Served(w, c.asked), f.result.value.blockhash);
      } else {
        assert Served(w, c.asked) + [] == Served(w, c.asked);
      }
    }
  }

  lemma NothingServed(call: Call, w: World, disableCaching: bool)
    ensures var c := Run([], w, disableCaching);
            && UpToDate(c, w) && UsedUp(call, c)
            && AllUnder(History([], w, disableCaching), call, Served(w, c.asked))
  {
    hide CacheAfter, Recording, SignatureUnder;
  }

  lemma SameServed(a: Cache, b: Cache, w: World)
    requires a.asked == b.asked && a.info.latest == b.info.latest && UpToDate(b, w)
    ensures UpToDate(a, w)
  {
  }

  /** One entry under each of some blockhashes, in order. */
  ghost predicate AllUnder(h: seq<Entry>, call: Call, blockhashes: seq<Blockhash>) {
    |h| == |blockhashes| &&
    forall i :: 0 <= i < |h| ==> h[i] == Entry(Send, blockhashes[i], SignatureUnder(call, blockhashes[i]))
  }

  lemma UnderAppend(h: seq<Entry>, call: Call, blockhashes: seq<Blockhash>, b: Blockhash)
    requires AllUnder(h, call, blockhashes)
    ensures AllUnder(Appended(h, Some(Entry(Send, b, SignatureUnder(call, b)))), call, blockhashes + [b])
  {
    hide SignatureUnder;
  }

  /** What is served only grows. */
  lemma {:induction false} ServedGrows(w: World, m: nat, m': nat)
    requires m <= m'
    ensures Served(w, m) <= Served(w, m')
    decreases m'
  {
    if m == m' {
    } else {
      ServedGrows(w, m, m' - 1);
    }
  }

  /** After a successful reply its blockhash is the last one served. */
  lemma LastServed(w: World, i: nat, b: Blockhash)
    requires Serves(w, i, b)
    ensures Served(w, i + 1) != [] && Served(w, i + 1)[|Served(w, i + 1)| - 1] == b
  {
  }

  /** A blockhash served, left and served again stands twice among those served. */
  lemma ServedTwice(w: World, i: nat, j: nat, k: nat, b: Blockhash, m: nat)
    requires i < j < k < m && Serves(w, i, b) && w.reply(j).Success? && !Serves(w, j, b) && Serves(w, k, b)
    ensures !NoDuplicates(Served(w, m))
  {
    hide Served, NoDuplicates;
    var other := w.reply(j).value.blockhash;
    LastServed(w, i, b);
    LastServed(w, j, other);
    LastServed(w, k, b);
    ServedGrows(w, i + 1, j + 1);
    ServedGrows(w, j + 1, k + 1);
    ServedGrows(w, k + 1, m);
    assert other != b;
    LeftAndBack(Served(w, i + 1), Served(w, j + 1), Served(w, k + 1), Served(w, m), b, other);
  }

  lemma LeftAndBack(
    first: seq<Blockhash>, second: seq<Blockhash>, third: seq<Blockhash>, all: seq<Blockhash>, b: Blockhash,
    other: Blockhash)
    requires first != [] && first <= second <= third <= all && b != other
    requires first[|first| - 1] == b && second[|second| - 1] == other && third[|third| - 1] == b
    ensures !NoDuplicates(all)
  {
    var p, q, r := |first| - 1, |second| - 1, |third| - 1;
    assert all[p] == b && all[q] == other && all[r] == b;
    assert p < r;
  }

  lemma UnderTwice(h: seq<Entry>, call: Call, blockhashes: seq<Blockhash>)
    requires AllUnder(h, call, blockhashes) && !NoDuplicates(blockhashes)
    ensures !NoDuplicates(h)
  {
    hide SignatureUnder;
    var i, j :| 0 <= i < j < |blockhashes| && blockhashes[i] == blockhashes[j];
    assert h[i] == h[j];
  }

  /** If the server goes back to a blockhash, some run records a signature a second time under it. */
  lemma ReturningServerRepeats(
    payer: PublicKey, sign: seq<byte> -> Signature, verify: Verify, w: World, i: nat, j: nat, k: nat, b: Blockhash,
    disableCaching: bool)
    requires Answers(sign)
    requires i < j < k && Serves(w, i, b) && w.reply(j).Success? && !Serves(w, j, b) && Serves(w, k, b)
    ensures !NoDuplicates(History(Repeated(PlainSend(payer, sign, verify), k + 1), w, disableCaching))
  {
    hide *;
    var call := PlainSend(payer, sign, verify);
    var calls := Repeated(call, k + 1);
    PlainHistory(payer, sign, verify, w, k + 1, disableCaching);
    ServedTwice(w, i, j, k, b, Run(calls, w, disableCaching).asked);
    UnderTwice(History(calls, w, disableCaching), call, Served(w, Run(calls, w, disableCaching).asked));
  }

  /** No run of a connection records a signature twice for one kind of call under one blockhash, exactly when the
      server never returns to a blockhash it has left. New connections cache, and nothing turns that off; it would
      make no difference. */
  lemma NoRunRepeats(w: World, disableCaching: bool)
    ensures (forall calls :: NoDuplicates(History(calls, w, disableCaching))) <==> NeverServedAgain(w)
  {
    hide History, NoDuplicates, Serves, PlainSend;
    if NeverServedAgain(w) {
      forall calls ensures NoDuplicates(History(calls, w, disableCaching)) {
        HistoryHasNoRepeats(calls, w, disableCaching);
      }
    } else {
      var i: nat, j: nat, k: nat, b: Blockhash :|
        i < j < k && Serves(w, i, b) && w.reply(j).Success? && Serves(w, k, b) && !Serves(w, j, b);
      var payer: PublicKey := seq(32, _ => 0);
      var sign: seq<byte> -> Signature := _ => OneSignature();
      var verify: Verify := (_, _, _) => true;
      assert Answers(sign) by {
        assert OneSignature()[0] != ZeroSignature()[0];
      }
      ReturningServerRepeats(payer, sign, verify, w, i, j, k, b, disableCaching);
    }
  }

  function OneSignature(): Signature {
    seq(64, _ => 1)
  }

  /** Two blockhashes, served in turn. */
  function AlternatingWorld(): World {
    World(n => Success(LatestBlockhash(SomeBlockhash(n % 2), 0)), _ => 0)
  }

  /** With such a server three equal sends record one signature twice under one blockhash. */
  lemma AlternatingServerRepeats(
    payer: PublicKey, sign: seq<byte> -> Signature, verify: Verify, disableCaching: bool)
    requires Answers(sign)
    ensures !NoDuplicates(History(Repeated(PlainSend(payer, sign, verify), 3), AlternatingWorld(), disableCaching))
  {
    var w := AlternatingWorld();
    var a, b := SomeBlockhash(0), SomeBlockhash(1);
    assert a[0] != b[0];
    assert Serves(w, 0, a) && Serves(w, 1, b) && Serves(w, 2, a);
    hide History, PlainSend, Repeated, NoDuplicates;
    ReturningServerRepeats(payer, sign, verify, w, 0, 1, 2, a, disableCaching);
  }
}
