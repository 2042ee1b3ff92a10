/** The blockhash and signature cache of a connection (web3/connection.go): one sequential run at a time,
    against any server replies and any clock. */
module BlockhashCache {
  import opened Basics
  import opened Messages
  import opened Wire
  import opened LegacyCompile
  import LegacyTransaction

  // ---------- The outside world ----------

  const CACHE_TIMEOUT_MS := 30 * 1000
  const POLL_ATTEMPTS := 50
  const UINT64_LIMIT := 2 * INT64_LIMIT

  /** A clock reading in milliseconds, a signed 64-bit number. */
  type Millis = x: int | -INT64_LIMIT <= x < INT64_LIMIT

  datatype LatestBlockhash = LatestBlockhash(blockhash: Blockhash, lastValidBlockHeight: nat)

  /** What the server answers to the n-th request for the latest blockhash, and what the n-th look at the
      clock shows. Nothing is assumed about either. */
  datatype World = World(reply: nat -> Result<LatestBlockhash>, clock: nat -> Millis)

  function Unsigned64(x: Millis): nat {
    x % UINT64_LIMIT
  }

  /** The age is a 64-bit subtraction. */
  predicate Expired(lastFetch: nat, now: Millis) {
    (Unsigned64(now) - lastFetch) % UINT64_LIMIT >= CACHE_TIMEOUT_MS
  }

  /** Not expired means under 30 seconds old, and not from the future, unless the clock has jumped back over
      nearly all of its 64 bits. */
  lemma NotExpiredIsYoung(fetched: Millis, now: Millis)
    ensures !Expired(Unsigned64(fetched), now) <==>
            0 <= now - fetched < 30_000 || now - fetched < 30_000 - 0x1_0000_0000_0000_0000
  {
    assert Unsigned64(fetched) == if fetched < 0 then fetched + UINT64_LIMIT else fetched;
    assert Unsigned64(now) == if now < 0 then now + UINT64_LIMIT else now;
    var age := Unsigned64(now) - Unsigned64(fetched);
    assert age % UINT64_LIMIT == if age < 0 then age + UINT64_LIMIT else age;
  }

  // ---------- The cache ----------

  datatype BlockhashInfo = BlockhashInfo(
    latest: Option<LatestBlockhash>, lastFetch: nat, simulated: seq<Signature>, sent: seq<Signature>)

  /** The cache and how much of the world has been used up. */
  datatype Cache = Cache(info: BlockhashInfo, asked: nat, ticks: nat)

  const EMPTY_CACHE := Cache(BlockhashInfo(None, 0, [], []), 0, 0)

  /** Sending and simulating keep separate lists of signatures. */
  datatype Kind = Send | Simulate

  function Recorded(info: BlockhashInfo, kind: Kind): seq<Signature> {
    match kind
    case Send => info.sent
    case Simulate => info.simulated
  }

  function Record(info: BlockhashInfo, kind: Kind, signature: Signature): BlockhashInfo {
    match kind
    case Send => info.(sent := info.sent + [signature])
    case Simulate => info.(simulated := info.simulated + [signature])
  }

  datatype Fetched = Fetched(result: Result<LatestBlockhash>, cache: Cache)

  /** The attempts left of _pollNewBlockhash. A new blockhash is never the cached one, and both lists start
      empty under it; a failure changes nothing. */
  function Poll(c: Cache, w: World, attempts: nat): (f: Fetched)
    ensures f.result.Success? ==>
              && f.cache.info.latest == Some(f.result.value)
              && f.cache.info.sent == [] && f.cache.info.simulated == []
              && (c.info.latest.Some? ==> c.info.latest.value.blockhash != f.result.value.blockhash)
              && c.asked < f.cache.asked && w.reply(f.cache.asked - 1) == f.result
              && c.ticks < f.cache.ticks && f.cache.info.lastFetch == Unsigned64(w.clock(f.cache.ticks - 1))
    ensures f.result.Failure? ==> f.cache.info == c.info && f.cache.ticks == c.ticks
    ensures c.asked <= f.cache.asked <= c.asked + attempts
    decreases attempts
  {
    if attempts == 0 then Fetched(Failure(NoNewBlockhash), c)
    else
      var asked := c.(asked := c.asked + 1);
      match w.reply(c.asked)
      case Failure(e) => Fetched(Failure(e), asked)
      case Success(l) =>
        if c.info.latest.None? || c.info.latest.value.blockhash != l.blockhash then
          Fetched(Success(l), Replaced(c, w, l))
        else Poll(asked, w, attempts - 1)
  }

  predicate IsCached(info: BlockhashInfo, blockhash: Blockhash) {
    info.latest.Some? && info.latest.value.blockhash == blockhash
  }

  /** One attempt. */
  lemma PollNext(c: Cache, w: World, attempts: nat)
    requires attempts > 0
    ensures var reply := w.reply(c.asked);
            && (reply.Failure? ==> Poll(c, w, attempts) == Fetched(reply, c.(asked := c.asked + 1)))
            && (reply.Success? && IsCached(c.info, reply.value.blockhash) ==>
                  Poll(c, w, attempts) == Poll(c.(asked := c.asked + 1), w, attempts - 1))
            && (reply.Success? && !IsCached(c.info, reply.value.blockhash) ==>
                  Poll(c, w, attempts) == Fetched(reply, Replaced(c, w, reply.value)))
  {
  }

  /** A reply brings the cached blockhash again. */
  predicate Repeats(w: World, i: nat, info: BlockhashInfo) {
    w.reply(i).Success? && IsCached(info, w.reply(i).value.blockhash)
  }

  /** Polling reads replies as long as they repeat the cached blockhash. The first that fails is the result; the first
      with another blockhash is cached at the next clock reading, with both lists empty; if there is neither among the
      attempts it gives up. */
  lemma {:induction false} PollStops(c: Cache, w: World, attempts: nat, repeats: nat)
    requires repeats <= attempts
    requires forall i :: c.asked <= i < c.asked + repeats ==> Repeats(w, i, c.info)
    ensures var reply, asked, f := w.reply(c.asked + repeats), c.asked + repeats + 1, Poll(c, w, attempts);
            if repeats == attempts then f == Fetched(Failure(NoNewBlockhash), c.(asked := c.asked + attempts))
            else if reply.Failure? then f == Fetched(reply, c.(asked := asked))
            else
              !IsCached(c.info, reply.value.blockhash) ==>
                f == Fetched(reply, Cache(
                  BlockhashInfo(Some(reply.value), w.clock(c.ticks) % 0x1_0000_0000_0000_0000, [], []),
                  asked, c.ticks + 1))
    decreases repeats
  {
    if repeats == 0 {
    } else {
      var next := c.(asked := c.asked + 1);
      assert Repeats(w, c.asked, c.info);
      PollStops(next, w, attempts - 1, repeats - 1);
      PollNext(c, w, attempts);
    }
  }

  lemma PollNone(c: Cache, w: World)
    ensures Poll(c, w, 0) == Fetched(Failure(NoNewBlockhash), c)
  {
  }

  function Replaced(c: Cache, w: World, l: LatestBlockhash): Cache {
    Cache(BlockhashInfo(Some(l), Unsigned64(w.clock(c.ticks)), [], []), c.asked + 1, c.ticks + 1)
  }

  /** _blockhashWithExpiryBlockHeight. */
  function FetchBlockhash(c: Cache, w: World, disableCache: bool): (f: Fetched)
    ensures f.result.Success? ==> f.cache.info.latest == Some(f.result.value)
    ensures disableCache && f.result.Success? ==> f.cache.info.sent == [] && f.cache.info.simulated == []
  {
    if disableCache then Poll(c, w, POLL_ATTEMPTS)
    else
      var looked := c.(ticks := c.ticks + 1);
      if c.info.latest.Some? && !Expired(c.info.lastFetch, w.clock(c.ticks)) then
        Fetched(Success(c.info.latest.value), looked)
      else Poll(looked, w, POLL_ATTEMPTS)
  }

  /** Fetching either reuses the cached blockhash, which it does exactly when caching is on and it has not
      expired, or replaces it by a different one and empties both lists, or fails and changes nothing. */
  lemma FetchReusesOrReplaces(c: Cache, w: World, disableCache: bool)
    ensures var f := FetchBlockhash(c, w, disableCache);
            var reuse := !disableCache && c.info.latest.Some? && !Expired(c.info.lastFetch, w.clock(c.ticks));
            && (reuse <==> f.result.Success? && f.cache.info == c.info)
            && (reuse ==> f.cache.asked == c.asked)
            && (f.result.Success? && !reuse ==>
                  && (c.info.latest.Some? ==> f.result.value.blockhash != c.info.latest.value.blockhash)
                  && f.cache.info == BlockhashInfo(Some(f.result.value), f.cache.info.lastFetch, [], [])
                  && f.cache.info.lastFetch == Unsigned64(w.clock(f.cache.ticks - 1)))
            && (f.result.Failure? ==> f.cache.info == c.info)
            && c.ticks <= f.cache.ticks && f.cache.asked <= c.asked + POLL_ATTEMPTS
  {
    hide Poll;
  }

  /** A fetch that does not reuse polls up to 50 times. */
  lemma FetchPolls(c: Cache, w: World, disableCache: bool, attempts: nat)
    requires attempts == 50
    requires disableCache || c.info.latest.None? || Expired(c.info.lastFetch, w.clock(c.ticks))
    ensures FetchBlockhash(c, w, disableCache) ==
            Poll(if disableCache then c else c.(ticks := c.ticks + 1), w, attempts)
  {
    hide Poll, Expired;
  }

  // ---------- Signing until the signature is new ----------

  /** Transaction.Signature. */
  function FirstSignature(t: TxState): Signature {
    if t.signatures != [] then t.signatures[0].signature else ZeroSignature()
  }

  datatype Loop = Loop(result: Result<()>, tx: TxState, cache: Cache, passes: nat)

  function Again(l: Loop, n: nat): Loop {
    l.(passes := l.passes + n)
  }

  /** The loop of SendTransaction and SimulateTransaction with signers. A duplicate signature forces a new
      blockhash, under which nothing has been recorded, so there is no third pass. */
  ghost function SigningLoop(
    kind: Kind, t: TxState, signers: seq<Signer>, c: Cache, w: World, disableCache: bool): (l: Loop)
    ensures 1 <= l.passes <= if disableCache then 1 else 2
    ensures l.result.Success? ==> l.cache.info.latest.Some?
    decreases if disableCache then 0 else 1
  {
    var f := FetchBlockhash(c, w, disableCache);
    match f.result
    case Failure(e) => Loop(Failure(e), t, f.cache, 1)
    case Success(latest) =>
      var under := t.(recentBlockhash := Some(latest.blockhash));
      var signing := SignOutcome(under, signers);
      var signed := under.(signatures := signing.pairs);
      if signing.result.Failure? then Loop(signing.result, signed, f.cache, 1)
      else if FirstSignature(signed) == ZeroSignature() then Loop(Failure(MissingSignature), signed, f.cache, 1)
      else if FirstSignature(signed) !in Recorded(f.cache.info, kind) then
        Loop(Success(()), signed, f.cache.(info := Record(f.cache.info, kind, FirstSignature(signed))), 1)
      else Again(SigningLoop(kind, signed, signers, f.cache, w, true), 1)
  }

  type Verify = (PublicKey, seq<byte>, Signature) -> bool

  /** The bytes handed to the server, the transaction and the cache left behind. */
  datatype Outcome = Outcome(result: Result<seq<byte>>, tx: TxState, cache: Cache)

  ghost function Serialized(t: TxState, c: Cache, verify: Verify): Outcome {
    Outcome(SerializeOutcome(t, verify), Compiled(t), c)
  }

  ghost function Looped(l: Loop, verify: Verify): Outcome {
    match l.result
    case Failure(e) => Outcome(Failure(e), l.tx, l.cache)
    case Success(_) => Serialized(l.tx, l.cache, verify)
  }

  ghost function SignedOnce(t: TxState, signers: seq<Signer>, c: Cache, verify: Verify): Outcome {
    var signing := SignOutcome(t, signers);
    var signed := t.(signatures := signing.pairs);
    match signing.result
    case Failure(e) => Outcome(Failure(e), signed, c)
    case Success(_) => Serialized(signed, c, verify)
  }

  /** SendTransaction of a legacy transaction, up to handing over the bytes. */
  ghost function SendOutcome(
    t: TxState, signers: seq<Signer>, c: Cache, w: World, disableCaching: bool, verify: Verify): Outcome
  {
    if signers == [] then
      if FirstSignature(t) == ZeroSignature() then Outcome(Failure(MissingSignature), t, c)
      else Serialized(t, c, verify)
    else if t.nonceInfo.Some? then SignedOnce(t, signers, c, verify)
    else Looped(SigningLoop(Send, t, signers, c, w, disableCaching), verify)
  }

  /** The copy SimulateTransaction works on. */
  function SimulatedCopy(t: TxState): TxState {
    t.(recentBlockhash := None)
  }

  /** SimulateTransaction: copying a transaction without a fee payer is a fault, and without signers a
      blockhash is still fetched. */
  ghost function SimulateOutcome(
    t: TxState, signers: seq<Signer>, c: Cache, w: World, disableCaching: bool, verify: Verify): Outcome
  {
    var copy := SimulatedCopy(t);
    if t.feePayer.None? then Outcome(Failure(Panic), copy, c)
    else if signers == [] then
      var f := FetchBlockhash(c, w, disableCaching);
      match f.result
      case Failure(e) => Outcome(Failure(e), copy, f.cache)
      case Success(latest) => Serialized(copy.(recentBlockhash := Some(latest.blockhash)), f.cache, verify)
    else if t.nonceInfo.Some? then SignedOnce(copy, signers, c, verify)
    else Looped(SigningLoop(Simulate, copy, signers, c, w, disableCaching), verify)
  }

  // ---------- Every run ----------

  datatype Call = Call(kind: Kind, tx: TxState, signers: seq<Signer>, verify: Verify)

  ghost function CallOutcome(call: Call, c: Cache, w: World, disableCaching: bool): Outcome {
    match call.kind
    case Send => SendOutcome(call.tx, call.signers, c, w, disableCaching, call.verify)
    case Simulate => SimulateOutcome(call.tx, call.signers, c, w, disableCaching, call.verify)
  }

  ghost function CacheAfter(call: Call, c: Cache, w: World, disableCaching: bool): Cache {
    CallOutcome(call, c, w, disableCaching).cache
  }

  /** The cache after a run of calls on a new connection. */
  ghost function Run(calls: seq<Call>, w: World, disableCaching: bool): Cache {
    if calls == [] then EMPTY_CACHE
    else CacheAfter(calls[|calls| - 1], Run(calls[..|calls| - 1], w, disableCaching), w, disableCaching)
  }

  /** A signature is what the call's signer for the fee payer answered to the message compiled with this
      blockhash. */
  ghost predicate SignsUnder(call: Call, blockhash: Blockhash, signature: Signature) {
    var message := CompileMessage(WithSlots(call.tx.(recentBlockhash := Some(blockhash)), call.signers));
    && message.Success? && message.value.recentBlockhash == blockhash
    && message.value.accountKeys != []
    && AnswerOf(call.signers, EncodeMessage(message.value), message.value.accountKeys[0]) == Some(Success(signature))
  }

  ghost predicate MadeBy(calls: seq<Call>, kind: Kind, blockhash: Blockhash, signature: Signature) {
    signature != ZeroSignature() &&
    exists i :: 0 <= i < |calls| && calls[i].kind == kind && SignsUnder(calls[i], blockhash, signature)
  }

  ghost predicate AllMadeBy(calls: seq<Call>, kind: Kind, blockhash: Blockhash, signatures: seq<Signature>) {
    forall s :: s in signatures ==> MadeBy(calls, kind, blockhash, s)
  }

  /** What a run keeps: no signature twice in the list kept under the cached blockhash; each one made by a call of
      the run, of the right kind, under the cached blockhash; the blockhash a reply of the server, and its fetch
      time a clock reading. */
  ghost predicate Sound(c: Cache, w: World, calls: seq<Call>) {
    && NoDuplicates(c.info.sent) && NoDuplicates(c.info.simulated)
    && match c.info.latest
       case None => c.info.sent == [] && c.info.simulated == []
       case Some(l) =>
         && AllMadeBy(calls, Send, l.blockhash, c.info.sent)
         && AllMadeBy(calls, Simulate, l.blockhash, c.info.simulated)
         && (exists j: nat :: j < c.asked && w.reply(j) == Success(l))
         && (exists j: nat :: j < c.ticks && c.info.lastFetch == Unsigned64(w.clock(j)))
  }

  /** Over every run of sends and simulations, whatever the server and the clock do. */
  lemma {:induction false} EveryRunIsSound(calls: seq<Call>, w: World, disableCaching: bool)
    ensures Sound(Run(calls, w, disableCaching), w, calls)
  {
    hide CacheAfter, Sound;
    if calls == [] {
      EmptyIsSound(w);
    } else {
      var n := |calls| - 1;
      var before := Run(calls[..n], w, disableCaching);
      EveryRunIsSound(calls[..n], w, disableCaching);
      assert calls == calls[..n] + [calls[n]];
      SoundLater(before, w, calls[..n], calls[n]);
      CallKeepsSound(before, w, calls, n, disableCaching);
    }
  }

  lemma EmptyIsSound(w: World)
    ensures Sound(EMPTY_CACHE, w, [])
  {
  }

  lemma SoundLater(c: Cache, w: World, calls: seq<Call>, call: Call)
    requires Sound(c, w, calls)
    ensures Sound(c, w, calls + [call])
  {
    hide SignsUnder;
    forall kind, b, s | MadeBy(calls, kind, b, s) ensures MadeBy(calls + [call], kind, b, s) {
      var i :| 0 <= i < |calls| && calls[i].kind == kind && SignsUnder(calls[i], b, s);
      assert (calls + [call])[i] == calls[i];
    }
    hide MadeBy;
  }

  lemma CallKeepsSound(c: Cache, w: World, calls: seq<Call>, i: nat, disableCaching: bool)
    requires i < |calls| && Sound(c, w, calls)
    ensures Sound(CacheAfter(calls[i], c, w, disableCaching), w, calls)
  {
    hide Sound, FetchBlockhash, SigningLoop, SignedOnce, Serialized, FirstSignature, ZeroSignature, SignOutcome;
    var call := calls[i];
    FetchKeepsSound(c, w, calls, disableCaching);
    if call.tx.nonceInfo.None? && call.signers != [] {
      LoopKeepsSound(c, w, calls, i, call.tx, disableCaching);
      LoopKeepsSound(c, w, calls, i, SimulatedCopy(call.tx), disableCaching);
    }
    SignedOnceKeepsCache(call.tx, call.signers, c, call.verify);
    SignedOnceKeepsCache(SimulatedCopy(call.tx), call.signers, c, call.verify);
    SerializedKeepsCache(c, call.verify);
  }

  lemma SignedOnceKeepsCache(t: TxState, signers: seq<Signer>, c: Cache, verify: Verify)
    ensures SignedOnce(t, signers, c, verify).cache == c
  {
    hide SignOutcome, SerializeOutcome, Compiled;
  }

  lemma SerializedKeepsCache(c: Cache, verify: Verify)
    ensures forall t, c' :: Serialized(t, c', verify).cache == c'
  {
    hide SerializeOutcome, Compiled;
  }

  lemma FetchKeepsSound(c: Cache, w: World, calls: seq<Call>, disableCache: bool)
    requires Sound(c, w, calls)
    ensures Sound(FetchBlockhash(c, w, disableCache).cache, w, calls)
  {
    hide AllMadeBy;
    var f := FetchBlockhash(c, w, disableCache);
    FetchReusesOrReplaces(c, w, disableCache);
    assert AllMadeBy(calls, Send, [], []) by {
      NoneMade(calls, Send, []);
    }
    if f.result.Success? {
      NoneMade(calls, Send, f.result.value.blockhash);
      NoneMade(calls, Simulate, f.result.value.blockhash);
    }
  }

  lemma NoneMade(calls: seq<Call>, kind: Kind, blockhash: Blockhash)
    ensures AllMadeBy(calls, kind, blockhash, [])
  {
  }

  /** The states the loop signs differ from the call's transaction only in what each pass overwrites. */
  predicate SameButSigned(t: TxState, tx: TxState) {
    t == tx.(recentBlockhash := t.recentBlockhash, signatures := t.signatures)
  }

  lemma {:induction false} LoopKeepsSound(c: Cache, w: World, calls: seq<Call>, i: nat, t: TxState, disableCache: bool)
    requires i < |calls| && Sound(c, w, calls)
    requires SameButSigned(t, calls[i].tx) && t.nonceInfo.None?
    ensures Sound(SigningLoop(calls[i].kind, t, calls[i].signers, c, w, disableCache).cache, w, calls)
    decreases if disableCache then 0 else 1
  {
    hide Sound, SignOutcome, FetchBlockhash, FirstSignature, ZeroSignature, SignsUnder, Recorded, Record;
    var call := calls[i];
    var f := FetchBlockhash(c, w, disableCache);
    FetchKeepsSound(c, w, calls, disableCache);
    if f.result.Success? {
      var latest := f.result.value;
      var under := t.(recentBlockhash := Some(latest.blockhash));
      var signed := under.(signatures := SignOutcome(under, call.signers).pairs);
      var s := FirstSignature(signed);
      if SignOutcome(under, call.signers).result.Success? && s != ZeroSignature() {
        if s !in Recorded(f.cache.info, call.kind) {
          SignedUnder(call, latest.blockhash, under);
          RecordKeepsSound(f.cache, w, calls, i, latest, s);
        } else if !disableCache {
          LoopKeepsSound(f.cache, w, calls, i, signed, true);
        }
      }
    }
  }

  /** The first signature of a transaction signed under a blockhash. */
  lemma SignedUnder(call: Call, blockhash: Blockhash, under: TxState)
    requires under.recentBlockhash == Some(blockhash) && under.nonceInfo.None?
    requires SameButSigned(under, call.tx)
    requires SignOutcome(under, call.signers).result.Success?
    requires FirstSignature(under.(signatures := SignOutcome(under, call.signers).pairs)) != ZeroSignature()
    ensures SignsUnder(call, blockhash, FirstSignature(under.(signatures := SignOutcome(under, call.signers).pairs)))
  {
    hide CompileMessage, SignOutcome, AnswerOf, EncodeMessage, ZeroSignature, Dedupe, Compiled;
    var start := WithSlots(under, call.signers);
    assert start == WithSlots(call.tx.(recentBlockhash := Some(blockhash)), call.signers);
    SignedBytesAreSentBytes(under, call.signers);
    var m := CompileMessage(start).value;
    var pairs := SignOutcome(under, call.signers).pairs;
    CompiledUnder(start, blockhash);
    FirstSigned(m, pairs);
  }

  lemma CompiledUnder(t: TxState, blockhash: Blockhash)
    requires CompileMessage(t).Success? && t.nonceInfo.None? && t.recentBlockhash == Some(blockhash)
    ensures CompileMessage(t).value.recentBlockhash == blockhash
  {
    hide CompiledMetas, Promote, AllKnown;
  }

  lemma FirstSigned(m: Message, pairs: seq<SignaturePubkeyPair>)
    requires PairKeys(pairs) == SignedKeys(m)
    ensures pairs != [] ==> m.accountKeys != [] && pairs[0].publicKey == m.accountKeys[0]
  {
    if pairs != [] {
      assert PairKeys(pairs)[0] == pairs[0].publicKey;
    }
  }

  lemma RecordKeepsSound(c: Cache, w: World, calls: seq<Call>, i: nat, latest: LatestBlockhash, s: Signature)
    requires i < |calls| && Sound(c, w, calls) && c.info.latest == Some(latest)
    requires s != ZeroSignature() && SignsUnder(calls[i], latest.blockhash, s)
    requires s !in Recorded(c.info, calls[i].kind)
    ensures Sound(c.(info := Record(c.info, calls[i].kind, s)), w, calls)
  {
    hide SignsUnder, ZeroSignature;
    assert MadeBy(calls, calls[i].kind, latest.blockhash, s);
    hide MadeBy;
  }

  // ---------- What is reused and what is sent ----------

  /** Any cached blockhash a run reuses was fetched at some earlier clock reading, and is under 30 seconds old
      by the clock (unless the clock has jumped back over nearly all of its 64 bits). */
  lemma ReusedIsYoung(calls: seq<Call>, w: World, disableCaching: bool, disableCache: bool)
    ensures var c := Run(calls, w, disableCaching);
            var f := FetchBlockhash(c, w, disableCache);
            f.result.Success? && f.cache.info == c.info ==>
              exists j: nat :: j < c.ticks && c.info.lastFetch == Unsigned64(w.clock(j)) &&
                var age := w.clock(c.ticks) - w.clock(j);
                0 <= age < 30_000 || age < 30_000 - 0x1_0000_0000_0000_0000
  {
    var c := Run(calls, w, disableCaching);
    EveryRunIsSound(calls, w, disableCaching);
    FetchReusesOrReplaces(c, w, disableCache);
    hide Run, FetchBlockhash, Expired, Unsigned64;
    var f := FetchBlockhash(c, w, disableCache);
    if f.result.Success? && f.cache.info == c.info {
      var j: nat :| j < c.ticks && c.info.lastFetch == Unsigned64(w.clock(j));
      NotExpiredIsYoung(w.clock(j), w.clock(c.ticks));
    }
  }

  /** What a successful call with signers hands over, to send or to simulate, was signed under the blockhash now
      cached, and its first signature is the one just recorded, new to the list of that kind. */
  lemma SentIsRecorded(call: Call, c: Cache, w: World, disableCaching: bool)
    requires call.tx.nonceInfo.None? && call.signers != []
    requires CallOutcome(call, c, w, disableCaching).result.Success?
    ensures var o := CallOutcome(call, c, w, disableCaching);
            && o.cache.info.latest.Some? && o.tx.signatures != [] && Recorded(o.cache.info, call.kind) != []
            && var list, n := Recorded(o.cache.info, call.kind), |Recorded(o.cache.info, call.kind)| - 1;
            && list[n] == o.tx.signatures[0].signature && list[n] !in list[..n]
            && CompileMessage(o.tx).Success?
            && CompileMessage(o.tx).value.recentBlockhash == o.cache.info.latest.value.blockhash
            && o.result.value == Envelope(SignaturesOf(o.tx.signatures), EncodeMessage(CompileMessage(o.tx).value))
  {
    hide SigningLoop, SerializeOutcome, Compiled, CompileMessage, FirstSignature, Envelope, EncodeMessage, Recorded;
    var t := if call.kind == Send then call.tx else SimulatedCopy(call.tx);
    var l := SigningLoop(call.kind, t, call.signers, c, w, disableCaching);
    LoopRecords(call.kind, t, call.signers, c, w, disableCaching);
    SerializedStable(l.tx, call.verify);
  }

  lemma SerializedStable(t: TxState, verify: Verify)
    requires SerializeOutcome(t, verify).Success? && Compiled(t) == t
    ensures CompileMessage(t).Success? &&
            SerializeOutcome(t, verify).value ==
              Envelope(SignaturesOf(t.signatures), EncodeMessage(CompileMessage(t).value))
  {
    hide CompileMessage, Envelope, Missing, Invalid, EncodeMessage;
  }

  lemma {:induction false} LoopRecords(
    kind: Kind, t: TxState, signers: seq<Signer>, c: Cache, w: World, disableCache: bool)
    requires t.nonceInfo.None?
    requires SigningLoop(kind, t, signers, c, w, disableCache).result.Success?
    ensures var l := SigningLoop(kind, t, signers, c, w, disableCache);
            && l.cache.info.latest.Some? && l.tx.signatures != [] && Recorded(l.cache.info, kind) != []
            && var list, n := Recorded(l.cache.info, kind), |Recorded(l.cache.info, kind)| - 1;
            && list[n] == l.tx.signatures[0].signature && list[n] !in list[..n]
            && Compiled(l.tx) == l.tx && CompileMessage(l.tx).Success?
            && CompileMessage(l.tx).value.recentBlockhash == l.cache.info.latest.value.blockhash
    decreases if disableCache then 0 else 1
  {
    hide SignOutcome, FetchBlockhash, ZeroSignature, CompileMessage, Compiled, EncodeMessage, AnswerOf;
    var f := FetchBlockhash(c, w, disableCache);
    var latest := f.result.value;
    var under := t.(recentBlockhash := Some(latest.blockhash));
    var signed := under.(signatures := SignOutcome(under, signers).pairs);
    var s := FirstSignature(signed);
    SignedBytesAreSentBytes(under, signers);
    var list := Recorded(f.cache.info, kind);
    if s in list {
      LoopRecords(kind, signed, signers, f.cache, w, true);
    } else {
      CompiledUnder(signed, latest.blockhash);
      assert (list + [s])[..|list|] == list;
    }
  }

  // ---------- The connection ----------

  class Connection {
    const disableBlockhashCaching: bool
    const world: World
    var blockhashInfo: BlockhashInfo
    var pollingBlockhash: bool
    var asked: nat
    var ticks: nat

    function State(): Cache
      reads this
    {
      Cache(blockhashInfo, asked, ticks)
    }

    constructor (disableBlockhashCaching: bool, world: World)
      ensures this.disableBlockhashCaching == disableBlockhashCaching && this.world == world
      ensures State() == EMPTY_CACHE && !pollingBlockhash
    {
      this.disableBlockhashCaching, this.world := disableBlockhashCaching, world;
      blockhashInfo, pollingBlockhash, asked, ticks := EMPTY_CACHE.info, false, 0, 0;
    }

    method GetLatestBlockhash() returns (r: Result<LatestBlockhash>)
      modifies this`asked
      ensures r == world.reply(old(asked)) && asked == old(asked) + 1
    {
      r := world.reply(asked);
      asked := asked + 1;
    }

    method Now() returns (now: Millis)
      modifies this`ticks
      ensures now == world.clock(old(ticks)) && ticks == old(ticks) + 1
    {
      now := world.clock(ticks);
      ticks := ticks + 1;
    }

    /** _pollNewBlockhash; the flag is lowered however the attempts end. */
    method PollNewBlockhash() returns (r: Result<LatestBlockhash>)
      modifies this
      ensures Fetched(r, State()) == Poll(old(State()), world, POLL_ATTEMPTS)
      ensures !pollingBlockhash
    {
      hide Poll;
      pollingBlockhash := true;
      r := AttemptPolls();
      pollingBlockhash := false;
    }

    method AttemptPolls() returns (r: Result<LatestBlockhash>)
      modifies this`blockhashInfo, this`asked, this`ticks
      ensures Fetched(r, State()) == Poll(old(State()), world, POLL_ATTEMPTS)
    {
      hide Poll, Unsigned64;
      ghost var all := Poll(State(), world, POLL_ATTEMPTS);
      var cachedLatestBlockhash := blockhashInfo.latest;
      for i := 0 to POLL_ATTEMPTS
        invariant all == Poll(State(), world, POLL_ATTEMPTS - i)
        invariant blockhashInfo.latest == cachedLatestBlockhash
      {
        PollNext(State(), world, POLL_ATTEMPTS - i);
        var latestBlockhash := GetLatestBlockhash();
        if latestBlockhash.Failure? {
          return latestBlockhash;
        }
        if cachedLatestBlockhash.None? || cachedLatestBlockhash.value.blockhash != latestBlockhash.value.blockhash {
          var now := Now();
          blockhashInfo := BlockhashInfo(Some(latestBlockhash.value), Unsigned64(now), [], []);
          return latestBlockhash;
        }
      }
      PollNone(State(), world);
      r := Failure(NoNewBlockhash);
    }

    /** _blockhashWithExpiryBlockHeight; in a sequential run no poll is ever under way. */
    method BlockhashWithExpiryBlockHeight(disableCache: bool) returns (r: Result<LatestBlockhash>)
      requires !pollingBlockhash
      modifies this
      ensures Fetched(r, State()) == FetchBlockhash(old(State()), world, disableCache)
      ensures !pollingBlockhash
    {
      hide Poll;
      if !disableCache {
        var now := Now();
        var expired := Expired(blockhashInfo.lastFetch, now);
        if blockhashInfo.latest.Some? && !expired {
          return Success(blockhashInfo.latest.value);
        }
      }
      r := PollNewBlockhash();
    }

    /** SendTransaction of a legacy transaction; the result is what SendRawTransaction is given. */
    method SendTransaction(v: LegacyTransaction.Transaction, signers: seq<Signer>, verify: Verify)
      returns (r: Result<seq<byte>>)
      requires !pollingBlockhash
      modifies this, v
      ensures Outcome(r, v.State(), State())
           == SendOutcome(old(v.State()), signers, old(State()), world, disableBlockhashCaching, verify)
      ensures v.minNonceContextSlot == old(v.minNonceContextSlot)
      ensures signers == [] || old(v.nonceInfo).Some? ==> v.lastValidBlockHeight == old(v.lastValidBlockHeight)
      ensures r.Success? && signers != [] && old(v.nonceInfo).None? ==>
                && blockhashInfo.latest.Some?
                && v.lastValidBlockHeight == Some(blockhashInfo.latest.value.lastValidBlockHeight)
      ensures !pollingBlockhash
    {
      hide FetchBlockhash, SignOutcome, CompileMessage, SerializeOutcome, Compiled, ZeroSignature;
      if v.nonceInfo.Some? {
        if |signers| > 0 {
          var _ :- v.Sign(signers);
        } else {
          if FirstSignature(v.State()) == ZeroSignature() {
            return Failure(MissingSignature);
          }
        }
      } else if |signers| == 0 {
        if FirstSignature(v.State()) == ZeroSignature() {
          return Failure(MissingSignature);
        }
      } else {
        var signed, _ := SignUntilNew(Send, v, signers);
        if signed.Failure? {
          return Failure(signed.error);
        }
      }
      r := v.Serialize(verify);
    }

    /** The loop shared by the two: sign, look the signature up, and if it is a duplicate fetch a new
        blockhash. */
    method SignUntilNew(kind: Kind, v: LegacyTransaction.Transaction, signers: seq<Signer>)
      returns (r: Result<()>, ghost passes: nat)
      requires !pollingBlockhash
      modifies this, v
      ensures Loop(r, v.State(), State(), passes)
           == SigningLoop(kind, old(v.State()), signers, old(State()), world, disableBlockhashCaching)
      ensures 1 <= passes <= 2
      ensures r.Success? ==> blockhashInfo.latest.Some?
      ensures r.Success? ==> v.lastValidBlockHeight == Some(blockhashInfo.latest.value.lastValidBlockHeight)
      ensures v.minNonceContextSlot == old(v.minNonceContextSlot)
      ensures !pollingBlockhash
    {
      hide FetchBlockhash, SignOutcome, ZeroSignature;
      var disableCache := disableBlockhashCaching;
      ghost var all := SigningLoop(kind, v.State(), signers, State(), world, disableCache);
      passes := 0;
      while true
        invariant !pollingBlockhash
        invariant v.minNonceContextSlot == old(v.minNonceContextSlot)
        invariant all == Again(SigningLoop(kind, v.State(), signers, State(), world, disableCache), passes)
        decreases if disableCache then 0 else 1
      {
        passes := passes + 1;
        var latestBlockhash :- BlockhashWithExpiryBlockHeight(disableCache);
        v.lastValidBlockHeight := Some(latestBlockhash.lastValidBlockHeight);
        v.recentBlockhash := Some(latestBlockhash.blockhash);
        var _ :- v.Sign(signers);
        var signature := FirstSignature(v.State());
        if signature == ZeroSignature() {
          return Failure(MissingSignature), passes;
        }
        if signature !in Recorded(blockhashInfo, kind) {
          blockhashInfo := Record(blockhashInfo, kind, signature);
          return Success(()), passes;
        }
        disableCache := true;
      }
    }

    /** SimulateTransaction, on a copy: the caller's transaction is not written. */
    method SimulateTransaction(tx: LegacyTransaction.Transaction, signers: seq<Signer>, verify: Verify)
      returns (r: Result<seq<byte>>)
      requires !pollingBlockhash
      modifies this
      ensures var o := SimulateOutcome(old(tx.State()), signers, old(State()), world, disableBlockhashCaching, verify);
              r == o.result && State() == o.cache
      ensures !pollingBlockhash
    {
      hide FetchBlockhash, SignOutcome, CompileMessage, SerializeOutcome, Compiled, ZeroSignature;
      if tx.feePayer.None? {
        return Failure(Panic);
      }
      var transaction := new LegacyTransaction.Transaction();
      transaction.feePayer, transaction.instructions := tx.feePayer, tx.instructions;
      transaction.nonceInfo, transaction.signatures := tx.nonceInfo, tx.signatures;
      if transaction.nonceInfo.Some? && |signers| > 0 {
        var _ :- transaction.Sign(signers);
      } else if |signers| == 0 {
        var latestBlockhash :- BlockhashWithExpiryBlockHeight(disableBlockhashCaching);
        transaction.lastValidBlockHeight := Some(latestBlockhash.lastValidBlockHeight);
        transaction.recentBlockhash := Some(latestBlockhash.blockhash);
      } else {
        var signed, _ := SignUntilNew(Simulate, transaction, signers);
        if signed.Failure? {
          return Failure(signed.error);
        }
      }
      r := transaction.Serialize(verify);
    }
  }
}
