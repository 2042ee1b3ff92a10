/** What each call on a connection hands over to the server (web3/connection.go:977-1031, 1918-1981): with or without
    a nonce, with or without signers, to send or to simulate. */
module BlockhashCalls {
  import opened Basics
  import opened Buffers
  import opened Messages
  import opened Wire
  import opened LegacyCompile
  import opened LegacyLayout
  import opened LegacyReadBack
  import opened LegacyMeaning
  import opened BlockhashCache

  // ---------- Signing and serializing at once ----------

  /** Given these signers, a transaction can go out: it compiles with one empty slot for each distinct signer, all of
      them answer to that message, the answer for each required key is not zero and verifies, and it fits a packet. */
  ghost predicate CanGoOut(t: TxState, signers: seq<Signer>, verify: Verify) {
    var start := t.(signatures := Blank(SignerKeys(Dedupe(signers))));
    && CompileMessage(start).Success?
    && var m := CompileMessage(start).value;
    var data, n := EncodeMessage(m), m.header.numRequiredSignatures;
    && (forall i :: 0 <= i < |signers| && AnswerOf(signers, data, signers[i].publicKey).Some? ==>
          AnswerOf(signers, data, signers[i].publicKey).value.Success?)
    && 0 <= n <= |m.accountKeys|
    && (forall i :: 0 <= i < n ==> AnswersFor(m.accountKeys[i], signers, data, verify))
    && |ShortVec(n)| + 64 * n + |data| <= 1232
  }

  /** The bytes that go out: the answers of the required signers, in order, and the message they answered to. */
  ghost predicate GoesOut(t: TxState, signers: seq<Signer>, bytes: seq<byte>) {
    var start := t.(signatures := Blank(SignerKeys(Dedupe(signers))));
    && CompileMessage(start).Success?
    && var m := CompileMessage(start).value;
    exists answers: seq<Signature> ::
      && |answers| == m.header.numRequiredSignatures <= |m.accountKeys|
      && (forall i :: 0 <= i < |answers| ==>
            AnswerOf(signers, EncodeMessage(m), m.accountKeys[i]) == Some(Success(answers[i])))
      && bytes == ShortVec(|answers|) + EncodeSignatures(answers) + EncodeMessage(m)
  }

  /** A distinct signer's answer is that of the first signer with its key. */
  lemma {:induction false} DistinctAnswers(signers: seq<Signer>, data: seq<byte>)
    ensures (forall i :: 0 <= i < |Dedupe(signers)| ==> Dedupe(signers)[i].sign(data).Success?) <==>
            forall i :: 0 <= i < |signers| && AnswerOf(signers, data, signers[i].publicKey).Some? ==>
              AnswerOf(signers, data, signers[i].publicKey).value.Success?
  {
    var distinct := Dedupe(signers);
    DedupeKeys(signers);
    forall i | 0 <= i < |distinct|
      ensures AnswerOf(signers, data, distinct[i].publicKey) == Some(distinct[i].sign(data))
    {
      OwnAnswer(distinct, data, i);
      assert AnswerOf(distinct, data, distinct[i].publicKey) == AnswerOf(signers, data, distinct[i].publicKey);
    }
    forall i | 0 <= i < |distinct| ensures distinct[i].publicKey in SignerKeys(signers) {
      assert SignerKeys(distinct)[i] == distinct[i].publicKey;
    }
    forall i | 0 <= i < |signers| ensures signers[i].publicKey in SignerKeys(distinct) {
      assert SignerKeys(signers)[i] == signers[i].publicKey;
    }
    hide Dedupe, AnswerOf;
    if forall i :: 0 <= i < |distinct| ==> distinct[i].sign(data).Success? {
      forall i | 0 <= i < |signers| ensures AnswerOf(signers, data, signers[i].publicKey).Some? ==>
        AnswerOf(signers, data, signers[i].publicKey).value.Success?
      {
        var j :| 0 <= j < |distinct| && SignerKeys(distinct)[j] == signers[i].publicKey;
      }
    }
    if forall i :: 0 <= i < |signers| && AnswerOf(signers, data, signers[i].publicKey).Some? ==>
         AnswerOf(signers, data, signers[i].publicKey).value.Success?
    {
      forall j | 0 <= j < |distinct| ensures distinct[j].sign(data).Success? {
        var i :| 0 <= i < |signers| && SignerKeys(signers)[i] == distinct[j].publicKey;
      }
    }
  }

  lemma {:induction false} OwnAnswer(signers: seq<Signer>, data: seq<byte>, i: nat)
    requires i < |signers| && NoDuplicates(SignerKeys(signers))
    ensures AnswerOf(signers, data, signers[i].publicKey) == Some(signers[i].sign(data))
  {
    if i == 0 {
    } else {
      assert SignerKeys(signers)[0] != SignerKeys(signers)[i];
      TailKeys(signers);
      OwnAnswer(signers[1..], data, i - 1);
    }
  }

  /** Signing and then serializing succeeds exactly if it can go out, and yields just those bytes. */
  lemma SignedGoesOut(t: TxState, signers: seq<Signer>, verify: Verify)
    ensures var signing := SignOutcome(t, signers);
            var signed := t.(signatures := signing.pairs);
            && (signing.result.Success? && SerializeOutcome(signed, verify).Success? <==> CanGoOut(t, signers, verify))
            && (signing.result.Success? && SerializeOutcome(signed, verify).Success? ==>
                  GoesOut(t, signers, SerializeOutcome(signed, verify).value))
  {
    hide CompileMessage, Dedupe, EncodeMessage, SignOutcome, AnswerOf, SerializeOutcome, EncodeSignatures, ShortVec;
    var start := t.(signatures := Blank(SignerKeys(Dedupe(signers))));
    assert start == WithSlots(t, signers);
    SignSucceeds(t, signers);
    if CompileMessage(start).Success? {
      var m := CompileMessage(start).value;
      DistinctAnswers(signers, EncodeMessage(m));
      CompiledHeader(start);
      if SignOutcome(t, signers).result.Success? {
        SignedThenSerialized(t, signers, verify);
        var answers := SignaturesOf(SignOutcome(t, signers).pairs);
        EnvelopeLength(answers, EncodeMessage(m));
        hide AnswersFor;
      }
    }
  }

  // ---------- With a nonce and signers ----------

  /** The transaction a call works on: simulating forgets its blockhash. */
  function Subject(call: Call): TxState {
    if call.kind == Simulate then call.tx.(recentBlockhash := None) else call.tx
  }

  /** With a nonce and signers a call signs once, leaves the cache alone, and hands over what goes out, if it can. */
  lemma NonceCallHandsOver(call: Call, c: Cache, w: World, disableCaching: bool)
    requires call.tx.nonceInfo.Some? && call.signers != [] && (call.kind == Simulate ==> call.tx.feePayer.Some?)
    ensures var o := CallOutcome(call, c, w, disableCaching);
            && o.cache == c
            && (o.result.Success? <==> CanGoOut(Subject(call), call.signers, call.verify))
            && (o.result.Success? ==> GoesOut(Subject(call), call.signers, o.result.value))
  {
    SignedGoesOut(Subject(call), call.signers, call.verify);
    hide SignOutcome, SerializeOutcome, CanGoOut, GoesOut, Compiled;
  }

  /** What goes out then is compiled under the nonce. */
  lemma NonceGoesOut(call: Call)
    requires call.tx.nonceInfo.Some?
    ensures var start := Subject(call).(signatures := Blank(SignerKeys(Dedupe(call.signers))));
            CompileMessage(start).Success? ==>
              CompileMessage(start).value.recentBlockhash == call.tx.nonceInfo.value.nonce
  {
    var start := Subject(call).(signatures := Blank(SignerKeys(Dedupe(call.signers))));
    hide CompileMessage, Dedupe, Blank;
    if CompileMessage(start).Success? {
      CompiledFields(start);
    }
  }

  // ---------- Without signers ----------

  /** Signatures already there let a transaction go out: it compiles, they are those of the required keys in order,
      none is empty, each verifies over the message, and it fits a packet. */
  ghost predicate SignedToGoOut(t: TxState, verify: Verify) {
    && CompileMessage(t).Success?
    && var m := CompileMessage(t).value;
    var n := m.header.numRequiredSignatures;
    && |t.signatures| == n <= |m.accountKeys|
    && (forall i :: 0 <= i < n ==>
          && t.signatures[i].publicKey == m.accountKeys[i] && t.signatures[i].signature != seq(64, _ => 0)
          && verify(m.accountKeys[i], EncodeMessage(m), t.signatures[i].signature))
    && |ShortVec(n)| + 64 * n + |EncodeMessage(m)| <= 1232
  }

  lemma GivenGoesOut(t: TxState, verify: Verify)
    ensures SerializeOutcome(t, verify).Success? <==> SignedToGoOut(t, verify)
    ensures SerializeOutcome(t, verify).Success? ==>
              SerializeOutcome(t, verify).value ==
                ShortVec(|t.signatures|) + EncodeSignatures(SignaturesOf(t.signatures)) +
                EncodeMessage(CompileMessage(t).value)
  {
    CompiledSlots(t);
    if CompileMessage(t).Success? {
      SerializedIsVerified(t, verify);
      CompiledHeader(t);
      EnvelopeLength(SignaturesOf(Compiled(t).signatures), EncodeMessage(CompileMessage(t).value));
    } else {
      SerializeErrors(t, verify);
    }
    assert ZeroSignature() == seq(64, _ => 0);
    hide CompileMessage, EncodeMessage, SerializeOutcome, EncodeSignatures, ShortVec, Compiled, ZeroSignature;
    if CompileMessage(t).Success? {
      KeptIfFilled(CompileMessage(t).value, t.signatures, Compiled(t).signatures);
    }
  }

  /** Slots of which the first is filled after compiling were kept. */
  lemma KeptIfFilled(m: Message, before: seq<SignaturePubkeyPair>, after: seq<SignaturePubkeyPair>)
    requires SlotsKeptOrEmptied(m, before, after) && m.header.numRequiredSignatures >= 1
    ensures after[0].signature != seq(64, _ => 0) ==> after == before
    ensures |before| == m.header.numRequiredSignatures && PairKeys(before) == SignedKeys(m) ==> after == before
    ensures (|before| == |after| && forall i :: 0 <= i < |after| ==> before[i].publicKey == m.accountKeys[i]) ==>
              after == before
  {
    if |before| == m.header.numRequiredSignatures && PairKeys(before) == SignedKeys(m) {
      forall j | 0 <= j < |before| ensures before[j].publicKey == m.accountKeys[j] {
        assert PairKeys(before)[j] == SignedKeys(m)[j];
      }
    }
  }

  /** Sending without signers, with a nonce or not, needs a first signature, leaves the cache alone, and hands over the
      signatures given if they can go out. */
  lemma UnsignedSendHandsOver(call: Call, c: Cache, w: World, disableCaching: bool)
    requires call.kind == Send && call.signers == []
    ensures var t, o := call.tx, CallOutcome(call, c, w, disableCaching);
            && o.cache == c
            && (t.signatures == [] || t.signatures[0].signature == seq(64, _ => 0) ==>
                  o.result == Failure(MissingSignature) && o.tx == t)
            && (o.result.Success? <==> SignedToGoOut(t, call.verify))
            && (o.result.Success? ==> HandsOverGiven(t, o.result.value))
  {
    GivenGoesOut(call.tx, call.verify);
    CompiledHeaderOf(call.tx);
    if CompileMessage(call.tx).Success? {
      CompiledFields(call.tx);
    }
    assert ZeroSignature() == seq(64, _ => 0);
    hide SerializeOutcome, Compiled, CompileMessage, EncodeSignatures, EncodeMessage, ShortVec, ZeroSignature;
  }

  lemma CompiledHeaderOf(t: TxState)
    ensures CompileMessage(t).Success? ==> CompileMessage(t).value.header.numRequiredSignatures >= 1
  {
    hide CompileMessage;
    if CompileMessage(t).Success? {
      CompiledHeader(t);
    }
  }

  /** Simulating without signers fetches a blockhash first; what it hands over, if the signatures given can go out, is
      compiled under the blockhash now cached, or under the nonce. */
  lemma UnsignedSimulationHandsOver(call: Call, c: Cache, w: World, disableCaching: bool)
    requires call.kind == Simulate && call.signers == [] && call.tx.feePayer.Some?
    ensures var o, f := CallOutcome(call, c, w, disableCaching), FetchBlockhash(c, w, disableCaching);
            && o.cache == f.cache
            && (f.result.Failure? ==> o.result == Failure(f.result.error))
            && (f.result.Success? ==>
                  && o.cache.info.latest == Some(f.result.value)
                  && (o.result.Success? <==>
                        SignedToGoOut(call.tx.(recentBlockhash := Some(f.result.value.blockhash)), call.verify))
                  && (o.result.Success? ==>
                        HandsOverGiven(call.tx.(recentBlockhash := Some(f.result.value.blockhash)), o.result.value)))
  {
    var f := FetchBlockhash(c, w, disableCaching);
    hide FetchBlockhash, SerializeOutcome, Compiled, CompileMessage, EncodeSignatures, EncodeMessage, ShortVec;
    if f.result.Success? {
      var t := call.tx.(recentBlockhash := Some(f.result.value.blockhash));
      GivenGoesOut(t, call.verify);
      if CompileMessage(t).Success? {
        CompiledFields(t);
      }
    }
  }

  /** The signatures of a transaction in front of its message, compiled under its nonce, or else its blockhash. */
  ghost predicate HandsOverGiven(t: TxState, bytes: seq<byte>) {
    && CompileMessage(t).Success?
    && var m := CompileMessage(t).value;
    && (if t.nonceInfo.Some? then m.recentBlockhash == t.nonceInfo.value.nonce
        else t.recentBlockhash == Some(m.recentBlockhash))
    && bytes == ShortVec(|t.signatures|) + EncodeSignatures(SignaturesOf(t.signatures)) + EncodeMessage(m)
  }

  /** Simulating needs a fee payer. */
  lemma SimulationFaults(call: Call, c: Cache, w: World, disableCaching: bool)
    requires call.kind == Simulate && call.tx.feePayer.None?
    ensures CallOutcome(call, c, w, disableCaching) == Outcome(Failure(Panic), Subject(call), c)
  {
  }

  /** The transaction a send leaves behind: untouched without a first signature to send; with the slots compiling
      leaves, if it had no signers; and otherwise with those that signing left, which serializing keeps. */
  lemma SendLeaves(call: Call, c: Cache, w: World, disableCaching: bool)
    requires call.kind == Send
    ensures var t, o := call.tx, CallOutcome(call, c, w, disableCaching);
            if call.signers == [] then
              if t.signatures == [] || t.signatures[0].signature == seq(64, _ => 0) then o.tx == t
              else
                && o.tx == t.(signatures := o.tx.signatures)
                && match CompileMessage(t)
                   case Failure(_) => o.tx == t
                   case Success(m) => SlotsKeptOrEmptied(m, t.signatures, o.tx.signatures)
            else if t.nonceInfo.Some? then
              o.tx == t.(signatures := SignOutcome(t, call.signers).pairs)
            else
              o.tx == SigningLoop(Send, t, call.signers, c, w, disableCaching).tx
  {
    assert ZeroSignature() == seq(64, _ => 0);
    CompiledSlots(call.tx);
    SignedStays(call.tx, call.signers);
    LoopStays(Send, call.tx, call.signers, c, w, disableCaching);
    hide SigningLoop, SignOutcome, SerializeOutcome, Compiled, CompileMessage, ZeroSignature, SlotsKeptOrEmptied;
  }

  /** With signers, what signing fails with is the result, and otherwise what serializing gives. */
  lemma CallResult(call: Call, c: Cache, w: World, disableCaching: bool)
    requires call.signers != [] && (call.kind == Simulate ==> call.tx.feePayer.Some?)
    ensures var t, o := Subject(call), CallOutcome(call, c, w, disableCaching);
            if t.nonceInfo.Some? then
              var signing := SignOutcome(t, call.signers);
              o.result == if signing.result.Failure? then Failure(signing.result.error)
                          else SerializeOutcome(t.(signatures := signing.pairs), call.verify)
            else
              var l := SigningLoop(call.kind, t, call.signers, c, w, disableCaching);
              && o.cache == l.cache
              && o.result == if l.result.Failure? then Failure(l.result.error) else SerializeOutcome(l.tx, call.verify)
  {
    hide SigningLoop, SignOutcome, SerializeOutcome, Compiled, CompileMessage;
  }

  lemma SignedStays(t: TxState, signers: seq<Signer>)
    ensures var signing := SignOutcome(t, signers);
            var signed := t.(signatures := signing.pairs);
            signing.result.Success? ==> Compiled(signed) == signed
  {
    hide CompileMessage, SignOutcome, Compiled, EncodeMessage, AnswerOf;
    if SignOutcome(t, signers).result.Success? {
      SignedBytesAreSentBytes(t, signers);
    }
  }

  lemma {:induction false} LoopStays(
    kind: Kind, t: TxState, signers: seq<Signer>, c: Cache, w: World, disableCache: bool)
    ensures var l := SigningLoop(kind, t, signers, c, w, disableCache);
            l.result.Success? ==> Compiled(l.tx) == l.tx
    decreases if disableCache then 0 else 1
  {
    var f := FetchBlockhash(c, w, disableCache);
    hide FetchBlockhash, SignOutcome, FirstSignature, ZeroSignature, Compiled, Recorded, Record;
    if f.result.Success? {
      var under := t.(recentBlockhash := Some(f.result.value.blockhash));
      var signed := under.(signatures := SignOutcome(under, signers).pairs);
      SignedStays(under, signers);
      if !disableCache {
        LoopStays(kind, signed, signers, f.cache, w, true);
      }
    }
  }

  // ---------- With signers, under a blockhash of the cache ----------

  /** How a pass under a fetched blockhash ends the loop: signing fails, the first signature is empty, or it is new
      to the list and recorded. */
  ghost predicate PassEnds(kind: Kind, under: TxState, signers: seq<Signer>, c: Cache, l: Loop) {
    var signing := SignOutcome(under, signers);
    var first := if signing.pairs != [] then signing.pairs[0].signature else seq(64, _ => 0);
    if signing.result.Failure? then
      l.result == signing.result && l.cache == c && l.tx == under.(signatures := signing.pairs)
    else if first == seq(64, _ => 0) then
      l.result == Failure(MissingSignature) && l.cache == c && l.tx == under.(signatures := signing.pairs)
    else
      first !in Recorded(c.info, kind) ==>
        && l.result.Success? && l.tx == under.(signatures := signing.pairs)
        && l.cache == c.(info := l.cache.info)
        && l.cache.info.latest == c.info.latest && l.cache.info.lastFetch == c.info.lastFetch
        && Recorded(l.cache.info, kind) == Recorded(c.info, kind) + [first]
        && forall other :: other != kind ==> Recorded(l.cache.info, other) == Recorded(c.info, other)
  }

  lemma LoopFails(kind: Kind, t: TxState, signers: seq<Signer>, c: Cache, w: World, disableCache: bool)
    ensures var l, f := SigningLoop(kind, t, signers, c, w, disableCache), FetchBlockhash(c, w, disableCache);
            f.result.Failure? ==> l.result == Failure(f.result.error) && l.tx == t && l.cache == f.cache
    ensures var l, f := SigningLoop(kind, t, signers, c, w, disableCache), FetchBlockhash(c, w, disableCache);
            f.result.Success? ==>
              PassEnds(kind, t.(recentBlockhash := Some(f.result.value.blockhash)), signers, f.cache, l)
  {
    var f := FetchBlockhash(c, w, disableCache);
    hide FetchBlockhash, SignOutcome, ZeroSignature, FirstSignature, Recorded, Record;
    if f.result.Success? {
      var under := t.(recentBlockhash := Some(f.result.value.blockhash));
      var pairs := SignOutcome(under, signers).pairs;
      FirstOf(under.(signatures := pairs));
      RecordAdds(f.cache.info, kind, FirstSignature(under.(signatures := pairs)));
    }
  }

  lemma FirstOf(t: TxState)
    ensures FirstSignature(t) == if t.signatures != [] then t.signatures[0].signature else seq(64, _ => 0)
    ensures ZeroSignature() == seq(64, _ => 0)
  {
  }

  lemma RecordAdds(info: BlockhashInfo, kind: Kind, s: Signature)
    ensures Recorded(Record(info, kind, s), kind) == Recorded(info, kind) + [s]
    ensures Record(info, kind, s).latest == info.latest && Record(info, kind, s).lastFetch == info.lastFetch
    ensures forall other :: other != kind ==> Recorded(Record(info, kind, s), other) == Recorded(info, other)
  {
  }

  /** With signers and no nonce a call hands over what goes out under the blockhash now cached. */
  lemma LoopHandsOver(call: Call, c: Cache, w: World, disableCaching: bool)
    requires call.tx.nonceInfo.None? && call.signers != [] && CallOutcome(call, c, w, disableCaching).result.Success?
    ensures var o := CallOutcome(call, c, w, disableCaching);
            && o.cache.info.latest.Some?
            && var t := call.tx.(recentBlockhash := Some(o.cache.info.latest.value.blockhash));
            && CanGoOut(t, call.signers, call.verify) && GoesOut(t, call.signers, o.result.value)
  {
    hide SigningLoop, CanGoOut, GoesOut, SerializeOutcome, Compiled;
    var t := if call.kind == Send then call.tx else SimulatedCopy(call.tx);
    LoopSigns(call.kind, t, call.signers, c, w, disableCaching, call.verify);
    SameStart(call, t, SigningLoop(call.kind, t, call.signers, c, w, disableCaching));
  }

  lemma SameStart(call: Call, t: TxState, l: Loop)
    requires t == call.tx || t == SimulatedCopy(call.tx)
    ensures l.cache.info.latest.Some? ==>
              var b := Some(l.cache.info.latest.value.blockhash);
              t.(recentBlockhash := b) == call.tx.(recentBlockhash := b)
  {
  }

  lemma {:induction false} LoopSigns(
    kind: Kind, t: TxState, signers: seq<Signer>, c: Cache, w: World, disableCache: bool, verify: Verify)
    ensures var l := SigningLoop(kind, t, signers, c, w, disableCache);
            l.result.Success? && SerializeOutcome(l.tx, verify).Success? ==>
              && l.cache.info.latest.Some?
              && var t' := t.(recentBlockhash := Some(l.cache.info.latest.value.blockhash));
              && CanGoOut(t', signers, verify) && GoesOut(t', signers, SerializeOutcome(l.tx, verify).value)
    decreases if disableCache then 0 else 1
  {
    var f := FetchBlockhash(c, w, disableCache);
    hide FetchBlockhash, SignOutcome, FirstSignature, ZeroSignature, SerializeOutcome;
    if f.result.Success? {
      var under := t.(recentBlockhash := Some(f.result.value.blockhash));
      var signed := under.(signatures := SignOutcome(under, signers).pairs);
      SignedGoesOut(under, signers, verify);
      if !disableCache {
        LoopSigns(kind, signed, signers, f.cache, w, true, verify);
        SlotsIgnored(under, signed, signers, verify);
      }
      hide CanGoOut, GoesOut;
    }
  }

  /** The slots before signing make no difference. */
  lemma SlotsIgnored(t: TxState, signed: TxState, signers: seq<Signer>, verify: Verify)
    requires signed == t.(signatures := signed.signatures)
    ensures forall b :: CanGoOut(signed.(recentBlockhash := b), signers, verify) <==>
                        CanGoOut(t.(recentBlockhash := b), signers, verify)
    ensures forall b, bytes :: GoesOut(signed.(recentBlockhash := b), signers, bytes) <==>
                               GoesOut(t.(recentBlockhash := b), signers, bytes)
  {
    hide CompileMessage, Dedupe, EncodeMessage, AnswersFor, AnswerOf, Blank, EncodeSignatures, ShortVec;
    var slots := Blank(SignerKeys(Dedupe(signers)));
    forall b
      ensures CanGoOut(signed.(recentBlockhash := b), signers, verify) <==>
              CanGoOut(t.(recentBlockhash := b), signers, verify)
    {
      assert signed.(recentBlockhash := b).(signatures := slots) == t.(recentBlockhash := b).(signatures := slots);
    }
    forall b, bytes
      ensures GoesOut(signed.(recentBlockhash := b), signers, bytes) <==>
              GoesOut(t.(recentBlockhash := b), signers, bytes)
    {
      assert signed.(recentBlockhash := b).(signatures := slots) == t.(recentBlockhash := b).(signatures := slots);
    }
  }
}
