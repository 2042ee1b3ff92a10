/** The bytes of a message by position, and what reading makes of bytes that no message was written to
    (web3/message_legacy.go:261-377, web3/message_v0.go:221-404, web3/message_compat.go:79-108). */
module WireMeaning {
  import opened Basics
  import opened Buffers
  import opened Messages
  import opened Wire
  import opened LegacyCompile
  import opened VersionedTransactions

  // ---------- What is written ----------

  lemma {:induction false} KeyAtOffset(keys: seq<PublicKey>, i: nat)
    requires i < |keys|
    ensures |EncodeKeys(keys)| == 32 * |keys|
    ensures EncodeKeys(keys)[32 * i..32 * i + 32] == keys[i]
  {
    KeysLength(keys);
    KeysLength(keys[1..]);
    if i == 0 {
      assert EncodeKeys(keys)[..32] == keys[0];
    } else {
      KeyAtOffset(keys[1..], i - 1);
      var all, tail, at := EncodeKeys(keys), EncodeKeys(keys[1..]), 32 * (i - 1);
      assert all == keys[0] + tail && 32 * i == 32 + at;
      assert all[32 + at..32 + at + 32] == tail[at..at + 32];
    }
  }

  lemma {:induction false} SignatureAtOffset(signatures: seq<Signature>, i: nat)
    requires i < |signatures|
    ensures |EncodeSignatures(signatures)| == 64 * |signatures|
    ensures EncodeSignatures(signatures)[64 * i..64 * i + 64] == signatures[i]
  {
    SignaturesLength(signatures);
    SignaturesLength(signatures[1..]);
    if i == 0 {
      assert EncodeSignatures(signatures)[..64] == signatures[0];
    } else {
      SignatureAtOffset(signatures[1..], i - 1);
      var all, tail, at := EncodeSignatures(signatures), EncodeSignatures(signatures[1..]), 64 * (i - 1);
      assert all == signatures[0] + tail && 64 * i == 64 + at;
      assert all[64 + at..64 + at + 64] == tail[at..at + 64];
    }
  }

  /** Three header bytes, cut to eight bits, the number of keys, the keys, the blockhash, the number of instructions,
      the instructions. */
  lemma BodyLayout(h: MessageHeader, keys: seq<PublicKey>, blockhash: Blockhash, ixs: seq<CompiledInstruction>)
    ensures var body, k := EncodeBody(h, keys, blockhash, ixs), ShortVec(|keys|);
            var start := 3 + |k|;
            var end := start + 32 * |keys|;
            && |body| >= end + |blockhash|
            && body[0] == h.numRequiredSignatures % 0x100
            && body[1] == h.numReadonlySignedAccounts % 0x100
            && body[2] == h.numReadonlyUnsignedAccounts % 0x100
            && body[3..start] == k
            && (forall i :: 0 <= i < |keys| ==> body[start + 32 * i..start + 32 * i + 32] == keys[i])
            && body[end..end + |blockhash|] == blockhash
            && body[end + |blockhash|..] == ShortVec(|ixs|) + EncodeInstructions(ixs)
  {
    hide ShortVec, EncodeKeys, EncodeInstructions;
    var body, k, all := EncodeBody(h, keys, blockhash, ixs), ShortVec(|keys|), EncodeKeys(keys);
    var tail := ShortVec(|ixs|) + EncodeInstructions(ixs);
    KeysLength(keys);
    assert body == EncodeHeader(h) + (k + (all + (blockhash + tail)));
    var start := 3 + |k|;
    var end := start + |all|;
    assert body[3..] == k + (all + (blockhash + tail));
    assert body[3..start] == k;
    assert body[start..] == all + (blockhash + tail);
    assert body[end..] == blockhash + tail;
    assert body[end..end + |blockhash|] == blockhash;
    assert body[end + |blockhash|..] == tail;
    forall i | 0 <= i < |keys| ensures body[start + 32 * i..start + 32 * i + 32] == keys[i] {
      KeyAtOffset(keys, i);
      assert body[start..][32 * i..32 * i + 32] == all[32 * i..32 * i + 32];
    }
  }

  /** Instructions follow one another: a program index, and twice a length and so many bytes, first the account
      indexes, then the data; lookups likewise, with a key and the writable indexes first. */
  lemma PartsLayout(ixs: seq<CompiledInstruction>, ls: seq<MessageAddressTableLookup>)
    ensures ixs != [] ==>
              EncodeInstructions(ixs) ==
                [ixs[0].programIdIndex]
                + (ShortVec(|ixs[0].accounts|) + ixs[0].accounts) + (ShortVec(|ixs[0].data|) + ixs[0].data)
                + EncodeInstructions(ixs[1..])
    ensures ls != [] ==>
              EncodeLookups(ls) ==
                ls[0].accountKey + (ShortVec(|ls[0].writableIndexes|) + ls[0].writableIndexes)
                + (ShortVec(|ls[0].readonlyIndexes|) + ls[0].readonlyIndexes) + EncodeLookups(ls[1..])
    ensures EncodeInstructions([]) == [] && EncodeLookups([]) == []
  {
    hide ShortVec;
  }

  /** A legacy message is the body; a version 0 message the byte 0x80, the body, the number of lookups and these. Both
      go behind the number of signatures and the signatures, 64 bytes each. */
  lemma MessageLayout(m: Message, v: MessageV0, t: Signed)
    ensures EncodeMessage(m) == EncodeBody(m.header, m.accountKeys, m.recentBlockhash, m.instructions)
    ensures EncodeMessageV0(v) ==
            [0x80] + EncodeBody(v.header, v.staticAccountKeys, v.recentBlockhash, v.compiledInstructions)
            + (ShortVec(|v.addressTableLookups|) + EncodeLookups(v.addressTableLookups))
    ensures EncodeVersioned(Legacy(m)) == EncodeMessage(m) && EncodeVersioned(V0(v)) == EncodeMessageV0(v)
    ensures var bytes, k, n := EncodeSigned(t), ShortVec(|t.signatures|), |t.signatures|;
            && |bytes| >= |k| + 64 * n
            && bytes[..|k|] == k
            && (forall i :: 0 <= i < n ==> bytes[|k| + 64 * i..|k| + 64 * i + 64] == t.signatures[i])
            && bytes[|k| + 64 * n..] == EncodeVersioned(t.message)
  {
    hide ShortVec, EncodeBody, EncodeLookups, EncodeSignatures;
    var k, all, data := ShortVec(|t.signatures|), EncodeSignatures(t.signatures), EncodeVersioned(t.message);
    SignaturesLength(t.signatures);
    var bytes := EncodeSigned(t);
    assert bytes == k + all + data;
    assert bytes[|k|..] == all + data;
    forall i | 0 <= i < |t.signatures| ensures bytes[|k| + 64 * i..|k| + 64 * i + 64] == t.signatures[i] {
      SignatureAtOffset(t.signatures, i);
      assert bytes[|k|..][64 * i..64 * i + 64] == all[64 * i..64 * i + 64];
    }
  }

  // ---------- What is read ----------

  /** A field of n bytes: a fault if it cannot be allocated, the end of input if nothing is left of it, and otherwise
      the bytes there, those missing being zero. */
  lemma FieldMeaning(data: seq<byte>, n: int)
    ensures n < 0 || n > 0x1_0000_0000_0000 ==> ParseBytes(data, n) == Failure(Panic)
    ensures 0 < n <= 0x1_0000_0000_0000 && data == [] ==> ParseBytes(data, n) == Failure(EndOfInput)
    ensures 0 <= n <= 0x1_0000_0000_0000 && (data != [] || n == 0) ==>
              && ParseBytes(data, n).Success?
              && var p := ParseBytes(data, n).value;
              && |p.value| == n
              && (forall i :: 0 <= i < n ==> p.value[i] == if i < |data| then data[i] else 0)
              && p.rest == if n <= |data| then data[n..] else []
  {
  }

  /** A length ends at the first byte below 0x80, if there is one; its seven-bit digits add up in 64 bits. Where the
      error is dropped, a length without an end is zero and takes no byte. */
  lemma LengthMeaning(data: seq<byte>, size: nat)
    requires size <= |data| && forall i :: 0 <= i < size ==> data[i] >= 0x80
    ensures size == |data| ==> ParseLength(data) == Failure(EndOfInput) && ParseLengthOrZero(data) == Parsed(0, data)
    ensures size < |data| && data[size] < 0x80 ==>
              && ParseLength(data) == Success(Parsed(AsInt64(DigitSum(data, size + 1)), data[size + 1..]))
              && ParseLengthOrZero(data) == ParseLength(data).value
  {
    if size == |data| {
      TerminatorInBounds(data);
    } else if data[size] < 0x80 {
      TerminatorFound(data, size + 1);
    }
  }

  /** The digits: the first has weight 1, and each next one 128 times the weight of the one before. */
  lemma {:induction false} DigitsMeaning(data: seq<byte>, size: nat)
    requires size < |data|
    ensures DigitSum(data, 0) == 0
    ensures DigitSum(data, size + 1) == DigitSum(data, size) + data[size] % 0x80 * Pow128(size)
    ensures Pow128(0) == 1 && Pow128(size + 1) == 0x80 * Pow128(size)
  {
    DigitSumNext(data, size);
  }

  predicate KeyRead(data: seq<byte>, i: nat, k: PublicKey) {
    forall j :: 0 <= j < 32 ==> k[j] == if 32 * i + j < |data| then data[32 * i + j] else 0
  }

  /** Keys are read 32 bytes each, the last one possibly short; it is the end of input if nothing is left of one. A
      negative number of keys reads none. */
  lemma {:induction false} KeysMeaning(data: seq<byte>, n: int)
    ensures n <= 0 ==> ParseKeys(data, n) == Success(Parsed([], data))
    ensures n > 0 && 32 * (n - 1) >= |data| ==> ParseKeys(data, n) == Failure(EndOfInput)
    ensures n > 0 && 32 * (n - 1) < |data| ==>
              && ParseKeys(data, n).Success?
              && var p := ParseKeys(data, n).value;
              && |p.value| == n && (forall i :: 0 <= i < n ==> KeyRead(data, i, p.value[i]))
              && p.rest == if 32 * n <= |data| then data[32 * n..] else []
    decreases n
  {
    if n > 0 {
      FieldMeaning(data, 32);
      hide ParseBytes, KeyRead;
      if data != [] {
        var k := ParseBytes(data, 32).value;
        KeysMeaning(k.rest, n - 1);
        KeysNext(data, n, k);
      }
    }
  }

  lemma KeysNext(data: seq<byte>, n: nat, k: Parsed<seq<byte>>)
    requires n > 0 && data != [] && ParseBytes(data, 32) == Success(k)
    requires n - 1 > 0 && 32 * (n - 2) < |k.rest| ==>
               && ParseKeys(k.rest, n - 1).Success?
               && var p := ParseKeys(k.rest, n - 1).value;
               && |p.value| == n - 1 && (forall i :: 0 <= i < n - 1 ==> KeyRead(k.rest, i, p.value[i]))
               && p.rest == if 32 * (n - 1) <= |k.rest| then k.rest[32 * (n - 1)..] else []
    requires n - 1 > 0 && 32 * (n - 2) >= |k.rest| ==> ParseKeys(k.rest, n - 1) == Failure(EndOfInput)
    ensures 32 * (n - 1) >= |data| ==> ParseKeys(data, n) == Failure(EndOfInput)
    ensures 32 * (n - 1) < |data| ==>
              && ParseKeys(data, n).Success?
              && var p := ParseKeys(data, n).value;
              && |p.value| == n && (forall i :: 0 <= i < n ==> KeyRead(data, i, p.value[i]))
              && p.rest == if 32 * n <= |data| then data[32 * n..] else []
  {
    FieldMeaning(data, 32);
    hide ParseBytes;
    if 32 * (n - 1) < |data| {
      var p := ParseKeys(data, n).value;
      assert KeyRead(data, 0, p.value[0]);
      forall i | 0 < i < n ensures KeyRead(data, i, p.value[i]) {
        KeyShifted(data, k.rest, i, p.value[i]);
      }
    }
  }

  lemma KeyShifted(data: seq<byte>, rest: seq<byte>, i: nat, k: PublicKey)
    requires i > 0 && rest == (if 32 <= |data| then data[32..] else []) && KeyRead(rest, i - 1, k)
    ensures KeyRead(data, i, k)
  {
    forall j | 0 <= j < 32 ensures k[j] == if 32 * i + j < |data| then data[32 * i + j] else 0 {
      assert k[j] == if 32 * (i - 1) + j < |rest| then rest[32 * (i - 1) + j] else 0;
    }
  }

  /** Counted bytes are a length and a field of that size; their first error is the result. */
  lemma CountedMeaning(data: seq<byte>)
    ensures match ParseLength(data)
            case Failure(e) => ParseCounted(data) == Failure(e)
            case Success(n) => ParseCounted(data) == ParseBytes(n.rest, n.value)
  {
    hide ParseLength, ParseBytes;
  }

  /** Instructions are read in turn: the end of input if no program index is left, and otherwise the errors of the
      account indexes and of the data, in this order. None are read for a number that is not positive. */
  lemma InstructionsMeaning(data: seq<byte>, n: int)
    ensures n <= 0 ==> ParseInstructions(data, n) == Success(Parsed([], data))
    ensures n > 0 && data == [] ==> ParseInstructions(data, n) == Failure(EndOfInput)
    ensures n > 0 && data != [] ==>
              match ParseCounted(data[1..])
              case Failure(e) => ParseInstructions(data, n) == Failure(e)
              case Success(accounts) =>
                match ParseCounted(accounts.rest)
                case Failure(e) => ParseInstructions(data, n) == Failure(e)
                case Success(d) =>
                  match ParseInstructions(d.rest, n - 1)
                  case Failure(e) => ParseInstructions(data, n) == Failure(e)
                  case Success(more) =>
                    ParseInstructions(data, n) == Success(Parsed(
                      [CompiledInstruction(data[0], accounts.value, d.value)] + more.value, more.rest))
  {
    hide ParseCounted;
  }

  /** Lookups likewise: a key, the writable and the read-only indexes. */
  lemma LookupsMeaning(data: seq<byte>, n: int)
    ensures n <= 0 ==> ParseLookups(data, n) == Success(Parsed([], data))
    ensures n > 0 ==>
              match ParseBytes(data, 32)
              case Failure(e) => ParseLookups(data, n) == Failure(e)
              case Success(k) =>
                match ParseCounted(k.rest)
                case Failure(e) => ParseLookups(data, n) == Failure(e)
                case Success(w) =>
                  match ParseCounted(w.rest)
                  case Failure(e) => ParseLookups(data, n) == Failure(e)
                  case Success(r) =>
                    match ParseLookups(r.rest, n - 1)
                    case Failure(e) => ParseLookups(data, n) == Failure(e)
                    case Success(more) =>
                      ParseLookups(data, n) == Success(Parsed(
                        [MessageAddressTableLookup(k.value, w.value, r.value)] + more.value, more.rest))
  {
    hide ParseCounted, ParseBytes;
  }

  /** A legacy message is a body whose program indexes are among its keys, a fault otherwise; a version 0 message a
      body and lookups, none if their number is cut short. */
  lemma MessagesMeaning(data: seq<byte>)
    ensures match ParseBody(data)
            case Failure(e) => ParseMessage(data) == Failure(e)
            case Success(p) =>
              if exists i :: 0 <= i < |p.value.instructions| &&
                   p.value.instructions[i].programIdIndex >= |p.value.keys| then
                ParseMessage(data) == Failure(Panic)
              else ParseMessage(data).Success? && ReadParts(ParseMessage(data).value, p.value)
    ensures data != [] && data[0] == 0x80 ==>
              match ParseBody(data[1..])
              case Failure(e) => ParseMessageV0(data) == Failure(e)
              case Success(p) =>
                var count := if ParseLength(p.rest).Success? then ParseLength(p.rest).value else Parsed(0, p.rest);
                match ParseLookups(count.rest, count.value)
                case Failure(e) => ParseMessageV0(data) == Failure(e)
                case Success(ls) =>
                  ParseMessageV0(data) == Success(MessageV0(
                    p.value.header, p.value.keys, p.value.blockhash, p.value.instructions, ls.value))
  {
    hide ParseBody, ParseLookups, ParseLength, ProgramIds;
  }

  predicate ReadParts(m: Message, b: Body) {
    && m.header == b.header && m.accountKeys == b.keys
    && m.recentBlockhash == b.blockhash && m.instructions == b.instructions
  }

  /** A body is read in the order written; only for the number of instructions is the error dropped. */
  lemma BodyMeaning(data: seq<byte>)
    ensures ParseBytes(data, 3).Failure? ==> ParseBody(data) == Failure(ParseBytes(data, 3).error)
    ensures ParseBytes(data, 3).Success? ==>
              match ParseLength(ParseBytes(data, 3).value.rest)
              case Failure(e) => ParseBody(data) == Failure(e)
              case Success(n) =>
                match ParseKeys(n.rest, n.value)
                case Failure(e) => ParseBody(data) == Failure(e)
                case Success(keys) =>
                  match ParseBytes(keys.rest, 32)
                  case Failure(e) => ParseBody(data) == Failure(e)
                  case Success(b) =>
                    var count := if ParseLength(b.rest).Success? then ParseLength(b.rest).value else Parsed(0, b.rest);
                    match ParseInstructions(count.rest, count.value)
                    case Failure(e) => ParseBody(data) == Failure(e)
                    case Success(ixs) =>
                      && ParseBody(data).Success? && ParseBody(data).value.rest == ixs.rest
                      && var read := ParseBody(data).value.value;
                      read.keys == keys.value && read.blockhash == b.value && read.instructions == ixs.value
  {
    hide ParseBytes, ParseLength, ParseKeys, ParseInstructions;
  }

  predicate SignatureRead(data: seq<byte>, i: nat, s: Signature) {
    64 * i + 64 <= |data| && data[64 * i..64 * i + 64] == s
  }

  lemma SignatureShifted(data: seq<byte>, i: nat, s: Signature)
    requires |data| >= 64 && SignatureRead(data[64..], i, s)
    ensures SignatureRead(data, i + 1, s)
  {
    assert data[64..][64 * i..64 * i + 64] == data[64 * (i + 1)..64 * (i + 1) + 64];
  }

  /** Signatures are read 64 bytes each; running out of bytes among them is a fault. */
  lemma {:induction false} SignaturesMeaning(data: seq<byte>, n: int)
    ensures n <= 0 ==> ParseSignatures(data, n) == Success(Parsed([], data))
    ensures n > 0 && 64 * n > |data| ==> ParseSignatures(data, n) == Failure(Panic)
    ensures n > 0 && 64 * n <= |data| ==>
              && ParseSignatures(data, n).Success?
              && var p := ParseSignatures(data, n).value;
              && |p.value| == n && p.rest == data[64 * n..]
              && forall i :: 0 <= i < n ==> SignatureRead(data, i, p.value[i])
    decreases n
  {
    hide SignatureRead;
    if n > 0 && |data| >= 64 {
      SignaturesMeaning(data[64..], n - 1);
      if 64 * n <= |data| {
        var more := ParseSignatures(data[64..], n - 1).value;
        RestShifted(data, n);
        FirstSignatureRead(data);
        var p := ParseSignatures(data, n).value;
        assert p.value == [data[..64]] + more.value;
        forall i | 0 <= i < n ensures SignatureRead(data, i, p.value[i]) {
          if i > 0 {
            SignatureShifted(data, i - 1, more.value[i - 1]);
          }
        }
      }
    }
  }

  lemma FirstSignatureRead(data: seq<byte>)
    requires |data| >= 64
    ensures SignatureRead(data, 0, data[..64])
  {
  }

  lemma RestShifted(data: seq<byte>, n: nat)
    requires 0 < 64 * n <= |data|
    ensures data[64..][64 * (n - 1)..] == data[64 * n..]
    ensures data[64..][0..] == data[64..]
  {
  }

  /** A signed transaction on any bytes: it has ended if the signatures counted do not fit in what is left, by a product
      of 64 bits; if they really do not fit that is a fault; otherwise the message is read behind them. */
  lemma SignedMeaning(data: seq<byte>)
    ensures ParseLength(data).Failure? ==> ParseSigned(data) == Failure(ParseLength(data).error)
    ensures ParseLength(data).Success? ==>
              var n, rest := ParseLength(data).value.value, ParseLength(data).value.rest;
              if |rest| < AsInt64(64 * n) then ParseSigned(data) == Failure(EndOfInput)
              else if n > 0 && |rest| < 64 * n then ParseSigned(data) == Failure(Panic)
              else
                var start := if n > 0 then 64 * n else 0;
                match ParseVersioned(rest[start..])
                case Failure(e) => ParseSigned(data) == Failure(e)
                case Success(m) =>
                  && ParseSigned(data).Success? && ParseSigned(data).value.message == m
                  && var signatures := ParseSigned(data).value.signatures;
                  && 64 * |signatures| == start
                  && forall i :: 0 <= i < |signatures| ==> SignatureRead(rest, i, signatures[i])
  {
    hide ParseLength, ParseVersioned, ParseSignatures, SignatureRead;
    if ParseLength(data).Success? {
      var count := ParseLength(data).value;
      SignaturesMeaning(count.rest, count.value);
      assert count.rest[0..] == count.rest;
    }
  }

  /** Only the prefix 0x80 is read as version 0: less is not versioned, more is not supported. Under prefix dispatch
      anything below 0x80 is a legacy message, and no bytes at all are a fault. */
  lemma PrefixMeaning(data: seq<byte>)
    ensures data == [] ==> ParseMessageV0(data) == Failure(EndOfInput) && ParseVersioned(data) == Failure(Panic)
    ensures data != [] && data[0] < 0x80 ==> ParseMessageV0(data) == Failure(ExpectedVersioned)
    ensures data != [] && data[0] > 0x80 ==>
              ParseMessageV0(data) == Failure(UnsupportedVersion) && ParseVersioned(data) == Failure(UnsupportedVersion)
    ensures data != [] && data[0] < 0x80 ==>
              match ParseMessage(data)
              case Success(m) => ParseVersioned(data) == Success(Legacy(m))
              case Failure(e) => ParseVersioned(data) == Failure(e)
    ensures data != [] && data[0] == 0x80 ==>
              match ParseMessageV0(data)
              case Success(m) => ParseVersioned(data) == Success(V0(m))
              case Failure(e) => ParseVersioned(data) == Failure(e)
  {
    hide ParseBody, ParseLookups, ParseLengthOrZero, ParseMessage;
  }

  /** The header of whatever parses is the three bytes there, those missing being zero. */
  lemma HeaderMeaning(data: seq<byte>)
    ensures ParseBody(data).Success? ==>
              var h := ParseBody(data).value.value.header;
              && data != [] && h.numRequiredSignatures == data[0]
              && h.numReadonlySignedAccounts == (if |data| > 1 then data[1] else 0)
              && h.numReadonlyUnsignedAccounts == (if |data| > 2 then data[2] else 0)
  {
    FieldMeaning(data, 3);
    hide ParseBytes, ParseLength, ParseKeys, ParseInstructions, ParseLengthOrZero;
  }

  lemma LegacyTrailing(m: Message, rest: seq<byte>)
    requires GoSized(Legacy(m)) && LegacyFits(m)
    ensures ParseMessage(EncodeMessage(m) + rest) == Success(m)
  {
    ParseBodyBack(m.header, m.accountKeys, m.recentBlockhash, m.instructions, rest);
    hide EncodeBody, ParseBody;
  }

  lemma V0Trailing(m: MessageV0, rest: seq<byte>)
    requires GoSized(V0(m)) && V0Fits(m)
    ensures ParseMessageV0(EncodeMessageV0(m) + rest) == Success(m)
  {
    var ls := m.addressTableLookups;
    var tail := ShortVec(|ls|) + EncodeLookups(ls);
    var body := EncodeBody(m.header, m.staticAccountKeys, m.recentBlockhash, m.compiledInstructions);
    ParseBodyBack(m.header, m.staticAccountKeys, m.recentBlockhash, m.compiledInstructions, tail + rest);
    ParseLengthBack(|ls|, EncodeLookups(ls) + rest);
    ParseLookupsBack(ls, rest);
    hide ShortVec, EncodeLookups, EncodeBody, ParseBody, ParseLookups, ParseLengthOrZero, ParseMessageV0;
    Associate(ShortVec(|ls|), EncodeLookups(ls), rest);
    Associate([VERSION_0_PREFIX], body, tail);
    Associate([VERSION_0_PREFIX], body + tail, rest);
    Associate(body, tail, rest);
    ParseMessageV0Steps(EncodeMessageV0(m) + rest, body + (tail + rest),
      Body(m.header, m.staticAccountKeys, m.recentBlockhash, m.compiledInstructions),
      tail + rest, |ls|, EncodeLookups(ls) + rest, ls, rest);
  }

  /** A message is read from the front: bytes after it make no difference. */
  lemma TrailingIgnored(m: VersionedMessage, rest: seq<byte>)
    requires GoSized(m) && VersionedFits(m)
    ensures ParseVersioned(EncodeVersioned(m) + rest) == Success(m)
  {
    match m {
      case Legacy(l) => LegacyFirst(l, rest);
      case V0(v) => V0First(v, rest);
    }
  }

  lemma LegacyFirst(m: Message, rest: seq<byte>)
    requires GoSized(Legacy(m)) && LegacyFits(m) && m.header.numRequiredSignatures < 0x80
    ensures ParseVersioned(EncodeMessage(m) + rest) == Success(Legacy(m))
  {
    LegacyTrailing(m, rest);
    BodyLayout(m.header, m.accountKeys, m.recentBlockhash, m.instructions);
    hide ParseMessage, ParseMessageV0, EncodeBody, GoSized, ShortVec, EncodeInstructions;
    assert (EncodeMessage(m) + rest)[0] == EncodeMessage(m)[0];
  }

  lemma V0First(m: MessageV0, rest: seq<byte>)
    requires GoSized(V0(m)) && V0Fits(m)
    ensures ParseVersioned(EncodeMessageV0(m) + rest) == Success(V0(m))
  {
    V0Trailing(m, rest);
    hide ParseMessage, ParseMessageV0, EncodeBody, EncodeLookups, ShortVec, GoSized;
    assert EncodeMessageV0(m)[0] == 0x80;
    assert (EncodeMessageV0(m) + rest)[0] == EncodeMessageV0(m)[0];
  }
}
