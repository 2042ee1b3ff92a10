/** The wire format of both message formats: Serialize and Deserialize
    (web3/message_legacy.go:261-377, web3/message_v0.go:221-404, web3/message_compat.go:79-108). */
module Wire {
  import opened Basics
  import opened Buffers
  import opened Messages

  // ---------- What Serialize writes ----------

  const VERSION_0_PREFIX: byte := 0x80

  function EncodeHeader(h: MessageHeader): seq<byte> {
    [AsByte(h.numRequiredSignatures), AsByte(h.numReadonlySignedAccounts), AsByte(h.numReadonlyUnsignedAccounts)]
  }

  function EncodeKeys(keys: seq<PublicKey>): seq<byte> {
    if keys == [] then [] else keys[0] + EncodeKeys(keys[1..])
  }

  /** A length and that many bytes. */
  function EncodeBytes(b: seq<byte>): seq<byte> {
    ShortVec(|b|) + b
  }

  function EncodeInstruction(ix: CompiledInstruction): seq<byte> {
    [ix.programIdIndex] + EncodeBytes(ix.accounts) + EncodeBytes(ix.data)
  }

  function EncodeInstructions(ixs: seq<CompiledInstruction>): seq<byte> {
    if ixs == [] then [] else EncodeInstruction(ixs[0]) + EncodeInstructions(ixs[1..])
  }

  function EncodeLookup(l: MessageAddressTableLookup): seq<byte> {
    l.accountKey + EncodeBytes(l.writableIndexes) + EncodeBytes(l.readonlyIndexes)
  }

  function EncodeLookups(ls: seq<MessageAddressTableLookup>): seq<byte> {
    if ls == [] then [] else EncodeLookup(ls[0]) + EncodeLookups(ls[1..])
  }

  /** The part both formats share. */
  function EncodeBody(h: MessageHeader, keys: seq<PublicKey>, blockhash: Blockhash, ixs: seq<CompiledInstruction>)
    : seq<byte>
  {
    EncodeHeader(h) + (ShortVec(|keys|) +
      (EncodeKeys(keys) + (blockhash + (ShortVec(|ixs|) + EncodeInstructions(ixs)))))
  }

  function EncodeMessage(m: Message): seq<byte> {
    EncodeBody(m.header, m.accountKeys, m.recentBlockhash, m.instructions)
  }

  function EncodeMessageV0(m: MessageV0): seq<byte> {
    [VERSION_0_PREFIX]
    + EncodeBody(m.header, m.staticAccountKeys, m.recentBlockhash, m.compiledInstructions)
    + (ShortVec(|m.addressTableLookups|) + EncodeLookups(m.addressTableLookups))
  }

  function EncodeVersioned(m: VersionedMessage): seq<byte> {
    match m
    case Legacy(m) => EncodeMessage(m)
    case V0(m) => EncodeMessageV0(m)
  }

  method WriteKeys(buf: Buffer, keys: seq<PublicKey>)
    modifies buf
    ensures buf.data == old(buf.data) + EncodeKeys(keys)
  {
    for i := 0 to |keys|
      invariant buf.data + EncodeKeys(keys[i..]) == old(buf.data) + EncodeKeys(keys)
    {
      assert keys[i..][1..] == keys[i + 1..];
      assert buf.data + (keys[i] + EncodeKeys(keys[i + 1..])) == (buf.data + keys[i]) + EncodeKeys(keys[i + 1..]);
      buf.Append(keys[i]);
    }
  }

  lemma InstructionPieces(before: seq<byte>, ix: CompiledInstruction)
    ensures before + [ix.programIdIndex] + ShortVec(|ix.accounts|) + ix.accounts + ShortVec(|ix.data|) + ix.data
         == before + EncodeInstruction(ix)
  {
    var a, d := EncodeBytes(ix.accounts), EncodeBytes(ix.data);
    Associate(before, [ix.programIdIndex] + a, d);
    Associate(before, [ix.programIdIndex], a);
    Associate(before + [ix.programIdIndex], ShortVec(|ix.accounts|), ix.accounts);
    Associate(before + [ix.programIdIndex] + a, ShortVec(|ix.data|), ix.data);
  }

  lemma LookupPieces(before: seq<byte>, l: MessageAddressTableLookup)
    ensures before + l.accountKey + ShortVec(|l.writableIndexes|) + l.writableIndexes
            + ShortVec(|l.readonlyIndexes|) + l.readonlyIndexes
         == before + EncodeLookup(l)
  {
    var w, r := EncodeBytes(l.writableIndexes), EncodeBytes(l.readonlyIndexes);
    Associate(before, l.accountKey + w, r);
    Associate(before, l.accountKey, w);
    Associate(before + l.accountKey, ShortVec(|l.writableIndexes|), l.writableIndexes);
    Associate(before + l.accountKey + w, ShortVec(|l.readonlyIndexes|), l.readonlyIndexes);
  }

  method WriteInstructions(buf: Buffer, ixs: seq<CompiledInstruction>)
    modifies buf
    ensures buf.data == old(buf.data) + EncodeInstructions(ixs)
  {
    hide EncodeInstruction, ShortVec;
    for i := 0 to |ixs|
      invariant buf.data + EncodeInstructions(ixs[i..]) == old(buf.data) + EncodeInstructions(ixs)
    {
      var ix := ixs[i];
      ghost var before, after := buf.data, EncodeInstructions(ixs[i + 1..]);
      assert ixs[i..][1..] == ixs[i + 1..];
      Associate(before, EncodeInstruction(ix), after);
      InstructionPieces(before, ix);
      buf.Append([ix.programIdIndex]);
      buf.EncodeLength(|ix.accounts|);
      buf.Append(ix.accounts);
      buf.EncodeLength(|ix.data|);
      buf.Append(ix.data);
    }
  }

  method WriteLookups(buf: Buffer, ls: seq<MessageAddressTableLookup>)
    modifies buf
    ensures buf.data == old(buf.data) + EncodeLookups(ls)
  {
    hide EncodeLookup, ShortVec;
    for i := 0 to |ls|
      invariant buf.data + EncodeLookups(ls[i..]) == old(buf.data) + EncodeLookups(ls)
    {
      var l := ls[i];
      ghost var before, after := buf.data, EncodeLookups(ls[i + 1..]);
      assert ls[i..][1..] == ls[i + 1..];
      Associate(before, EncodeLookup(l), after);
      LookupPieces(before, l);
      buf.Append(l.accountKey);
      buf.EncodeLength(|l.writableIndexes|);
      buf.Append(l.writableIndexes);
      buf.EncodeLength(|l.readonlyIndexes|);
      buf.Append(l.readonlyIndexes);
    }
  }

  /** Message.Serialize. */
  method SerializeMessage(m: Message) returns (bytes: seq<byte>)
    ensures bytes == EncodeMessage(m)
  {
    hide ShortVec, EncodeKeys, EncodeInstructions;
    var buf := new Buffer(EncodeHeader(m.header));
    buf.EncodeLength(|m.accountKeys|);
    WriteKeys(buf, m.accountKeys);
    buf.Append(m.recentBlockhash);
    buf.EncodeLength(|m.instructions|);
    WriteInstructions(buf, m.instructions);
    BodyPieces([], m.header, m.accountKeys, m.recentBlockhash, m.instructions);
    assert [] + EncodeHeader(m.header) == EncodeHeader(m.header) && [] + EncodeMessage(m) == EncodeMessage(m);
    bytes := buf.data;
  }

  /** MessageV0.Serialize, with its inner buffers. */
  method SerializeMessageV0(m: MessageV0) returns (bytes: seq<byte>)
    ensures bytes == EncodeMessageV0(m)
  {
    hide ShortVec, EncodeKeys, EncodeInstructions, EncodeLookups;
    var buf := new Buffer([VERSION_0_PREFIX]);
    buf.Append(EncodeHeader(m.header));
    buf.EncodeLength(|m.staticAccountKeys|);
    WriteKeys(buf, m.staticAccountKeys);
    buf.Append(m.recentBlockhash);
    buf.EncodeLength(|m.compiledInstructions|);
    var inner := new Buffer([]);
    WriteInstructions(inner, m.compiledInstructions);
    buf.Append(inner.data);
    ghost var body := EncodeBody(m.header, m.staticAccountKeys, m.recentBlockhash, m.compiledInstructions);
    assert buf.data == [VERSION_0_PREFIX] + body by {
      BodyPieces([VERSION_0_PREFIX], m.header, m.staticAccountKeys, m.recentBlockhash, m.compiledInstructions);
      assert inner.data == EncodeInstructions(m.compiledInstructions);
    }
    buf.EncodeLength(|m.addressTableLookups|);
    inner := new Buffer([]);
    WriteLookups(inner, m.addressTableLookups);
    assert inner.data == EncodeLookups(m.addressTableLookups);
    buf.Append(inner.data);
    Associate([VERSION_0_PREFIX] + body, ShortVec(|m.addressTableLookups|), EncodeLookups(m.addressTableLookups));
    bytes := buf.data;
  }

  lemma BodyPieces(
    prefix: seq<byte>, h: MessageHeader, keys: seq<PublicKey>, blockhash: Blockhash, ixs: seq<CompiledInstruction>)
    ensures prefix + EncodeHeader(h) + ShortVec(|keys|) + EncodeKeys(keys) + blockhash +
            ShortVec(|ixs|) + EncodeInstructions(ixs)
         == prefix + EncodeBody(h, keys, blockhash, ixs)
  {
    var t5 := EncodeInstructions(ixs);
    var t4 := ShortVec(|ixs|) + t5;
    var t3 := blockhash + t4;
    var t2 := EncodeKeys(keys) + t3;
    var p1 := prefix + EncodeHeader(h);
    var p2 := p1 + ShortVec(|keys|);
    var p3 := p2 + EncodeKeys(keys);
    var p4 := p3 + blockhash;
    Associate(p4, ShortVec(|ixs|), t5);
    Associate(p3, blockhash, t4);
    Associate(p2, EncodeKeys(keys), t3);
    Associate(p1, ShortVec(|keys|), t2);
    Associate(prefix, EncodeHeader(h), ShortVec(|keys|) + t2);
  }

  method SerializeVersioned(m: VersionedMessage) returns (bytes: seq<byte>)
    ensures bytes == EncodeVersioned(m)
  {
    match m {
      case Legacy(m) => bytes := SerializeMessage(m);
      case V0(m) => bytes := SerializeMessageV0(m);
    }
  }

  // ---------- What Deserialize accepts ----------

  datatype Parsed<+T> = Parsed(value: T, rest: seq<byte>)

  /** `make` faults beyond this many bytes: the 48-bit address space of Go's common 64-bit platforms. */
  const MAX_ALLOC := 0x1_0000_0000_0000

  /** A fixed-size field: `make` faults on an impossible size, and short reads leave zeros. */
  function ParseBytes(data: seq<byte>, n: int): (r: Result<Parsed<seq<byte>>>)
    ensures r.Success? ==> |r.value.value| == n
  {
    if n < 0 || n > MAX_ALLOC then Failure(Panic)
    else
      var b :- ReadBytes(data, n);
      Success(Parsed(b, Rest(data, n)))
  }

  function ParseLength(data: seq<byte>): Result<Parsed<int>> {
    var d :- DecodeShortVec(data);
    Success(Parsed(d.length, Rest(data, d.size)))
  }

  /** Where the error of DecodeLength is dropped, a truncated length counts as zero. */
  function ParseLengthOrZero(data: seq<byte>): Parsed<int> {
    match ParseLength(data)
    case Success(p) => p
    case Failure(_) => Parsed(0, data)
  }

  function ParseCounted(data: seq<byte>): Result<Parsed<seq<byte>>> {
    var n :- ParseLength(data);
    ParseBytes(n.rest, n.value)
  }

  function ParseKeys(data: seq<byte>, n: int): Result<Parsed<seq<PublicKey>>>
    decreases n
  {
    if n <= 0 then Success(Parsed([], data))
    else
      var k :- ParseBytes(data, 32);
      var more :- ParseKeys(k.rest, n - 1);
      Success(Parsed([k.value] + more.value, more.rest))
  }

  function ParseInstruction(data: seq<byte>): Result<Parsed<CompiledInstruction>> {
    if data == [] then Failure(EndOfInput)
    else
      var accounts :- ParseCounted(data[1..]);
      var ixData :- ParseCounted(accounts.rest);
      Success(Parsed(CompiledInstruction(data[0], accounts.value, ixData.value), ixData.rest))
  }

  function ParseInstructions(data: seq<byte>, n: int): Result<Parsed<seq<CompiledInstruction>>>
    decreases n
  {
    if n <= 0 then Success(Parsed([], data))
    else
      var ix :- ParseInstruction(data);
      var more :- ParseInstructions(ix.rest, n - 1);
      Success(Parsed([ix.value] + more.value, more.rest))
  }

  function ParseLookup(data: seq<byte>): Result<Parsed<MessageAddressTableLookup>> {
    var k :- ParseBytes(data, 32);
    var w :- ParseCounted(k.rest);
    var r :- ParseCounted(w.rest);
    Success(Parsed(MessageAddressTableLookup(k.value, w.value, r.value), r.rest))
  }

  function ParseLookups(data: seq<byte>, n: int): Result<Parsed<seq<MessageAddressTableLookup>>>
    decreases n
  {
    if n <= 0 then Success(Parsed([], data))
    else
      var l :- ParseLookup(data);
      var more :- ParseLookups(l.rest, n - 1);
      Success(Parsed([l.value] + more.value, more.rest))
  }

  datatype Body = Body(
    header: MessageHeader, keys: seq<PublicKey>, blockhash: Blockhash, instructions: seq<CompiledInstruction>)

  function ParseBody(data: seq<byte>): Result<Parsed<Body>> {
    var h :- ParseBytes(data, 3);
    var n :- ParseLength(h.rest);
    var keys :- ParseKeys(n.rest, n.value);
    var blockhash :- ParseBytes(keys.rest, 32);
    var count := ParseLengthOrZero(blockhash.rest);
    var ixs :- ParseInstructions(count.rest, count.value);
    var header := MessageHeader(h.value[0], h.value[1], h.value[2]);
    Success(Parsed(Body(header, keys.value, blockhash.value, ixs.value), ixs.rest))
  }

  function ParseMessage(data: seq<byte>): Result<Message> {
    var p :- ParseBody(data);
    var b := p.value;
    if ProgramIndexesInRange(b.instructions, |b.keys|) then
      Success(Message(b.header, b.keys, b.blockhash, b.instructions, ProgramIds(b.instructions, b.keys)))
    else Failure(Panic)
  }

  function ParseMessageV0(data: seq<byte>): Result<MessageV0> {
    if data == [] then Failure(EndOfInput)
    else if data[0] < 0x80 then Failure(ExpectedVersioned)
    else if data[0] != 0x80 then Failure(UnsupportedVersion)
    else
      var p :- ParseBody(data[1..]);
      var b := p.value;
      var count := ParseLengthOrZero(p.rest);
      var ls :- ParseLookups(count.rest, count.value);
      Success(MessageV0(b.header, b.keys, b.blockhash, b.instructions, ls.value))
  }

  /** The prefix dispatch; reading the first byte of an empty slice is a fault. */
  function ParseVersioned(data: seq<byte>): Result<VersionedMessage> {
    if data == [] then Failure(Panic)
    else if data[0] < 0x80 then
      var m :- ParseMessage(data);
      Success(Legacy(m))
    else
      var m :- ParseMessageV0(data);
      Success(V0(m))
  }

  // ---------- Deserialize, consuming a buffer ----------

  method ReadField(buf: Buffer, n: int) returns (r: Result<seq<byte>>)
    modifies buf
    ensures Agrees(r, ParseBytes(old(buf.data), n), buf.data)
  {
    if n < 0 || n > MAX_ALLOC {
      return Failure(Panic);
    }
    r := buf.Read(n);
  }

  /** A reader and a parser agree: same failure, or same value with the rest left in the buffer. */
  ghost predicate Agrees<T(!new)>(r: Result<T>, p: Result<Parsed<T>>, left: seq<byte>) {
    match p
    case Success(p) => r == Success(p.value) && left == p.rest
    case Failure(e) => r == Failure(e)
  }

  method ReadLength(buf: Buffer) returns (r: Result<int>)
    modifies buf
    ensures Agrees(r, ParseLength(old(buf.data)), buf.data)
  {
    var d :- DecodeLength(buf.data);
    buf.Next(d.size);
    r := Success(d.length);
  }

  method ReadLengthOrZero(buf: Buffer) returns (n: int)
    modifies buf
    ensures Parsed(n, buf.data) == ParseLengthOrZero(old(buf.data))
  {
    var d := DecodeLength(buf.data);
    if d.Failure? {
      return 0;
    }
    buf.Next(d.value.size);
    n := d.value.length;
  }

  method ReadCounted(buf: Buffer) returns (r: Result<seq<byte>>)
    modifies buf
    ensures Agrees(r, ParseCounted(old(buf.data)), buf.data)
  {
    var n :- ReadLength(buf);
    r := ReadField(buf, n);
  }

  /** What a reading loop still has to do, put after what it has read. */
  ghost function After<T>(done: seq<T>, p: Result<Parsed<seq<T>>>): Result<Parsed<seq<T>>> {
    match p
    case Success(p) => Success(Parsed(done + p.value, p.rest))
    case Failure(e) => Failure(e)
  }

  lemma AfterNone<T>(p: Result<Parsed<seq<T>>>)
    ensures After([], p) == p
  {
    if p.Success? {
      assert [] + p.value.value == p.value.value;
    }
  }

  lemma AfterOne<T>(done: seq<T>, x: T, p: Result<Parsed<seq<T>>>)
    ensures After(done, After([x], p)) == After(done + [x], p)
  {
    if p.Success? {
      assert done + ([x] + p.value.value) == done + [x] + p.value.value;
    }
  }

  lemma AfterAll<T>(done: seq<T>, rest: seq<byte>)
    ensures After(done, Success(Parsed([], rest))) == Success(Parsed(done, rest))
  {
    assert done + [] == done;
  }

  method ReadKeys(buf: Buffer, n: int) returns (r: Result<seq<PublicKey>>)
    modifies buf
    ensures Agrees(r, ParseKeys(old(buf.data), n), buf.data)
  {
    var keys: seq<PublicKey> := [];
    var i := 0;
    AfterNone(ParseKeys(buf.data, n));
    while i < n
      invariant ParseKeys(old(buf.data), n) == After(keys, ParseKeys(buf.data, n - i))
      decreases n - i
    {
      var k :- ReadField(buf, 32);
      AfterOne(keys, k, ParseKeys(buf.data, n - i - 1));
      keys := keys + [k];
      i := i + 1;
    }
    AfterAll(keys, buf.data);
    r := Success(keys);
  }

  method ReadInstruction(buf: Buffer) returns (r: Result<CompiledInstruction>)
    modifies buf
    ensures Agrees(r, ParseInstruction(old(buf.data)), buf.data)
  {
    var programIdIndex :- buf.ReadByte();
    var accounts :- ReadCounted(buf);
    var data :- ReadCounted(buf);
    r := Success(CompiledInstruction(programIdIndex, accounts, data));
  }

  lemma InstructionsStep(
    done: seq<CompiledInstruction>, data: seq<byte>, n: int, r: Result<CompiledInstruction>, rest: seq<byte>)
    requires n > 0 && Agrees(r, ParseInstruction(data), rest)
    ensures After(done, ParseInstructions(data, n)) ==
            match r
            case Success(ix) => After(done + [ix], ParseInstructions(rest, n - 1))
            case Failure(e) => Failure(e)
  {
    if r.Success? {
      AfterOne(done, r.value, ParseInstructions(rest, n - 1));
    }
  }

  method ReadInstructions(buf: Buffer, n: int) returns (r: Result<seq<CompiledInstruction>>)
    modifies buf
    ensures Agrees(r, ParseInstructions(old(buf.data), n), buf.data)
  {
    hide ParseInstruction;
    var ixs: seq<CompiledInstruction> := [];
    var i := 0;
    ghost var all := ParseInstructions(buf.data, n);
    AfterNone(all);
    while i < n
      invariant all == After(ixs, ParseInstructions(buf.data, n - i))
      decreases n - i
    {
      ghost var before := buf.data;
      var ix := ReadInstruction(buf);
      InstructionsStep(ixs, before, n - i, ix, buf.data);
      if ix.Failure? {
        return Failure(ix.error);
      }
      ixs := ixs + [ix.value];
      i := i + 1;
    }
    AfterAll(ixs, buf.data);
    r := Success(ixs);
  }

  method ReadLookup(buf: Buffer) returns (r: Result<MessageAddressTableLookup>)
    modifies buf
    ensures Agrees(r, ParseLookup(old(buf.data)), buf.data)
  {
    var k :- ReadField(buf, 32);
    var w :- ReadCounted(buf);
    var ro :- ReadCounted(buf);
    r := Success(MessageAddressTableLookup(k, w, ro));
  }

  lemma LookupsStep(
    done: seq<MessageAddressTableLookup>, data: seq<byte>, n: int, r: Result<MessageAddressTableLookup>,
    rest: seq<byte>)
    requires n > 0 && Agrees(r, ParseLookup(data), rest)
    ensures After(done, ParseLookups(data, n)) ==
            match r
            case Success(l) => After(done + [l], ParseLookups(rest, n - 1))
            case Failure(e) => Failure(e)
  {
    if r.Success? {
      AfterOne(done, r.value, ParseLookups(rest, n - 1));
    }
  }

  method ReadLookups(buf: Buffer, n: int) returns (r: Result<seq<MessageAddressTableLookup>>)
    modifies buf
    ensures Agrees(r, ParseLookups(old(buf.data), n), buf.data)
  {
    hide ParseLookup;
    var ls: seq<MessageAddressTableLookup> := [];
    var i := 0;
    ghost var all := ParseLookups(buf.data, n);
    AfterNone(all);
    while i < n
      invariant all == After(ls, ParseLookups(buf.data, n - i))
      decreases n - i
    {
      ghost var before := buf.data;
      var l := ReadLookup(buf);
      LookupsStep(ls, before, n - i, l, buf.data);
      if l.Failure? {
        return Failure(l.error);
      }
      ls := ls + [l.value];
      i := i + 1;
    }
    AfterAll(ls, buf.data);
    r := Success(ls);
  }

  method ReadBody(buf: Buffer) returns (r: Result<Body>)
    modifies buf
    ensures Agrees(r, ParseBody(old(buf.data)), buf.data)
  {
    var h :- ReadField(buf, 3);
    var n :- ReadLength(buf);
    var keys :- ReadKeys(buf, n);
    var blockhash :- ReadField(buf, 32);
    var count := ReadLengthOrZero(buf);
    var ixs :- ReadInstructions(buf, count);
    r := Success(Body(MessageHeader(h[0], h[1], h[2]), keys, blockhash, ixs));
  }

  /** Message.Deserialize: the message it stores into its receiver. */
  method DeserializeMessage(data: seq<byte>) returns (r: Result<Message>)
    ensures r == ParseMessage(data)
  {
    var buf := new Buffer(data);
    var b :- ReadBody(buf);
    var ids :- Inflate(b.instructions, b.keys);
    r := Success(Message(b.header, b.keys, b.blockhash, b.instructions, ids));
  }

  method DeserializeMessageV0(data: seq<byte>) returns (r: Result<MessageV0>)
    ensures r == ParseMessageV0(data)
  {
    hide ParseBody, ParseLookups, ParseLengthOrZero;
    var buf := new Buffer(data);
    var prefix :- buf.ReadByte();
    var maskedPrefix := prefix % 0x80;
    if prefix == maskedPrefix {
      return Failure(ExpectedVersioned);
    }
    if maskedPrefix != 0 {
      return Failure(UnsupportedVersion);
    }
    var b :- ReadBody(buf);
    var count := ReadLengthOrZero(buf);
    var ls :- ReadLookups(buf, count);
    r := Success(MessageV0(b.header, b.keys, b.blockhash, b.instructions, ls));
  }

  method DeserializeVersioned(data: seq<byte>) returns (r: Result<VersionedMessage>)
    ensures r == ParseVersioned(data)
  {
    hide ParseMessage, ParseMessageV0;
    if data == [] {
      return Failure(Panic);
    }
    var maskedPrefix := data[0] % 0x80;
    if maskedPrefix == data[0] {
      var m :- DeserializeMessage(data);
      r := Success(Legacy(m));
    } else {
      var m :- DeserializeMessageV0(data);
      r := Success(V0(m));
    }
  }

  // ---------- Decoding undoes encoding ----------

  /** Sizes any Go slice of bytes, instructions or lookups has. */
  ghost predicate GoInstructions(ixs: seq<CompiledInstruction>) {
    |ixs| < INT64_LIMIT && forall ix :: ix in ixs ==> |ix.accounts| <= MAX_ALLOC && |ix.data| <= MAX_ALLOC
  }

  ghost predicate GoLookups(ls: seq<MessageAddressTableLookup>) {
    |ls| < INT64_LIMIT && forall l :: l in ls ==> |l.writableIndexes| <= MAX_ALLOC && |l.readonlyIndexes| <= MAX_ALLOC
  }

  ghost predicate GoSized(m: VersionedMessage) {
    && |m.StaticAccountKeys()| < INT64_LIMIT
    && GoInstructions(m.CompiledInstructions())
    && (m.V0? ==> GoLookups(m.messageV0.addressTableLookups))
  }

  lemma SplitFront(a: seq<byte>, b: seq<byte>)
    ensures (a + b)[..|a|] == a && (a + b)[|a|..] == b
  {
  }

  lemma ParseBytesBack(b: seq<byte>, rest: seq<byte>)
    requires |b| <= MAX_ALLOC
    ensures ParseBytes(b + rest, |b|) == Success(Parsed(b, rest))
  {
    SplitFront(b, rest);
  }

  lemma ParseLengthBack(n: nat, rest: seq<byte>)
    requires n < INT64_LIMIT
    ensures ParseLength(ShortVec(n) + rest) == Success(Parsed(n, rest))
    ensures ParseLengthOrZero(ShortVec(n) + rest) == Parsed(n, rest)
  {
    ShortVecRoundTrip(n, rest);
    SplitFront(ShortVec(n), rest);
  }

  lemma ParseCountedBack(b: seq<byte>, rest: seq<byte>)
    requires |b| <= MAX_ALLOC
    ensures ParseCounted(EncodeBytes(b) + rest) == Success(Parsed(b, rest))
  {
    assert EncodeBytes(b) + rest == ShortVec(|b|) + (b + rest);
    ParseLengthBack(|b|, b + rest);
    ParseBytesBack(b, rest);
  }

  lemma {:induction false} ParseKeysBack(keys: seq<PublicKey>, rest: seq<byte>)
    ensures ParseKeys(EncodeKeys(keys) + rest, |keys|) == Success(Parsed(keys, rest))
  {
    if keys == [] {
      assert EncodeKeys(keys) + rest == rest;
    } else {
      var tail := EncodeKeys(keys[1..]) + rest;
      assert EncodeKeys(keys) + rest == keys[0] + tail;
      ParseBytesBack(keys[0], tail);
      ParseKeysBack(keys[1..], rest);
      assert keys == [keys[0]] + keys[1..];
    }
  }

  lemma ParseInstructionBack(ix: CompiledInstruction, rest: seq<byte>)
    requires |ix.accounts| <= MAX_ALLOC && |ix.data| <= MAX_ALLOC
    ensures ParseInstruction(EncodeInstruction(ix) + rest) == Success(Parsed(ix, rest))
  {
    var tail := EncodeBytes(ix.data) + rest;
    assert EncodeInstruction(ix) + rest == [ix.programIdIndex] + (EncodeBytes(ix.accounts) + tail);
    ParseCountedBack(ix.accounts, tail);
    ParseCountedBack(ix.data, rest);
    SplitFront([ix.programIdIndex], EncodeBytes(ix.accounts) + tail);
  }

  lemma {:induction false} ParseInstructionsBack(ixs: seq<CompiledInstruction>, rest: seq<byte>)
    requires GoInstructions(ixs)
    ensures ParseInstructions(EncodeInstructions(ixs) + rest, |ixs|) == Success(Parsed(ixs, rest))
  {
    hide ParseInstruction, EncodeInstruction;
    if ixs == [] {
      assert EncodeInstructions(ixs) + rest == rest;
    } else {
      var tail := EncodeInstructions(ixs[1..]) + rest;
      assert EncodeInstructions(ixs) + rest == EncodeInstruction(ixs[0]) + tail;
      ParseInstructionBack(ixs[0], tail);
      ParseInstructionsBack(ixs[1..], rest);
      assert ixs == [ixs[0]] + ixs[1..];
    }
  }

  lemma ParseLookupBack(l: MessageAddressTableLookup, rest: seq<byte>)
    requires |l.writableIndexes| <= MAX_ALLOC && |l.readonlyIndexes| <= MAX_ALLOC
    ensures ParseLookup(EncodeLookup(l) + rest) == Success(Parsed(l, rest))
  {
    var tail := EncodeBytes(l.readonlyIndexes) + rest;
    assert EncodeLookup(l) + rest == l.accountKey + (EncodeBytes(l.writableIndexes) + tail);
    ParseBytesBack(l.accountKey, EncodeBytes(l.writableIndexes) + tail);
    ParseCountedBack(l.writableIndexes, tail);
    ParseCountedBack(l.readonlyIndexes, rest);
  }

  lemma {:induction false} ParseLookupsBack(ls: seq<MessageAddressTableLookup>, rest: seq<byte>)
    requires GoLookups(ls)
    ensures ParseLookups(EncodeLookups(ls) + rest, |ls|) == Success(Parsed(ls, rest))
  {
    hide ParseLookup, EncodeLookup;
    if ls == [] {
      assert EncodeLookups(ls) + rest == rest;
    } else {
      var tail := EncodeLookups(ls[1..]) + rest;
      assert EncodeLookups(ls) + rest == EncodeLookup(ls[0]) + tail;
      ParseLookupBack(ls[0], tail);
      ParseLookupsBack(ls[1..], rest);
      assert ls == [ls[0]] + ls[1..];
    }
  }

  /** Header counts that survive the cut to one byte each. */
  predicate ByteHeader(h: MessageHeader) {
    0 <= h.numRequiredSignatures < 0x100 && 0 <= h.numReadonlySignedAccounts < 0x100
    && 0 <= h.numReadonlyUnsignedAccounts < 0x100
  }

  lemma ParseBodyBack(
    h: MessageHeader, keys: seq<PublicKey>, blockhash: Blockhash, ixs: seq<CompiledInstruction>, rest: seq<byte>)
    requires |keys| < INT64_LIMIT && GoInstructions(ixs) && ByteHeader(h) && |blockhash| == 32
    ensures ParseBody(EncodeBody(h, keys, blockhash, ixs) + rest) ==
            Success(Parsed(Body(h, keys, blockhash, ixs), rest))
  {
    hide ParseBody, ParseBytes, ParseLength, ParseLengthOrZero, ParseKeys, ParseInstructions;
    hide ShortVec, EncodeKeys, EncodeInstructions;
    var t4 := ShortVec(|ixs|) + EncodeInstructions(ixs);
    var t3 := blockhash + t4;
    var t2 := EncodeKeys(keys) + t3;
    var t1 := ShortVec(|keys|) + t2;
    Associate(EncodeHeader(h), t1, rest);
    Associate(ShortVec(|keys|), t2, rest);
    Associate(EncodeKeys(keys), t3, rest);
    Associate(blockhash, t4, rest);
    Associate(ShortVec(|ixs|), EncodeInstructions(ixs), rest);
    ParseBytesBack(EncodeHeader(h), t1 + rest);
    ParseLengthBack(|keys|, t2 + rest);
    ParseKeysBack(keys, t3 + rest);
    ParseBytesBack(blockhash, t4 + rest);
    ParseLengthBack(|ixs|, EncodeInstructions(ixs) + rest);
    ParseInstructionsBack(ixs, rest);
    var hb := EncodeHeader(h);
    assert MessageHeader(hb[0], hb[1], hb[2]) == h;
    ParseBodySteps(EncodeBody(h, keys, blockhash, ixs) + rest, EncodeHeader(h), t1 + rest, |keys|, t2 + rest, keys,
                   t3 + rest, blockhash, t4 + rest, |ixs|, EncodeInstructions(ixs) + rest, ixs, rest);
  }

  lemma ParseBodySteps(
    data: seq<byte>, h: seq<byte>, d1: seq<byte>, n: int, d2: seq<byte>, keys: seq<PublicKey>, d3: seq<byte>,
    blockhash: seq<byte>, d4: seq<byte>, count: int, d5: seq<byte>, ixs: seq<CompiledInstruction>, rest: seq<byte>)
    requires |h| == 3 && ParseBytes(data, 3) == Success(Parsed(h, d1))
    requires ParseLength(d1) == Success(Parsed(n, d2))
    requires ParseKeys(d2, n) == Success(Parsed(keys, d3))
    requires ParseBytes(d3, 32) == Success(Parsed(blockhash, d4))
    requires ParseLengthOrZero(d4) == Parsed(count, d5)
    requires ParseInstructions(d5, count) == Success(Parsed(ixs, rest))
    ensures ParseBody(data) == Success(Parsed(Body(MessageHeader(h[0], h[1], h[2]), keys, blockhash, ixs), rest))
  {
  }

  lemma Associate(a: seq<byte>, b: seq<byte>, c: seq<byte>)
    ensures (a + b) + c == a + (b + c)
  {
  }

  /** What a legacy message must satisfy to come back from the wire: byte-sized counts, a 32-byte
      blockhash, program indexes in range, and the cached program ids up to date. */
  predicate LegacyFits(m: Message) {
    && ByteHeader(m.header) && |m.recentBlockhash| == 32
    && ProgramIndexesInRange(m.instructions, |m.accountKeys|)
    && m.indexToProgramIds == ProgramIds(m.instructions, m.accountKeys)
  }

  predicate V0Fits(m: MessageV0) {
    ByteHeader(m.header) && |m.recentBlockhash| == 32
  }

  /** Deserializing a serialized legacy message returns it exactly, and only then. */
  lemma LegacyRoundTrip(m: Message)
    requires GoSized(Legacy(m))
    ensures ParseMessage(EncodeMessage(m)) == Success(m) <==> LegacyFits(m)
  {
    if LegacyFits(m) {
      ParseBodyBack(m.header, m.accountKeys, m.recentBlockhash, m.instructions, []);
      assert EncodeMessage(m) + [] == EncodeMessage(m);
    } else {
      ParsedFits(EncodeMessage(m));
    }
  }

  lemma V0RoundTrip(m: MessageV0)
    requires GoSized(V0(m))
    ensures ParseMessageV0(EncodeMessageV0(m)) == Success(m) <==> V0Fits(m)
  {
    if V0Fits(m) {
      var ls := m.addressTableLookups;
      var tail := ShortVec(|ls|) + EncodeLookups(ls);
      var body := EncodeBody(m.header, m.staticAccountKeys, m.recentBlockhash, m.compiledInstructions);
      Associate([VERSION_0_PREFIX], body, tail);
      ParseBodyBack(m.header, m.staticAccountKeys, m.recentBlockhash, m.compiledInstructions, tail);
      ParseLengthBack(|ls|, EncodeLookups(ls));
      ParseLookupsBack(ls, []);
      assert EncodeLookups(ls) + [] == EncodeLookups(ls);
      ParseMessageV0Steps(EncodeMessageV0(m), body + tail,
        Body(m.header, m.staticAccountKeys, m.recentBlockhash, m.compiledInstructions),
        tail, |ls|, EncodeLookups(ls), ls, []);
    } else {
      ParsedFits(EncodeMessageV0(m));
    }
  }

  lemma ParseMessageV0Steps(
    data: seq<byte>, d1: seq<byte>, b: Body, d2: seq<byte>, count: int, d3: seq<byte>,
    ls: seq<MessageAddressTableLookup>, rest: seq<byte>)
    requires data == [VERSION_0_PREFIX] + d1
    requires ParseBody(d1) == Success(Parsed(b, d2))
    requires ParseLengthOrZero(d2) == Parsed(count, d3)
    requires ParseLookups(d3, count) == Success(Parsed(ls, rest))
    ensures ParseMessageV0(data) == Success(MessageV0(b.header, b.keys, b.blockhash, b.instructions, ls))
  {
    assert data[1..] == d1;
  }

  /** Whatever the bytes, a parsed message has byte-sized counts and a 32-byte blockhash. */
  lemma ParsedFits(data: seq<byte>)
    ensures ParseMessageV0(data).Success? ==> V0Fits(ParseMessageV0(data).value)
    ensures ParseMessage(data).Success? ==> LegacyFits(ParseMessage(data).value)
  {
    hide ParseKeys, ParseInstructions, ParseLookups, ParseLengthOrZero;
  }

  /** The condition under prefix dispatch: a legacy message must also have under 128 signers, for
      its first byte is the signer count and 128 or more of them look like a version prefix. */
  predicate VersionedFits(m: VersionedMessage) {
    match m
    case Legacy(m) => LegacyFits(m) && m.header.numRequiredSignatures < 0x80
    case V0(m) => V0Fits(m)
  }

  lemma VersionedRoundTrip(m: VersionedMessage)
    requires GoSized(m)
    ensures ParseVersioned(EncodeVersioned(m)) == Success(m) <==> VersionedFits(m)
  {
    hide ParseMessage, ParseMessageV0, ShortVec, EncodeKeys, EncodeInstructions, EncodeLookups;
    match m {
      case Legacy(l) =>
        LegacyRoundTrip(l);
        assert EncodeMessage(l)[0] == AsByte(l.header.numRequiredSignatures);
      case V0(v) =>
        V0RoundTrip(v);
        assert EncodeMessageV0(v)[0] == VERSION_0_PREFIX;
    }
  }
}
