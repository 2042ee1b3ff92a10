/** Token-2022 extension data (web3kit/tokens_2022.go): a type-length-value list after the base
    account, each entry a little-endian 16-bit tag, a 16-bit length and that many bytes. */
module TokenExtensions {
  import opened Basics

  const MINT_SIZE := 82
  const ACCOUNT_SIZE := 165
  const ACCOUNT_TYPE_SIZE := 1
  const MULTISIG_SIZE := 355
  const TYPE_SIZE := 2
  const LENGTH_SIZE := 2

  /** An extension type is a Borsh enum: one byte. */
  type ExtensionType = byte

  datatype Extension = Extension(tag: ExtensionType, payload: seq<byte>)

  function AddTypeAndLengthToLen(l: nat): nat {
    l + TYPE_SIZE + LENGTH_SIZE
  }

  /** `data[index:]` faults past the end; fewer than two bytes are an end of input. */
  function ReadUint16LE(data: seq<byte>, index: nat): Result<nat> {
    if index > |data| then Failure(Panic)
    else if index + 2 > |data| then Failure(EndOfInput)
    else
      var high: int := data[index + 1];
      Success(data[index] + 0x100 * high)
  }

  function Uint16LE(n: nat): seq<byte>
    requires n < 0x1_0000
  {
    [n % 0x100, n / 0x100]
  }

  /** The list an on-chain account holds. */
  function EncodeExtensions(exts: seq<Extension>): seq<byte>
    requires forall e :: e in exts ==> |e.payload| < 0x1_0000
  {
    if exts == [] then []
    else
      EncodeExtension(exts[0]) + EncodeExtensions(exts[1..])
  }

  function EncodeExtension(e: Extension): seq<byte>
    requires |e.payload| < 0x1_0000
  {
    Uint16LE(e.tag) + Uint16LE(|e.payload|) + e.payload
  }

  // ---------- What the two walkers compute on any bytes ----------

  function TypesFrom(data: seq<byte>, index: nat): Result<seq<ExtensionType>>
    decreases |data| - index
  {
    if index >= |data| then Success([])
    else
      var tag :- ReadUint16LE(data, index);
      var length :- ReadUint16LE(data, index + TYPE_SIZE);
      var rest :- TypesFrom(data, index + AddTypeAndLengthToLen(length));
      Success([AsByte(tag)] + rest)
  }

  /** Slicing past the end of the data is a fault. */
  function DataFrom(extension: ExtensionType, data: seq<byte>, index: nat): Result<Option<seq<byte>>>
    decreases |data| - index
  {
    if AddTypeAndLengthToLen(index) > |data| then Success(None)
    else
      var tag :- ReadUint16LE(data, index);
      var length :- ReadUint16LE(data, index + TYPE_SIZE);
      var typeIndex := AddTypeAndLengthToLen(index);
      if tag == extension then
        if typeIndex + length <= |data| then Success(Some(data[typeIndex..typeIndex + length])) else Failure(Panic)
      else DataFrom(extension, data, typeIndex + length)
  }

  method GetExtensionType(tlvData: seq<byte>) returns (r: Result<seq<ExtensionType>>)
    ensures r == TypesFrom(tlvData, 0)
  {
    var extensionTypes: seq<ExtensionType> := [];
    var extensionTypeIndex: nat := 0;
    assert forall rest: seq<ExtensionType> :: [] + rest == rest;
    while extensionTypeIndex < |tlvData|
      invariant TypesFrom(tlvData, 0) ==
        match TypesFrom(tlvData, extensionTypeIndex)
        case Success(rest) => Success(extensionTypes + rest)
        case Failure(e) => Failure(e)
    {
      var entryType := ReadUint16LE(tlvData, extensionTypeIndex);
      if entryType.Failure? {
        return Failure(entryType.error);
      }
      var entryLength := ReadUint16LE(tlvData, extensionTypeIndex + TYPE_SIZE);
      if entryLength.Failure? {
        return Failure(entryLength.error);
      }
      ghost var rest := TypesFrom(tlvData, extensionTypeIndex + AddTypeAndLengthToLen(entryLength.value));
      assert rest.Success? ==>
          extensionTypes + ([AsByte(entryType.value)] + rest.value) ==
            extensionTypes + [AsByte(entryType.value)] + rest.value;
      extensionTypes := extensionTypes + [AsByte(entryType.value)];
      extensionTypeIndex := extensionTypeIndex + AddTypeAndLengthToLen(entryLength.value);
    }
    assert extensionTypes + [] == extensionTypes;
    r := Success(extensionTypes);
  }

  method GetExtensionData(extension: ExtensionType, tlvData: seq<byte>) returns (r: Result<Option<seq<byte>>>)
    ensures r == DataFrom(extension, tlvData, 0)
  {
    var extensionTypeIndex: nat := 0;
    while AddTypeAndLengthToLen(extensionTypeIndex) <= |tlvData|
      invariant DataFrom(extension, tlvData, 0) == DataFrom(extension, tlvData, extensionTypeIndex)
    {
      var entryType := ReadUint16LE(tlvData, extensionTypeIndex);
      if entryType.Failure? {
        return Failure(entryType.error);
      }
      var entryLength := ReadUint16LE(tlvData, extensionTypeIndex + TYPE_SIZE);
      if entryLength.Failure? {
        return Failure(entryLength.error);
      }
      var typeIndex := AddTypeAndLengthToLen(extensionTypeIndex);
      if entryType.value == extension {
        if typeIndex + entryLength.value > |tlvData| {
          return Failure(Panic);
        }
        return Success(Some(tlvData[typeIndex..typeIndex + entryLength.value]));
      }
      extensionTypeIndex := typeIndex + entryLength.value;
    }
    r := Success(None);
  }

  // ---------- Walking an encoded list ----------

  function Tags(exts: seq<Extension>): seq<ExtensionType> {
    seq(|exts|, i requires 0 <= i < |exts| => exts[i].tag)
  }

  function FirstPayload(extension: ExtensionType, exts: seq<Extension>): Option<seq<byte>> {
    if exts == [] then None
    else if exts[0].tag == extension then Some(exts[0].payload)
    else FirstPayload(extension, exts[1..])
  }

  /** One entry of an encoding, read in the middle of a byte string. */
  lemma EntryAt(before: seq<byte>, e: Extension, after: seq<byte>)
    requires |e.payload| < 0x1_0000
    ensures var data, n := before + EncodeExtension(e) + after, |before|;
            && ReadUint16LE(data, n) == Success(e.tag)
            && ReadUint16LE(data, n + TYPE_SIZE) == Success(|e.payload|)
            && n + 4 + |e.payload| + |after| == |data|
            && data[n + 4..n + 4 + |e.payload|] == e.payload
  {
    var data, n, entry := before + EncodeExtension(e) + after, |before|, EncodeExtension(e);
    assert forall i :: 0 <= i < |entry| ==> data[n + i] == entry[i];
    assert entry[2] == |e.payload| % 0x100 && entry[3] == |e.payload| / 0x100;
    assert data[n] == entry[0] && data[n + 1] == entry[1] && data[n + 2] == entry[2] && data[n + 3] == entry[3];
    assert entry[4..] == e.payload;
  }

  /** On an encoded list the type walker returns the tags in order; trailing bytes too short for an
      entry (one to three of them) are an error. */
  lemma {:induction false} TypesOfEncoding(before: seq<byte>, exts: seq<Extension>, after: seq<byte>)
    requires (forall e :: e in exts ==> |e.payload| < 0x1_0000) && |after| < 4
    ensures TypesFrom(before + EncodeExtensions(exts) + after, |before|)
         == if after == [] then Success(Tags(exts)) else Failure(EndOfInput)
    decreases |exts|
  {
    hide EncodeExtension, ReadUint16LE, TypesFrom;
    var data := before + EncodeExtensions(exts) + after;
    if exts != [] {
      var entry := EncodeExtension(exts[0]);
      assert data == before + entry + (EncodeExtensions(exts[1..]) + after);
      assert data == (before + entry) + EncodeExtensions(exts[1..]) + after;
      EntryAt(before, exts[0], EncodeExtensions(exts[1..]) + after);
      TypesOfEncoding(before + entry, exts[1..], after);
      TypesStep(data, |before|, exts[0].tag, |exts[0].payload|);
      assert Tags(exts) == [exts[0].tag] + Tags(exts[1..]);
    } else {
      assert data == before + after && Tags(exts) == [];
      TypesOfTail(before, after);
    }
  }

  lemma TypesStep(data: seq<byte>, index: nat, tag: ExtensionType, length: nat)
    requires index < |data|
    requires ReadUint16LE(data, index) == Success(tag) && ReadUint16LE(data, index + TYPE_SIZE) == Success(length)
    ensures TypesFrom(data, index) ==
              match TypesFrom(data, index + AddTypeAndLengthToLen(length))
              case Success(rest) => Success([tag] + rest)
              case Failure(e) => Failure(e)
  {
    hide ReadUint16LE;
  }

  lemma TypesOfTail(before: seq<byte>, after: seq<byte>)
    requires |after| < 4
    ensures TypesFrom(before + after, |before|) == if after == [] then Success([]) else Failure(EndOfInput)
  {
    if after != [] {
      var data, index := before + after, |before|;
      assert ReadUint16LE(data, index).Failure? || ReadUint16LE(data, index + TYPE_SIZE).Failure?;
    }
  }

  /** The data walker returns the first payload with the tag, or nothing, whatever short tail follows. */
  lemma {:induction false} DataOfEncoding(tag: ExtensionType, before: seq<byte>, exts: seq<Extension>, after: seq<byte>)
    requires (forall e :: e in exts ==> |e.payload| < 0x1_0000) && |after| < 4
    ensures DataFrom(tag, before + EncodeExtensions(exts) + after, |before|) == Success(FirstPayload(tag, exts))
    decreases |exts|
  {
    hide EncodeExtension;
    var data := before + EncodeExtensions(exts) + after;
    if exts == [] {
    } else {
      var entry := EncodeExtension(exts[0]);
      assert data == before + entry + (EncodeExtensions(exts[1..]) + after);
      assert data == (before + entry) + EncodeExtensions(exts[1..]) + after;
      EntryAt(before, exts[0], EncodeExtensions(exts[1..]) + after);
      DataOfEncoding(tag, before + entry, exts[1..], after);
    }
  }

  // ---------- Walking any bytes ----------

  function TwoBytes(low: int, high: int): int {
    low + 0x100 * high
  }

  /** At an index the type walker reads a tag and a length, each of two bytes, low byte first, and skips that many
      bytes; where it finds neither the end nor four bytes the input has ended. */
  lemma TypesAt(data: seq<byte>, index: nat)
    ensures index >= |data| ==> TypesFrom(data, index) == Success([])
    ensures index < |data| < index + 4 ==> TypesFrom(data, index) == Failure(EndOfInput)
    ensures index + 4 <= |data| ==>
              var tag, length := data[index], TwoBytes(data[index + 2], data[index + 3]);
              match TypesFrom(data, index + 4 + length)
              case Failure(e) => TypesFrom(data, index) == Failure(e)
              case Success(rest) => TypesFrom(data, index) == Success([tag] + rest)
  {
  }

  /** The data walker stops before an entry of less than four bytes; with the tag looked for it returns the payload,
      and faults if that runs past the end. */
  lemma DataAt(extension: ExtensionType, data: seq<byte>, index: nat)
    ensures index + 4 > |data| ==> DataFrom(extension, data, index) == Success(None)
    ensures index + 4 <= |data| ==>
              var tag, start := TwoBytes(data[index], data[index + 1]), index + 4;
              var length := TwoBytes(data[index + 2], data[index + 3]);
              DataFrom(extension, data, index) ==
                if tag != extension then DataFrom(extension, data, start + length)
                else if start + length <= |data| then Success(Some(data[start..start + length]))
                else Failure(Panic)
  {
  }

  // ---------- Account lengths ----------

  /** The payload size of each extension type, by its number in the enum
      (web3kit/tokens_2022.go:124-165; spl_token_2022/types.go:35-60). */
  function GetTypeLen(e: ExtensionType): Result<nat> {
    match e
    case 0 => Success(0)      // Uninitialized
    case 1 => Success(108)    // TransferFeeConfig
    case 2 => Success(8)      // TransferFeeAmount
    case 3 => Success(32)     // MintCloseAuthority
    case 4 => Success(97)     // ConfidentialTransferMint
    case 5 => Success(286)    // ConfidentialTransferAccount
    case 6 => Success(1)      // DefaultAccountState
    case 7 => Success(0)      // ImmutableOwner
    case 8 => Success(1)      // MemoTransfer
    case 9 => Success(0)      // NonTransferable
    case 10 => Success(52)    // InterestBearingConfig
    case 11 => Success(1)     // CpiGuard
    case 12 => Success(32)    // PermanentDelegate
    case 13 => Success(0)     // NonTransferableAccount
    case 14 => Success(64)    // TransferHook
    case 15 => Success(1)     // TransferHookAccount
    case 18 => Success(64)    // MetadataPointer
    case 19 => Failure(VariableLengthExtension)  // TokenMetadata
    case _ => Failure(UnknownExtension)
  }

  function SumOfLens(types: seq<ExtensionType>): Result<nat> {
    if types == [] then Success(0)
    else
      var before :- SumOfLens(types[..|types| - 1]);
      var last :- GetTypeLen(types[|types| - 1]);
      Success(before + AddTypeAndLengthToLen(last))
  }

  lemma {:induction false} SumOfLensFails(types: seq<ExtensionType>, n: nat)
    requires n <= |types| && SumOfLens(types[..n]).Failure?
    ensures SumOfLens(types) == SumOfLens(types[..n])
  {
    if n < |types| {
      var init := types[..|types| - 1];
      assert init[..n] == types[..n];
      SumOfLensFails(init, n);
    } else {
      assert types[..n] == types;
    }
  }

  /** The length guards of UnpackMint and the extension bytes it keeps
      (web3kit/tokens_2022.go:230-235, 253-264). */
  function UnpackTlv(data: seq<byte>): Result<seq<byte>> {
    if |data| < MINT_SIZE then Failure(InvalidAccountSize)
    else if |data| == MINT_SIZE then Success([])
    else if |data| <= ACCOUNT_SIZE then Failure(InvalidAccountSize)
    else if |data| == MULTISIG_SIZE then Failure(InvalidAccountSize)
    else if data[ACCOUNT_SIZE] != 1 then Failure(InvalidMint)
    else Success(data[ACCOUNT_SIZE + ACCOUNT_TYPE_SIZE..])
  }

  /** A mint is 82 bytes, or longer than an account of 165 with a 1 behind it; never of 355 bytes. */
  lemma UnpackMeaning(data: seq<byte>)
    ensures match UnpackTlv(data)
            case Success(tlv) =>
              && (|data| == 82 || (|data| > 165 && |data| != 355 && data[165] == 1))
              && tlv == if |data| == 82 then [] else data[166..]
            case Failure(e) =>
              if |data| > 165 && |data| != 355 then data[165] != 1 && e == InvalidMint
              else |data| != 82 && e == InvalidAccountSize
  {
  }

  /** The sizes of the fields of each extension with a fixed payload: keys of 32 bytes, amounts and times of 8, rates
      of 2, flags and states of 1; the two confidential transfer payloads are opaque. */
  function FieldSizes(e: ExtensionType): Option<seq<nat>> {
    match e
    case 1 => Some([32, 32, 8] + [8, 8, 2] + [8, 8, 2])  // two authorities, withheld, older and newer fee
    case 2 => Some([8])                // withheld
    case 3 => Some([32])               // close authority
    case 4 => Some([97])
    case 5 => Some([286])
    case 6 => Some([1])                // state
    case 8 => Some([1])                // memo required
    case 10 => Some([32, 8, 2, 8, 2])  // authority, start, average rate, update, current rate
    case 11 => Some([1])               // lock
    case 12 => Some([32])              // delegate
    case 14 => Some([32, 32])          // authority, program
    case 15 => Some([1])               // transferring
    case 18 => Some([32, 32])          // authority, address
    case 0 | 7 | 9 | 13 => Some([])    // markers
    case _ => None
  }

  function Total(sizes: seq<nat>): nat {
    if sizes == [] then 0 else sizes[0] + Total(sizes[1..])
  }

  /** The table gives each payload the size of its fields; without fields to go by there is no length, for the token
      metadata (19) because it varies. */
  lemma TypeLenMeaning(e: ExtensionType)
    ensures match FieldSizes(e)
            case Some(sizes) => GetTypeLen(e) == Success(Total(sizes)) && Total(sizes) <= 286
            case None => GetTypeLen(e) == Failure(if e == 19 then VariableLengthExtension else UnknownExtension)
  {
    var authorities, fee := [32, 32, 8], [8, 8, 2];
    assert Total(fee) == 18 && Total(authorities) == 72 && Total([32, 8, 2, 8, 2]) == 52;
    TotalConcat(authorities, fee);
    TotalConcat(authorities + fee, fee);
  }

  lemma {:induction false} TotalConcat(a: seq<nat>, b: seq<nat>)
    ensures Total(a + b) == Total(a) + Total(b)
  {
    if a == [] {
      assert a + b == b;
    } else {
      assert (a + b)[1..] == a[1..] + b;
      TotalConcat(a[1..], b);
    }
  }

  /** Extensions whose payloads have the lengths of their types. */
  predicate Sized(exts: seq<Extension>) {
    forall i :: 0 <= i < |exts| ==> GetTypeLen(exts[i].tag) == Success(|exts[i].payload|)
  }

  predicate ShortPayloads(exts: seq<Extension>) {
    forall e :: e in exts ==> |e.payload| < 0x1_0000
  }

  lemma SizedFits(exts: seq<Extension>)
    requires Sized(exts)
    ensures ShortPayloads(exts)
  {
    forall i | 0 <= i < |exts| ensures |exts[i].payload| <= 286 {
      TypeLenMeaning(exts[i].tag);
    }
  }

  /** The lengths add up to that of the encoded list, tags and lengths included. */
  lemma {:induction false} LensOfEncoding(exts: seq<Extension>)
    requires Sized(exts)
    ensures ShortPayloads(exts) && SumOfLens(Tags(exts)) == Success(|EncodeExtensions(exts)|)
  {
    SizedFits(exts);
    hide GetTypeLen, EncodeExtension, EncodeExtensions, Tags, SumOfLens, ShortPayloads;
    if exts == [] {
      NoneEncoded();
    } else {
      var n := |exts| - 1;
      LensOfEncoding(exts[..n]);
      EncodeLast(exts);
      EntryLength(exts[n]);
      LensLast(exts);
    }
  }

  lemma NoneEncoded()
    ensures EncodeExtensions([]) == [] && SumOfLens(Tags([])) == Success(0)
  {
  }

  lemma LensLast(exts: seq<Extension>)
    requires exts != [] && Sized(exts)
    ensures var before, last := SumOfLens(Tags(exts[..|exts| - 1])), exts[|exts| - 1];
            before.Success? ==> SumOfLens(Tags(exts)) == Success(before.value + 4 + |last.payload|)
  {
    hide GetTypeLen;
    assert Tags(exts)[..|exts| - 1] == Tags(exts[..|exts| - 1]);
  }

  lemma EntryLength(e: Extension)
    requires |e.payload| < 0x1_0000
    ensures |EncodeExtension(e)| == 4 + |e.payload|
  {
  }

  lemma EncodeFirst(exts: seq<Extension>)
    requires exts != [] && ShortPayloads(exts)
    ensures ShortPayloads(exts[1..]) && |exts[0].payload| < 0x1_0000
    ensures EncodeExtensions(exts) == EncodeExtension(exts[0]) + EncodeExtensions(exts[1..])
  {
    hide EncodeExtension;
  }

  lemma {:induction false} EncodeLast(exts: seq<Extension>)
    requires exts != [] && ShortPayloads(exts)
    ensures ShortPayloads(exts[..|exts| - 1]) && |exts[|exts| - 1].payload| < 0x1_0000
    ensures EncodeExtensions(exts) == EncodeExtensions(exts[..|exts| - 1]) + EncodeExtension(exts[|exts| - 1])
  {
    hide EncodeExtension;
    var n := |exts| - 1;
    var init, last := exts[..n], exts[n];
    if n == 0 {
      assert exts[1..] == [] && init == [];
    } else {
      EncodeFirst(exts);
      EncodeFirst(init);
      EncodeLast(exts[1..]);
      assert exts[1..][..n - 1] == init[1..] && exts[1..][n - 1] == last && init[0] == exts[0];
      hide EncodeExtensions, ShortPayloads;
    }
  }

  /** The first type without a length is the error. */
  lemma LensFail(types: seq<ExtensionType>, bad: nat)
    requires bad < |types| && GetTypeLen(types[bad]).Failure?
    requires forall i :: 0 <= i < bad ==> GetTypeLen(types[i]).Success?
    ensures SumOfLens(types) == Failure(GetTypeLen(types[bad]).error)
  {
    hide GetTypeLen;
    LensSucceed(types[..bad]);
    assert types[..bad + 1][..bad] == types[..bad];
    SumOfLensFails(types, bad + 1);
  }

  lemma {:induction false} LensSucceed(types: seq<ExtensionType>)
    requires forall i :: 0 <= i < |types| ==> GetTypeLen(types[i]).Success?
    ensures SumOfLens(types).Success?
  {
    hide GetTypeLen;
    if types == [] {
    } else {
      LensSucceed(types[..|types| - 1]);
    }
  }

  /** What GetMintLen returns. */
  function MintLen(types: seq<ExtensionType>): Result<nat> {
    if types == [] then Success(MINT_SIZE)
    else
      var sum :- SumOfLens(types);
      var n := ACCOUNT_SIZE + ACCOUNT_TYPE_SIZE + sum;
      Success(if n == MULTISIG_SIZE then n + TYPE_SIZE else n)
  }

  /** A mint with extensions: the base account padded to 165 bytes, the type byte, the encoded list, and zeros up to
      the length GetMintLen gave. */
  function MintData(base: seq<byte>, exts: seq<Extension>): seq<byte>
    requires Sized(exts)
  {
    SizedFits(exts);
    var data := base + [1] + EncodeExtensions(exts);
    if |data| == 355 then data + [0, 0] else data
  }

  /** Without the two bytes the data would have the length of a multisig account. */
  ghost predicate PaddedAt355(exts: seq<Extension>)
    requires Sized(exts)
  {
    SizedFits(exts);
    |EncodeExtensions(exts)| == 355 - 166
  }

  /** That length is just what the mint takes: 82 bytes without extensions, else the account, the type byte and the
      encoded list, and two bytes more where this would be taken for a multisig account. Such data unpacks. */
  lemma MintLenFits(base: seq<byte>, exts: seq<Extension>)
    requires |base| == 165 && Sized(exts)
    ensures MintLen([]) == Success(82)
    ensures exts != [] ==>
              var data := MintData(base, exts);
              && MintLen(Tags(exts)) == Success(|data|)
              && UnpackTlv(data) == Success(data[166..])
  {
    LensOfEncoding(exts);
    var data := MintData(base, exts);
    hide SumOfLens, EncodeExtensions, GetTypeLen;
    assert data[165] == 1;
  }

  /** What it unpacks to holds every payload, and the type walker reads its types unless it ends in those two bytes. */
  lemma MintDataWalks(base: seq<byte>, exts: seq<Extension>, tag: ExtensionType)
    requires |base| == 165 && Sized(exts)
    ensures var tlv := MintData(base, exts)[166..];
            && DataFrom(tag, tlv, 0) == Success(FirstPayload(tag, exts))
            && TypesFrom(tlv, 0) == if PaddedAt355(exts) then Failure(EndOfInput) else Success(Tags(exts))
  {
    SizedFits(exts);
    var tail: seq<byte> := if PaddedAt355(exts) then [0, 0] else [];
    hide SumOfLens, DataFrom, TypesFrom, EncodeExtensions, FirstPayload, GetTypeLen, Tags, ShortPayloads;
    WalksWithTail(exts, tail, tag);
    assert MintData(base, exts)[166..] == EncodeExtensions(exts) + tail;
  }

  lemma WalksWithTail(exts: seq<Extension>, tail: seq<byte>, tag: ExtensionType)
    requires ShortPayloads(exts) && |tail| < 4
    ensures DataFrom(tag, EncodeExtensions(exts) + tail, 0) == Success(FirstPayload(tag, exts))
    ensures TypesFrom(EncodeExtensions(exts) + tail, 0) ==
            if tail == [] then Success(Tags(exts)) else Failure(EndOfInput)
  {
    hide DataFrom, TypesFrom, EncodeExtensions, FirstPayload, Tags;
    var before: seq<byte> := [];
    EmptyFront(before, EncodeExtensions(exts), tail);
    DataOfEncoding(tag, before, exts, tail);
    TypesOfEncoding(before, exts, tail);
  }

  lemma EmptyFront(before: seq<byte>, a: seq<byte>, b: seq<byte>)
    requires before == []
    ensures before + a + b == a + b
  {
  }

  /** A type without a length is the result. */
  lemma MintLenFails(types: seq<ExtensionType>, bad: nat)
    requires bad < |types| && FieldSizes(types[bad]).None?
    requires forall i :: 0 <= i < bad ==> FieldSizes(types[i]).Some?
    ensures MintLen(types) == Failure(if types[bad] == 19 then VariableLengthExtension else UnknownExtension)
  {
    forall i | 0 <= i <= bad ensures GetTypeLen(types[i]).Success? <==> FieldSizes(types[i]).Some? {
      TypeLenMeaning(types[i]);
    }
    TypeLenMeaning(types[bad]);
    hide GetTypeLen, FieldSizes;
    LensFail(types, bad);
  }

  /** GetMintLen: the loop of GetLen over the mint base size (web3kit/tokens_2022.go:54-76). */
  method GetMintLen(types: seq<ExtensionType>) returns (r: Result<nat>)
    ensures r == MintLen(types)
    ensures types == [] ==> r == Success(MINT_SIZE)
    ensures types != [] && SumOfLens(types).Failure? ==> r == Failure(SumOfLens(types).error)
    ensures types != [] && SumOfLens(types).Success? ==>
              var n := SumOfLens(types).value + ACCOUNT_SIZE + ACCOUNT_TYPE_SIZE;
              r == Success(if n == MULTISIG_SIZE then n + TYPE_SIZE else n)
    ensures forall data: seq<byte> :: r.Success? && |data| == r.value && (types != [] ==> data[ACCOUNT_SIZE] == 1) ==>
              UnpackTlv(data) == Success(if types == [] then [] else data[ACCOUNT_SIZE + ACCOUNT_TYPE_SIZE..])
  {
    if types == [] {
      return Success(MINT_SIZE);
    }
    var accountLength := ACCOUNT_SIZE + ACCOUNT_TYPE_SIZE;
    for i := 0 to |types|
      invariant SumOfLens(types[..i]) == Success(accountLength - ACCOUNT_SIZE - ACCOUNT_TYPE_SIZE)
      invariant accountLength >= ACCOUNT_SIZE + ACCOUNT_TYPE_SIZE
    {
      var ret := GetTypeLen(types[i]);
      assert types[..i + 1][..i] == types[..i];
      if ret.Failure? {
        SumOfLensFails(types, i + 1);
        return Failure(ret.error);
      }
      accountLength := accountLength + AddTypeAndLengthToLen(ret.value);
    }
    assert types[..|types|] == types;
    if accountLength == MULTISIG_SIZE {
      r := Success(accountLength + TYPE_SIZE);
    } else {
      r := Success(accountLength);
    }
  }
}
