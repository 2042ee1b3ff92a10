/** The value types shared by every part of the model, and the slice helpers of web3/utils. */
module Basics {

  type byte = b: int | 0 <= b < 0x100

  /** A 32-byte public key, compared by value. */
  type PublicKey = k: seq<byte> | |k| == 32 witness seq(32, _ => 0)

  /** A 64-byte Ed25519 signature. */
  type Signature = s: seq<byte> | |s| == 64 witness seq(64, _ => 0)

  /** The bytes a blockhash string decodes to. Nothing in the program forces 32 of them. */
  type Blockhash = seq<byte>

  /** A blockhash of full length, for examples. */
  function SomeBlockhash(b: byte): Blockhash {
    seq(32, _ => b)
  }

  /** The value of an unset signature slot. */
  function ZeroSignature(): Signature {
    seq(64, _ => 0)
  }

  /** Go's int is 64 bits wide: no slice is longer than this, and a sum past it wraps. */
  const INT64_LIMIT := 0x8000_0000_0000_0000

  /** What a 64-bit two's complement register holds after computing `x`. */
  function AsInt64(x: int): int {
    if -INT64_LIMIT <= x < INT64_LIMIT then x
    else (x + INT64_LIMIT) % (2 * INT64_LIMIT) - INT64_LIMIT
  }

  /** Conversion to uint8: the low eight bits, for negative numbers too. */
  function AsByte(x: int): byte {
    x % 0x100
  }

  datatype Option<+T> = None | Some(value: T)

  /** The program's error returns. `Panic` stands for a run-time fault of the Go code; `SignerFailed` and
      `RpcFailed` are what a signer or the server may answer. */
  datatype Error =
    | Panic
    | EndOfInput
    | ExpectedVersioned
    | UnsupportedVersion
    | TooManyStaticKeys
    | NoWritableSigner
    | FirstSignerNotPayer
    | TableIndexExceeded
    | AccountIndexOverflow
    | UnknownAccountKey
    | InvalidHeader
    | LookupsNotResolved
    | LookupCountMismatch
    | TableNotFound
    | TableEntryNotFound
    | NoAccountKeys
    | AccountIndexNotFound
    | ProgramIndexNotFound
    | BlockhashRequired
    | FeePayerRequired
    | UnknownSigner
    | SignerFailed
    | SignatureVerification
    | TooManySignatures
    | TransactionTooLarge
    | NotASigner
    | SignatureCountMismatch
    | MissingSignature
    | RpcFailed
    | NoNewBlockhash
    | VariableLengthExtension
    | UnknownExtension
    | InvalidAccountSize
    | InvalidMint

  datatype Result<+T> = Success(value: T) | Failure(error: Error) {
    predicate IsFailure() {
      Failure?
    }

    function PropagateFailure<U>(): Result<U>
      requires Failure?
    {
      Failure(error)
    }

    function Extract(): T
      requires Success?
    {
      value
    }
  }

  ghost predicate NoDuplicates<T>(s: seq<T>) {
    forall i, j :: 0 <= i < j < |s| ==> s[i] != s[j]
  }

  /** `s` lists the elements of `elems`, each once, in some order: one possible `range` over a map. */
  ghost predicate Lists<T(!new)>(s: seq<T>, elems: set<T>) {
    && NoDuplicates(s)
    && (forall i :: 0 <= i < |s| ==> s[i] in elems)
    && (forall x :: x in elems ==> x in s)
  }

  ghost function SomeListing<T(!new)>(elems: set<T>): (s: seq<T>)
    ensures Lists(s, elems)
    decreases |elems|
  {
    if elems == {} then []
    else
      var x :| x in elems;
      [x] + SomeListing(elems - {x})
  }

  lemma {:induction false} ListingLength<T(!new)>(s: seq<T>, elems: set<T>)
    requires Lists(s, elems)
    ensures |s| == |elems|
  {
    if s == [] {
      assert elems == {};
    } else {
      var rest := s[1..];
      assert Lists(rest, elems - {s[0]}) by {
        forall x | x in elems - {s[0]} ensures x in rest {
          var i :| 0 <= i < |s| && s[i] == x;
          assert rest[i - 1] == x;
        }
      }
      ListingLength(rest, elems - {s[0]});
    }
  }

  /** The first position of `k` in `s`, or -1. */
  function FindIndex(s: seq<PublicKey>, k: PublicKey): (i: int)
    ensures -1 <= i < |s|
    ensures i == -1 <==> k !in s
    ensures 0 <= i ==> s[i] == k && forall j :: 0 <= j < i ==> s[j] != k
  {
    if s == [] then -1
    else if s[0] == k then 0
    else
      var i := FindIndex(s[1..], k);
      if i == -1 then -1 else i + 1
  }

  lemma FindIndexUnique(s: seq<PublicKey>, i: nat)
    requires NoDuplicates(s) && i < |s|
    ensures FindIndex(s, s[i]) == i
  {
  }

  lemma SameParts<T>(a: seq<T>, b: seq<T>, c: seq<T>, d: seq<T>)
    requires |a| == |c|
    ensures a + b == c + d <==> a == c && b == d
  {
    if a + b == c + d {
      assert a == (a + b)[..|a|] == (c + d)[..|c|] == c;
      assert b == (a + b)[|a|..] == (c + d)[|c|..] == d;
    }
  }
}
