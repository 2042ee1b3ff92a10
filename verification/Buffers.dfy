/** The byte buffers the codec works on: a growing slice that encoders append to, and the
    `bytes.Buffer` that decoders consume, with the short reads `bytes.Buffer` allows.
    The shortvec length encoding of web3/utils/shortved.go lives here: it is the unsigned
    LEB128 scheme (section 7.6 of the DWARF 5 standard). */
module Buffers {
  import opened Basics

  // ---------- Shortvec lengths ----------

  /** Base-128 digits, least significant first, with the top bit set on all but the last. */
  function ShortVec(n: nat): seq<byte> {
    if n < 0x80 then [n] else [0x80 + n % 0x80] + ShortVec(n / 0x80)
  }

  function Pow128(k: nat): nat {
    if k == 0 then 1 else 0x80 * Pow128(k - 1)
  }

  /** The decoded length and the bytes used. The accumulator of the Go code is 64 bits wide;
      its digits never overlap, so or-ing them in is adding them modulo 2^64. */
  datatype Decoded = Decoded(length: int, size: nat)

  function DigitSum(b: seq<byte>, size: nat): nat
    requires size <= |b|
  {
    if size == 0 then 0 else b[0] % 0x80 + 0x80 * DigitSum(b[1..], size - 1)
  }

  /** The number of bytes up to and including the first with a clear top bit. */
  function Terminator(b: seq<byte>): Option<nat> {
    if b == [] then None
    else if b[0] < 0x80 then Some(1)
    else match Terminator(b[1..])
      case None => None
      case Some(n) => Some(n + 1)
  }

  function DecodeShortVec(b: seq<byte>): Result<Decoded>
  {
    match Terminator(b)
    case None => Failure(EndOfInput)
    case Some(n) => TerminatorInBounds(b); Success(Decoded(AsInt64(DigitSum(b, n)), n))
  }

  lemma {:induction false} TerminatorInBounds(b: seq<byte>)
    ensures Terminator(b).Some? ==>
              && 0 < Terminator(b).value <= |b|
              && b[Terminator(b).value - 1] < 0x80
              && forall i :: 0 <= i < Terminator(b).value - 1 ==> b[i] >= 0x80
    ensures Terminator(b).None? ==> forall i :: 0 <= i < |b| ==> b[i] >= 0x80
  {
    if b == [] || b[0] < 0x80 {
    } else {
      TerminatorInBounds(b[1..]);
      assert forall i :: 0 < i < |b| ==> b[i] == b[1..][i - 1];
    }
  }

  /** `n` is the terminator as soon as it looks like one. */
  lemma {:induction false} TerminatorFound(b: seq<byte>, n: nat)
    requires 0 < n <= |b| && b[n - 1] < 0x80
    requires forall i :: 0 <= i < n - 1 ==> b[i] >= 0x80
    ensures Terminator(b) == Some(n)
  {
    if n == 1 {
    } else {
      TerminatorFound(b[1..], n - 1);
    }
  }

  /** Taking one more digit adds it with the next weight. */
  lemma {:induction false} DigitSumNext(b: seq<byte>, size: nat)
    requires size < |b|
    ensures DigitSum(b, size + 1) == DigitSum(b, size) + b[size] % 0x80 * Pow128(size)
  {
    if size > 0 {
      DigitSumNext(b[1..], size - 1);
      assert b[1..][size - 1] == b[size];
      Regroup(b[size] % 0x80, Pow128(size - 1));
    } else {
      assert DigitSum(b[1..], 0) == 0 && Pow128(0) == 1;
    }
  }

  lemma Regroup(d: nat, p: nat)
    ensures d * (0x80 * p) == 0x80 * (d * p)
  {
  }

  lemma {:induction false} ShortVecDigits(n: nat, rest: seq<byte>)
    ensures |ShortVec(n)| > 0
    ensures Terminator(ShortVec(n) + rest) == Some(|ShortVec(n)|)
    ensures DigitSum(ShortVec(n) + rest, |ShortVec(n)|) == n
  {
    var b := ShortVec(n) + rest;
    if n < 0x80 {
    } else {
      ShortVecDigits(n / 0x80, rest);
      assert b[1..] == ShortVec(n / 0x80) + rest;
    }
  }

  /** Decoding undoes encoding for every length a Go slice can have, whatever bytes follow. */
  lemma ShortVecRoundTrip(n: nat, rest: seq<byte>)
    requires n < INT64_LIMIT
    ensures DecodeShortVec(ShortVec(n) + rest) == Success(Decoded(n, |ShortVec(n)|))
  {
    ShortVecDigits(n, rest);
  }

  /** The encoding takes k bytes exactly when the length needs k base-128 digits. */
  lemma {:induction false} ShortVecSize(n: nat, k: nat)
    requires k > 0
    ensures |ShortVec(n)| == k <==> (k == 1 || Pow128(k - 1) <= n) && n < Pow128(k)
  {
    assert Pow128(1) == 0x80;
    if n < 0x80 {
      if k > 1 {
        Pow128Positive(k - 2);
      }
    } else if k > 1 {
      ShortVecSize(n / 0x80, k - 1);
      var p, q := Pow128(k - 1), n / 0x80;
      assert q < p <==> n < 0x80 * p;
      if k > 2 {
        var p' := Pow128(k - 2);
        assert p' <= q <==> 0x80 * p' <= n;
      }
    } else {
      ShortVecDigits(n / 0x80, []);
    }
  }

  lemma {:induction false} Pow128Positive(k: nat)
    ensures Pow128(k) >= 1
  {
    if k == 0 {
    } else {
      Pow128Positive(k - 1);
    }
  }

  /** No encoding is a prefix of another, so lengths can be read off a stream. */
  lemma ShortVecPrefixFree(m: nat, n: nat)
    ensures ShortVec(m) <= ShortVec(n) <==> m == n
  {
    if ShortVec(m) <= ShortVec(n) {
      var rest := ShortVec(n)[|ShortVec(m)|..];
      assert ShortVec(n) == ShortVec(m) + rest && ShortVec(n) + [] == ShortVec(n);
      ShortVecDigits(m, rest);
      ShortVecDigits(n, []);
    }
  }

  /** DecodeLength, on the unread bytes of a buffer (web3/utils/shortved.go:7-23). */
  method DecodeLength(bytes: seq<byte>) returns (r: Result<Decoded>)
    ensures r == DecodeShortVec(bytes)
  {
    var ln, size := 0, 0;
    ghost var sum := 0;
    var weight := 1;
    while true
      invariant 0 <= size <= |bytes|
      invariant forall i :: 0 <= i < size ==> bytes[i] >= 0x80
      invariant sum == DigitSum(bytes, size) && ln == AsInt64(sum)
      invariant weight == Pow128(size)
      decreases |bytes| - size
    {
      if |bytes| == size {
        TerminatorInBounds(bytes);
        return Failure(EndOfInput);
      }
      var elem := bytes[size];
      DigitSumNext(bytes, size);
      AddWraps(sum, elem % 0x80 * weight);
      sum := sum + elem % 0x80 * weight;
      ln := AsInt64(ln + elem % 0x80 * weight);
      size := size + 1;
      weight := 0x80 * weight;
      if elem < 0x80 {
        break;
      }
    }
    TerminatorFound(bytes, size);
    r := Success(Decoded(ln, size));
  }

  lemma AddWraps(x: int, y: int)
    ensures AsInt64(AsInt64(x) + y) == AsInt64(x + y)
  {
  }

  // ---------- The buffer ----------

  /** What reading `n` bytes yields: an empty buffer fails unless nothing is asked for, and a short
      read succeeds with the missing bytes left zero. */
  function ReadBytes(data: seq<byte>, n: nat): (r: Result<seq<byte>>)
    ensures r.Success? ==> |r.value| == n
  {
    if data == [] && n > 0 then Failure(EndOfInput)
    else if n <= |data| then Success(data[..n])
    else Success(data + seq(n - |data|, _ => 0))
  }

  function Rest(data: seq<byte>, n: nat): seq<byte> {
    if n <= |data| then data[n..] else []
  }

  class Buffer {
    var data: seq<byte>

    constructor (bytes: seq<byte>)
      ensures data == bytes
    {
      data := bytes;
    }

    method Append(bytes: seq<byte>)
      modifies this
      ensures data == old(data) + bytes
    {
      data := data + bytes;
    }

    /** EncodeLength appends through a pointer to the caller's buffer (web3/utils/shortved.go:25-38). */
    method EncodeLength(length: nat)
      modifies this
      ensures data == old(data) + ShortVec(length)
    {
      var remLen := length;
      while true
        invariant data + ShortVec(remLen) == old(data) + ShortVec(length)
        decreases remLen
      {
        var elem := remLen % 0x80;
        var before := remLen;
        remLen := remLen / 0x80;
        if remLen == 0 {
          data := data + [elem];
          break;
        } else {
          assert ShortVec(before) == [0x80 + elem] + ShortVec(remLen);
          assert data + ([0x80 + elem] + ShortVec(remLen)) == (data + [0x80 + elem]) + ShortVec(remLen);
          data := data + [0x80 + elem];
        }
      }
    }

    method ReadByte() returns (r: Result<byte>)
      modifies this
      ensures r == (if old(data) == [] then Failure(EndOfInput) else Success(old(data)[0]))
      ensures data == Rest(old(data), 1)
    {
      if data == [] {
        return Failure(EndOfInput);
      }
      r := Success(data[0]);
      data := data[1..];
    }

    /** Read fills a slice of `n` bytes from the front of the buffer. Only an empty buffer is an error, and
        then only if something was asked for; what a short buffer cannot fill stays zero. */
    method Read(n: nat) returns (r: Result<seq<byte>>)
      modifies this
      ensures r.Success? <==> old(data) != [] || n == 0
      ensures r.Failure? ==> r.error == EndOfInput
      ensures r.Success? ==>
                |r.value| == n &&
                forall i :: 0 <= i < n ==> r.value[i] == (if i < |old(data)| then old(data)[i] else 0)
      ensures r == ReadBytes(old(data), n)
      ensures data == Rest(old(data), n)
    {
      if data == [] {
        return if n == 0 then Success([]) else Failure(EndOfInput);
      }
      var copied := if n <= |data| then n else |data|;
      r := Success(data[..copied] + seq(n - copied, _ => 0));
      assert r.value == ReadBytes(data, n).value;
      data := data[copied..];
    }

    method Next(n: nat)
      modifies this
      ensures data == Rest(old(data), n)
    {
      data := data[if n <= |data| then n else |data|..];
    }
  }
}
