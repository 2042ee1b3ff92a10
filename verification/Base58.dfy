/** The order of account keys: `Pubkey.Base58()` compared stringwise (web3/transaction_legacy.go:404).
    A base-58 string is kept as the sequence of its digits; the alphabet is in ASCII order, so
    comparing digits is comparing characters. */
module Base58 {
  import opened Basics

  /** The big-endian number held in `b`. */
  function Value(b: seq<byte>): nat {
    if b == [] then 0 else Value(b[..|b| - 1]) * 0x100 + b[|b| - 1]
  }

  function Digits(n: nat): seq<nat> {
    if n == 0 then [] else Digits(n / 58) + [n % 58]
  }

  function LeadingZeros(b: seq<byte>): nat {
    if b == [] || b[0] != 0 then 0 else 1 + LeadingZeros(b[1..])
  }

  /** One '1' (digit 0) for each leading zero byte, then the digits of the number. */
  function Encode(b: seq<byte>): seq<nat> {
    seq(LeadingZeros(b), _ => 0) + Digits(Value(b))
  }

  function Undigits(d: seq<nat>): nat {
    if d == [] then 0 else Undigits(d[..|d| - 1]) * 58 + d[|d| - 1]
  }

  lemma {:induction false} UndigitsDigits(zeros: nat, n: nat)
    ensures Undigits(seq(zeros, _ => 0) + Digits(n)) == n
    decreases n, zeros
  {
    var d := seq(zeros, _ => 0) + Digits(n);
    if n == 0 {
      if zeros > 0 {
        assert d[..|d| - 1] == seq(zeros - 1, _ => 0) + Digits(0);
        UndigitsDigits(zeros - 1, 0);
      }
    } else {
      assert d[..|d| - 1] == seq(zeros, _ => 0) + Digits(n / 58);
      UndigitsDigits(zeros, n / 58);
    }
  }

  lemma {:induction false} ValueInjective(a: seq<byte>, b: seq<byte>)
    requires |a| == |b| && Value(a) == Value(b)
    ensures a == b
  {
    if a == [] {
    } else {
      var n := |a| - 1;
      assert a[n] == b[n] && Value(a[..n]) == Value(b[..n]);
      ValueInjective(a[..n], b[..n]);
      assert a == a[..n] + [a[n]] && b == b[..n] + [b[n]];
    }
  }

  /** Two keys never share a base-58 string. */
  lemma EncodeInjective(a: PublicKey, b: PublicKey)
    requires Encode(a) == Encode(b)
    ensures a == b
  {
    UndigitsDigits(LeadingZeros(a), Value(a));
    UndigitsDigits(LeadingZeros(b), Value(b));
    ValueInjective(a, b);
  }

  /** String comparison: the first difference decides, and a proper prefix comes first. */
  predicate Less(a: seq<nat>, b: seq<nat>) {
    b != [] && (a == [] || a[0] < b[0] || (a[0] == b[0] && Less(a[1..], b[1..])))
  }

  predicate KeyLess(a: PublicKey, b: PublicKey) {
    Less(Encode(a), Encode(b))
  }

  /** The first differing digit decides, or the shorter string if it is the start of the other. */
  lemma {:induction false} LessMeaning(a: seq<nat>, b: seq<nat>, p: nat)
    requires p <= |a| && p <= |b| && a[..p] == b[..p]
    ensures p == |a| ==> (Less(a, b) <==> |a| < |b|)
    ensures p == |b| ==> !Less(a, b)
    ensures p < |a| && p < |b| && a[p] != b[p] ==> (Less(a, b) <==> a[p] < b[p])
  {
    if p == 0 {
    } else {
      assert a[0] == a[..p][0] == b[..p][0] == b[0];
      assert a[1..][..p - 1] == a[..p][1..] && b[1..][..p - 1] == b[..p][1..];
      LessMeaning(a[1..], b[1..], p - 1);
    }
  }

  lemma {:induction false} LessTotal(a: seq<nat>, b: seq<nat>)
    ensures Less(a, b) || a == b || Less(b, a)
  {
    if a == [] || b == [] || a[0] != b[0] {
    } else {
      LessTotal(a[1..], b[1..]);
      assert a == [a[0]] + a[1..] && b == [b[0]] + b[1..];
    }
  }

  lemma {:induction false} LessAsymmetric(a: seq<nat>, b: seq<nat>)
    ensures !(Less(a, b) && Less(b, a))
  {
    if a == [] || b == [] {
    } else {
      LessAsymmetric(a[1..], b[1..]);
    }
  }

  lemma {:induction false} LessTransitive(a: seq<nat>, b: seq<nat>, c: seq<nat>)
    requires Less(a, b) && Less(b, c)
    ensures Less(a, c)
  {
    if a == [] || a[0] != b[0] || b[0] != c[0] {
    } else {
      LessTransitive(a[1..], b[1..], c[1..]);
    }
  }

  /** Base-58 comparison is a strict total order on keys: this is what makes sorting deterministic. */
  lemma KeyOrder(a: PublicKey, b: PublicKey, c: PublicKey)
    ensures KeyLess(a, b) || a == b || KeyLess(b, a)
    ensures !(KeyLess(a, b) && KeyLess(b, a))
    ensures KeyLess(a, b) && KeyLess(b, c) ==> KeyLess(a, c)
  {
    LessTotal(Encode(a), Encode(b));
    LessAsymmetric(Encode(a), Encode(b));
    if Encode(a) == Encode(b) {
      EncodeInjective(a, b);
    }
    if KeyLess(a, b) && KeyLess(b, c) {
      LessTransitive(Encode(a), Encode(b), Encode(c));
    }
  }
}
