/** The epoch schedule (web3/epoch_schedule.go): short warm-up epochs that double in length,
    then epochs of a fixed length. */
module EpochSchedules {
  import opened Basics

  const MINIMUM_SLOT_PER_EPOCH := 32

  function Pow2(e: nat): nat {
    if e == 0 then 1 else 2 * Pow2(e - 1)
  }

  lemma {:induction false} Pow2Monotonic(a: nat, b: nat)
    requires a <= b
    ensures 1 <= Pow2(a) <= Pow2(b)
    ensures a < b ==> Pow2(a) < Pow2(b)
    decreases b
  {
    if b == 0 {
    } else {
      Pow2Monotonic(if a == b then a - 1 else a, b - 1);
    }
  }

  lemma {:induction false} Pow2Add(a: nat, b: nat)
    ensures Pow2(a + b) == Pow2(a) * Pow2(b)
  {
    if a == 0 {
    } else {
      Pow2Add(a - 1, b);
      var p, q := Pow2(a - 1), Pow2(b);
      assert 2 * (p * q) == 2 * p * q;
    }
  }

  // ---------- trailingZeros: halvings until 1 is reached ----------

  function TrailingZeros(n: int): nat {
    if n > 1 then 1 + TrailingZeros(n / 2) else 0
  }

  /** It is the base-2 logarithm, rounded down: the exponent of a power of two. */
  lemma {:induction false} TrailingZerosLog(n: nat, e: nat)
    requires Pow2(e) <= n < Pow2(e + 1)
    ensures TrailingZeros(n) == e
  {
    if e == 0 {
    } else {
      TrailingZerosLog(n / 2, e - 1);
    }
  }

  method CountTrailingZeros(n: int) returns (trailingZeros: nat)
    ensures trailingZeros == TrailingZeros(n)
  {
    trailingZeros := 0;
    var m := n;
    while m > 1
      invariant trailingZeros + TrailingZeros(m) == TrailingZeros(n)
    {
      m := m / 2;
      trailingZeros := trailingZeros + 1;
    }
  }

  // ---------- nextPowerOfTwo: smearing the top bit ----------

  /** Bitwise or of two non-negative numbers. */
  function BitOr(a: nat, b: nat): nat
    decreases a + b
  {
    if a == 0 then b else if b == 0 then a
    else 2 * BitOr(a / 2, b / 2) + (if a % 2 == 1 || b % 2 == 1 then 1 else 0)
  }

  /** n >> w */
  function Shr(n: nat, w: nat): nat {
    if w == 0 then n else Shr(n / 2, w - 1)
  }

  /** One step of the cascade: n |= n >> w. */
  function Smear(n: nat, w: nat): nat {
    BitOr(n, Shr(n, w))
  }

  /** The steps from shift w on, doubling the shift up to 32. */
  function Cascade(n: nat, w: nat): nat
    requires w > 0
    decreases 64 - w
  {
    if w > 32 then n else Cascade(Smear(n, w), 2 * w)
  }

  /** The whole cascade on 64-bit arithmetic; the final increment can overflow. */
  function NextPowerOfTwo(n: nat): int {
    if n == 0 then 1 else AsInt64(Cascade(n - 1, 1) + 1)
  }

  method ComputeNextPowerOfTwo(n: nat) returns (r: int)
    ensures r == NextPowerOfTwo(n)
  {
    if n == 0 {
      return 1;
    }
    var m := n - 1;
    m := Smear(m, 1);
    assert Cascade(n - 1, 1) == Cascade(m, 2);
    m := Smear(m, 2);
    assert Cascade(n - 1, 1) == Cascade(m, 4);
    m := Smear(m, 4);
    assert Cascade(n - 1, 1) == Cascade(m, 8);
    m := Smear(m, 8);
    assert Cascade(n - 1, 1) == Cascade(m, 16);
    m := Smear(m, 16);
    assert Cascade(n - 1, 1) == Cascade(m, 32);
    m := Smear(m, 32);
    assert Cascade(n - 1, 1) == Cascade(m, 64);
    r := AsInt64(m + 1);
  }

  lemma {:induction false} ShrShr(n: nat, i: nat, j: nat)
    ensures Shr(Shr(n, i), j) == Shr(n, i + j)
  {
    if i == 0 {
    } else {
      ShrShr(n / 2, i - 1, j);
    }
  }

  lemma {:induction false} ShrOnes(w: nat, j: nat)
    requires j <= w
    ensures Pow2(w) > 0 && Pow2(w - j) > 0 && Shr(Pow2(w) - 1, j) == Pow2(w - j) - 1
  {
    Pow2Monotonic(0, w);
    Pow2Monotonic(0, w - j);
    if j == 0 {
    } else {
      ShrOnes(w - 1, j - 1);
    }
  }

  /** Bitwise or works digit by digit, so it commutes with shifting. */
  lemma {:induction false} BitOrShr(a: nat, b: nat, k: nat)
    ensures Shr(BitOr(a, b), k) == BitOr(Shr(a, k), Shr(b, k))
  {
    if k == 0 {
    } else {
      BitOrShr(a / 2, b / 2, k - 1);
      assert BitOr(a, b) / 2 == BitOr(a / 2, b / 2);
    }
  }

  /** Or-ing ones into the low bits joins them to the ones already above. */
  lemma {:induction false} BitOrFill(a: nat, fill: nat, w: nat)
    requires Shr(a, fill) == Pow2(w) - 1
    ensures Pow2(fill) > 0 && BitOr(a, Pow2(fill) - 1) == Pow2(fill + w) - 1
  {
    Pow2Monotonic(0, fill);
    if fill == 0 {
    } else {
      var p, q := Pow2(fill - 1), Pow2(fill - 1 + w);
      assert Pow2(fill) == 2 * p && Pow2(fill + w) == 2 * q;
      BitOrFill(a / 2, fill - 1, w);
      BitOrDigits(a, 2 * p - 1);
      hide Pow2, BitOr, Shr;
      assert (2 * p - 1) / 2 == p - 1 && (2 * p - 1) % 2 == 1;
      assert BitOr(a, Pow2(fill) - 1) == Pow2(fill + w) - 1;
    }
  }

  lemma BitOrDigits(a: nat, b: nat)
    ensures BitOr(a, b) == 2 * BitOr(a / 2, b / 2) + (if a % 2 == 1 || b % 2 == 1 then 1 else 0)
  {
  }

  lemma {:induction false} BitOrBounds(a: nat, b: nat, k: nat)
    requires a < Pow2(k) && b < Pow2(k)
    ensures a <= BitOr(a, b) < Pow2(k)
  {
    if a == 0 || b == 0 {
    } else {
      BitOrBounds(a / 2, b / 2, k - 1);
    }
  }

  lemma {:induction false} ShrSmaller(n: nat, w: nat)
    ensures Shr(n, w) <= n
  {
    if w == 0 {
    } else {
      ShrSmaller(n / 2, w - 1);
    }
  }

  /** `n` is below 2^bits and its top min(w, bits) bits are ones. */
  ghost predicate TopOnes(n: nat, bits: nat, w: nat) {
    n < Pow2(bits) && if w < bits then Shr(n, bits - w) == Pow2(w) - 1 else n == Pow2(bits) - 1
  }

  /** Each step doubles the run of leading ones. */
  lemma SmearDoubles(n: nat, bits: nat, w: nat)
    requires TopOnes(n, bits, w)
    ensures TopOnes(Smear(n, w), bits, 2 * w)
  {
    hide BitOr, Pow2;
    ShrSmaller(n, w);
    BitOrBounds(n, Shr(n, w), bits);
    if w < bits {
      var low := if 2 * w <= bits then bits - 2 * w else 0;
      var fill := bits - w - low;
      BitOrShr(n, Shr(n, w), low);
      ShrShr(n, low, fill);
      ShrShr(n, w, low);
      ShrShr(n, low + fill, w - fill);
      ShrOnes(w, w - fill);
      BitOrFill(Shr(n, low), fill, w);
    }
  }

  lemma {:induction false} BitLength(n: nat) returns (bits: nat)
    requires n > 0
    ensures bits > 0 && Pow2(bits - 1) <= n < Pow2(bits)
  {
    if n == 1 {
      bits := 1;
      assert Pow2(0) == 1 && Pow2(1) == 2;
    } else {
      bits := BitLength(n / 2);
      bits := bits + 1;
    }
  }

  /** For 1 <= n <= 2^62 the cascade returns the least power of two not below n. */
  lemma NextPowerOfTwoLeast(n: nat, e: nat)
    requires 0 < n <= Pow2(e) && e <= 62
    requires e == 0 || Pow2(e - 1) < n
    ensures NextPowerOfTwo(n) == Pow2(e)
    ensures TrailingZeros(NextPowerOfTwo(n)) == e
    ensures NextPowerOfTwo(0) == 1
  {
    Pow2Monotonic(e, 62);
    Pow2At62();
    assert NextPowerOfTwo(n) == Pow2(e) by {
      if e == 0 {
        CascadeOfZero(1);
      } else {
        TopBit(n - 1, e);
        CascadeFills(n - 1, e, 1);
      }
    }
    TrailingZerosLog(Pow2(e), e);
  }

  lemma {:induction false} CascadeOfZero(w: nat)
    requires w > 0
    ensures Cascade(0, w) == 0
    decreases 64 - w
  {
    if w > 32 {
    } else {
      ShrSmaller(0, w);
      CascadeOfZero(2 * w);
    }
  }

  lemma {:induction false} TopBit(m: nat, bits: nat)
    requires bits > 0 && Pow2(bits - 1) <= m < Pow2(bits)
    ensures Shr(m, bits - 1) == 1 && TopOnes(m, bits, 1)
  {
    assert Pow2(1) == 2;
    if bits == 1 {
    } else {
      TopBit(m / 2, bits - 1);
    }
  }

  /** The six steps together turn on every bit below the top one, for up to 64 bits. */
  lemma {:induction false} CascadeFills(m: nat, bits: nat, w: nat)
    requires bits <= 64 && TopOnes(m, bits, w)
    requires w in {1, 2, 4, 8, 16, 32, 64}
    ensures Cascade(m, w) == Pow2(bits) - 1
    decreases 64 - w
  {
    if w <= 32 {
      SmearDoubles(m, bits, w);
      CascadeFills(Smear(m, w), bits, 2 * w);
    } else if bits == 64 {
      assert Shr(m, 0) == m;
    }
  }

  lemma Pow2At62()
    ensures Pow2(62) == 0x4000_0000_0000_0000 && Pow2(63) == INT64_LIMIT
  {
    assert Pow2(15) == 0x8000;
    Pow2Add(15, 15);
    Pow2Add(30, 30);
    assert Pow2(2) == 4;
    Pow2Add(60, 2);
  }

  // ---------- The schedule ----------

  datatype EpochSchedule = EpochSchedule(
    slotsPerEpoch: int, leaderScheduleSlotOffset: int, warmup: bool, firstNormalEpoch: int, firstNormalSlot: int)
  {
    /** Slots per epoch positive, and the normal epochs start where the warm-up epochs end. */
    ghost predicate Valid() {
      slotsPerEpoch > 0 && firstNormalEpoch >= 0 &&
      firstNormalSlot == (Pow2(firstNormalEpoch) - 1) * MINIMUM_SLOT_PER_EPOCH
    }

    function GetSlotsInEpoch(epoch: int): int {
      if epoch < firstNormalEpoch then PowInt(epoch + TrailingZeros(MINIMUM_SLOT_PER_EPOCH)) else slotsPerEpoch
    }

    function GetFirstSlotInEpoch(epoch: int): int {
      if epoch <= firstNormalEpoch then (PowInt(epoch) - 1) * MINIMUM_SLOT_PER_EPOCH
      else (epoch - firstNormalEpoch) * slotsPerEpoch + firstNormalSlot
    }

    function GetLastSlotInEpoch(epoch: int): int {
      GetFirstSlotInEpoch(epoch) + GetSlotsInEpoch(epoch) - 1
    }

    function GetEpochAndSlotIndex(slot: nat): (int, int)
      requires slotsPerEpoch > 0
    {
      if slot < firstNormalSlot then
        var epoch := TrailingZeros(NextPowerOfTwo(slot + MINIMUM_SLOT_PER_EPOCH + 1))
                     - TrailingZeros(MINIMUM_SLOT_PER_EPOCH) - 1;
        (epoch, slot - (GetSlotsInEpoch(epoch) - MINIMUM_SLOT_PER_EPOCH))
      else
        var normalSlotIndex := slot - firstNormalSlot;
        (firstNormalEpoch + normalSlotIndex / slotsPerEpoch, normalSlotIndex % slotsPerEpoch)
    }
  }

  /** The loop of PowInt runs no times for a negative exponent. */
  function PowInt(p: int): int {
    if p < 0 then 1 else Pow2(p)
  }

  /** utils.PowInt with base 2 (web3/utils/powInt.go:3-9). */
  method ComputePowInt(p: int) returns (ret: int)
    ensures ret == PowInt(p)
    ensures ret == if p < 0 then 1 else Pow2(p)
  {
    ret := 1;
    var i := 0;
    while i < p
      invariant 0 <= i && (i <= p || i == 0) && ret == Pow2(i)
    {
      ret := 2 * ret;
      i := i + 1;
    }
  }

  lemma TrailingZerosOf32()
    ensures TrailingZeros(MINIMUM_SLOT_PER_EPOCH) == 5 && Pow2(5) == 32
  {
    assert Pow2(5) == 32 && Pow2(6) == 64;
    TrailingZerosLog(32, 5);
  }

  /** Epoch by epoch: 32 slots in the first warm-up epoch and twice as many in each next one, then the normal length;
      each starts where those before it end. */
  lemma EpochLengths(s: EpochSchedule, epoch: nat)
    ensures s.GetSlotsInEpoch(epoch) == if epoch < s.firstNormalEpoch then 32 * Pow2(epoch) else s.slotsPerEpoch
    ensures s.GetFirstSlotInEpoch(0) == 0 || s.firstNormalEpoch < 0
    ensures epoch < s.firstNormalEpoch ==>
              s.GetFirstSlotInEpoch(epoch + 1) == s.GetFirstSlotInEpoch(epoch) + s.GetSlotsInEpoch(epoch)
    ensures epoch > s.firstNormalEpoch ==>
              s.GetFirstSlotInEpoch(epoch + 1) == s.GetFirstSlotInEpoch(epoch) + s.slotsPerEpoch
  {
    TrailingZerosOf32();
    Pow2Add(epoch, 5);
    hide TrailingZeros;
    var k, n := epoch - s.firstNormalEpoch, s.slotsPerEpoch;
    assert (k + 1) * n == k * n + n;
  }

  /** Slots the cascade can place: beyond these, slot + 33 has no power of two above it in 64 bits. */
  predicate Placeable(s: EpochSchedule, slot: nat) {
    slot >= s.firstNormalSlot || slot + MINIMUM_SLOT_PER_EPOCH + 1 <= 0x4000_0000_0000_0000
  }

  /** The warm-up epoch of a slot is the one whose doubled block slot + 32 falls in. */
  lemma WarmupEpoch(s: EpochSchedule, slot: nat, epoch: nat)
    requires s.Valid() && epoch < s.firstNormalEpoch && Placeable(s, slot)
    requires Pow2(epoch + 5) <= slot + 32 < Pow2(epoch + 6)
    ensures slot < s.firstNormalSlot
    ensures s.GetEpochAndSlotIndex(slot) == (epoch, slot - s.GetFirstSlotInEpoch(epoch))
    ensures s.GetFirstSlotInEpoch(epoch) == Pow2(epoch + 5) - 32
    ensures s.GetSlotsInEpoch(epoch) == Pow2(epoch + 5)
  {
    hide NextPowerOfTwo, TrailingZeros, Pow2;
    TrailingZerosOf32();
    Pow2Add(epoch, 5);
    Pow2Add(s.firstNormalEpoch, 5);
    Pow2Monotonic(epoch + 6, s.firstNormalEpoch + 5);
    Pow2At62();
    if epoch + 6 > 62 {
      Pow2Monotonic(62, epoch + 5);
    }
    NextPowerOfTwoLeast(slot + 33, epoch + 6);
  }

  /** Every slot lies in exactly the epoch and at exactly the index the schedule reports. */
  lemma SlotIsFirstPlusIndex(s: EpochSchedule, slot: nat)
    requires s.Valid() && Placeable(s, slot)
    ensures var (epoch, index) := s.GetEpochAndSlotIndex(slot);
            && 0 <= epoch
            && s.GetFirstSlotInEpoch(epoch) + index == slot
            && 0 <= index < s.GetSlotsInEpoch(epoch)
  {
    Pow2Monotonic(0, s.firstNormalEpoch);
    if slot < s.firstNormalSlot {
      var bits := BitLength(slot + 32);
      TrailingZerosOf32();
      if bits < 6 {
        Pow2Monotonic(bits, 5);
      }
      Pow2Add(s.firstNormalEpoch, 5);
      if bits - 6 >= s.firstNormalEpoch {
        Pow2Monotonic(s.firstNormalEpoch + 5, bits - 1);
      }
      WarmupEpoch(s, slot, bits - 6);
    } else {
      var n := slot - s.firstNormalSlot;
      assert n == n / s.slotsPerEpoch * s.slotsPerEpoch + n % s.slotsPerEpoch;
      assert n / s.slotsPerEpoch >= 0;
    }
  }

  lemma MulStep(a: nat, b: nat, d: nat)
    requires a < b
    ensures a * d + d <= b * d
  {
    assert b * d - a * d == (b - a) * d;
    assert (b - a - 1) * d >= 0;
  }

  lemma DivUnique(x: nat, d: nat, q: nat, r: nat)
    requires r < d && x == q * d + r
    ensures x / d == q && x % d == r
  {
    var q' := x / d;
    if q' < q {
      MulStep(q', q, d);
    } else if q < q' {
      MulStep(q, q', d);
    }
  }

  /** Conversely, every index of every epoch is reported for the slot it stands for. */
  lemma FirstPlusIndexIsSlot(s: EpochSchedule, epoch: nat, index: nat)
    requires s.Valid() && index < s.GetSlotsInEpoch(epoch)
    requires epoch <= 56 || s.firstNormalEpoch <= epoch
    ensures s.GetFirstSlotInEpoch(epoch) >= 0
    ensures s.GetEpochAndSlotIndex(s.GetFirstSlotInEpoch(epoch) + index) == (epoch, index)
  {
    if epoch < s.firstNormalEpoch {
      WarmupSlot(s, epoch, index);
    } else {
      NormalEpoch(s, epoch - s.firstNormalEpoch, index);
    }
  }

  lemma WarmupSlot(s: EpochSchedule, epoch: nat, index: nat)
    requires s.Valid() && index < s.GetSlotsInEpoch(epoch)
    requires epoch < s.firstNormalEpoch && epoch <= 56
    ensures s.GetFirstSlotInEpoch(epoch) >= 0
    ensures s.GetEpochAndSlotIndex(s.GetFirstSlotInEpoch(epoch) + index) == (epoch, index)
  {
    assert Pow2(epoch + 6) == 2 * Pow2(epoch + 5);
    hide NextPowerOfTwo, TrailingZeros, Pow2;
    TrailingZerosOf32();
    Pow2Add(epoch, 5);
    Pow2Monotonic(0, epoch);
    Pow2Monotonic(epoch + 6, 62);
    Pow2At62();
    assert s.GetSlotsInEpoch(epoch) == Pow2(epoch + 5);
    WarmupEpoch(s, s.GetFirstSlotInEpoch(epoch) + index, epoch);
  }

  lemma NormalEpoch(s: EpochSchedule, k: nat, index: nat)
    requires s.Valid() && index < s.slotsPerEpoch
    ensures s.firstNormalSlot >= 0
    ensures s.GetFirstSlotInEpoch(s.firstNormalEpoch + k) ==
            k * s.slotsPerEpoch + s.firstNormalSlot >= s.firstNormalSlot
    ensures s.GetEpochAndSlotIndex(k * s.slotsPerEpoch + s.firstNormalSlot + index) == (s.firstNormalEpoch + k, index)
  {
    Pow2Monotonic(0, s.firstNormalEpoch);
    var n := k * s.slotsPerEpoch;
    assert n >= 0 && (k == 0 ==> n == 0);
    DivUnique(n + index, s.slotsPerEpoch, k, index);
  }

  /** Epochs tile the slots: no gap and no overlap between one epoch and the next. */
  lemma EpochsTile(s: EpochSchedule, epoch: nat)
    requires s.Valid()
    ensures s.GetLastSlotInEpoch(epoch) + 1 == s.GetFirstSlotInEpoch(epoch + 1)
  {
    TrailingZerosOf32();
    Pow2Add(epoch, 5);
    if epoch >= s.firstNormalEpoch {
      var k, n := epoch - s.firstNormalEpoch, s.slotsPerEpoch;
      assert (k + 1) * n == k * n + n;
    }
  }

  /** The only schedules on 64-bit slots with unplaceable slots have 58 warm-up epochs, and there the
      answer is wrong for every such slot: the increment overflows and the epoch comes out as -6. */
  lemma UnplaceableSlots(s: EpochSchedule, slot: nat)
    requires s.Valid() && s.firstNormalSlot < INT64_LIMIT && slot < s.firstNormalSlot
    ensures !Placeable(s, slot) ==> s.firstNormalEpoch == 58 && s.GetEpochAndSlotIndex(slot).0 == -6
    ensures Placeable(s, slot) <==> s.GetEpochAndSlotIndex(slot).0 >= 0
  {
    if Placeable(s, slot) {
      SlotIsFirstPlusIndex(s, slot);
    } else {
      FiftyEightWarmupEpochs(s);
      TrailingZerosOf32();
      Pow2At62();
      hide Pow2, Cascade;
      TopBit(slot + 32, 63);
      CascadeFills(slot + 32, 63, 1);
    }
  }

  /** A schedule with 58 warm-up epochs: its slot 2^62 is reported in epoch -6. */
  lemma SlotInEpochMinusSix()
    ensures var s := EpochSchedule(432000, 432000, true, 58, 0x8000_0000_0000_0000 - 32);
            s.Valid() && s.GetEpochAndSlotIndex(0x4000_0000_0000_0000).0 == -6
  {
    Pow2At62();
    Pow2Add(58, 5);
    assert Pow2(5) == 32;
    hide Pow2, NextPowerOfTwo, TrailingZeros;
    var s := EpochSchedule(432000, 432000, true, 58, 0x8000_0000_0000_0000 - 32);
    assert s.Valid();
    UnplaceableSlots(s, 0x4000_0000_0000_0000);
  }

  lemma FiftyEightWarmupEpochs(s: EpochSchedule)
    requires s.Valid() && 0x4000_0000_0000_0000 - 32 < s.firstNormalSlot < INT64_LIMIT
    ensures s.firstNormalEpoch == 58
    ensures s.firstNormalSlot == 0x8000_0000_0000_0000 - 32
  {
    var e := s.firstNormalEpoch;
    Pow2At62();
    assert Pow2(64) == 2 * Pow2(63) && Pow2(5) == 32;
    Pow2Add(e, 5);
    hide Pow2;
    assert Pow2(e + 5) == s.firstNormalSlot + 32;
    if e <= 57 {
      Pow2Monotonic(e + 5, 62);
    } else if e > 58 {
      Pow2Monotonic(64, e + 5);
    }
  }
}
