/**
 The Internet checksum, as summed by a machine with 32-bit unsigned arithmetic that loads two bytes
 at a time in its own byte order.
 */
module ChecksumModel {
  import opened Ints

  const WORD := 0x1_0000
  const WRAP := 0x1_0000_0000

  /** An unsigned short. */
  type Word = x: int | 0 <= x < 0x1_0000

  /** The longest buffer whose words cannot overflow the sum. */
  const MAX_COUNT := 131074

  /** Two bytes loaded as an unsigned short. */
  function Load(a: Byte, b: Byte, little: bool): Word {
    if little then a + 0x100 * b else 0x100 * a + b
  }

  /** An unsigned short stored as two bytes. */
  function Store(w: Word, little: bool): (bytes: seq<Byte>)
    ensures |bytes| == 2 && Load(bytes[0], bytes[1], little) == w
  {
    if little then [w % 0x100, w / 0x100] else [w / 0x100, w % 0x100]
  }

  /** The sum that the summing loop and the left-over byte would give without a limit on its size. */
  function RawSum(bytes: seq<Byte>, little: bool): nat {
    if bytes == [] then 0
    else if |bytes| == 1 then bytes[0]
    else Load(bytes[0], bytes[1], little) + RawSum(bytes[2..], little)
  }

  /** One's complement addition of 16-bit words: a carry is added at the other end. */
  function Plus(a: Word, b: Word): Word {
    if a + b < WORD then a + b else a + b - WORD + 1
  }

  /** The one's complement sum of the words of a buffer, section 1 of RFC 1071. */
  function OnesSum(bytes: seq<Byte>, little: bool): Word {
    if bytes == [] then 0
    else if |bytes| == 1 then bytes[0]
    else Plus(Load(bytes[0], bytes[1], little), OnesSum(bytes[2..], little))
  }

  /** One's complement of a 16-bit word. */
  function Complement(x: Word): Word {
    WORD - 1 - x
  }

  /** The checksum: the one's complement of the one's complement sum. */
  function Checksum(bytes: seq<Byte>, little: bool): Word {
    Complement(OnesSum(bytes, little))
  }

  /** The word that a sum folds to: 0 for 0, otherwise 1 to 65535 with the same remainder by 65535. */
  function Folded(x: nat): Word {
    if x == 0 then 0 else 1 + (x - 1) % (WORD - 1)
  }

  lemma FoldedPlus(a: Word, x: nat)
    ensures Folded(a + x) == Plus(a, Folded(x))
  {
  }

  lemma {:induction false} OnesSumIsFolded(bytes: seq<Byte>, little: bool)
    ensures OnesSum(bytes, little) == Folded(RawSum(bytes, little))
  {
    if |bytes| > 1 {
      OnesSumIsFolded(bytes[2..], little);
      FoldedPlus(Load(bytes[0], bytes[1], little), RawSum(bytes[2..], little));
    }
  }

  lemma {:induction false} RawSumBound(bytes: seq<Byte>, little: bool)
    ensures RawSum(bytes, little) <= (|bytes| + 1) / 2 * (WORD - 1)
    ensures |bytes| % 2 == 0 ==> RawSum(bytes, little) <= |bytes| / 2 * (WORD - 1)
  {
    if |bytes| > 1 {
      RawSumBound(bytes[2..], little);
    }
  }

  /** Up to 131074 bytes the sum stays within 32 bits. */
  lemma NoOverflow(bytes: seq<Byte>, little: bool)
    requires |bytes| <= MAX_COUNT
    ensures RawSum(bytes, little) < WRAP
  {
    RawSumBound(bytes, little);
  }

  /** What the program computes of a sum that may have overflowed. */
  function Computed(raw: nat): nat {
    WORD - 1 - Folded(raw % WRAP)
  }

  lemma RemainderIs(x: nat, k: nat, r: nat)
    requires x == (WORD - 1) * k + r && r < WORD - 1
    ensures x % (WORD - 1) == r
  {
  }

  /** The carry out of 32 bits counts as one. */
  lemma CarryCounts(q: nat)
    ensures q * WRAP % (WORD - 1) == q % (WORD - 1)
  {
    RemainderIs(q * WRAP, 65537 * q + q / (WORD - 1), q % (WORD - 1));
  }

  lemma SameFold(x: nat, y: nat)
    requires y <= x
    ensures Folded(x) == Folded(y) <==> (x - y) % (WORD - 1) == 0 && (y == 0 ==> x == 0)
  {
  }

  /** Without a bound on the buffer, the program's result is the checksum exactly if the number of lost
      carries is a multiple of 65535 and no non-zero sum has become zero. */
  lemma ComputedIff(bytes: seq<Byte>, little: bool)
    ensures var raw := RawSum(bytes, little);
            Computed(raw) == Checksum(bytes, little) <==>
            raw / WRAP % (WORD - 1) == 0 && (raw % WRAP == 0 ==> raw == 0)
  {
    var raw := RawSum(bytes, little);
    OnesSumIsFolded(bytes, little);
    var q, t := raw / WRAP, raw % WRAP;
    assert raw == q * WRAP + t;
    SameFold(raw, t);
    CarryCounts(q);
  }

  function AllOnes(n: nat): (bytes: seq<Byte>)
    ensures |bytes| == n
  {
    if n == 0 then [] else if n == 1 then [0xFF] else [0xFF, 0xFF] + AllOnes(n - 2)
  }

  lemma {:induction false} AllOnesSum(n: nat, little: bool)
    ensures RawSum(AllOnes(n), little) == n / 2 * (WORD - 1) + if n % 2 == 1 then 0xFF else 0
  {
    if n > 1 {
      AllOnesSum(n - 2, little);
      assert AllOnes(n)[2..] == AllOnes(n - 2);
    }
  }

  /** One byte more than the bound can give a wrong result. */
  lemma BoundIsSharp(little: bool)
    ensures |AllOnes(MAX_COUNT + 1)| == MAX_COUNT + 1
    ensures Computed(RawSum(AllOnes(MAX_COUNT + 1), little)) != Checksum(AllOnes(MAX_COUNT + 1), little)
  {
    AllOnesSum(MAX_COUNT + 1, little);
    ComputedIff(AllOnes(MAX_COUNT + 1), little);
  }

  lemma FoldRound(high: nat, low: nat)
    requires 0 < high && low < WORD
    ensures Folded(low + high) == Folded(high * WORD + low)
  {
    SameFold(high * WORD + low, low + high);
    RemainderIs(high * WORD + low - (low + high), high, 0);
  }

  /** Folds a 32-bit sum to 16 bits; also says how often the loop ran. */
  method Fold(whole: nat) returns (sum: nat, ghost rounds: nat)
    requires whole < WRAP
    ensures sum == Folded(whole) && rounds <= 2
  {
    sum, rounds := whole, 0;
    while sum / WORD != 0
      invariant Folded(sum) == Folded(whole)
      invariant sum < WRAP && (rounds == 1 ==> sum <= 2 * (WORD - 1)) && (rounds == 2 ==> sum < WORD) && rounds <= 2
      decreases sum
    {
      var high, low := sum / WORD, sum % WORD;
      FoldRound(high, low);
      sum := low + high;
      rounds := rounds + 1;
    }
  }

  /** Addition of unsigned 32-bit integers. */
  method AddWrapping(a: nat, b: nat, ghost whole: nat) returns (r: nat)
    requires b < WRAP && a == whole % WRAP
    ensures r == (whole + b) % WRAP
  {
    r := if a + b < WRAP then a + b else a + b - WRAP;
  }

  /** The summing loop and the left-over byte, in 32 bits. */
  method AddUp(buf: array<Byte>, count: nat, little: bool) returns (sum: nat)
    requires count <= buf.Length
    ensures sum == RawSum(buf[..count], little) % WRAP
  {
    ghost var bytes := buf[..count];
    var addr, left := 0, count;
    sum := 0;
    ghost var whole: nat := 0;
    assert bytes[0..] == bytes;
    while left > 1
      invariant addr + left == count && sum == whole % WRAP
      invariant whole + RawSum(bytes[addr..], little) == RawSum(bytes, little)
    {
      assert bytes[addr..][2..] == bytes[addr + 2..];
      sum := AddWrapping(sum, Load(buf[addr], buf[addr + 1], little), whole);
      whole := whole + Load(buf[addr], buf[addr + 1], little);
      addr := addr + 2;
      left := left - 2;
    }
    if left > 0 {
      sum := AddWrapping(sum, buf[addr], whole);
    }
  }

  /** The complement of a 32-bit integer, truncated to 16 bits. */
  lemma NotOfWord(x: Word)
    ensures (WRAP - 1 - x) % WORD == WORD - 1 - x
  {
    assert WRAP - 1 - x == WORD * (WORD - 1) + (WORD - 1 - x);
  }

  lemma SmallSum(raw: nat)
    requires raw < WRAP
    ensures Computed(raw) == Complement(Folded(raw))
  {
  }

  lemma ComputedInBound(bytes: seq<Byte>, little: bool)
    requires |bytes| <= MAX_COUNT
    ensures Computed(RawSum(bytes, little)) == Checksum(bytes, little)
  {
    var raw := RawSum(bytes, little);
    NoOverflow(bytes, little);
    OnesSumIsFolded(bytes, little);
    SmallSum(raw);
  }

  /** checksum(buf, count). */
  method ComputeChecksum(buf: array<Byte>, count: nat, little: bool) returns (r: nat)
    requires count <= buf.Length
    ensures r == Computed(RawSum(buf[..count], little))
    ensures count <= MAX_COUNT ==> r == Checksum(buf[..count], little)
  {
    var sum := AddUp(buf, count, little);
    var folded, rounds := Fold(sum);
    r := (WRAP - 1 - folded) % WORD;
    NotOfWord(folded);
    if count <= MAX_COUNT {
      ComputedInBound(buf[..count], little);
    }
  }

  // ----- verifying a checksum -----

  lemma PlusAssociative(a: Word, b: Word, c: Word)
    ensures Plus(a, Plus(b, c)) == Plus(Plus(a, b), c)
  {
  }

  /** The sum of a buffer is the sum of two parts of it, if the first has an even length. */
  lemma {:induction false} SumsAdd(bytes: seq<Byte>, tail: seq<Byte>, little: bool)
    requires |bytes| % 2 == 0
    ensures OnesSum(bytes + tail, little) == Plus(OnesSum(bytes, little), OnesSum(tail, little))
  {
    if bytes == [] {
      assert bytes + tail == tail;
    } else {
      assert (bytes + tail)[2..] == bytes[2..] + tail;
      SumsAdd(bytes[2..], tail, little);
      PlusAssociative(Load(bytes[0], bytes[1], little), OnesSum(bytes[2..], little), OnesSum(tail, little));
    }
  }

  lemma SumOfWord(tail: seq<Byte>, little: bool)
    requires |tail| == 2
    ensures OnesSum(tail, little) == Load(tail[0], tail[1], little)
  {
    assert tail[2..] == [];
  }

  lemma AllOnesIff(f: Word, w: Word)
    ensures Plus(f, w) == WORD - 1 <==> w == WORD - 1 - f || (w == WORD - 1 && f == WORD - 1)
  {
  }

  /** A word behind an even number of bytes makes the checksum 0 exactly if it is the checksum of those
      bytes, or the other representation of zero. */
  lemma VerifiesIff(bytes: seq<Byte>, w: Word, little: bool)
    requires |bytes| % 2 == 0
    ensures Checksum(bytes + Store(w, little), little) == 0 <==>
            w == Checksum(bytes, little) || (w == WORD - 1 && Checksum(bytes, little) == 0)
  {
    var tail := Store(w, little);
    SumsAdd(bytes, tail, little);
    SumOfWord(tail, little);
    AllOnesIff(OnesSum(bytes, little), w);
  }

  // ----- byte order -----

  function Swap(w: Word): Word {
    w % 0x100 * 0x100 + w / 0x100
  }

  function Swapped(bytes: seq<Byte>): (r: seq<Byte>)
    requires |bytes| % 2 == 0
    ensures |r| == |bytes|
  {
    if bytes == [] then [] else [bytes[1], bytes[0]] + Swapped(bytes[2..])
  }

  /** The high and the low byte of a sum, and those of the sum of the swapped words. */
  lemma PlusParts(ah: nat, al: nat, bh: nat, bl: nat) returns (high: nat, low: nat)
    requires ah < 0x100 && al < 0x100 && bh < 0x100 && bl < 0x100
    ensures high < 0x100 && low < 0x100
    ensures Plus(ah * 0x100 + al, bh * 0x100 + bl) == high * 0x100 + low
    ensures Plus(al * 0x100 + ah, bl * 0x100 + bh) == low * 0x100 + high
  {
    high, low := ah + bh, al + bl;
    if low >= 0x100 { high, low := high + 1, low - 0x100; }
    if high >= 0x100 { high, low := high - 0x100, low + 1; }
    if low >= 0x100 { high, low := high + 1, low - 0x100; }
  }

  lemma SwapParts(high: Byte, low: Byte)
    ensures Swap(high * 0x100 + low) == low * 0x100 + high
  {
  }

  lemma SwapPlusParts(ah: Byte, al: Byte, bh: Byte, bl: Byte)
    ensures Plus(al * 0x100 + ah, bl * 0x100 + bh) == Swap(Plus(ah * 0x100 + al, bh * 0x100 + bl))
  {
    var high, low := PlusParts(ah, al, bh, bl);
    SwapParts(high, low);
  }

  lemma SwapPlus(a: Word, b: Word)
    ensures Plus(Swap(a), Swap(b)) == Swap(Plus(a, b))
  {
    SwapPlusParts(a / 0x100, a % 0x100, b / 0x100, b % 0x100);
  }

  lemma SwapLoad(a: Byte, b: Byte, little: bool)
    ensures Load(b, a, little) == Swap(Load(a, b, little)) == Load(a, b, !little)
  {
    SwapParts(a, b);
    SwapParts(b, a);
  }

  lemma SwapNot(w: Word)
    ensures Swap(Complement(w)) == Complement(Swap(w))
  {
    SwapParts(0xFF - w / 0x100, 0xFF - w % 0x100);
  }

  /** The sum of swapped words is the swapped sum: it does not matter in which order a machine loads
      the bytes of a word. */
  lemma {:induction false} SwapsSum(bytes: seq<Byte>, little: bool)
    requires |bytes| % 2 == 0
    ensures OnesSum(Swapped(bytes), little) == Swap(OnesSum(bytes, little))
  {
    if bytes != [] {
      SwapsSum(bytes[2..], little);
      var w, rest := Load(bytes[0], bytes[1], little), OnesSum(bytes[2..], little);
      assert Swapped(bytes)[2..] == Swapped(bytes[2..]);
      SwapLoad(bytes[0], bytes[1], little);
      assert OnesSum(Swapped(bytes), little) == Plus(Swap(w), Swap(rest));
      SwapPlus(w, rest);
    }
  }

  /** Section 2 of RFC 1071: swapping the bytes of every word swaps the bytes of the checksum. */
  lemma SwapsChecksum(bytes: seq<Byte>, little: bool)
    requires |bytes| % 2 == 0
    ensures Checksum(Swapped(bytes), little) == Swap(Checksum(bytes, little))
  {
    var sum := OnesSum(bytes, little);
    SwapsSum(bytes, little);
    SwapNot(sum);
    assert Checksum(Swapped(bytes), little) == Complement(Swap(sum)) == Swap(Complement(sum));
  }

  lemma {:induction false} OtherOrder(bytes: seq<Byte>)
    requires |bytes| % 2 == 0
    ensures OnesSum(bytes, false) == Swap(OnesSum(bytes, true))
  {
    if bytes != [] {
      OtherOrder(bytes[2..]);
      var w, rest := Load(bytes[0], bytes[1], true), OnesSum(bytes[2..], true);
      SwapLoad(bytes[0], bytes[1], true);
      assert OnesSum(bytes, false) == Plus(Swap(w), Swap(rest));
      SwapPlus(w, rest);
    }
  }

  lemma StoreSwapped(w: Word)
    ensures Store(w, true) == Store(Swap(w), false)
  {
  }

  /** The bytes of the checksum of an even number of bytes are the same on machines of both orders. */
  lemma SameBytesOnBothMachines(bytes: seq<Byte>)
    requires |bytes| % 2 == 0
    ensures Store(Checksum(bytes, true), true) == Store(Checksum(bytes, false), false)
  {
    OtherOrder(bytes);
    SwapNot(OnesSum(bytes, true));
    StoreSwapped(Checksum(bytes, true));
  }

  lemma PaddedIff(f: Word, last: Byte, little: bool)
    ensures Plus(f, last) == Plus(f, Load(last, 0, little)) <==> little || last == 0
  {
  }

  /** The left-over byte counts as the byte of a word padded with zero exactly on a little-endian
      machine, or if it is zero: on a big-endian machine it is added at the wrong end of the word. */
  lemma LeftOverIsPaddedIff(bytes: seq<Byte>, little: bool)
    requires |bytes| % 2 == 1
    ensures Checksum(bytes, little) == Checksum(bytes + [0], little) <==> little || bytes[|bytes| - 1] == 0
  {
    var even, last := bytes[..|bytes| - 1], bytes[|bytes| - 1];
    assert bytes == even + [last] && bytes + [0] == even + [last, 0];
    SumsAdd(even, [last], little);
    SumsAdd(even, [last, 0], little);
    SumOfWord([last, 0], little);
    PaddedIff(OnesSum(even, little), last, little);
  }
}
