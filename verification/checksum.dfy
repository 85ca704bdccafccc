/**
 * The Internet checksum (RFC 1071, section 1) as `calculate_checksum` computes
 * it: big-endian 16-bit words are added into a 32-bit accumulator, any carry
 * out of bit 16 is folded back in after each addition (end-around carry), and
 * the result is the 16-bit complement of the sum. An odd trailing byte is the
 * high byte of a zero-padded word; the routine adds it first.
 */
module InternetChecksum {
  import opened IcmpHeader

  // ---------------------------------------------------------------------
  // Reference definition (RFC 1071)
  // ---------------------------------------------------------------------

  /** The 16-bit value of two bytes in network (big-endian) order. */
  function Word(hi: Byte, lo: Byte): (w: nat)
    ensures w < 0x10000
  {
    (hi as int) * 0x100 + (lo as int)
  }

  /**
   * Plain (unfolded) sum of the big-endian 16-bit words of `data`; an odd
   * trailing byte counts as the high byte of a word whose low byte is zero.
   */
  function WordSum(data: seq<Byte>): nat
  {
    if |data| == 0 then 0
    else if |data| == 1 then Word(data[0], 0)
    else Word(data[0], data[1]) + WordSum(data[2..])
  }

  /**
   * The one's-complement value of a plain sum: the sum taken modulo 0xFFFF,
   * written in 1..0xFFFF once anything nonzero was added, and 0 only when
   * nothing was.
   */
  function EndAround(n: nat): (r: nat)
    ensures r <= 0xFFFF
    ensures r == 0 <==> n == 0
  {
    if n == 0 then 0 else (n - 1) % 0xFFFF + 1
  }

  /** The Internet checksum of `data`: the complement of its one's-complement word sum. */
  function Checksum(data: seq<Byte>): (r: nat)
    ensures r <= 0xFFFF
  {
    0xFFFF - EndAround(WordSum(data))
  }

  // ---------------------------------------------------------------------
  // The accumulator as the routine updates it
  // ---------------------------------------------------------------------

  /** The values of a `uint32_t`. */
  type Uint32 = x: int | 0 <= x < 0x1_0000_0000

  /** One step of the loop: add a word, then fold the carry `sum >> 16` into `sum & 0xffff`. */
  function AddWithCarry(sum: nat, word: nat): nat
  {
    var s := sum + word;
    if s / 0x10000 != 0 then s % 0x10000 + s / 0x10000 else s
  }

  /** The two shapes of the loop step agree. */
  lemma CarryStep(before: nat, w: nat, after: nat)
    requires before <= 0xFFFF && w < 0x10000
    requires after == if (before + w) / 0x10000 != 0 then (before + w) % 0x10000 + (before + w) / 0x10000 else before + w
    ensures after == AddWithCarry(before, w) && after <= 0xFFFF
  {
  }

  /** The accumulator after adding, two bytes at a time from index `i`, every whole word of `data[i..end]`. */
  function FoldWords(sum: nat, data: seq<Byte>, i: nat, end: nat): nat
    requires i <= end <= |data|
    decreases end - i
  {
    if end - i < 2 then sum
    else FoldWords(AddWithCarry(sum, Word(data[i], data[i + 1])), data, i + 2, end)
  }

  /**
   * Computes the checksum of `buffer` the way the C routine does, walking it
   * two bytes at a time. The accumulator has the range of a `uint32_t`; every
   * addition is checked to stay in that range, which the invariant
   * `sum <= 0xFFFF` guarantees, so the 32-bit arithmetic never wraps around.
   */
  method CalculateChecksum(buffer: seq<Byte>) returns (r: int)
    ensures r == Checksum(buffer)
    ensures 0 <= r < 0x10000
  {
    var sum: Uint32 := 0;
    var end := |buffer|;
    if |buffer| % 2 == 1 {
      end := |buffer| - 1;
      sum := sum + Word(buffer[end], 0);
    }
    ghost var first := sum;
    var i := 0;
    ghost var pairs := end / 2;
    while i < end
      invariant 0 <= i <= end && end - i == 2 * pairs
      invariant 0 <= sum <= 0xFFFF
      invariant FoldWords(sum, buffer, i, end) == FoldWords(first, buffer, 0, end)
    {
      ghost var before := sum;
      pairs := pairs - 1;
      var w := Word(buffer[i], buffer[i + 1]);
      sum := sum + w;
      var carry := sum / 0x10000;
      if carry != 0 {
        sum := sum % 0x10000 + carry;
      }
      CarryStep(before, w, sum);
      i := i + 2;
    }
    // ~checksum & 0xffff: the 32-bit complement is 0xFFFFFFFF - checksum, the mask keeps its low 16 bits
    r := (0xFFFF_FFFF - sum) % 0x10000;
    MaskedComplement(sum);
    SplitMatchesRoutine(buffer, first);
    assert sum == EndAround(WordSum(buffer));
  }

  /** `~x & 0xffff` on a 32-bit `x` no larger than 0xFFFF is 0xFFFF - x. */
  lemma MaskedComplement(x: nat)
    requires x <= 0xFFFF
    ensures (0xFFFF_FFFF - x) % 0x10000 == 0xFFFF - x
  {
    assert 0xFFFF_FFFF - x == 0xFFFF * 0x10000 + (0xFFFF - x);
  }

  /**
   * What the routine folds, the optional trailing byte first and then the
   * whole words, is the one's-complement value of the reference word sum.
   */
  lemma SplitMatchesRoutine(data: seq<Byte>, first: nat)
    requires first == if |data| % 2 == 1 then Word(data[|data| - 1], 0) else 0
    ensures FoldWords(first, data, 0, |data| - |data| % 2) == EndAround(WordSum(data))
  {
    var even := data[..|data| - |data| % 2];
    FoldWordsIsEndAround(first, data, 0, |data| - |data| % 2);
    assert data[0..|data| - |data| % 2] == even;
    if |data| % 2 == 1 {
      TrailingByteFirst(data);
    } else {
      assert even == data;
    }
  }

  // ---------------------------------------------------------------------
  // The routine agrees with the reference definition
  // ---------------------------------------------------------------------

  /** Adding 0xFFFF to a nonzero plain sum does not change its one's-complement value. */
  lemma EndAroundDropsModulus(n: nat)
    requires n >= 1
    ensures EndAround(n + 0xFFFF) == EndAround(n)
  {
  }

  /**
   * Folding the words of an even-length buffer into an accumulator that is at
   * most 0xFFFF keeps it at most 0xFFFF and ends at the one's-complement value
   * of the plain sum.
   */
  lemma {:induction false} FoldWordsIsEndAround(sum: nat, data: seq<Byte>, i: nat, end: nat)
    requires i <= end <= |data|
    requires sum <= 0xFFFF && (end - i) % 2 == 0
    ensures FoldWords(sum, data, i, end) <= 0xFFFF
    ensures FoldWords(sum, data, i, end) == EndAround(sum + WordSum(data[i..end]))
    decreases end - i
  {
    if i == end {
      assert sum == 0 || (sum - 1) % 0xFFFF == sum - 1;
    } else {
      var w := Word(data[i], data[i + 1]);
      var s := sum + w;
      var next := AddWithCarry(sum, w);
      assert data[i..end][2..] == data[i + 2..end];
      FoldWordsIsEndAround(next, data, i + 2, end);
      if s >= 0x10000 {
        assert next == s - 0xFFFF;
        EndAroundDropsModulus(next + WordSum(data[i + 2..end]));
      }
    }
  }

  /**
   * The routine's order for an odd length: the last byte, as the high byte of a
   * padded word, plus the words of the even-length prefix, is the whole sum.
   */
  lemma {:induction false} TrailingByteFirst(data: seq<Byte>)
    requires |data| % 2 == 1
    ensures WordSum(data) == Word(data[|data| - 1], 0) + WordSum(data[..|data| - 1])
  {
    if |data| > 1 {
      TrailingByteFirst(data[2..]);
      assert data[2..][..|data| - 3] == data[..|data| - 1][2..];
    }
  }

  // ---------------------------------------------------------------------
  // Properties of the checksum
  // ---------------------------------------------------------------------

  /** The word sum of two buffers joined at an even boundary is the sum of their word sums. */
  lemma {:induction false} WordSumAppend(a: seq<Byte>, b: seq<Byte>)
    requires |a| % 2 == 0
    ensures WordSum(a + b) == WordSum(a) + WordSum(b)
  {
    if |a| == 0 {
      assert a + b == b;
    } else {
      assert (a + b)[2..] == a[2..] + b;
      WordSumAppend(a[2..], b);
    }
  }

  /** A message with its checksum field (bytes 2-3) replaced by big-endian `hi, lo`. */
  function PatchChecksum(msg: seq<Byte>, c: U16): (r: seq<Byte>)
    requires |msg| >= 4
    ensures |r| == |msg| && r[..2] == msg[..2] && r[4..] == msg[4..]
    ensures Word(r[2], r[3]) == c
  {
    msg[..2] + [c / 0x100, c % 0x100] + msg[4..]
  }

  /** The one's-complement value of a sum plus the complement of that value is 0xFFFF (negative zero). */
  lemma SumWithComplement(n: nat)
    ensures EndAround(n + (0xFFFF - EndAround(n))) == 0xFFFF
  {
    if n > 0 {
      var q := (n - 1) / 0xFFFF;
      assert n - 1 == q * 0xFFFF + (n - 1) % 0xFFFF;
      assert n + (0xFFFF - EndAround(n)) == (q + 1) * 0xFFFF;
      assert ((q + 1) * 0xFFFF - 1) % 0xFFFF == 0xFFFE by {
        assert (q + 1) * 0xFFFF - 1 == q * 0xFFFF + 0xFFFE;
      }
    }
  }

  /**
   * Receiver's check: a message whose checksum was computed while bytes 2-3
   * were zero, and then stored there big-endian, has checksum 0.
   */
  lemma ChecksumValidates(msg: seq<Byte>)
    requires |msg| >= 4 && msg[2] == 0 && msg[3] == 0
    ensures Checksum(PatchChecksum(msg, Checksum(msg))) == 0
  {
    var c := Checksum(msg);
    var sent := PatchChecksum(msg, c);
    assert msg == msg[..2] + [msg[2], msg[3]] + msg[4..];
    WordSumAppend(msg[..2] + [msg[2], msg[3]], msg[4..]);
    WordSumAppend(sent[..4], sent[4..]);
    assert sent == sent[..4] + sent[4..];
    assert sent[..4][2..] == [c / 0x100, c % 0x100];
    assert (msg[..2] + [msg[2], msg[3]])[2..] == [0, 0];
    assert WordSum(sent) == WordSum(msg) + c;
    SumWithComplement(WordSum(msg));
  }

  /** Worked example of section 3 of RFC 1071: bytes 00 01 f2 03 f4 f5 f6 f7 sum to ddf2, checksum 220d. */
  lemma Rfc1071Example()
    ensures WordSum([0x00, 0x01, 0xf2, 0x03, 0xf4, 0xf5, 0xf6, 0xf7]) == 0x2ddf0
    ensures Checksum([0x00, 0x01, 0xf2, 0x03, 0xf4, 0xf5, 0xf6, 0xf7]) == 0x220d
  {
  }

  /** A 27-byte Echo message that is all zero but for type 8 sums to 0x0800: its checksum is 0xF7FF. */
  lemma ZeroRequestVector()
    ensures Checksum([8] + seq(26, _ => 0)) == 0xF7FF
  {
    var zeros: seq<Byte> := seq(25, _ => 0);
    ZeroWordSum(zeros);
    assert ([8] + seq(26, _ => 0))[2..] == zeros;
  }

  /** Zero bytes add nothing to the word sum. */
  lemma {:induction false} ZeroWordSum(data: seq<Byte>)
    requires forall k :: 0 <= k < |data| ==> data[k] == 0
    ensures WordSum(data) == 0
  {
    if |data| >= 2 {
      ZeroWordSum(data[2..]);
    }
  }
}
