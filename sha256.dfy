/**
 * The SHA-256 program the pass is exercised on: the FIPS 180-4 functions on
 * 32-bit words, the message padding of section 5.1.1, the big-endian parsing
 * of sections 3.1 and 5.2.1, and the hash computation of section 6.2.2.
 *
 * `word` (uint32_t) is `bv32`, so every `+` on words is addition modulo 2^32
 * exactly as in the source; `dword` (uint64_t) arithmetic on lengths is done
 * on `nat`, which agrees with the source as long as the message is short
 * enough for no 64-bit wrap-around (MaxMessageBytes).
 */
module Sha256 {

  // ---------------------------------------------------------------------------
  // Constants (FIPS 180-4 sections 4.2.2 and 5.3.3)
  // ---------------------------------------------------------------------------

  const WordBytes: nat := 4
  const BlockBytes: nat := 64

  /** Initial hash value H(0). */
  const H0: seq<bv32> := [
    0x6a09e667, 0xbb67ae85, 0x3c6ef372, 0xa54ff53a,
    0x510e527f, 0x9b05688c, 0x1f83d9ab, 0x5be0cd19
  ]

  /** The sixty-four round constants. */
  const K: seq<bv32> := [
    0x428a2f98, 0x71374491, 0xb5c0fbcf, 0xe9b5dba5, 0x3956c25b, 0x59f111f1, 0x923f82a4, 0xab1c5ed5,
    0xd807aa98, 0x12835b01, 0x243185be, 0x550c7dc3, 0x72be5d74, 0x80deb1fe, 0x9bdc06a7, 0xc19bf174,
    0xe49b69c1, 0xefbe4786, 0x0fc19dc6, 0x240ca1cc, 0x2de92c6f, 0x4a7484aa, 0x5cb0a9dc, 0x76f988da,
    0x983e5152, 0xa831c66d, 0xb00327c8, 0xbf597fc7, 0xc6e00bf3, 0xd5a79147, 0x06ca6351, 0x14292967,
    0x27b70a85, 0x2e1b2138, 0x4d2c6dfc, 0x53380d13, 0x650a7354, 0x766a0abb, 0x81c2c92e, 0x92722c85,
    0xa2bfe8a1, 0xa81a664b, 0xc24b8b70, 0xc76c51a3, 0xd192e819, 0xd6990624, 0xf40e3585, 0x106aa070,
    0x19a4c116, 0x1e376c08, 0x2748774c, 0x34b0bcb5, 0x391c0cb3, 0x4ed8aa4a, 0x5b9cca4f, 0x682e6ff3,
    0x748f82ee, 0x78a5636f, 0x84c87814, 0x8cc70208, 0x90befffa, 0xa4506ceb, 0xbef9a3f7, 0xc67178f2
  ]

  /**
   * Longest message whose padding the 64-bit arithmetic of the constructor
   * computes without wrapping around: 8 * bytes + 576 < 2^64.
   */
  const MaxMessageBytes: nat := 0x1FFF_FFFF_FFFF_FFB8

  // ---------------------------------------------------------------------------
  // Functions on words (FIPS 180-4 sections 3.2 and 4.1.2)
  // ---------------------------------------------------------------------------

  /** Ch (equation 4.2): each bit comes from y where x has a one, from z elsewhere. */
  function Ch(x: bv32, y: bv32, z: bv32): (r: bv32)
    ensures r & x == y & x
    ensures r & !x == z & !x
  {
    (x & y) ^ (!x & z)
  }

  /** Maj (equation 4.3): each bit is the majority vote of the three inputs. */
  function Maj(x: bv32, y: bv32, z: bv32): (r: bv32)
    ensures r & !(x ^ y) == x & !(x ^ y)
    ensures r & (x ^ y) == z & (x ^ y)
  {
    (x & y) ^ (x & z) ^ (y & z)
  }

  // The four functions below spell out the source's ROTR<N> and SHR<N>
  // template instances for their constant amounts.

  /** Sigma0 (equation 4.4): three right rotations combined by exclusive or. */
  function BigSigma0(x: bv32): (r: bv32)
    ensures r == x.RotateRight(2) ^ x.RotateRight(13) ^ x.RotateRight(22)
  {
    ((x >> 2) | (x << 30)) ^ ((x >> 13) | (x << 19)) ^ ((x >> 22) | (x << 10))
  }

  /** Sigma1 (equation 4.5). */
  function BigSigma1(x: bv32): (r: bv32)
    ensures r == x.RotateRight(6) ^ x.RotateRight(11) ^ x.RotateRight(25)
  {
    ((x >> 6) | (x << 26)) ^ ((x >> 11) | (x << 21)) ^ ((x >> 25) | (x << 7))
  }

  /** sigma0 (equation 4.6): two rotations and a logical shift, whose vacated top bits are zero. */
  function SmallSigma0(x: bv32): (r: bv32)
    ensures r == x.RotateRight(7) ^ x.RotateRight(18) ^ (x.RotateRight(3) & 0x1FFF_FFFF)
  {
    ((x >> 7) | (x << 25)) ^ ((x >> 18) | (x << 14)) ^ (x >> 3)
  }

  /** sigma1 (equation 4.7). */
  function SmallSigma1(x: bv32): (r: bv32)
    ensures r == x.RotateRight(17) ^ x.RotateRight(19) ^ (x.RotateRight(10) & 0x003F_FFFF)
  {
    ((x >> 17) | (x << 15)) ^ ((x >> 19) | (x << 13)) ^ (x >> 10)
  }

  // ---------------------------------------------------------------------------
  // Big-endian conventions (FIPS 180-4 sections 3.1 and 5.2.1)
  // ---------------------------------------------------------------------------

  /** The word whose most significant byte is b0 and least significant byte is b3. */
  function BigEndianWord(b0: bv8, b1: bv8, b2: bv8, b3: bv8): bv32
  {
    (b0 as bv32 << 24) | (b1 as bv32 << 16) | (b2 as bv32 << 8) | b3 as bv32
  }

  /** The four bytes of a word, most significant first. */
  function WordBytesOf(w: bv32): (r: seq<bv8>)
    ensures |r| == 4
  {
    [((w >> 24) & 0xFF) as bv8, ((w >> 16) & 0xFF) as bv8, ((w >> 8) & 0xFF) as bv8, (w & 0xFF) as bv8]
  }

  /** Parsing four bytes as a word and splitting the word again gives the bytes back, and conversely. */
  lemma BigEndianWordRoundTrip(b0: bv8, b1: bv8, b2: bv8, b3: bv8, w: bv32)
    ensures WordBytesOf(BigEndianWord(b0, b1, b2, b3)) == [b0, b1, b2, b3]
    ensures var s := WordBytesOf(w); BigEndianWord(s[0], s[1], s[2], s[3]) == w
  {
  }

  /** The word stored at byte offset p of a byte string. */
  function WordAt(bytes: seq<bv8>, p: nat): bv32
    requires p + 4 <= |bytes|
  {
    BigEndianWord(bytes[p], bytes[p + 1], bytes[p + 2], bytes[p + 3])
  }

  /** The 64-bit length field, most significant byte first. */
  function LengthBytes(l: bv64): (r: seq<bv8>)
    ensures |r| == 8
  {
    [((l >> 56) & 0xFF) as bv8, ((l >> 48) & 0xFF) as bv8, ((l >> 40) & 0xFF) as bv8,
     ((l >> 32) & 0xFF) as bv8, ((l >> 24) & 0xFF) as bv8, ((l >> 16) & 0xFF) as bv8,
     ((l >> 8) & 0xFF) as bv8, (l & 0xFF) as bv8]
  }

  /** Reassembles a 64-bit big-endian field. */
  function FromLengthBytes(s: seq<bv8>): bv64
    requires |s| == 8
  {
    (s[0] as bv64 << 56) | (s[1] as bv64 << 48) | (s[2] as bv64 << 40) | (s[3] as bv64 << 32) |
    (s[4] as bv64 << 24) | (s[5] as bv64 << 16) | (s[6] as bv64 << 8) | s[7] as bv64
  }

  /** The length field encodes the length exactly. */
  lemma LengthBytesRoundTrip(l: bv64)
    ensures FromLengthBytes(LengthBytes(l)) == l
  {
  }

  // ---------------------------------------------------------------------------
  // Padding (FIPS 180-4 section 5.1.1)
  // ---------------------------------------------------------------------------

  /** Number of zero bytes between the 0x80 byte and the length field. */
  function PadZeroCount(bytes: nat): nat
  {
    (55 - bytes) % 64
  }

  /** The padding up to the length field: the message, the byte 0x80 and the zero bytes. */
  function PadPrefix(msg: seq<bv8>): seq<bv8>
  {
    msg + [0x80] + seq(PadZeroCount(|msg|), _ => 0)
  }

  /** The message length in bits, as the 64-bit length field holds it. */
  function BitLength(msg: seq<bv8>): bv64
    requires |msg| < MaxMessageBytes
  {
    (|msg| * 8) as bv64
  }

  /** The padded message: the message, 0x80, zero bytes, and the bit length as 64 bits. */
  function Pad(msg: seq<bv8>): seq<bv8>
    requires |msg| < MaxMessageBytes
  {
    PadPrefix(msg) + LengthBytes(BitLength(msg))
  }

  /** The padded size of an n-byte message: n bytes, 0x80, the zero bytes and eight length bytes. */
  function PaddedSize(n: nat): nat
  {
    n + 9 + PadZeroCount(n)
  }

  /** The padded size is a multiple of 64 with room for the nine extra bytes, and the least such. */
  lemma PaddedSizeBounds(n: nat)
    ensures PaddedSize(n) % 64 == 0
    ensures n + 9 <= PaddedSize(n) < n + 9 + 64
    ensures forall m: nat :: m % 64 == 0 && n + 9 <= m ==> PaddedSize(n) <= m
  {
    var q := (55 - n) / 64;
    assert 55 - n == 64 * q + PadZeroCount(n);
    assert PaddedSize(n) == 64 * (1 - q);
    forall m: nat | m % 64 == 0 && n + 9 <= m
      ensures PaddedSize(n) <= m
    {
      assert m == 64 * (m / 64);
    }
  }

  /** The constructor's bit count l, converted to 64 bits, is the length field's value. */
  lemma BitLengthIs(msg: seq<bv8>, l: nat)
    requires |msg| < MaxMessageBytes && l == |msg| * 8
    ensures l as bv64 == BitLength(msg)
  {
  }

  lemma PadSize(msg: seq<bv8>)
    requires |msg| < MaxMessageBytes
    ensures |Pad(msg)| == PaddedSize(|msg|)
  {
  }

  /** The padded length is the smallest multiple of 64 bytes that holds the message and nine more bytes. */
  lemma PadLength(msg: seq<bv8>)
    requires |msg| < MaxMessageBytes
    ensures |Pad(msg)| % BlockBytes == 0
    ensures |msg| + 9 <= |Pad(msg)| < |msg| + 9 + BlockBytes
  {
    PadSize(msg);
    PaddedSizeBounds(|msg|);
  }

  /** Every length that is a multiple of 64 and holds message plus nine bytes is at least the padded length. */
  lemma PadLengthMinimal(msg: seq<bv8>, m: nat)
    requires |msg| < MaxMessageBytes
    requires m % BlockBytes == 0 && |msg| + 9 <= m
    ensures |Pad(msg)| <= m
  {
    PadSize(msg);
    PaddedSizeBounds(|msg|);
  }

  /** The bytes of the padded message, region by region. */
  lemma PadContents(msg: seq<bv8>)
    requires |msg| < MaxMessageBytes
    ensures |Pad(msg)| >= |msg| + 9
    ensures Pad(msg)[..|msg|] == msg
    ensures Pad(msg)[|msg|] == 0x80
    ensures forall j :: |msg| < j < |Pad(msg)| - 8 ==> Pad(msg)[j] == 0
    ensures Pad(msg)[|Pad(msg)| - 8..] == LengthBytes(BitLength(msg))
    ensures FromLengthBytes(Pad(msg)[|Pad(msg)| - 8..]) == BitLength(msg)
  {
    var p := Pad(msg);
    var n := |msg|;
    var z := PadZeroCount(n);
    assert p[n + 1 + z..] == LengthBytes(BitLength(msg));
    assert p[..n + 1 + z] == PadPrefix(msg);
    LengthBytesRoundTrip(BitLength(msg));
    forall j | n < j < |p| - 8
      ensures p[j] == 0
    {
      assert p[j] == seq(z, _ => 0 as bv8)[j - n - 1];
    }
    assert p[..n] == msg;
  }

  /** The source's `mod_subtract` on bit counts: (n - m) modulo 512, for unsigned n < 512. */
  function ModSubtract(n: nat, m: nat): nat
  {
    ((n + 512) - m % 512) % 512
  }

  /** The source's size computation, from bit counts, gives the length of Pad. */
  lemma PaddedSizeArithmetic(bytes: nat)
    ensures var l := 8 * bytes;
            (l + 1 + ModSubtract(448, l + 1) + 64) % 8 == 0 &&
            (l + 1 + ModSubtract(448, l + 1) + 64) / 8 == bytes + 9 + PadZeroCount(bytes)
  {
    var l := 8 * bytes;
    var q, r := bytes / 64, bytes % 64;
    assert bytes == 64 * q + r;
    assert l == 512 * q + 8 * r;
    assert (l + 1) % 512 == 8 * r + 1;
    if r <= 55 {
      assert ModSubtract(448, l + 1) == 447 - 8 * r;
      assert PadZeroCount(bytes) == 55 - r;
    } else {
      assert ModSubtract(448, l + 1) == 959 - 8 * r;
      assert PadZeroCount(bytes) == 119 - r;
    }
  }

  /**
   * Byte i of the length field as the constructor's loop extracts it, with
   * the shift amount (7 - i) * 8. The counter is a bit-vector so that the
   * shift amount is one too.
   */
  function LengthByte(l: bv64, i: bv64): bv8
    requires i < 8
  {
    ((l >> ((7 - i) * 8)) & 0xFF) as bv8
  }

  /** The loop's bytes, taken in order, are the big-endian length field. */
  lemma LengthBytesInOrder(l: bv64)
    ensures LengthBytes(l) == [LengthByte(l, 0), LengthByte(l, 1), LengthByte(l, 2), LengthByte(l, 3),
                               LengthByte(l, 4), LengthByte(l, 5), LengthByte(l, 6), LengthByte(l, 7)]
  {
  }

  /** Eight bytes that agree with the loop's bytes form the length field. */
  lemma LengthTail(s: seq<bv8>, l: bv64)
    requires |s| == 8 && forall j: bv64 :: j < 8 ==> s[j as int] == LengthByte(l, j)
    ensures s == LengthBytes(l)
  {
    LengthBytesInOrder(l);
    assert s[0] == LengthByte(l, 0) && s[1] == LengthByte(l, 1);
    assert s[2] == LengthByte(l, 2) && s[3] == LengthByte(l, 3);
    assert s[4] == LengthByte(l, 4) && s[5] == LengthByte(l, 5);
    assert s[6] == LengthByte(l, 6) && s[7] == LengthByte(l, 7);
  }

  lemma SplitAt(s: seq<bv8>, k: nat)
    requires k <= |s|
    ensures s == s[..k] + s[k..]
  {
  }

  /** A sequence whose last eight bytes are the length field and whose other bytes are the padding prefix is the padded message. */
  lemma PadFromParts(msg: seq<bv8>, s: seq<bv8>)
    requires |msg| < MaxMessageBytes && |s| >= 8
    requires s[..|s| - 8] == PadPrefix(msg) && s[|s| - 8..] == LengthBytes(BitLength(msg))
    ensures s == Pad(msg)
  {
    SplitAt(s, |s| - 8);
  }

  /** OR-ing a byte into a zero byte stores it. */
  lemma OrIntoZero(x: bv8, y: bv8)
    requires x == 0
    ensures x | y == y
  {
  }

  /** Byte i of a word shifted into place as `get_word` does: by 32 - (i + 1) * 8. */
  function ShiftedByte(b: bv8, i: bv32): bv32
    requires i < 4
  {
    b as bv32 << (32 - (i + 1) * 8)
  }

  /** The value of `ret` in `get_word` after the first i bytes of w. */
  function WordPrefix(w: seq<bv8>, i: bv32): bv32
    requires |w| == 4 && i <= 4
  {
    if i == 0 then 0 else WordPrefix(w, i - 1) | ShiftedByte(w[(i - 1) as int], i - 1)
  }

  lemma WordPrefixOne(w: seq<bv8>)
    requires |w| == 4
    ensures WordPrefix(w, 1) == 0 | ShiftedByte(w[0], 0)
  {
  }

  lemma WordPrefixTwo(w: seq<bv8>)
    requires |w| == 4
    ensures WordPrefix(w, 2) == WordPrefix(w, 1) | ShiftedByte(w[1], 1)
  {
  }

  lemma WordPrefixThree(w: seq<bv8>)
    requires |w| == 4
    ensures WordPrefix(w, 3) == WordPrefix(w, 2) | ShiftedByte(w[2], 2)
  {
  }

  lemma WordPrefixFour(w: seq<bv8>)
    requires |w| == 4
    ensures WordPrefix(w, 4) == WordPrefix(w, 3) | ShiftedByte(w[3], 3)
  {
  }

  /** OR-ing the four shifted bytes into zero builds the big-endian word. */
  lemma ShiftedBytesMakeWord(b0: bv8, b1: bv8, b2: bv8, b3: bv8)
    ensures (((0 | ShiftedByte(b0, 0)) | ShiftedByte(b1, 1)) | ShiftedByte(b2, 2)) | ShiftedByte(b3, 3) ==
            BigEndianWord(b0, b1, b2, b3)
  {
  }

  /** After all four bytes, `ret` is the big-endian word. */
  lemma WordPrefixComplete(w: seq<bv8>)
    requires |w| == 4
    ensures WordPrefix(w, 4) == BigEndianWord(w[0], w[1], w[2], w[3])
  {
    WordPrefixOne(w);
    WordPrefixTwo(w);
    WordPrefixThree(w);
    WordPrefixFour(w);
    ShiftedBytesMakeWord(w[0], w[1], w[2], w[3]);
  }

  // ---------------------------------------------------------------------------
  // Hash computation (FIPS 180-4 section 6.2.2), as reference functions
  // ---------------------------------------------------------------------------

  /** The sixteen words of block i of a padded message. */
  function BlockWords(msg: seq<bv8>, i: nat): (r: seq<bv32>)
    requires 64 * i + 64 <= |msg|
    ensures |r| == 16
  {
    seq(16, t requires 0 <= t < 16 => WordAt(msg, 64 * i + 4 * t))
  }

  /** The recurrence of step 1 of section 6.2.2, on the four words W_j depends on. */
  function NextWordOf(w2: bv32, w7: bv32, w15: bv32, w16: bv32): bv32
  {
    SmallSigma1(w2) + w7 + SmallSigma0(w15) + w16
  }

  /** Equal words give equal results (kept apart so that no proof reasons about the sums). */
  lemma NextWordOfCongruent(a1: bv32, b1: bv32, c1: bv32, d1: bv32, a2: bv32, b2: bv32, c2: bv32, d2: bv32)
    requires a1 == a2 && b1 == b2 && c1 == c2 && d1 == d2
    ensures NextWordOf(a1, b1, c1, d1) == NextWordOf(a2, b2, c2, d2)
  {
  }

  /** W_j from the words W_{j-2}, W_{j-7}, W_{j-15} and W_{j-16} of w. */
  function NextWord(w: seq<bv32>, j: nat): bv32
    requires 16 <= j <= |w|
  {
    NextWordOf(w[j - 2], w[j - 7], w[j - 15], w[j - 16])
  }

  /** W_j depends only on the words before it. */
  lemma NextWordPrefix(w1: seq<bv32>, w2: seq<bv32>, j: nat)
    requires 16 <= j <= |w1| && j <= |w2| && w1[..j] == w2[..j]
    ensures NextWord(w1, j) == NextWord(w2, j)
  {
    assert w1[j - 2] == w2[j - 2] && w1[j - 7] == w2[j - 7];
    assert w1[j - 15] == w2[j - 15] && w1[j - 16] == w2[j - 16];
    NextWordOfCongruent(w1[j - 2], w1[j - 7], w1[j - 15], w1[j - 16], w2[j - 2], w2[j - 7], w2[j - 15], w2[j - 16]);
  }

  /** The first t words of the message schedule for one block. */
  function ScheduleUpTo(m: seq<bv32>, t: nat): (w: seq<bv32>)
    requires |m| == 16 && t <= 64
    ensures |w| == t
  {
    if t <= 16 then m[..t]
    else
      var w := ScheduleUpTo(m, t - 1);
      w + [NextWord(w, t - 1)]
  }

  /** The message schedule W0 .. W63. */
  function Schedule(m: seq<bv32>): (w: seq<bv32>)
    requires |m| == 16
    ensures |w| == 64
  {
    ScheduleUpTo(m, 64)
  }

  /** One step of the schedule loop: appending the recurrence's word to the first t words. */
  lemma ScheduleStep(m: seq<bv32>, prev: seq<bv32>, t: nat, next: seq<bv32>)
    requires |m| == 16 && 16 <= t < 64 && prev == ScheduleUpTo(m, t)
    requires |next| == t + 1 && next[..t] == prev
    requires next[t] == NextWordOf(next[t - 2], next[t - 7], next[t - 15], next[t - 16])
    ensures next == ScheduleUpTo(m, t + 1)
  {
    assert next[t - 2] == prev[t - 2] && next[t - 7] == prev[t - 7];
    assert next[t - 15] == prev[t - 15] && next[t - 16] == prev[t - 16];
    NextWordOfCongruent(next[t - 2], next[t - 7], next[t - 15], next[t - 16], prev[t - 2], prev[t - 7], prev[t - 15], prev[t - 16]);
    Snoc(next, prev, t);
  }

  /** A sequence is its first t elements followed by element t. */
  lemma Snoc<T>(next: seq<T>, prev: seq<T>, t: nat)
    requires |next| == t + 1 && next[..t] == prev
    ensures next == prev + [next[t]]
  {
  }

  /** A shorter schedule is a prefix of a longer one. */
  lemma {:induction false} ScheduleUpToPrefix(m: seq<bv32>, t: nat, u: nat)
    requires |m| == 16 && t <= u <= 64
    ensures ScheduleUpTo(m, t) == ScheduleUpTo(m, u)[..t]
  {
    if t < u {
      ScheduleUpToPrefix(m, t, u - 1);
      if u > 16 {
        assert ScheduleUpTo(m, u)[..u - 1] == ScheduleUpTo(m, u - 1);
      }
    }
  }

  /** Step 1 of section 6.2.2: W_t is M_t for t < 16, and the recurrence on the earlier words after that. */
  lemma ScheduleRecurrence(m: seq<bv32>, t: nat)
    requires |m| == 16 && t < 64
    ensures t < 16 ==> Schedule(m)[t] == m[t]
    ensures 16 <= t ==> Schedule(m)[t] == NextWord(Schedule(m), t)
  {
    ScheduleUpToPrefix(m, t + 1, 64);
    if 16 <= t {
      ScheduleUpToPrefix(m, t, 64);
      NextWordPrefix(ScheduleUpTo(m, t), Schedule(m), t);
    }
  }

  /** The eight working variables a .. h. */
  datatype Vars = Vars(a: bv32, b: bv32, c: bv32, d: bv32, e: bv32, f: bv32, g: bv32, h: bv32)

  /** Addition modulo 2^32, the `+` of section 3.2 of FIPS 180-4 on words. */
  function Add(x: bv32, y: bv32): bv32
  {
    x + y
  }

  /** T1 = h + Sigma1(e) + Ch(e, f, g) + K_t + W_t. */
  function Temp1(e: bv32, f: bv32, g: bv32, h: bv32, k: bv32, w: bv32): bv32
  {
    h + BigSigma1(e) + Ch(e, f, g) + k + w
  }

  /** T2 = Sigma0(a) + Maj(a, b, c). */
  function Temp2(a: bv32, b: bv32, c: bv32): bv32
  {
    BigSigma0(a) + Maj(a, b, c)
  }

  /** One round of step 3 of section 6.2.2. */
  function Round(v: Vars, k: bv32, w: bv32): Vars
  {
    var t1 := Temp1(v.e, v.f, v.g, v.h, k, w);
    Vars(Add(t1, Temp2(v.a, v.b, v.c)), v.a, v.b, v.c, Add(v.d, t1), v.e, v.f, v.g)
  }

  lemma AddIs(x: bv32, y: bv32, z: bv32)
    requires z == x + y
    ensures z == Add(x, y)
  {
  }

  lemma Temp1Is(e: bv32, f: bv32, g: bv32, h: bv32, k: bv32, w: bv32, t1: bv32)
    requires t1 == h + BigSigma1(e) + Ch(e, f, g) + k + w
    ensures t1 == Temp1(e, f, g, h, k, w)
  {
  }

  lemma Temp2Is(a: bv32, b: bv32, c: bv32, t2: bv32)
    requires t2 == BigSigma0(a) + Maj(a, b, c)
    ensures t2 == Temp2(a, b, c)
  {
  }

  /** The round as the loop of `main` writes it, with T1 and T2 held in temporaries. */
  lemma RoundStep(a: bv32, b: bv32, c: bv32, d: bv32, e: bv32, f: bv32, g: bv32, h: bv32,
                  k: bv32, w: bv32, t1: bv32, t2: bv32)
    requires t1 == h + BigSigma1(e) + Ch(e, f, g) + k + w
    requires t2 == BigSigma0(a) + Maj(a, b, c)
    ensures Round(Vars(a, b, c, d, e, f, g, h), k, w) == Vars(t1 + t2, a, b, c, d + t1, e, f, g)
  {
    Temp1Is(e, f, g, h, k, w, t1);
    Temp2Is(a, b, c, t2);
    AddIs(t1, t2, t1 + t2);
    AddIs(d, t1, d + t1);
  }

  /** The working variables after the first t rounds. */
  function RoundsUpTo(v: Vars, w: seq<bv32>, t: nat): Vars
    requires |w| == 64 && t <= 64
  {
    if t == 0 then v else Round(RoundsUpTo(v, w, t - 1), K[t - 1], w[t - 1])
  }

  lemma RoundsUpToNext(v: Vars, w: seq<bv32>, t: nat)
    requires |w| == 64 && t < 64
    ensures RoundsUpTo(v, w, t + 1) == Round(RoundsUpTo(v, w, t), K[t], w[t])
  {
  }

  /** Steps 2 to 4 of section 6.2.2: the intermediate hash value after one more block. */
  function Compress(h: seq<bv32>, block: seq<bv32>): (r: seq<bv32>)
    requires |h| == 8 && |block| == 16
    ensures |r| == 8
  {
    AddVars(h, RoundsUpTo(VarsOf(h), Schedule(block), 64))
  }

  /** Step 2 of section 6.2.2: the working variables start as the hash value. */
  function VarsOf(h: seq<bv32>): Vars
    requires |h| == 8
  {
    Vars(h[0], h[1], h[2], h[3], h[4], h[5], h[6], h[7])
  }

  /** Step 4 of section 6.2.2: each word of the hash value plus its working variable. */
  function AddVars(h: seq<bv32>, v: Vars): (r: seq<bv32>)
    requires |h| == 8
    ensures |r| == 8
  {
    [h[0] + v.a, h[1] + v.b, h[2] + v.c, h[3] + v.d, h[4] + v.e, h[5] + v.f, h[6] + v.g, h[7] + v.h]
  }

  /** The hash value after the first n blocks of a padded message, starting from H(0). */
  function HashBlocks(msg: seq<bv8>, n: nat): (r: seq<bv32>)
    requires 64 * n <= |msg|
    ensures |r| == 8
  {
    if n == 0 then H0 else Compress(HashBlocks(msg, n - 1), BlockWords(msg, n - 1))
  }

  lemma HashBlocksNext(msg: seq<bv8>, n: nat)
    requires 64 * (n + 1) <= |msg|
    ensures HashBlocks(msg, n + 1) == Compress(HashBlocks(msg, n), BlockWords(msg, n))
  {
  }

  /** SHA-256 of a message: the hash of all blocks of its padding. */
  function Digest(msg: seq<bv8>): (r: seq<bv32>)
    requires |msg| < MaxMessageBytes
    ensures |r| == 8
  {
    PadLength(msg);
    HashBlocks(Pad(msg), |Pad(msg)| / 64)
  }

  // ---------------------------------------------------------------------------
  // The program
  // ---------------------------------------------------------------------------

  /** The `message` class: the input bytes, padded in place by the constructor. */
  class Message {
    const data: array<bv8>

    /** Copies the input, grows it to the padded size (new bytes zero), ORs in 0x80 and the bit length. */
    constructor (input: seq<bv8>)
      requires |input| < MaxMessageBytes
      ensures data[..] == Pad(input)
    {
      var l, size := SizeFor(input);
      var d := Resized(input, size);
      WriteLength(d, l);
      PadFromParts(input, d[..]);
      data := d;
    }

    /**
     * The constructor's size computation: the bit length l of the input as a
     * 64-bit `dword`, then l + 1 + k + 64 bits with k from `mod_subtract`, in
     * bytes.
     */
    static method SizeFor(input: seq<bv8>) returns (l: bv64, size: nat)
      requires |input| < MaxMessageBytes
      ensures l == BitLength(input) && size == PaddedSize(|input|)
    {
      var bytes := |input|;
      var bits := bytes * 8;
      BitLengthIs(input, bits);
      l := bits as bv64;
      var k := ModSubtract(448, bits + 1);
      PaddedSizeArithmetic(bytes);
      size := (bits + 1 + k + 64) / 8;
    }

    /** The constructor's first steps: the input resized to `size` bytes, new bytes zero, with 0x80 ORed in after it. */
    static method Resized(input: seq<bv8>, size: nat) returns (d: array<bv8>)
      requires |input| < MaxMessageBytes && size == PaddedSize(|input|)
      ensures fresh(d) && d.Length == size
      ensures d[..size - 8] == PadPrefix(input)
      ensures forall j :: size - 8 <= j < size ==> d[j] == 0
    {
      var bytes := |input|;
      d := new bv8[size](j => if 0 <= j < |input| then input[j] else 0);
      OrIntoZero(d[bytes], 0x80);
      d[bytes] := d[bytes] | 0x80;
      ghost var prefix := PadPrefix(input);
      assert forall j :: 0 <= j < size - 8 ==> d[j] == prefix[j];
    }

    /** The constructor's last loop: ORs the eight bytes of the bit length l into the zero tail of d. */
    static method WriteLength(d: array<bv8>, l: bv64)
      requires d.Length >= 8
      requires forall j :: d.Length - 8 <= j < d.Length ==> d[j] == 0
      modifies d
      ensures d[..d.Length - 8] == old(d[..d.Length - 8])
      ensures d[d.Length - 8..] == LengthBytes(l)
    {
      var size := d.Length;
      var i: bv64 := 0;
      while i < 8
        invariant i <= 8
        invariant d[..size - 8] == old(d[..size - 8])
        invariant forall j: bv64 :: j < i ==> d[size - 8 + j as int] == LengthByte(l, j)
        invariant forall j :: size - 8 + i as int <= j < size ==> d[j] == 0
      {
        var p := size - (8 - i as int);
        OrIntoZero(d[p], LengthByte(l, i));
        d[p] := d[p] | ((l >> ((7 - i) * 8)) & 0xFF) as bv8;
        i := i + 1;
      }
      LengthTail(d[size - 8..], l);
    }

    /** Number of 64-byte blocks. */
    function N(): (r: nat)
      ensures 64 * r <= data.Length < 64 * r + 64
    {
      data.Length / BlockBytes
    }

    /** Word t of block i, accumulated most significant byte first. */
    method GetWord(blockIndex: nat, wordIndex: nat) returns (ret: bv32)
      requires blockIndex < N() && wordIndex < 16
      ensures ret == WordAt(data[..], 64 * blockIndex + 4 * wordIndex)
    {
      var p := blockIndex * BlockBytes + wordIndex * WordBytes;
      ghost var w := data[p..p + 4];
      ret := 0;
      var i: bv32 := 0;
      while i < 4
        invariant i <= 4
        invariant ret == WordPrefix(w, i)
      {
        ret := ret | (data[p + i as int] as bv32 << (32 - (i + 1) * 8));
        i := i + 1;
      }
      WordPrefixComplete(w);
    }
  }

  /** The first two inner loops of `main`: W_t for block i, from `get_word` and then the recurrence. */
  method MessageSchedule(m: Message, i: nat) returns (W: array<bv32>)
    requires i < m.N()
    ensures fresh(W) && W.Length == 64
    ensures W[..] == Schedule(BlockWords(m.data[..], i))
  {
    ghost var block := BlockWords(m.data[..], i);
    W := new bv32[64];
    var t := 0;
    while t < 16
      invariant 0 <= t <= 16
      invariant W[..t] == block[..t]
    {
      W[t] := m.GetWord(i, t);
      t := t + 1;
    }
    assert W[..16] == ScheduleUpTo(block, 16);
    while t < 64
      invariant 16 <= t <= 64
      invariant W[..t] == ScheduleUpTo(block, t)
    {
      ghost var prev := W[..t];
      W[t] := NextWordOf(W[t - 2], W[t - 7], W[t - 15], W[t - 16]);
      ScheduleStep(block, prev, t, W[..t + 1]);
      t := t + 1;
    }
  }

  /** The third inner loop of `main`: the 64 rounds on the working variables a .. h. */
  method CompressionRounds(v0: Vars, W: array<bv32>) returns (v: Vars)
    requires W.Length == 64
    ensures v == RoundsUpTo(v0, W[..], 64)
  {
    var a, b, c, d, e, f, g, h := v0.a, v0.b, v0.c, v0.d, v0.e, v0.f, v0.g, v0.h;
    var t := 0;
    while t < 64
      invariant 0 <= t <= 64
      invariant Vars(a, b, c, d, e, f, g, h) == RoundsUpTo(v0, W[..], t)
    {
      var kt, wt := K[t], W[t];
      var t1 := h + BigSigma1(e) + Ch(e, f, g) + kt + wt;
      var t2 := BigSigma0(a) + Maj(a, b, c);
      RoundStep(a, b, c, d, e, f, g, h, kt, wt, t1, t2);
      RoundsUpToNext(v0, W[..], t);
      h := g;
      g := f;
      f := e;
      e := d + t1;
      d := c;
      c := b;
      b := a;
      a := t1 + t2;
      t := t + 1;
    }
    v := Vars(a, b, c, d, e, f, g, h);
  }

  /** One iteration of the loop of `main`: fill W, run the 64 rounds and add into H. */
  method HashBlock(m: Message, i: nat, H: seq<bv32>) returns (H': seq<bv32>)
    requires i < m.N() && |H| == 8
    ensures H' == Compress(H, BlockWords(m.data[..], i))
  {
    var W := MessageSchedule(m, i);
    ghost var ws := W[..];
    var v := CompressionRounds(Vars(H[0], H[1], H[2], H[3], H[4], H[5], H[6], H[7]), W);
    assert v == RoundsUpTo(VarsOf(H), ws, 64);
    H' := AddVars(H, v);
  }

  /** The loop of `main` over the blocks of the padded message. */
  method HashMessage(m: Message) returns (digest: seq<bv32>)
    ensures digest == HashBlocks(m.data[..], m.N())
  {
    ghost var msg := m.data[..];
    var H := H0;
    var i := 0;
    while i < m.N()
      invariant 0 <= i <= m.N() && m.data[..] == msg
      invariant H == HashBlocks(msg, i)
    {
      H := HashBlock(m, i, H);
      HashBlocksNext(msg, i);
      i := i + 1;
    }
    digest := H;
  }

  /** `main` without the file reading and hex printing: pad the input and hash it. */
  method Main256(input: seq<bv8>) returns (digest: seq<bv32>)
    requires |input| < MaxMessageBytes
    ensures digest == Digest(input)
  {
    var m := new Message(input);
    digest := HashMessage(m);
  }
}
