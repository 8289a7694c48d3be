/** The Internet checksum (RFC 1071) as myping.c and ping6_ll.c compute it, on hosts of either byte order. */
module InternetChecksum {
  import opened Bytes
  import opened CIntegers

  const U32 := 0x1_0000_0000
  const U16_MAX := 65535

  /** The largest buffer whose words cannot overflow a 32-bit accumulator. */
  const MAX_SAFE := 131074

  /** An unsigned short read from memory. */
  function Word(little: bool, first: byte, second: byte): (w: nat)
    ensures w <= U16_MAX
  {
    if little then second * 256 + first else (first as int) * 256 + second
  }

  /** The sum of the 16-bit words of a buffer; a last odd octet counts as its own value. */
  function WordSum(little: bool, b: seq<byte>): (t: nat) {
    if b == [] then 0
    else if |b| == 1 then b[0]
    else Word(little, b[0], b[1]) + WordSum(little, b[2..])
  }

  /** sum = (sum & 0xffff) + (sum >> 16), until nothing is left above 16 bits. */
  function Fold(sum: nat): (f: nat)
    ensures f <= U16_MAX
  {
    if sum <= U16_MAX then sum else Fold(sum % 0x1_0000 + sum / 0x1_0000)
  }

  /** The checksum of a buffer, on a 32-bit accumulator. */
  function Checksum(little: bool, b: seq<byte>): (c: nat)
    ensures c <= U16_MAX
  {
    U16_MAX - Fold(WordSum(little, b) % U32)
  }

  // ----- the two programs -----

  lemma WrapAdd(exact: nat, w: nat)
    ensures (exact % U32 + w) % U32 == (exact + w) % U32
  {
    assert exact == exact / U32 * U32 + exact % U32;
    var r := exact % U32 + w;
    assert exact + w == (exact / U32 + r / U32) * U32 + r % U32;
  }

  /** The accumulation loop of both programs. */
  method SumWords(little: bool, buf: array<byte>, len: nat) returns (sum: nat)
    requires len <= buf.Length
    ensures sum == WordSum(little, buf[..len]) % U32
  {
    sum := 0;
    var i := 0;
    ghost var exact: nat := 0;
    assert buf[0..len] == buf[..len];
    while len - i > 1
      invariant 0 <= i <= len
      invariant sum == exact % U32
      invariant exact + WordSum(little, buf[i..len]) == WordSum(little, buf[..len])
    {
      assert buf[i..len][2..] == buf[i + 2..len];
      var w := Word(little, buf[i], buf[i + 1]);
      WrapAdd(exact, w);
      exact := exact + w;
      sum := (sum + w) % U32;
      i := i + 2;
    }
    if len - i == 1 {
      WrapAdd(exact, buf[i]);
      sum := (sum + buf[i]) % U32;
    }
  }

  /** An unsigned short assigned ~sum. */
  function Complement(sum: nat): (c: nat)
    requires sum < U32
    ensures c == U16_MAX - sum % 0x1_0000
  {
    (U32 - 1 - sum) % 0x1_0000
  }

  /** myping.c: fold exactly twice. */
  method ChecksumTwoFolds(little: bool, buf: array<byte>, len: nat) returns (result: nat)
    requires len <= buf.Length
    ensures result == Checksum(little, buf[..len])
  {
    var sum := SumWords(little, buf, len);
    TwoFoldsSuffice(sum);
    sum := sum / 0x1_0000 + sum % 0x1_0000;
    sum := sum + sum / 0x1_0000;
    result := Complement(sum);
  }

  /** ping6_ll.c: fold until done. */
  method ChecksumLoop(little: bool, buf: array<byte>, len: nat) returns (answer: nat)
    requires len <= buf.Length
    ensures answer == Checksum(little, buf[..len])
  {
    var sum := SumWords(little, buf, len);
    ghost var start := sum;
    while sum / 0x1_0000 != 0
      invariant 0 <= sum < U32 && Fold(sum) == Fold(start)
      decreases sum
    {
      sum := sum % 0x1_0000 + sum / 0x1_0000;
    }
    answer := Complement(sum);
  }

  /** No 32-bit sum needs a third fold. */
  lemma TwoFoldsSuffice(sum: nat)
    requires sum < U32
    ensures var once := sum / 0x1_0000 + sum % 0x1_0000;
            (once + once / 0x1_0000) % 0x1_0000 == Fold(sum) && once + once / 0x1_0000 < U32
  {
    var once := sum / 0x1_0000 + sum % 0x1_0000;
    assert once <= 2 * U16_MAX;
    FoldOnce(once);
    if sum > U16_MAX {
      assert Fold(sum) == Fold(once);
    }
  }

  lemma FoldOnce(once: nat)
    requires once <= 2 * U16_MAX
    ensures (once + once / 0x1_0000) % 0x1_0000 == Fold(once) && once + once / 0x1_0000 < U32
  {
    if once > U16_MAX {
      assert once / 0x1_0000 == 1 && once % 0x1_0000 == once - 0x1_0000;
      assert Fold(once) == Fold(once - U16_MAX);
    } else {
      assert once / 0x1_0000 == 0;
    }
  }

  // ----- what the fold means -----

  /** Folding takes the remainder by 65535, in the range 1 to 65535 unless the sum is 0. */
  lemma {:induction false} FoldValue(sum: nat)
    ensures Fold(sum) == if sum == 0 then 0 else 1 + (sum - 1) % U16_MAX
    decreases sum
  {
    if sum > U16_MAX {
      var q, r := sum / 0x1_0000, sum % 0x1_0000;
      FoldValue(q + r);
      Remainder(q + r - 1, q);
      assert sum - 1 == q + r - 1 + q * U16_MAX;
    }
  }

  lemma {:induction false} Remainder(x: nat, k: nat)
    ensures (x + k * U16_MAX) % U16_MAX == x % U16_MAX
  {
    if k > 0 {
      Remainder(x, k - 1);
      assert x + k * U16_MAX == (x + (k - 1) * U16_MAX) + U16_MAX;
    }
  }

  /** What folding drops: a multiple of 65535. */
  lemma FoldDrops(sum: nat) returns (q: nat)
    requires sum > 0
    ensures sum == Fold(sum) + q * U16_MAX && 1 <= Fold(sum)
  {
    FoldValue(sum);
    q := (sum - 1) / U16_MAX;
  }

  /** Two sums that differ by a multiple of 65535 fold alike, unless just one of them is 0. */
  lemma FoldCongruent(a: nat, b: nat, k: nat)
    requires a == b + k * U16_MAX && b > 0
    ensures Fold(a) == Fold(b)
  {
    FoldValue(a);
    FoldValue(b);
    Remainder(b - 1, k);
  }

  /** One's complement addition with its end-around carry. */
  function OnesAdd(x: nat, y: nat): nat {
    if x + y > U16_MAX then x + y - U16_MAX else x + y
  }

  /** The one's complement sum of a buffer of whole words, carrying at every addition. */
  function OnesSum(little: bool, b: seq<byte>): (t: nat)
    requires |b| % 2 == 0
  {
    if b == [] then 0 else OnesAdd(Word(little, b[0], b[1]), OnesSum(little, b[2..]))
  }

  /** RFC 1071 pads an odd buffer with a zero octet. */
  function Padded(b: seq<byte>): (p: seq<byte>)
    ensures |p| % 2 == 0
  {
    if |b| % 2 == 0 then b else b + [0]
  }

  /** The checksum that RFC 1071 defines. */
  function RfcChecksum(little: bool, b: seq<byte>): int {
    U16_MAX - OnesSum(little, Padded(b))
  }

  /** Adding first and carrying last gives the one's complement sum. */
  lemma {:induction false} DeferredCarries(little: bool, b: seq<byte>)
    requires |b| % 2 == 0
    ensures OnesSum(little, b) == Fold(WordSum(little, b))
  {
    if b != [] {
      DeferredCarries(little, b[2..]);
      AddAndFold(Word(little, b[0], b[1]), WordSum(little, b[2..]));
    }
  }

  lemma AddAndFold(w: nat, rest: nat)
    requires w <= U16_MAX
    ensures Fold(w + rest) == OnesAdd(w, Fold(rest))
  {
    if rest > 0 {
      var q := FoldDrops(rest);
      FoldCongruent(w + rest, w + Fold(rest), q);
      if w + Fold(rest) > U16_MAX {
        FoldCongruent(w + Fold(rest), w + Fold(rest) - U16_MAX, 1);
      }
    }
  }

  // ----- the accumulator -----

  lemma {:induction false} SumBound(little: bool, b: seq<byte>)
    ensures 2 * WordSum(little, b) <= if |b| % 2 == 0 then |b| * U16_MAX else (|b| - 1) * U16_MAX + 510
  {
    if |b| > 1 {
      SumBound(little, b[2..]);
    }
  }

  function Ones(n: nat): (b: seq<byte>)
    ensures |b| == n
  {
    seq(n, _ => 255)
  }

  lemma {:induction false} OnesOverflow(little: bool, n: nat)
    ensures 2 * WordSum(little, Ones(n)) == if n % 2 == 0 then n * U16_MAX else (n - 1) * U16_MAX + 510
  {
    if n > 1 {
      assert Ones(n)[2..] == Ones(n - 2);
      OnesOverflow(little, n - 2);
    }
  }

  /** A 32-bit accumulator is enough for every buffer of a given size exactly up to 65537 words. */
  lemma AccumulatorBound(little: bool, n: nat)
    ensures (forall b: seq<byte> | |b| == n :: WordSum(little, b) < U32) <==> n <= MAX_SAFE
  {
    if n <= MAX_SAFE {
      forall b: seq<byte> | |b| == n ensures WordSum(little, b) < U32 {
        SumBound(little, b);
      }
    } else {
      OnesOverflow(little, n);
      assert |Ones(n)| == n && WordSum(little, Ones(n)) >= U32;
    }
  }

  lemma SmallRemainder(sum: nat)
    requires sum < U32
    ensures sum % U32 == sum
  {
  }

  lemma NoOverflow(little: bool, b: seq<byte>)
    requires |b| <= MAX_SAFE
    ensures WordSum(little, b) < U32
    ensures Checksum(little, b) == U16_MAX - Fold(WordSum(little, b))
  {
    SumBound(little, b);
    SmallRemainder(WordSum(little, b));
  }

  /** What padding adds to the sum: on big-endian reads the last odd octet moves up to the high half of its word. */
  function TailShift(little: bool, b: seq<byte>): (d: nat)
    ensures d <= 255 * 255
  {
    if |b| % 2 == 0 || little then 0 else 255 * (b[|b| - 1] as int)
  }

  lemma {:induction false} PaddedSum(little: bool, b: seq<byte>)
    ensures WordSum(little, Padded(b)) == WordSum(little, b) + TailShift(little, b)
  {
    if |b| > 1 {
      PaddedSum(little, b[2..]);
      assert Padded(b)[2..] == Padded(b[2..]);
    }
  }

  /** Folding tells two sums apart unless they differ by a multiple of 65535. */
  lemma ShiftedFold(r: nat, d: nat)
    requires d < 2 * U16_MAX
    ensures Fold(r + d) == Fold(r) <==> d == 0 || (d == U16_MAX && r > 0)
  {
    if d > 0 {
      var p := FoldDrops(r + d);
      if r > 0 {
        var q := FoldDrops(r);
        assert Fold(r + d) == Fold(r) ==> d == (p - q) * U16_MAX;
        if d == U16_MAX {
          FoldCongruent(r + d, r, 1);
        }
      }
    }
  }

  /** What the programs miss of the RFC's sum: one for each overflow, and the shift of an odd last octet. */
  function Missed(little: bool, b: seq<byte>): (d: nat) {
    WordSum(little, b) / U32 + TailShift(little, b)
  }

  /**
   * For every buffer whose size is an int, the result is the checksum of RFC 1071 if and only if what is missed is 0,
   * or is 65535 beside a sum that is not 0.
   */
  lemma ChecksumMeetsRfc(little: bool, b: seq<byte>)
    requires |b| <= INT_MAX
    ensures Missed(little, b) < 2 * U16_MAX
    ensures Checksum(little, b) == RfcChecksum(little, b) <==>
            Missed(little, b) == 0 || (Missed(little, b) == U16_MAX && WordSum(little, b) % U32 > 0)
  {
    RfcFold(little, b);
    MissedBound(little, b);
    DroppedCarries(WordSum(little, b), TailShift(little, b));
    ShiftedFold(WordSum(little, b) % U32, Missed(little, b));
  }

  lemma RfcFold(little: bool, b: seq<byte>)
    ensures RfcChecksum(little, b) == U16_MAX - Fold(WordSum(little, b) + TailShift(little, b))
  {
    DeferredCarries(little, Padded(b));
    PaddedSum(little, b);
  }

  lemma MissedBound(little: bool, b: seq<byte>)
    requires |b| <= INT_MAX
    ensures Missed(little, b) < 2 * U16_MAX
  {
    SumBound(little, b);
  }

  /** What the accumulator drops when it overflows counts once for each overflow, seen modulo 65535. */
  lemma DroppedCarries(sum: nat, shift: nat)
    ensures Fold(sum + shift) == Fold(sum % U32 + (sum / U32 + shift))
  {
    var k, r := sum / U32, sum % U32;
    assert sum + shift == (r + (k + shift)) + (k * 65537) * U16_MAX;
    if r + (k + shift) > 0 {
      FoldCongruent(sum + shift, r + (k + shift), k * 65537);
    }
  }

  /** On whole words, or little-endian reads, the accumulator alone decides. */
  lemma WholeWordsMeetRfc(little: bool, b: seq<byte>)
    requires |b| <= INT_MAX && (little || |b| % 2 == 0)
    ensures Checksum(little, b) == RfcChecksum(little, b) <==> WordSum(little, b) < U32
  {
    SumBound(little, b);
    ChecksumMeetsRfc(little, b);
  }

  /** Where nothing overflows, the last odd octet alone decides. */
  lemma OddTail(little: bool, b: seq<byte>)
    requires |b| <= MAX_SAFE
    ensures Checksum(little, b) == RfcChecksum(little, b) <==> little || |b| % 2 == 0 || b[|b| - 1] == 0
  {
    NoOverflow(little, b);
    ChecksumMeetsRfc(little, b);
  }

  /** The result is 65535 exactly for buffers of zeros, on every buffer of a size, exactly up to the safe size. */
  lemma AllOnesChecksum(little: bool, n: nat)
    ensures (forall b: seq<byte> | |b| == n ::
               Checksum(little, b) == U16_MAX <==> forall k :: 0 <= k < |b| ==> b[k] == 0) <==> n <= MAX_SAFE
  {
    if n <= MAX_SAFE {
      forall b: seq<byte> | |b| == n
        ensures Checksum(little, b) == U16_MAX <==> forall k :: 0 <= k < |b| ==> b[k] == 0
      {
        NoOverflow(little, b);
        FoldValue(WordSum(little, b));
        ZeroSum(little, b);
      }
    } else {
      var b := RoundToZero(little, n);
    }
  }

  /** Beyond the safe size some buffer's sum is exactly the accumulator's modulus. */
  lemma RoundToZero(little: bool, n: nat) returns (b: seq<byte>)
    requires n > MAX_SAFE
    ensures |b| == n && b[0] == 255 && Checksum(little, b) == U16_MAX
  {
    var one: seq<byte> := if n == MAX_SAFE + 1 then [1] else if little then [1, 0] else [0, 1];
    var rest := one + Zeros(n - MAX_SAFE - |one|);
    b := Ones(MAX_SAFE) + rest;
    OnesOverflow(little, MAX_SAFE);
    WordSumConcat(little, Ones(MAX_SAFE), rest);
    OneSum(little, one, n - MAX_SAFE - |one|);
    assert WordSum(little, b) == U32;
  }

  lemma OneSum(little: bool, one: seq<byte>, n: nat)
    requires one == (if little then [1, 0] else [0, 1]) || (one == [1] && n == 0)
    ensures WordSum(little, one + Zeros(n)) == 1
  {
    ZeroSum(little, Zeros(n));
    if |one| == 2 {
      WordSumConcat(little, one, Zeros(n));
      assert one[2..] == [];
    } else {
      assert one + Zeros(0) == one;
    }
  }

  lemma {:induction false} ZeroSum(little: bool, b: seq<byte>)
    ensures WordSum(little, b) == 0 <==> forall k :: 0 <= k < |b| ==> b[k] == 0
  {
    if |b| > 1 {
      ZeroSum(little, b[2..]);
      assert forall k {:trigger b[k]} :: 2 <= k < |b| ==> b[k] == b[2..][k - 2];
    }
  }

  // ----- section 2 of RFC 1071 -----

  function Swap(x: nat): nat {
    x % 256 * 256 + x / 256
  }

  /** Swapping the octets of every word multiplies the sum by 256, up to multiples of 65535. */
  lemma {:induction false} SwappedSum(little: bool, b: seq<byte>) returns (k: nat)
    requires |b| % 2 == 0
    ensures 256 * WordSum(little, b) == WordSum(!little, b) + k * U16_MAX
  {
    k := 0;
    if |b| > 1 {
      var rest := SwappedSum(little, b[2..]);
      k := rest + if little then b[1] else b[0];
    }
  }

  /** On an even buffer where nothing overflows the opposite byte order gives exactly the byte-swapped checksum. */
  lemma SwappedChecksum(little: bool, b: seq<byte>)
    requires |b| % 2 == 0 && |b| <= MAX_SAFE
    ensures Checksum(!little, b) == Swap(Checksum(little, b))
  {
    NoOverflow(little, b);
    NoOverflow(!little, b);
    var k := SwappedSum(little, b);
    ZeroSum(little, b);
    ZeroSum(!little, b);
    SwappedFold(WordSum(little, b), WordSum(!little, b), k);
    SwapComplement(Fold(WordSum(little, b)));
  }

  /** One word of ones too many, followed by zeros: the same overflow is lost in either byte order. */
  lemma OverflowedOnes(little: bool, n: nat)
    requires n >= MAX_SAFE + 2
    ensures Checksum(little, Ones(MAX_SAFE + 2) + Zeros(n - MAX_SAFE - 2)) == 1
  {
    OnesOverflow(little, MAX_SAFE + 2);
    WordSumConcat(little, Ones(MAX_SAFE + 2), Zeros(n - MAX_SAFE - 2));
    ZeroSum(little, Zeros(n - MAX_SAFE - 2));
    SmallRemainder(65534);
  }

  /** For every even size: the byte orders give each other's swap on all buffers exactly up to the safe size. */
  lemma ByteOrderIndependence(little: bool, n: nat)
    requires n % 2 == 0
    ensures (forall b: seq<byte> | |b| == n :: Checksum(!little, b) == Swap(Checksum(little, b))) <==> n <= MAX_SAFE
  {
    if n <= MAX_SAFE {
      forall b: seq<byte> | |b| == n ensures Checksum(!little, b) == Swap(Checksum(little, b)) {
        SwappedChecksum(little, b);
      }
    } else {
      OverflowedOnes(little, n);
      OverflowedOnes(!little, n);
      assert Swap(1) == 256;
      assert |Ones(MAX_SAFE + 2) + Zeros(n - MAX_SAFE - 2)| == n;
    }
  }

  lemma SwappedFold(sum: nat, swapped: nat, k: nat)
    requires 256 * sum == swapped + k * U16_MAX && (sum == 0 <==> swapped == 0)
    ensures Fold(swapped) == Swap(Fold(sum))
  {
    if sum > 0 {
      FoldCongruent(256 * sum, swapped, k);
      var q := FoldDrops(sum);
      FoldCongruent(256 * sum, 256 * Fold(sum), 256 * q);
      SwapFolds(Fold(sum));
    }
  }

  lemma SwapFolds(x: nat)
    requires 1 <= x <= U16_MAX
    ensures Fold(256 * x) == Swap(x)
  {
    FoldCongruent(256 * x, Swap(x), x / 256);
  }

  lemma SwapComplement(x: nat)
    requires x <= U16_MAX
    ensures U16_MAX - Swap(x) == Swap(U16_MAX - x)
  {
    var high, low := x / 256, x % 256;
    assert U16_MAX - x == (255 - high) * 256 + (255 - low);
  }

  function Words(little: bool, b: seq<byte>): (ws: seq<nat>) {
    if |b| < 2 then [] else [Word(little, b[0], b[1])] + Words(little, b[2..])
  }

  function SumOf(ws: seq<nat>): nat {
    if ws == [] then 0 else ws[0] + SumOf(ws[1..])
  }

  lemma {:induction false} WordSumIsSumOf(little: bool, b: seq<byte>)
    requires |b| % 2 == 0
    ensures WordSum(little, b) == SumOf(Words(little, b))
  {
    if b != [] {
      WordSumIsSumOf(little, b[2..]);
    }
  }

  /** On big-endian reads the sum of 16-bit fields is the sum of their values. */
  lemma {:induction false} FieldsSum(xs: seq<word>)
    ensures WordSum(false, Fields(xs)) == SumOf(xs)
  {
    if xs != [] {
      var b := Fields(xs);
      assert b[2..] == Fields(xs[1..]);
      assert b[0] == Be16(xs[0])[0] && b[1] == Be16(xs[0])[1];
      FieldsSum(xs[1..]);
    }
  }

  lemma {:induction false} SumOfRemove(ws: seq<nat>, i: nat)
    requires i < |ws|
    ensures SumOf(ws) == ws[i] + SumOf(ws[..i] + ws[i + 1..])
  {
    var rest := ws[..i] + ws[i + 1..];
    if i == 0 {
      assert rest == ws[1..];
    } else {
      assert rest[1..] == ws[1..][..i - 1] + ws[1..][i..];
      SumOfRemove(ws[1..], i - 1);
    }
  }

  lemma {:induction false} SumOfPermuted(v: seq<nat>, w: seq<nat>)
    requires multiset(v) == multiset(w)
    ensures SumOf(v) == SumOf(w)
  {
    if v == [] {
      assert |w| == |multiset(w)| == 0;
    } else {
      assert v[0] in multiset(w);
      var i :| 0 <= i < |w| && w[i] == v[0];
      RemoveSame(v, w, i);
      SumOfPermuted(v[1..], w[..i] + w[i + 1..]);
      SumOfRemove(w, i);
    }
  }

  lemma RemoveSame(v: seq<nat>, w: seq<nat>, i: nat)
    requires v != [] && multiset(v) == multiset(w) && i < |w| && w[i] == v[0]
    ensures multiset(v[1..]) == multiset(w[..i] + w[i + 1..])
  {
    assert v == [v[0]] + v[1..];
    assert w == w[..i] + [w[i]] + w[i + 1..];
    assert multiset(v[1..]) == multiset(v) - multiset{v[0]};
    assert multiset(w[..i] + w[i + 1..]) == multiset(w) - multiset{w[i]};
  }

  /** The order of the words does not matter. */
  lemma WordOrderIndependence(little: bool, a: seq<byte>, b: seq<byte>)
    requires |a| % 2 == 0 && |b| % 2 == 0
    requires multiset(Words(little, a)) == multiset(Words(little, b))
    ensures Checksum(little, a) == Checksum(little, b)
  {
    SumOfPermuted(Words(little, a), Words(little, b));
    WordSumIsSumOf(little, a);
    WordSumIsSumOf(little, b);
  }

  // ----- installing the checksum -----

  /** A field stored on a big-endian host lies in network order, on a little-endian host the other way round. */
  lemma StoreOrder(x: word)
    ensures Store(false, x) == Be16(x) && Store(true, x) == [Be16(x)[1], Be16(x)[0]]
  {
  }

  /** An unsigned short as it lies in memory. */
  function Store(little: bool, x: nat): (s: seq<byte>)
    requires x <= U16_MAX
    ensures |s| == 2 && Word(little, s[0], s[1]) == x
  {
    if little then [x % 256, x / 256] else [x / 256, x % 256]
  }

  lemma {:induction false} WordSumConcat(little: bool, a: seq<byte>, b: seq<byte>)
    requires |a| % 2 == 0
    ensures WordSum(little, a + b) == WordSum(little, a) + WordSum(little, b)
  {
    if a == [] {
      assert a + b == b;
    } else {
      assert (a + b)[2..] == a[2..] + b;
      WordSumConcat(little, a[2..], b);
    }
  }

  /**
   * Writing a packet's checksum into its zero field, on a word boundary, makes the packet's checksum 0, whatever the
   * size: the accumulator's largest value is a multiple of 65535, so filling up to one never overflows it.
   */
  lemma InstalledChecksum(little: bool, head: seq<byte>, tail: seq<byte>)
    requires |head| % 2 == 0
    ensures var c := Checksum(little, head + [0, 0] + tail);
            Checksum(little, head + Store(little, c) + tail) == 0
  {
    var zeroed := head + [0, 0] + tail;
    var c := Checksum(little, zeroed);
    FieldSum(little, head, [0, 0], tail);
    FieldSum(little, head, Store(little, c), tail);
    var sum := WordSum(little, zeroed);
    WrapAdd(sum, c);
    FillFits(sum % U32);
    SmallRemainder(sum % U32 + c);
    FillUp(sum % U32);
  }

  lemma FillFits(r: nat)
    requires r < U32
    ensures r + (U16_MAX - Fold(r)) < U32
  {
    if r > 0 {
      var q := FoldDrops(r);
      assert q < 65537;
    }
  }

  lemma FillUp(sum: nat)
    ensures Fold(sum + (U16_MAX - Fold(sum))) == U16_MAX
  {
    if sum > 0 {
      var q := FoldDrops(sum);
      FoldCongruent(sum + (U16_MAX - Fold(sum)), U16_MAX, q);
    }
  }

  lemma FieldSum(little: bool, head: seq<byte>, field: seq<byte>, tail: seq<byte>)
    requires |head| % 2 == 0 && |field| == 2
    ensures WordSum(little, head + field + tail)
            == WordSum(little, head) + Word(little, field[0], field[1]) + WordSum(little, tail)
  {
    assert head + field + tail == head + (field + tail);
    WordSumConcat(little, head, field + tail);
    WordSumConcat(little, field, tail);
    assert field[2..] == [];
  }
}
