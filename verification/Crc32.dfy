/**
  The checksum that guards GPT headers and partition tables
  (external/gptfdisk/crc32.cc), and what it is able to detect.

  Iteration and folding are written once over an arbitrary register type, so that
  facts about many shifts are proved without unfolding the polynomial; only the
  facts about one shift speak of 32-bit vectors.
 */
module ShiftRegister {

  function Iterate<T>(f: T -> T, c: T, n: nat): T {
    if n == 0 then c else f(Iterate(f, c, n - 1))
  }

  /** Feed one symbol: mix it into the register and shift n times. */
  function Feed<T, B>(step: T -> T, mix: (T, B) -> T, n: nat, c: T, b: B): T {
    Iterate(step, mix(c, b), n)
  }

  function Fold<T, B>(step: T -> T, mix: (T, B) -> T, n: nat, start: T, s: seq<B>): T {
    if s == [] then start
    else Feed(step, mix, n, Fold(step, mix, n, start, s[..|s| - 1]), s[|s| - 1])
  }

  lemma FoldExtends<T, B>(step: T -> T, mix: (T, B) -> T, n: nat, start: T, s: seq<B>, i: nat)
    requires i < |s|
    ensures Fold(step, mix, n, start, s[..i + 1]) == Feed(step, mix, n, Fold(step, mix, n, start, s[..i]), s[i])
  {
    assert s[..i + 1][..i] == s[..i];
  }

  lemma Unroll8<T>(f: T -> T, c: T)
    ensures Iterate(f, c, 8) == f(f(f(f(f(f(f(f(c))))))))
  {
    assert Iterate(f, c, 1) == f(c);
    assert Iterate(f, c, 2) == f(f(c));
    assert Iterate(f, c, 4) == f(f(Iterate(f, c, 2)));
    assert Iterate(f, c, 6) == f(f(Iterate(f, c, 4)));
  }

  ghost predicate Linear<T(!new)>(f: T -> T, op: (T, T) -> T) {
    forall x, y :: f(op(x, y)) == op(f(x), f(y))
  }

  ghost predicate Splits<T(!new)>(op: (T, T) -> T, high: T -> T, low: T -> T) {
    forall x :: op(high(x), low(x)) == x
  }

  ghost predicate MovesDown<T(!new)>(step: T -> T, high: T -> T, down: T -> T, n: nat) {
    forall x :: Iterate(step, high(x), n) == down(x)
  }

  ghost predicate Injective<T(!new)>(f: T -> T) {
    forall x, y :: x != y ==> f(x) != f(y)
  }

  ghost predicate InjectiveInBoth<T(!new), B(!new)>(mix: (T, B) -> T) {
    && (forall c, d, b :: c != d ==> mix(c, b) != mix(d, b))
    && (forall c, a, b :: a != b ==> mix(c, a) != mix(c, b))
  }

  /** Iterating a homomorphism gives a homomorphism. */
  lemma {:induction false} IterateLinear<T(!new)>(f: T -> T, op: (T, T) -> T, a: T, b: T, n: nat)
    requires Linear(f, op)
    ensures Iterate(f, op(a, b), n) == op(Iterate(f, a, n), Iterate(f, b, n))
  {
    if n > 0 {
      IterateLinear(f, op, a, b, n - 1);
    }
  }

  lemma {:induction false} IterateInjective<T(!new)>(f: T -> T, a: T, b: T, n: nat)
    requires Injective(f)
    requires a != b
    ensures Iterate(f, a, n) != Iterate(f, b, n)
  {
    if n > 0 {
      IterateInjective(f, a, b, n - 1);
    }
  }

  /** If the high part of a register only moves down, the shifts of the low part can be looked up. */
  lemma FeedBySplit<T(!new), B>(step: T -> T, mix: (T, B) -> T, op: (T, T) -> T,
                                high: T -> T, low: T -> T, down: T -> T, n: nat, c: T, b: B)
    requires Linear(step, op)
    requires Splits(op, high, low) && MovesDown(step, high, down, n)
    requires down(mix(c, b)) == down(c)
    ensures Feed(step, mix, n, c, b) == op(down(c), Iterate(step, low(mix(c, b)), n))
  {
    IterateLinear(step, op, high(mix(c, b)), low(mix(c, b)), n);
  }

  /** Feeding the same suffix keeps different registers different. */
  lemma {:induction false} SuffixKeepsDifference<T(!new), B(!new)>(
      step: T -> T, mix: (T, B) -> T, n: nat, start: T, s: seq<B>, t: seq<B>, rest: seq<B>)
    requires Injective(step) && InjectiveInBoth(mix)
    requires Fold(step, mix, n, start, s) != Fold(step, mix, n, start, t)
    ensures Fold(step, mix, n, start, s + rest) != Fold(step, mix, n, start, t + rest)
  {
    if rest == [] {
      assert s + rest == s && t + rest == t;
    } else {
      var k := |rest| - 1;
      SuffixKeepsDifference(step, mix, n, start, s, t, rest[..k]);
      assert (s + rest)[..|s + rest| - 1] == s + rest[..k];
      assert (t + rest)[..|t + rest| - 1] == t + rest[..k];
      IterateInjective(step, mix(Fold(step, mix, n, start, s + rest[..k]), rest[k]),
                       mix(Fold(step, mix, n, start, t + rest[..k]), rest[k]), n);
    }
  }

  /** Replacing one symbol always changes the register. */
  lemma OneSymbolDiffers<T(!new), B(!new)>(
      step: T -> T, mix: (T, B) -> T, n: nat, start: T, s: seq<B>, i: nat, b: B)
    requires Injective(step) && InjectiveInBoth(mix)
    requires i < |s| && s[i] != b
    ensures Fold(step, mix, n, start, s[i := b]) != Fold(step, mix, n, start, s)
  {
    var t := s[i := b];
    assert s == s[..i + 1] + s[i + 1..];
    assert t == t[..i + 1] + s[i + 1..];
    assert s[..i + 1][..i] == s[..i] == t[..i + 1][..i];
    var c := Fold(step, mix, n, start, s[..i]);
    IterateInjective(step, mix(c, s[i]), mix(c, b), n);
    SuffixKeepsDifference(step, mix, n, start, s[..i + 1], t[..i + 1], s[i + 1..]);
  }
}

module Crc32 {
  import opened ShiftRegister

  const POLY: bv32 := 0xEDB88320
  const ONES: bv32 := 0xFFFFFFFF

  // ----- reference: the bit-at-a-time reflected CRC (section 8 of RFC 1952) -----

  /** One shift of the register. */
  function Step(c: bv32): bv32 {
    if c & 1 == 1 then (c >> 1) ^ POLY else c >> 1
  }

  function Mix(c: bv32, b: bv8): bv32 {
    c ^ b as bv32
  }

  function Crc(s: seq<bv8>): bv32 {
    Fold(Step, Mix, 8, ONES, s) ^ ONES
  }

  /** The place of a power of x in the register, which holds the highest power lowest. */
  function Power(e: nat): bv32
    requires e < 32
  {
    1 << (31 - e)
  }

  /** The polynomial of section 8 of RFC 1952, without its highest power. */
  lemma PolynomialIs()
    ensures POLY == Power(26) | Power(23) | Power(22) | Power(16) | Power(12) | Power(11) | Power(10) | Power(8) | Power(7) | Power(5)
                    | Power(4) | Power(2) | Power(1) | Power(0)
  {}

  /** Eight shifts written out. */
  function Eight(c: bv32, b: bv8): bv32 {
    Step(Step(Step(Step(Step(Step(Step(Step(Mix(c, b)))))))))
  }

  lemma FoldOn(s: seq<bv8>, b: bv8, c: bv32)
    requires Fold(Step, Mix, 8, ONES, s) == c
    ensures Fold(Step, Mix, 8, ONES, s + [b]) == Eight(c, b)
  {
    assert (s + [b])[..|s|] == s;
    Unroll8(Step, Mix(c, b));
  }

  lemma EightOnDigits()
    ensures Eight(ONES, 0x31) == 0x7C231048
    ensures Eight(0x7C231048, 0x32) == 0xB0ACBB32
    ensures Eight(0xB0ACBB32, 0x33) == 0x77B79C2D
    ensures Eight(0x77B79C2D, 0x34) == 0x641C1F5C
    ensures Eight(0x641C1F5C, 0x35) == 0x340AC5E3
    ensures Eight(0x340AC5E3, 0x36) == 0xF68D2C9E
    ensures Eight(0xF68D2C9E, 0x37) == 0xAFFC9660
    ensures Eight(0xAFFC9660, 0x38) == 0x651F2550
    ensures Eight(0x651F2550, 0x39) == 0x340BC6D9
  {}

  lemma HalfCheck()
    ensures Fold(Step, Mix, 8, ONES, [0x31, 0x32, 0x33, 0x34]) == 0x641C1F5C
  {
    EightOnDigits();
    var s0: seq<bv8> := [];
    FoldOn(s0, 0x31, ONES);
    var s1 := s0 + [0x31];
    FoldOn(s1, 0x32, 0x7C231048);
    var s2 := s1 + [0x32];
    FoldOn(s2, 0x33, 0xB0ACBB32);
    var s3 := s2 + [0x33];
    FoldOn(s3, 0x34, 0x77B79C2D);
    var s4 := s3 + [0x34];
    assert s4 == [0x31, 0x32, 0x33, 0x34];
  }

  /** The usual test of a CRC: the digits from 1 to 9. */
  lemma CheckValue()
    ensures Crc([0x31, 0x32, 0x33, 0x34, 0x35, 0x36, 0x37, 0x38, 0x39]) == 0xCBF43926
  {
    HalfCheck();
    EightOnDigits();
    var s4: seq<bv8> := [0x31, 0x32, 0x33, 0x34];
    FoldOn(s4, 0x35, 0x641C1F5C);
    var s5 := s4 + [0x35];
    FoldOn(s5, 0x36, 0x340AC5E3);
    var s6 := s5 + [0x36];
    FoldOn(s6, 0x37, 0xF68D2C9E);
    var s7 := s6 + [0x37];
    FoldOn(s7, 0x38, 0xAFFC9660);
    var s8 := s7 + [0x38];
    FoldOn(s8, 0x39, 0x651F2550);
    var s9 := s8 + [0x39];
    assert s9 == [0x31, 0x32, 0x33, 0x34, 0x35, 0x36, 0x37, 0x38, 0x39];
  }

  // ----- the table-driven implementation -----

  function Entry(tab: seq<bv32>, x: bv8): bv32
    requires |tab| == 256
  {
    tab[x as int]
  }

  function Widen(x: bv8): bv32 {
    x as bv32
  }

  ghost predicate IsTable(tab: seq<bv32>, step: bv32 -> bv32, n: nat) {
    |tab| == 256 && forall x: bv8 :: Entry(tab, x) == Iterate(step, Widen(x), n)
  }

  function EightSteps(k: int): bv32
    requires 0 <= k < 256
  {
    Iterate(Step, Widen(k as bv8), 8)
  }

  /** chksum_crc32gentab: eight shifts for each index. */
  method GenerateTable() returns (tab: array<bv32>)
    ensures fresh(tab) && IsTable(tab[..], Step, 8)
  {
    tab := new bv32[256];
    for i := 0 to 256
      invariant tab[..i] == FirstEntries(i)
    {
      tab[i] := ShiftEight(Widen(i as bv8));
      assert tab[..i + 1] == tab[..i] + [tab[i]];
    }
    assert tab[..] == tab[..256];
    EntriesAreTable();
  }

  function FirstEntries(n: nat): (s: seq<bv32>)
    requires n <= 256
    ensures |s| == n
  {
    if n == 0 then [] else FirstEntries(n - 1) + [EightSteps(n - 1)]
  }

  lemma {:induction false} EntryAt(n: nat, k: nat)
    requires k < n <= 256
    ensures FirstEntries(n)[k] == EightSteps(k)
  {
    if k < n - 1 {
      EntryAt(n - 1, k);
    }
  }

  lemma EntriesAreTable()
    ensures IsTable(FirstEntries(256), Step, 8)
  {
    forall x: bv8 ensures Entry(FirstEntries(256), x) == Iterate(Step, Widen(x), 8) {
      ByteOfBits(x);
      EntryAt(256, x as int);
    }
  }

  method ShiftEight(c: bv32) returns (crc: bv32)
    ensures crc == Iterate(Step, c, 8)
  {
    crc := c;
    for j := 0 to 8
      invariant crc == Iterate(Step, c, j)
    {
      if crc & 1 == 1 {
        crc := (crc >> 1) ^ POLY;
      } else {
        crc := crc >> 1;
      }
    }
  }

  lemma ByteOfBits(x: bv8)
    ensures (x as int) as bv8 == x
  {}

  function Xor(a: bv32, b: bv32): bv32 { a ^ b }

  function High(c: bv32): bv32 { c & 0xFFFFFF00 }

  function Down(c: bv32): bv32 { (c >> 8) & 0x00FFFFFF }

  function LowByte(c: bv32): bv8 { (c & 0xFF) as bv8 }

  /** chksum_crc32: one table look-up for each byte gives the reference CRC. */
  method Checksum(tab: array<bv32>, block: seq<bv8>) returns (r: bv32)
    requires IsTable(tab[..], Step, 8)
    ensures r == Crc(block)
  {
    var crc := ONES;
    for i := 0 to |block|
      invariant crc == Fold(Step, Mix, 8, ONES, block[..i])
    {
      FoldExtends(Step, Mix, 8, ONES, block, i);
      FeedStepByTable(tab[..], crc, block[i]);
      crc := Xor(Down(crc), Entry(tab[..], LowByte(Mix(crc, block[i]))));
    }
    assert block[..|block|] == block;
    r := crc ^ ONES;
  }

  // ----- one shift is linear, and eight shifts of an aligned word just move it -----

  lemma Parity(a: bv32, b: bv32)
    ensures (a ^ b) & 1 == (a & 1) ^ (b & 1) && (a ^ b) >> 1 == (a >> 1) ^ (b >> 1)
    ensures (a & 1 == 0 || a & 1 == 1) && (b & 1 == 0 || b & 1 == 1)
  {}

  lemma XorCancel(p: bv32, q: bv32, k: bv32)
    ensures (p ^ k) ^ (q ^ k) == p ^ q && (p ^ k) ^ q == (p ^ q) ^ k && p ^ (q ^ k) == (p ^ q) ^ k
  {}

  lemma StepXor(a: bv32, b: bv32)
    ensures Step(a ^ b) == Step(a) ^ Step(b)
  {
    Parity(a, b);
    XorCancel(a >> 1, b >> 1, POLY);
  }

  lemma StepIsLinear()
    ensures Linear(Step, Xor)
  {
    forall p, q ensures Step(Xor(p, q)) == Xor(Step(p), Step(q)) { StepXor(p, q); }
  }

  lemma ShiftHigh(c: bv32)
    ensures Step(Step(Step(Step(Step(Step(Step(Step(High(c))))))))) == Down(c)
  {}

  function LowWord(c: bv32): bv32 { Widen(LowByte(c)) }

  lemma SplitWord(c: bv32)
    ensures (c & 0xFFFFFF00) ^ ((c & 0xFF) as bv8 as bv32) == c
  {}

  lemma WordsSplit()
    ensures Splits(Xor, High, LowWord)
  {
    forall c ensures Xor(High(c), LowWord(c)) == c { SplitWord(c); }
  }

  lemma HighMovesDown()
    ensures MovesDown(Step, High, Down, 8)
  {
    forall c ensures Iterate(Step, High(c), 8) == Down(c) {
      Unroll8(Step, High(c));
      ShiftHigh(c);
    }
  }

  lemma DownForgetsLowByte(c: bv32, b: bv8)
    ensures Down(Mix(c, b)) == Down(c)
  {}

  /** The look-up step of the loop equals feeding the byte bit by bit. */
  lemma FeedByTable(step: bv32 -> bv32, n: nat, tab: seq<bv32>, c: bv32, b: bv8)
    requires Linear(step, Xor) && Splits(Xor, High, LowWord) && MovesDown(step, High, Down, n)
    requires IsTable(tab, step, n)
    ensures Feed(step, Mix, n, c, b) == Xor(Down(c), Entry(tab, LowByte(Mix(c, b))))
  {
    DownForgetsLowByte(c, b);
    FeedBySplit(step, Mix, Xor, High, LowWord, Down, n, c, b);
  }

  lemma FeedStepByTable(tab: seq<bv32>, c: bv32, b: bv8)
    requires IsTable(tab, Step, 8)
    ensures Feed(Step, Mix, 8, c, b) == Xor(Down(c), Entry(tab, LowByte(Mix(c, b))))
  {
    StepIsLinear();
    WordsSplit();
    HighMovesDown();
    FeedByTable(Step, 8, tab, c, b);
  }

  // ----- what the checksum detects -----

  lemma StepUndone(a: bv32)
    ensures Step(a) & 0x80000000 == (if a & 1 == 1 then 0x80000000 else 0)
    ensures a & 1 == 1 ==> ((Step(a) ^ POLY) << 1) | 1 == a
    ensures a & 1 == 0 ==> Step(a) << 1 == a
  {}

  lemma StepIsInjective()
    ensures Injective(Step)
  {
    forall x, y | x != y ensures Step(x) != Step(y) {
      StepDiffers(x, y);
    }
  }

  lemma StepDiffers(x: bv32, y: bv32)
    requires x != y
    ensures Step(x) != Step(y)
  {
    StepUndone(x);
    StepUndone(y);
    Parity(x, y);
  }

  lemma MixIsInjective()
    ensures InjectiveInBoth(Mix)
  {}

  lemma XorInjective(a: bv32, b: bv32, c: bv32)
    requires a != b
    ensures a ^ c != b ^ c
  {}

  /** Replacing any one byte of any block always changes the checksum. */
  lemma OneByteDetected(s: seq<bv8>, i: nat, b: bv8)
    requires i < |s| && s[i] != b
    ensures Crc(s[i := b]) != Crc(s)
  {
    StepIsInjective();
    MixIsInjective();
    OneSymbolDiffers(Step, Mix, 8, ONES, s, i, b);
    XorInjective(Fold(Step, Mix, 8, ONES, s[i := b]), Fold(Step, Mix, 8, ONES, s), ONES);
  }

  // ----- the same checksum on bytes held as integers 0..255, as a number -----

  type Byte = x: int | 0 <= x < 256
  type Bytes = seq<Byte>
  type U32 = x: int | 0 <= x < 0x1_0000_0000

  const NIBBLES: seq<bv8> := [0, 1, 2, 3, 4, 5, 6, 7, 8, 9, 10, 11, 12, 13, 14, 15]

  function BitsOf(b: Byte): bv8 {
    (NIBBLES[b / 16] << 4) | NIBBLES[b % 16]
  }

  function Bits(s: Bytes): seq<bv8> {
    seq(|s|, i requires 0 <= i < |s| => BitsOf(s[i]))
  }

  function Checksum32(s: Bytes): U32 {
    Crc(Bits(s)) as int
  }

  lemma NibblesDistinct()
    ensures forall i, j :: 0 <= i < j < 16 ==> NIBBLES[i] != NIBBLES[j]
    ensures forall i :: 0 <= i < 16 ==> NIBBLES[i] < 16
  {}

  lemma JoinInjective(a: bv8, b: bv8, c: bv8, d: bv8)
    requires a < 16 && b < 16 && c < 16 && d < 16
    requires a != c || b != d
    ensures (a << 4) | b != (c << 4) | d
  {}

  lemma BitsOfInjective(a: Byte, b: Byte)
    requires a != b
    ensures BitsOf(a) != BitsOf(b)
  {
    NibblesDistinct();
    assert a / 16 != b / 16 || a % 16 != b % 16;
    JoinInjective(NIBBLES[a / 16], NIBBLES[a % 16], NIBBLES[b / 16], NIBBLES[b % 16]);
  }

  lemma WordOfBits(x: bv32)
    ensures (x as int) as bv32 == x
  {}

  /** Replacing any one byte of any block always changes the checksum, on integer bytes. */
  lemma OneByteChangesChecksum(s: Bytes, i: nat, b: Byte)
    requires i < |s| && s[i] != b
    ensures Checksum32(s[i := b]) != Checksum32(s)
  {
    BitsOfInjective(s[i], b);
    assert Bits(s[i := b]) == Bits(s)[i := BitsOf(b)];
    OneByteDetected(Bits(s), i, BitsOf(b));
    WordOfBits(Crc(Bits(s)));
    WordOfBits(Crc(Bits(s[i := b])));
  }
}
