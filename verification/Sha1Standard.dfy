/** SHA-1 against the standard: the rotations as arithmetic on numbers, the length field as a number,
    and the digest of "abc", which is the first test of RFC 3174, section 7.3. */
module Sha1Standard {
  import opened Arithmetic
  import opened Words
  import opened Sha1

  // ------------------------------------------------------------------
  // S^n(X) = (X << n) OR (X >> 32-n), section 3 of RFC 3174

  /** Rotating by 1 moves the upper bit to the lower end. */
  lemma Rotl1Is(x: word)
    ensures Rotl1(x) as nat == 2 * (x as nat) % 0x1_0000_0000 + (x as nat) / 0x8000_0000
  {
    var high, low := Rotl1Parts(x);
    Rotated(x as nat, 2, 0x8000_0000, high, low);
  }

  function Upper1(x: word): bv1 { (x >> 31) as bv1 }

  function Lower31(x: word): bv31 { (x & 0x7FFF_FFFF) as bv31 }

  lemma Rotl1Parts(x: word) returns (high: nat, low: nat)
    ensures high < 2 && low < 0x8000_0000
    ensures x as nat == 0x8000_0000 * high + low && Rotl1(x) as nat == 2 * low + high
  {
    var h, l := Rotl1Bits(x);
    Rotl1Values(h, l);
    high, low := h as nat, l as nat;
  }

  lemma Rotl1Bits(x: word) returns (h: bv1, l: bv31)
    ensures x == ((h as word) << 31) | (l as word) && Rotl1(x) == ((l as word) << 1) | (h as word)
  {
    h, l := Upper1(x), Lower31(x);
  }

  lemma Rotl1Values(h: bv1, l: bv31)
    ensures (((h as word) << 31) | (l as word)) as nat == 0x8000_0000 * (h as nat) + l as nat
    ensures (((l as word) << 1) | (h as word)) as nat == 2 * (l as nat) + h as nat
    ensures h as nat < 2 && l as nat < 0x8000_0000
  {
  }

  /** Rotating by 5 moves the upper 5 bits to the lower end. */
  lemma Rotl5Is(x: word)
    ensures Rotl5(x) as nat == 0x20 * (x as nat) % 0x1_0000_0000 + (x as nat) / 0x800_0000
  {
    var high, low := Rotl5Parts(x);
    Rotated(x as nat, 0x20, 0x800_0000, high, low);
  }

  function Upper5(x: word): bv5 { (x >> 27) as bv5 }

  function Lower27(x: word): bv27 { (x & 0x7FF_FFFF) as bv27 }

  lemma Rotl5Parts(x: word) returns (high: nat, low: nat)
    ensures high < 0x20 && low < 0x800_0000
    ensures x as nat == 0x800_0000 * high + low && Rotl5(x) as nat == 0x20 * low + high
  {
    var h, l := Rotl5Bits(x);
    Rotl5Values(h, l);
    high, low := h as nat, l as nat;
  }

  lemma Rotl5Bits(x: word) returns (h: bv5, l: bv27)
    ensures x == ((h as word) << 27) | (l as word) && Rotl5(x) == ((l as word) << 5) | (h as word)
  {
    h, l := Upper5(x), Lower27(x);
  }

  lemma Rotl5Values(h: bv5, l: bv27)
    ensures (((h as word) << 27) | (l as word)) as nat == 0x800_0000 * (h as nat) + l as nat
    ensures (((l as word) << 5) | (h as word)) as nat == 0x20 * (l as nat) + h as nat
    ensures h as nat < 0x20 && l as nat < 0x800_0000
  {
  }

  /** Rotating by 30 moves the upper 30 bits to the lower end. */
  lemma Rotl30Is(x: word)
    ensures Rotl30(x) as nat == 0x4000_0000 * (x as nat) % 0x1_0000_0000 + (x as nat) / 4
  {
    var high, low := Rotl30Parts(x);
    Rotated(x as nat, 0x4000_0000, 4, high, low);
  }

  function Upper30(x: word): bv30 { (x >> 2) as bv30 }

  function Lower2(x: word): bv2 { (x & 3) as bv2 }

  lemma Rotl30Parts(x: word) returns (high: nat, low: nat)
    ensures high < 0x4000_0000 && low < 4
    ensures x as nat == 4 * high + low && Rotl30(x) as nat == 0x4000_0000 * low + high
  {
    var h, l := Rotl30Bits(x);
    Rotl30Values(h, l);
    high, low := h as nat, l as nat;
  }

  lemma Rotl30Bits(x: word) returns (h: bv30, l: bv2)
    ensures x == ((h as word) << 2) | (l as word) && Rotl30(x) == ((l as word) << 30) | (h as word)
  {
    h, l := Upper30(x), Lower2(x);
  }

  lemma Rotl30Values(h: bv30, l: bv2)
    ensures (((h as word) << 2) | (l as word)) as nat == 4 * (h as nat) + l as nat
    ensures (((l as word) << 30) | (h as word)) as nat == 0x4000_0000 * (l as nat) + h as nat
    ensures h as nat < 0x4000_0000 && l as nat < 4
  {
  }

  lemma Rotated(x: nat, a: nat, b: nat, high: nat, low: nat)
    requires a > 0 && b > 0 && a * b == 0x1_0000_0000 && high < a && low < b && x == b * high + low
    ensures a * x % 0x1_0000_0000 + x / b == a * low + high
  {
    Quotient(x, b, high, low);
    Distribute(a, b * high, low);
    MulMono(low + 1, b, a);
    assert a * (b * high) == high * 0x1_0000_0000;
    Quotient(a * x, 0x1_0000_0000, high, a * low);
  }

  // ------------------------------------------------------------------
  // The schedule of "abc": the words W(0) to W(79)

  ghost predicate WordsTo15(b: seq<word>)
    requires |b| == 16
  {
    && W(b, 0) == 0x61626380 && W(b, 1) == 0x00000000 && W(b, 2) == 0x00000000 && W(b, 3) == 0x00000000
    && W(b, 4) == 0x00000000 && W(b, 5) == 0x00000000 && W(b, 6) == 0x00000000 && W(b, 7) == 0x00000000
    && W(b, 8) == 0x00000000 && W(b, 9) == 0x00000000 && W(b, 10) == 0x00000000 && W(b, 11) == 0x00000000
    && W(b, 12) == 0x00000000 && W(b, 13) == 0x00000000 && W(b, 14) == 0x00000000 && W(b, 15) == 0x00000018
  }

  ghost predicate WordsTo31(b: seq<word>)
    requires |b| == 16
  {
    && W(b, 16) == 0xC2C4C700 && W(b, 17) == 0x00000000 && W(b, 18) == 0x00000030 && W(b, 19) == 0x85898E01
    && W(b, 20) == 0x00000000 && W(b, 21) == 0x00000060 && W(b, 22) == 0x0B131C03 && W(b, 23) == 0x00000030
    && W(b, 24) == 0x85898EC1 && W(b, 25) == 0x16263806 && W(b, 26) == 0x00000000 && W(b, 27) == 0x00000180
    && W(b, 28) == 0x2C4C700C && W(b, 29) == 0x000000F0 && W(b, 30) == 0x93AFB507 && W(b, 31) == 0x5898E048
  }

  ghost predicate WordsTo47(b: seq<word>)
    requires |b| == 16
  {
    && W(b, 32) == 0x8E9A9202 && W(b, 33) == 0x00000600 && W(b, 34) == 0xB131C0F0 && W(b, 35) == 0x16263BC6
    && W(b, 36) == 0x4EBED41E && W(b, 37) == 0x626380A1 && W(b, 38) == 0x16263806 && W(b, 39) == 0x000018C0
    && W(b, 40) == 0xD2E138C4 && W(b, 41) == 0x00000F00 && W(b, 42) == 0x3AFB5079 && W(b, 43) == 0x898E04E5
    && W(b, 44) == 0xE2BA3C2B && W(b, 45) == 0x000060C0 && W(b, 46) == 0x053A37CD && W(b, 47) == 0x74458547
  }

  ghost predicate WordsTo63(b: seq<word>)
    requires |b| == 16
  {
    && W(b, 48) == 0xDA9415ED && W(b, 49) == 0x26380A16 && W(b, 50) == 0x626383A1 && W(b, 51) == 0x4EBF54DE
    && W(b, 52) == 0x3835B44B && W(b, 53) == 0x0000F600 && W(b, 54) == 0x1E84C7A3 && W(b, 55) == 0x98E04D98
    && W(b, 56) == 0x651D16A0 && W(b, 57) == 0x62658CA1 && W(b, 58) == 0x458544D6 && W(b, 59) == 0x44584CB7
    && W(b, 60) == 0x7BA06619 && W(b, 61) == 0x6380AEA2 && W(b, 62) == 0x0AE55269 && W(b, 63) == 0x627B49A1
  }

  ghost predicate WordsTo79(b: seq<word>)
    requires |b| == 16
  {
    && W(b, 64) == 0x7CD45C9D && W(b, 65) == 0x000F0000 && W(b, 66) == 0xFB50753A && W(b, 67) == 0xEC6765E8
    && W(b, 68) == 0xBA3C2BE2 && W(b, 69) == 0x0060C000 && W(b, 70) == 0x3A37CD05 && W(b, 71) == 0x458546F4
    && W(b, 72) == 0xB8599DD6 && W(b, 73) == 0x380A1A26 && W(b, 74) == 0x01E02203 && W(b, 75) == 0xE7CC3456
    && W(b, 76) == 0xE6E60B69 && W(b, 77) == 0x00F60A00 && W(b, 78) == 0x5795EF4F && W(b, 79) == 0x822E0879
  }

  lemma Expand16(b: seq<word>)
    requires |b| == 16 && WordsTo15(b)
    ensures WordsTo31(b)
  {
  }

  lemma Expand32(b: seq<word>)
    requires |b| == 16 && WordsTo31(b)
    ensures WordsTo47(b)
  {
  }

  lemma Expand48(b: seq<word>)
    requires |b| == 16 && WordsTo47(b)
    ensures WordsTo63(b)
  {
  }

  lemma Expand64(b: seq<word>)
    requires |b| == 16 && WordsTo63(b)
    ensures WordsTo79(b)
  {
  }

  // ------------------------------------------------------------------
  // The rounds of "abc"

  ghost function FourMore(s: State, t: nat, w0: word, w1: word, w2: word, w3: word): State {
    Round(Round(Round(Round(s, t, w0), t + 1, w1), t + 2, w2), t + 3, w3)
  }

  ghost function After(b: seq<word>, t: nat): State
    requires |b| == 16 && t <= ROUNDS
  {
    Rounds(INITIAL, Schedule(b), t)
  }

  lemma FourRounds(b: seq<word>, t: nat)
    requires |b| == 16 && t + 4 <= ROUNDS
    ensures After(b, t + 4)
         == FourMore(After(b, t), t, W(b, t), W(b, t + 1), W(b, t + 2), W(b, t + 3))
  {
    var w := Schedule(b);
    assert Rounds(INITIAL, w, t + 1) == Round(Rounds(INITIAL, w, t), t, w[t]);
    assert Rounds(INITIAL, w, t + 2) == Round(Rounds(INITIAL, w, t + 1), t + 1, w[t + 1]);
    assert Rounds(INITIAL, w, t + 3) == Round(Rounds(INITIAL, w, t + 2), t + 2, w[t + 2]);
  }

  lemma Rounds4(b: seq<word>)
    requires |b| == 16 && WordsTo15(b)
    ensures After(b, 4) == State(0xCDD8E11B, 0xA1390F08, 0x626414DB, 0xC045BF0C, 0x59D148C0)
  {
    FourRounds(b, 0);
  }

  lemma Rounds8(b: seq<word>)
    requires |b| == 16 && WordsTo15(b)
    requires After(b, 4) == State(0xCDD8E11B, 0xA1390F08, 0x626414DB, 0xC045BF0C, 0x59D148C0)
    ensures After(b, 8) == State(0x9E8C07D4, 0x993E30C1, 0x0FF1F290, 0xB3F52677, 0xF3763846)
  {
    FourRounds(b, 4);
  }

  lemma Rounds16(b: seq<word>)
    requires |b| == 16 && WordsTo15(b)
    requires After(b, 8) == State(0x9E8C07D4, 0x993E30C1, 0x0FF1F290, 0xB3F52677, 0xF3763846)
    ensures After(b, 16) == State(0x20BDD62F, 0x196BEE77, 0x644A3DA5, 0x1181ED99, 0x18C623F9)
  {
    FourRounds(b, 8);
    FourRounds(b, 12);
  }

  lemma Rounds24(b: seq<word>)
    requires |b| == 16 && WordsTo31(b)
    requires After(b, 16) == State(0x20BDD62F, 0x196BEE77, 0x644A3DA5, 0x1181ED99, 0x18C623F9)
    ensures After(b, 24) == State(0xD541F12D, 0x21283486, 0x0CE88EFF, 0x868DEC32, 0x7F67875F)
  {
    FourRounds(b, 16);
    FourRounds(b, 20);
  }

  lemma Rounds32(b: seq<word>)
    requires |b| == 16 && WordsTo31(b)
    requires After(b, 24) == State(0xD541F12D, 0x21283486, 0x0CE88EFF, 0x868DEC32, 0x7F67875F)
    ensures After(b, 32) == State(0x3B845D33, 0x1267B407, 0x717EEBD7, 0xA0DC2D4B, 0xD2AA1365)
  {
    FourRounds(b, 24);
    FourRounds(b, 28);
  }

  lemma Rounds40(b: seq<word>)
    requires |b| == 16 && WordsTo47(b)
    requires After(b, 32) == State(0x3B845D33, 0x1267B407, 0x717EEBD7, 0xA0DC2D4B, 0xD2AA1365)
    ensures After(b, 40) == State(0x32DE1CBA, 0x4C986405, 0xF718E5CF, 0x03D447F6, 0xF72EEC32)
  {
    FourRounds(b, 32);
    FourRounds(b, 36);
  }

  lemma Rounds48(b: seq<word>)
    requires |b| == 16 && WordsTo47(b)
    requires After(b, 40) == State(0x32DE1CBA, 0x4C986405, 0xF718E5CF, 0x03D447F6, 0xF72EEC32)
    ensures After(b, 48) == State(0xBEAD02CA, 0xA01B846C, 0x8714787C, 0x503CA382, 0xFB86C6AB)
  {
    FourRounds(b, 40);
    FourRounds(b, 44);
  }

  lemma Rounds56(b: seq<word>)
    requires |b| == 16 && WordsTo63(b)
    requires After(b, 48) == State(0xBEAD02CA, 0xA01B846C, 0x8714787C, 0x503CA382, 0xFB86C6AB)
    ensures After(b, 56) == State(0x5E6456AF, 0x7B71F76D, 0x09FA7C76, 0x792410DB, 0x8E11EB59)
  {
    FourRounds(b, 48);
    FourRounds(b, 52);
  }

  lemma Rounds64(b: seq<word>)
    requires |b| == 16 && WordsTo63(b)
    requires After(b, 56) == State(0x5E6456AF, 0x7B71F76D, 0x09FA7C76, 0x792410DB, 0x8E11EB59)
    ensures After(b, 64) == State(0x6B61C9E1, 0xB66C020B, 0x9523272C, 0xF5D5B051, 0x8FD4B796)
  {
    FourRounds(b, 56);
    FourRounds(b, 60);
  }

  lemma Rounds72(b: seq<word>)
    requires |b| == 16 && WordsTo79(b)
    requires After(b, 64) == State(0x6B61C9E1, 0xB66C020B, 0x9523272C, 0xF5D5B051, 0x8FD4B796)
    ensures After(b, 72) == State(0x39859DE7, 0xC199F8C7, 0x8FC96230, 0x125C24F0, 0xDE37534A)
  {
    FourRounds(b, 64);
    FourRounds(b, 68);
  }

  lemma Rounds80(b: seq<word>)
    requires |b| == 16 && WordsTo79(b)
    requires After(b, 72) == State(0x39859DE7, 0xC199F8C7, 0x8FC96230, 0x125C24F0, 0xDE37534A)
    ensures After(b, 80) == State(0x42541B35, 0x5738D5E1, 0x21834873, 0x681E6DF6, 0xD8FDF6AD)
  {
    FourRounds(b, 72);
    FourRounds(b, 76);
  }

  // ------------------------------------------------------------------
  // The digest of "abc"

  const ABC: seq<byte> := [0x61, 0x62, 0x63]

  lemma AbcPadded()
    ensures var b := Padded(ABC);
            && |b| == BLOCK_BYTES && b[0] == 0x61 && b[1] == 0x62 && b[2] == 0x63 && b[3] == 0x80
            && (forall i :: 4 <= i < 63 ==> b[i] == 0) && b[63] == 0x18
  {
    var b, n := Padded(ABC), LengthBytes(24);
    assert PadZeros(3) == 52;
    assert b == ABC + [0x80] + Zeros(52) + n;
    forall i | 0 <= i < 8 ensures n[i] == if i < 7 then 0 else 0x18 {
      AbcLength(i);
    }
    assert forall i :: 56 <= i < 64 ==> b[i] == n[i - 56];
  }

  lemma AbcLength(i: nat)
    requires i < 8
    ensures LengthByte(24, i) == if i < 7 then 0 else 0x18
  {
    var digit := 24 / PlaceValue(i) % 256;
    if i < 7 {
      assert digit == 0;
    } else {
      assert digit == 24;
    }
  }

  lemma AbcWords(block: seq<word>)
    requires |Padded(ABC)| == BLOCK_BYTES && block == BlockWords(Padded(ABC))
    ensures block[0] == 0x61626380 && block[15] == 0x18
    ensures forall t :: 1 <= t < 15 ==> block[t] == 0
  {
    AbcPadded();
    assert WordOf(0x61, 0x62, 0x63, 0x80) == 0x61626380;
    assert WordOf(0, 0, 0, 0x18) == 0x18;
    assert WordOf(0, 0, 0, 0) == 0;
  }

  lemma AbcCompressed(block: seq<word>)
    requires |block| == 16 && WordsTo15(block)
    ensures Compress(INITIAL, block) == State(0xA9993E36, 0x4706816A, 0xBA3E2571, 0x7850C26C, 0x9CD0D89D)
  {
    Expand16(block);
    Expand32(block);
    Expand48(block);
    Expand64(block);
    Rounds4(block);
    Rounds8(block);
    Rounds16(block);
    Rounds24(block);
    Rounds32(block);
    Rounds40(block);
    Rounds48(block);
    Rounds56(block);
    Rounds64(block);
    Rounds72(block);
    Rounds80(block);
  }

  lemma AbcHash(message: seq<byte>)
    requires message == ABC
    ensures Hash(Padded(message)) == State(0xA9993E36, 0x4706816A, 0xBA3E2571, 0x7850C26C, 0x9CD0D89D)
  {
    AbcPadded();
    var padded := Padded(message);
    AbcWords(BlockWords(padded));
    AbcCompressed(BlockWords(padded));
    HashAppend([], padded);
    assert [] + padded == padded;
  }

  lemma NextWord(s: State, n: nat)
    requires n < 5
    ensures FirstBytes(s, n + 1) == FirstBytes(s, n) + WordBytes(WordAtIndex(s, n))
  {
  }

  /** The digest is the five words one after another. */
  lemma FiveWords(s: State, n: nat)
    requires n == 5
    ensures FirstBytes(s, n) == WordBytes(s.a) + WordBytes(s.b) + WordBytes(s.c) + WordBytes(s.d) + WordBytes(s.e)
  {
    NextWord(s, n - 5);
    NextWord(s, n - 4);
    NextWord(s, n - 3);
    NextWord(s, n - 2);
    NextWord(s, n - 1);
  }

  lemma AbcBytes()
    ensures WordBytes(0xA9993E36) == [0xA9, 0x99, 0x3E, 0x36]
    ensures WordBytes(0x4706816A) == [0x47, 0x06, 0x81, 0x6A]
    ensures WordBytes(0xBA3E2571) == [0xBA, 0x3E, 0x25, 0x71]
    ensures WordBytes(0x7850C26C) == [0x78, 0x50, 0xC2, 0x6C]
    ensures WordBytes(0x9CD0D89D) == [0x9C, 0xD0, 0xD8, 0x9D]
  {
  }

  /** The standard's own example: the digest of "abc". */
  lemma AbcDigest(message: seq<byte>)
    requires message == [0x61, 0x62, 0x63]
    ensures Digest(message)
         == [0xA9, 0x99, 0x3E, 0x36] + [0x47, 0x06, 0x81, 0x6A] + [0xBA, 0x3E, 0x25, 0x71]
            + [0x78, 0x50, 0xC2, 0x6C] + [0x9C, 0xD0, 0xD8, 0x9D]
  {
    AbcHash(message);
    FiveWords(Hash(Padded(message)), 5);
    AbcBytes();
  }

  // ------------------------------------------------------------------
  // The length field

  /** The number whose bytes these are, most significant first. */
  function Value(bytes: seq<byte>): nat {
    if bytes == [] then 0 else 256 * Value(bytes[..|bytes| - 1]) + bytes[|bytes| - 1] as nat
  }

  /** 256 to the power of k */
  function Places(k: nat): (r: nat)
    ensures r > 0
  {
    if k == 0 then 1 else 256 * Places(k - 1)
  }

  /** The eight length bytes are the length modulo 2^64. */
  lemma LengthIsNumber(n: nat)
    ensures Value(LengthBytes(n)) == n % WRAP64
  {
    LengthPrefix(n, 8);
    assert LengthBytes(n)[..8] == LengthBytes(n);
  }

  /** The first k length bytes are the lower k of the digits from place k on. */
  lemma {:induction false} LengthPrefix(n: nat, k: nat)
    requires 0 < k <= 8
    ensures Value(LengthBytes(n)[..k]) == n / PlaceValue(k - 1) % Places(k)
  {
    LengthDigit(n, k - 1);
    if k > 1 {
      LengthPrefix(n, k - 1);
      PlaceStep(k - 1);
      PlaceDigits(n, PlaceValue(k - 1), Places(k - 1));
    }
  }

  lemma PlaceStep(k: nat)
    requires 0 < k < 8
    ensures PlaceValue(k - 1) == 256 * PlaceValue(k)
  {
  }

  lemma PlaceDigits(n: nat, p: nat, m: nat)
    requires p > 0 && m > 0
    ensures n / p % (256 * m) == 256 * (n / (256 * p) % m) + n / p % 256
  {
    DivDiv(n, p, 256);
    ModStep(n / p / 256, m, n / p % 256);
  }

  lemma LengthDigit(n: nat, k: nat)
    requires k < 8
    ensures Value(LengthBytes(n)[..k + 1]) == 256 * Value(LengthBytes(n)[..k]) + n / PlaceValue(k) % 256
  {
    var bytes := LengthBytes(n);
    assert bytes[..k + 1][..k] == bytes[..k];
    ByteBack(n / PlaceValue(k) % 256);
  }
}
