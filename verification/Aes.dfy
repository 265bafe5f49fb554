/** src/aes.c, the block cipher of FIPS 197: the round transformations in place on a 16-byte
    state, the key expansion, and the inverse cipher that undoes the rounds.  Inside the cipher
    a byte is a bit-vector; at its boundary it is a number, as everywhere else. */
module Aes {
  import opened Bytes
  import opened BitVectors

  type Block = s: seq<bv8> | |s| == 16 witness [0, 0, 0, 0, 0, 0, 0, 0, 0, 0, 0, 0, 0, 0, 0, 0]

  // ---------- the S-box ----------

  /** Byte j of a table row, counted from the left. */
  function Entry(row: bv128, j: bv8): bv8
    requires j < 16
  {
    ((row >> ((15 - j) << 3)) & 0xff) as bv8
  }

  /** The table of FIPS 197, figure 7. */
  function SBox(x: bv8): bv8 {
    if x < 0x10 then Entry(0x637c777b_f26b6fc5_3001672b_fed7ab76, x & 0x0f)
    else if x < 0x20 then Entry(0xca82c97d_fa5947f0_add4a2af_9ca472c0, x & 0x0f)
    else if x < 0x30 then Entry(0xb7fd9326_363ff7cc_34a5e5f1_71d83115, x & 0x0f)
    else if x < 0x40 then Entry(0x04c723c3_1896059a_071280e2_eb27b275, x & 0x0f)
    else if x < 0x50 then Entry(0x09832c1a_1b6e5aa0_523bd6b3_29e32f84, x & 0x0f)
    else if x < 0x60 then Entry(0x53d100ed_20fcb15b_6acbbe39_4a4c58cf, x & 0x0f)
    else if x < 0x70 then Entry(0xd0efaafb_434d3385_45f9027f_503c9fa8, x & 0x0f)
    else if x < 0x80 then Entry(0x51a3408f_929d38f5_bcb6da21_10fff3d2, x & 0x0f)
    else if x < 0x90 then Entry(0xcd0c13ec_5f974417_c4a77e3d_645d1973, x & 0x0f)
    else if x < 0xa0 then Entry(0x60814fdc_222a9088_46eeb814_de5e0bdb, x & 0x0f)
    else if x < 0xb0 then Entry(0xe0323a0a_4906245c_c2d3ac62_9195e479, x & 0x0f)
    else if x < 0xc0 then Entry(0xe7c8376d_8dd54ea9_6c56f4ea_657aae08, x & 0x0f)
    else if x < 0xd0 then Entry(0xba78252e_1ca6b4c6_e8dd741f_4bbd8b8a, x & 0x0f)
    else if x < 0xe0 then Entry(0x703eb566_4803f60e_613557b9_86c11d9e, x & 0x0f)
    else if x < 0xf0 then Entry(0xe1f89811_69d98e94_9b1e87e9_ce5528df, x & 0x0f)
    else Entry(0x8ca1890d_bfe64268_41992d0f_b054bb16, x & 0x0f)
  }

  /** The inverse table. */
  function InvSBox(x: bv8): bv8 {
    if x < 0x10 then Entry(0x52096ad5_3036a538_bf40a39e_81f3d7fb, x & 0x0f)
    else if x < 0x20 then Entry(0x7ce33982_9b2fff87_348e4344_c4dee9cb, x & 0x0f)
    else if x < 0x30 then Entry(0x547b9432_a6c2233d_ee4c950b_42fac34e, x & 0x0f)
    else if x < 0x40 then Entry(0x082ea166_28d924b2_765ba249_6d8bd125, x & 0x0f)
    else if x < 0x50 then Entry(0x72f8f664_86689816_d4a45ccc_5d65b692, x & 0x0f)
    else if x < 0x60 then Entry(0x6c704850_fdedb9da_5e154657_a78d9d84, x & 0x0f)
    else if x < 0x70 then Entry(0x90d8ab00_8cbcd30a_f7e45805_b8b34506, x & 0x0f)
    else if x < 0x80 then Entry(0xd02c1e8f_ca3f0f02_c1afbd03_01138a6b, x & 0x0f)
    else if x < 0x90 then Entry(0x3a911141_4f67dcea_97f2cfce_f0b4e673, x & 0x0f)
    else if x < 0xa0 then Entry(0x96ac7422_e7ad3585_e2f937e8_1c75df6e, x & 0x0f)
    else if x < 0xb0 then Entry(0x47f11a71_1d29c589_6fb7620e_aa18be1b, x & 0x0f)
    else if x < 0xc0 then Entry(0xfc563e4b_c6d27920_9adbc0fe_78cd5af4, x & 0x0f)
    else if x < 0xd0 then Entry(0x1fdda833_8807c731_b1121059_2780ec5f, x & 0x0f)
    else if x < 0xe0 then Entry(0x60517fa9_19b54a0d_2de57a9f_93c99cef, x & 0x0f)
    else if x < 0xf0 then Entry(0xa0e03b4d_ae2af5b0_c8ebbb3c_83539961, x & 0x0f)
    else Entry(0x172b047e_ba77d626_e1691463_55210c7d, x & 0x0f)
  }

  lemma SBoxInverse(x: bv8)
    ensures InvSBox(SBox(x)) == x
  {
    if x < 0x40 {
      SBoxInverseQuarter0(x);
    } else if x < 0x80 {
      SBoxInverseQuarter1(x);
    } else if x < 0xc0 {
      SBoxInverseQuarter2(x);
    } else {
      SBoxInverseQuarter3(x);
    }
    hide SBox, InvSBox;
  }

  lemma SBoxInverseQuarter0(x: bv8)
    requires x < 0x40
    ensures InvSBox(SBox(x)) == x
  {
  }

  lemma SBoxInverseQuarter1(x: bv8)
    requires 0x40 <= x < 0x80
    ensures InvSBox(SBox(x)) == x
  {
  }

  lemma SBoxInverseQuarter2(x: bv8)
    requires 0x80 <= x < 0xc0
    ensures InvSBox(SBox(x)) == x
  {
  }

  lemma SBoxInverseQuarter3(x: bv8)
    requires x >= 0xc0
    ensures InvSBox(SBox(x)) == x
  {
  }

  /** Multiplication by x modulo x^8 + x^4 + x^3 + x + 1. */
  function XTime(x: bv8): bv8 {
    (x << 1) ^ (if x & 0x80 != 0 then 0x1b else 0x00)
  }

  /** The product in GF(2^8): the sum of the multiples of x that y's bits select. */
  function GMul(x: bv8, y: bv8): bv8 {
    var x1 := XTime(x);
    var x2 := XTime(x1);
    var x3 := XTime(x2);
    var x4 := XTime(x3);
    var x5 := XTime(x4);
    var x6 := XTime(x5);
    var x7 := XTime(x6);
    (if y & 0x01 != 0 then x else 0) ^ (if y & 0x02 != 0 then x1 else 0) ^ (if y & 0x04 != 0 then x2 else 0)
    ^ (if y & 0x08 != 0 then x3 else 0) ^ (if y & 0x10 != 0 then x4 else 0) ^ (if y & 0x20 != 0 then x5 else 0)
    ^ (if y & 0x40 != 0 then x6 else 0) ^ (if y & 0x80 != 0 then x7 else 0)
  }

  /** The affine map of FIPS 197, section 5.1.1, and its inverse. */
  function Affine(y: bv8): bv8 {
    y ^ y.RotateLeft(1) ^ y.RotateLeft(2) ^ y.RotateLeft(3) ^ y.RotateLeft(4) ^ 0x63
  }

  function UnAffine(z: bv8): bv8 {
    z.RotateLeft(1) ^ z.RotateLeft(3) ^ z.RotateLeft(6) ^ 0x05
  }

  /** y is the inverse of x in GF(2^8), or both are zero. */
  predicate Inverse(x: bv8, y: bv8) {
    if x == 0 then y == 0 else GMul(x, y) == 1
  }

  /** All 256 entries are what the standard defines: the inverse in GF(2^8), then the affine
      map. */
  lemma SBoxMeaning(x: bv8)
    ensures var y := UnAffine(SBox(x)); Inverse(x, y) && Affine(y) == SBox(x)
  {
    AffineInverse(SBox(x));
    if x < 0x40 {
      SBoxMeaningQuarter0(x);
    } else if x < 0x80 {
      SBoxMeaningQuarter1(x);
    } else if x < 0xc0 {
      SBoxMeaningQuarter2(x);
    } else {
      SBoxMeaningQuarter3(x);
    }
    hide SBox, Affine, UnAffine, GMul;
  }

  lemma AffineInverse(z: bv8)
    ensures Affine(UnAffine(z)) == z
  {
  }

  lemma SBoxMeaningQuarter0(x: bv8)
    requires x < 0x40
    ensures Inverse(x, UnAffine(SBox(x)))
  {
  }

  lemma SBoxMeaningQuarter1(x: bv8)
    requires 0x40 <= x < 0x80
    ensures Inverse(x, UnAffine(SBox(x)))
  {
  }

  lemma SBoxMeaningQuarter2(x: bv8)
    requires 0x80 <= x < 0xc0
    ensures Inverse(x, UnAffine(SBox(x)))
  {
  }

  lemma SBoxMeaningQuarter3(x: bv8)
    requires x >= 0xc0
    ensures Inverse(x, UnAffine(SBox(x)))
  {
  }

  // ---------- the four layers of a round ----------

  /** Addition in GF(2^8), the exclusive-or. */
  function Plus(a: bv8, b: bv8): bv8 { a ^ b }

  function KeyByte(w: bv32, j: nat): bv8
    requires j < 4
  {
    if j == 0 then ((w >> 24) & 0xff) as bv8
    else if j == 1 then ((w >> 16) & 0xff) as bv8
    else if j == 2 then ((w >> 8) & 0xff) as bv8
    else (w & 0xff) as bv8
  }

  function Substituted(s: Block): (t: Block) {
    seq(16, i requires 0 <= i < 16 => SBox(s[i]))
  }

  /** Row r, the bytes at r, r + 4, r + 8 and r + 12, moves left by r. */
  function Shifted(s: Block): (t: Block) {
    [s[0], s[5], s[10], s[15], s[4], s[9], s[14], s[3], s[8], s[13], s[2], s[7], s[12], s[1], s[6], s[11]]
  }

  datatype Column = Column(a0: bv8, a1: bv8, a2: bv8, a3: bv8)

  function ColumnAt(s: Block, c: nat): Column
    requires c < 4
  {
    Column(s[4 * c], s[4 * c + 1], s[4 * c + 2], s[4 * c + 3])
  }

  function Flatten(c0: Column, c1: Column, c2: Column, c3: Column): (t: Block) {
    [c0.a0, c0.a1, c0.a2, c0.a3, c1.a0, c1.a1, c1.a2, c1.a3, c2.a0, c2.a1, c2.a2, c2.a3, c3.a0, c3.a1, c3.a2, c3.a3]
  }

  function KeyColumn(c: Column, w: bv32): Column {
    Column(Plus(c.a0, KeyByte(w, 0)), Plus(c.a1, KeyByte(w, 1)), Plus(c.a2, KeyByte(w, 2)), Plus(c.a3, KeyByte(w, 3)))
  }

  function Keyed(s: Block, k: seq<bv32>, at: nat): (t: Block)
    requires at + 4 <= |k|
  {
    Flatten(KeyColumn(ColumnAt(s, 0), k[at]), KeyColumn(ColumnAt(s, 1), k[at + 1]),
            KeyColumn(ColumnAt(s, 2), k[at + 2]), KeyColumn(ColumnAt(s, 3), k[at + 3]))
  }

  /** Each byte becomes itself plus the column sum plus twice the sum with its successor. */
  function MixByte(a: bv8, next: bv8, all: bv8): bv8 { Plus(a, Plus(all, XTime(Plus(a, next)))) }

  function ColumnSum(c: Column): bv8 { Plus(Plus(Plus(c.a0, c.a1), c.a2), c.a3) }

  function MixColumn(c: Column): Column {
    var all := ColumnSum(c);
    Column(MixByte(c.a0, c.a1, all), MixByte(c.a1, c.a2, all), MixByte(c.a2, c.a3, all), MixByte(c.a3, c.a0, all))
  }

  function Mixed(s: Block): (t: Block) {
    Flatten(MixColumn(ColumnAt(s, 0)), MixColumn(ColumnAt(s, 1)), MixColumn(ColumnAt(s, 2)), MixColumn(ColumnAt(s, 3)))
  }

  /** The state before round r + 1. */
  function Rounds(k: seq<bv32>, s: Block, r: nat): (t: Block)
    requires 4 * r + 4 <= |k|
  {
    if r == 0 then Keyed(s, k, 0)
    else Keyed(Mixed(Shifted(Substituted(Rounds(k, s, r - 1)))), k, 4 * r)
  }

  datatype Schedule = Schedule(rk: seq<bv32>, rounds: nat) {
    predicate Valid() { rounds in {10, 12, 14} && |rk| == 4 * (rounds + 1) }
  }

  function Cipher(k: Schedule, s: Block): (t: Block)
    requires k.Valid()
  {
    Keyed(Shifted(Substituted(Rounds(k.rk, s, k.rounds - 1))), k.rk, 4 * k.rounds)
  }

  // ---------- the inverse cipher ----------

  function Unsubstituted(s: Block): (t: Block) {
    seq(16, i requires 0 <= i < 16 => InvSBox(s[i]))
  }

  function Unshifted(s: Block): (t: Block) {
    [s[0], s[13], s[10], s[7], s[4], s[1], s[14], s[11], s[8], s[5], s[2], s[15], s[12], s[9], s[6], s[3]]
  }

  /** MixColumns has order four, so its inverse is its third power. */
  function Unmixed(s: Block): (t: Block) { Mixed(Mixed(Mixed(s))) }

  function Unrounds(k: seq<bv32>, t: Block, r: nat): (s: Block)
    requires 4 * r + 4 <= |k|
    decreases r
  {
    if r == 0 then Keyed(t, k, 0)
    else Unrounds(k, Unsubstituted(Unshifted(Unmixed(Keyed(t, k, 4 * r)))), r - 1)
  }

  function Decipher(k: Schedule, t: Block): (s: Block)
    requires k.Valid()
  {
    Unrounds(k.rk, Unsubstituted(Unshifted(Keyed(t, k.rk, 4 * k.rounds))), k.rounds - 1)
  }

  lemma KeyedTwice(s: Block, k: seq<bv32>, at: nat)
    requires at + 4 <= |k|
    ensures Keyed(Keyed(s, k, at), k, at) == s
  {
    hide Flatten, ColumnAt, KeyColumn;
    ColumnsFlattened(KeyColumn(ColumnAt(s, 0), k[at]), KeyColumn(ColumnAt(s, 1), k[at + 1]),
                     KeyColumn(ColumnAt(s, 2), k[at + 2]), KeyColumn(ColumnAt(s, 3), k[at + 3]));
    KeyColumnTwice(ColumnAt(s, 0), k[at]);
    KeyColumnTwice(ColumnAt(s, 1), k[at + 1]);
    KeyColumnTwice(ColumnAt(s, 2), k[at + 2]);
    KeyColumnTwice(ColumnAt(s, 3), k[at + 3]);
    FlattenColumns(s);
  }

  lemma KeyColumnTwice(c: Column, w: bv32)
    ensures KeyColumn(KeyColumn(c, w), w) == c
  {
    hide Plus, KeyByte;
    PlusTwice(c.a0, KeyByte(w, 0));
    PlusTwice(c.a1, KeyByte(w, 1));
    PlusTwice(c.a2, KeyByte(w, 2));
    PlusTwice(c.a3, KeyByte(w, 3));
  }

  lemma SubstitutedBack(s: Block)
    ensures Unsubstituted(Substituted(s)) == s
  {
    hide SBox, InvSBox;
    forall i | 0 <= i < 16 ensures Unsubstituted(Substituted(s))[i] == s[i] {
      SBoxInverse(s[i]);
    }
  }

  lemma ShiftedBack(s: Block)
    ensures Unshifted(Shifted(s)) == s
  {
  }

  lemma XTimeLinear(x: bv8, y: bv8)
    ensures XTime(x ^ y) == XTime(x) ^ XTime(y)
  {
    assert (x ^ y) << 1 == (x << 1) ^ (y << 1);
    assert ((x ^ y) & 0x80 != 0) == ((x & 0x80 != 0) != (y & 0x80 != 0));
    if x & 0x80 != 0 {
      if y & 0x80 != 0 { } else { }
    } else {
      if y & 0x80 != 0 { } else { }
    }
  }

  lemma XTimeChain(a: bv8, b: bv8, c: bv8)
    ensures Plus(XTime(Plus(a, b)), XTime(Plus(b, c))) == XTime(Plus(a, c))
  {
    hide XTime, Plus;
    XTimePlus(Plus(a, b), Plus(b, c));
    PlusChain(a, b, c);
  }

  lemma PlusChain(a: bv8, b: bv8, c: bv8)
    ensures Plus(Plus(a, b), Plus(b, c)) == Plus(a, c)
  {
  }

  lemma PlusComm(a: bv8, b: bv8)
    ensures Plus(a, b) == Plus(b, a)
  {
  }

  /** Bytes that take on the same mask and terms x and x' differ by the terms' sum. */
  lemma MaskedSum(a: bv8, b: bv8, all: bv8, x: bv8, x': bv8)
    ensures Plus(Plus(a, Plus(all, x)), Plus(b, Plus(all, x'))) == Plus(Plus(a, b), Plus(x, x'))
  {
  }

  lemma EqualTermsCancel(s: bv8, t: bv8, x: bv8)
    ensures Plus(Plus(s, x), Plus(t, x)) == Plus(s, t)
  {
  }

  lemma MaskCancels(a: bv8, all: bv8, x: bv8, y: bv8)
    ensures Plus(Plus(a, Plus(all, x)), Plus(all, Plus(x, y))) == Plus(a, y)
  {
  }

  lemma PlusTwice(a: bv8, x: bv8)
    ensures Plus(Plus(a, x), x) == a
  {
  }

  lemma TwoAndThree(x: bv8)
    ensures GMul(x, 2) == XTime(x) && GMul(x, 3) == Plus(x, XTime(x))
  {
    hide XTime;
  }

  lemma PlusAssoc(a: bv8, b: bv8, c: bv8)
    ensures Plus(Plus(a, b), c) == Plus(a, Plus(b, c))
  {
  }

  lemma PlusSelf(a: bv8, t: bv8, z: bv8)
    ensures Plus(a, Plus(Plus(a, t), z)) == Plus(t, z)
  {
  }

  lemma PlusExchange(b: bv8, e: bv8, x: bv8, y: bv8)
    ensures Plus(Plus(b, e), Plus(x, y)) == Plus(Plus(x, Plus(b, y)), e)
  {
    hide Plus;
    var w := Plus(x, y);
    PlusAssoc(x, b, y);
    PlusComm(x, b);
    PlusAssoc(b, x, y);
    PlusAssoc(b, w, e);
    PlusComm(w, e);
    PlusAssoc(b, e, w);
  }

  /** A column sum may start anywhere. */
  lemma SumFrom(a: bv8, b: bv8, c: bv8, d: bv8)
    ensures ColumnSum(Column(a, b, c, d)) == Plus(a, Plus(b, Plus(c, d)))
    ensures ColumnSum(Column(a, b, c, d)) == ColumnSum(Column(b, c, d, a))
  {
    hide Plus;
    PlusAssoc(a, b, c);
    PlusAssoc(a, Plus(b, c), d);
    PlusAssoc(b, c, d);
    PlusComm(a, Plus(Plus(b, c), d));
  }

  lemma MixRow(a: bv8, b: bv8, c: bv8, d: bv8)
    ensures MixByte(a, b, ColumnSum(Column(a, b, c, d))) == Plus(Plus(GMul(a, 2), GMul(b, 3)), Plus(c, d))
  {
    hide GMul, XTime, Plus, ColumnSum;
    TwoAndThree(a);
    TwoAndThree(b);
    XTimePlus(a, b);
    SumFrom(a, b, c, d);
    var x, y, e := XTime(a), XTime(b), Plus(c, d);
    PlusSelf(a, Plus(b, e), Plus(x, y));
    PlusExchange(b, e, x, y);
  }

  /** The column map is the matrix of section 5.1.3 of FIPS 197: rows 2 3 1 1, rotated. */
  lemma MixColumnMatrix(c: Column)
    ensures MixColumn(c) == Column(
      Plus(Plus(GMul(c.a0, 2), GMul(c.a1, 3)), Plus(c.a2, c.a3)),
      Plus(Plus(GMul(c.a1, 2), GMul(c.a2, 3)), Plus(c.a3, c.a0)),
      Plus(Plus(GMul(c.a2, 2), GMul(c.a3, 3)), Plus(c.a0, c.a1)),
      Plus(Plus(GMul(c.a3, 2), GMul(c.a0, 3)), Plus(c.a1, c.a2)))
  {
    hide GMul, XTime, Plus, MixByte, ColumnSum;
    SumFrom(c.a0, c.a1, c.a2, c.a3);
    SumFrom(c.a1, c.a2, c.a3, c.a0);
    SumFrom(c.a2, c.a3, c.a0, c.a1);
    MixRow(c.a0, c.a1, c.a2, c.a3);
    MixRow(c.a1, c.a2, c.a3, c.a0);
    MixRow(c.a2, c.a3, c.a0, c.a1);
    MixRow(c.a3, c.a0, c.a1, c.a2);
  }

  lemma MixedSum(c: Column)
    ensures ColumnSum(MixColumn(c)) == ColumnSum(c)
  {
    hide XTime, Plus;
    var all, x0, x1, x2, x3 := ColumnSum(c),
      XTime(Plus(c.a0, c.a1)), XTime(Plus(c.a1, c.a2)), XTime(Plus(c.a2, c.a3)), XTime(Plus(c.a3, c.a0));
    XTimeChain(c.a0, c.a1, c.a2);
    XTimeChain(c.a2, c.a3, c.a0);
    PlusComm(c.a2, c.a0);
    MaskedSum(c.a0, c.a1, all, x0, x1);
    MaskedSum(c.a2, c.a3, all, x2, x3);
    EqualTermsCancel(Plus(c.a0, c.a1), Plus(c.a2, c.a3), Plus(x0, x1));
    var m := MixColumn(c);
    PlusAssoc(Plus(m.a0, m.a1), m.a2, m.a3);
    PlusAssoc(Plus(c.a0, c.a1), c.a2, c.a3);
  }

  /** Mixing twice adds four times the sum with the opposite byte. */
  lemma MixTwice(a0: bv8, a1: bv8, a2: bv8, all: bv8)
    ensures MixByte(MixByte(a0, a1, all), MixByte(a1, a2, all), all) == Plus(a0, XTime(XTime(Plus(a0, a2))))
  {
    hide XTime, Plus;
    var x0, x1, y := XTime(Plus(a0, a1)), XTime(Plus(a1, a2)), XTime(Plus(a0, a2));
    XTimeChain(a0, a1, a2);
    MaskedSum(a0, a1, all, x0, x1);
    XTimePlus(Plus(a0, a1), y);
    MaskCancels(a0, all, x0, XTime(y));
  }

  lemma XTimePlus(x: bv8, y: bv8)
    ensures XTime(Plus(x, y)) == Plus(XTime(x), XTime(y))
  {
    XTimeLinear(x, y);
    hide XTime;
  }

  function FourTimes(a: bv8, b: bv8): bv8 { XTime(XTime(Plus(a, b))) }

  lemma MixColumnTwice(c: Column)
    ensures MixColumn(MixColumn(c)) == Column(Plus(c.a0, FourTimes(c.a0, c.a2)), Plus(c.a1, FourTimes(c.a1, c.a3)),
                                              Plus(c.a2, FourTimes(c.a2, c.a0)), Plus(c.a3, FourTimes(c.a3, c.a1)))
  {
    hide XTime, ColumnSum, MixByte, Plus;
    MixedSum(c);
    MixTwice(c.a0, c.a1, c.a2, ColumnSum(c));
    MixTwice(c.a1, c.a2, c.a3, ColumnSum(c));
    MixTwice(c.a2, c.a3, c.a0, ColumnSum(c));
    MixTwice(c.a3, c.a0, c.a1, ColumnSum(c));
  }

  lemma OppositeCancels(a: bv8, b: bv8)
    ensures var x, y := FourTimes(a, b), FourTimes(b, a);
      Plus(Plus(a, x), FourTimes(Plus(a, x), Plus(b, y))) == a
  {
    hide XTime, Plus;
    var x := FourTimes(a, b);
    PlusComm(a, b);
    EqualTermsCancel(a, b, x);
    PlusTwice(a, x);
  }

  /** MixColumns has order four. */
  lemma MixColumnFour(c: Column)
    ensures MixColumn(MixColumn(MixColumn(MixColumn(c)))) == c
  {
    hide FourTimes, MixColumn, Plus;
    MixColumnTwice(c);
    MixColumnTwice(MixColumn(MixColumn(c)));
    OppositeCancels(c.a0, c.a2);
    OppositeCancels(c.a1, c.a3);
    OppositeCancels(c.a2, c.a0);
    OppositeCancels(c.a3, c.a1);
  }

  lemma FlattenColumns(s: Block)
    ensures Flatten(ColumnAt(s, 0), ColumnAt(s, 1), ColumnAt(s, 2), ColumnAt(s, 3)) == s
  {
  }

  lemma ColumnsFlattened(c0: Column, c1: Column, c2: Column, c3: Column)
    ensures var s := Flatten(c0, c1, c2, c3);
      ColumnAt(s, 0) == c0 && ColumnAt(s, 1) == c1 && ColumnAt(s, 2) == c2 && ColumnAt(s, 3) == c3
  {
  }

  lemma MixedColumns(s: Block)
    ensures forall c: nat | c < 4 :: ColumnAt(Mixed(s), c) == MixColumn(ColumnAt(s, c))
  {
    hide Flatten, ColumnAt, MixColumn;
    ColumnsFlattened(MixColumn(ColumnAt(s, 0)), MixColumn(ColumnAt(s, 1)),
                     MixColumn(ColumnAt(s, 2)), MixColumn(ColumnAt(s, 3)));
  }

  lemma MixedFour(s: Block)
    ensures Unmixed(Mixed(s)) == s
  {
    hide Flatten, ColumnAt, MixColumn, Mixed;
    MixedColumns(s);
    MixedColumns(Mixed(s));
    MixedColumns(Mixed(Mixed(s)));
    var t := Mixed(Mixed(Mixed(Mixed(s))));
    MixedColumns(Mixed(Mixed(Mixed(s))));
    forall c: nat | c < 4 ensures ColumnAt(t, c) == ColumnAt(s, c) {
      MixColumnFour(ColumnAt(s, c));
    }
    FlattenColumns(s);
    FlattenColumns(t);
  }

  lemma {:induction false} RoundsBack(k: seq<bv32>, s: Block, r: nat)
    requires 4 * r + 4 <= |k|
    ensures Unrounds(k, Rounds(k, s, r), r) == s
  {
    hide Keyed, Mixed, Unmixed, Shifted, Unshifted, Substituted, Unsubstituted;
    if r == 0 {
      KeyedTwice(s, k, 0);
    } else {
      var t := Rounds(k, s, r - 1);
      KeyedTwice(Mixed(Shifted(Substituted(t))), k, 4 * r);
      MixedFour(Shifted(Substituted(t)));
      ShiftedBack(Substituted(t));
      SubstitutedBack(t);
      RoundsBack(k, s, r - 1);
    }
  }

  /** For every key schedule and each of 10, 12 or 14 rounds the cipher can be undone. */
  lemma CipherInverse(k: Schedule, s: Block)
    requires k.Valid()
    ensures Decipher(k, Cipher(k, s)) == s
  {
    hide Keyed, Shifted, Unshifted, Substituted, Unsubstituted, Rounds, Unrounds;
    var t := Rounds(k.rk, s, k.rounds - 1);
    KeyedTwice(Shifted(Substituted(t)), k.rk, 4 * k.rounds);
    ShiftedBack(Substituted(t));
    SubstitutedBack(t);
    RoundsBack(k.rk, s, k.rounds - 1);
  }

  lemma CipherInjective(k: Schedule, s: Block, t: Block)
    requires k.Valid() && Cipher(k, s) == Cipher(k, t)
    ensures s == t
  {
    hide Cipher, Decipher;
    CipherInverse(k, s);
    CipherInverse(k, t);
  }

  // ---------- the cipher on bytes ----------

  function BlockOf(s: seq<byte>): (t: Block)
    requires |s| == 16
  {
    seq(16, i requires 0 <= i < 16 => ToBits(s[i]))
  }

  function BytesOf(s: Block): (t: seq<byte>)
    ensures |t| == 16
  {
    seq(16, i requires 0 <= i < 16 => ToNumber(s[i]))
  }

  /** One block in, one block out. */
  function Encrypted(k: Schedule, s: seq<byte>): (t: seq<byte>)
    requires k.Valid() && |s| == 16
    ensures |t| == 16
  {
    BytesOf(Cipher(k, BlockOf(s)))
  }

  /** Different blocks encrypt differently under one key. */
  lemma EncryptedInjective(k: Schedule, s: seq<byte>, t: seq<byte>)
    requires k.Valid() && |s| == 16 && |t| == 16 && Encrypted(k, s) == Encrypted(k, t)
    ensures s == t
  {
    hide Cipher;
    var x, y := Cipher(k, BlockOf(s)), Cipher(k, BlockOf(t));
    SameBytesOf(x, y);
    CipherInjective(k, BlockOf(s), BlockOf(t));
    SameBlockOf(s, t);
  }

  lemma SameBytesOf(x: Block, y: Block)
    requires BytesOf(x) == BytesOf(y)
    ensures x == y
  {
    hide ToBits, ToNumber;
    forall i | 0 <= i < 16 ensures x[i] == y[i] {
      BitsRoundTrip(x[i]);
      BitsRoundTrip(y[i]);
      assert BytesOf(x)[i] == BytesOf(y)[i];
    }
  }

  lemma SameBlockOf(s: seq<byte>, t: seq<byte>)
    requires |s| == 16 && |t| == 16 && BlockOf(s) == BlockOf(t)
    ensures s == t
  {
    hide ToBits, ToNumber;
    forall i | 0 <= i < 16 ensures s[i] == t[i] {
      ByteRoundTrip(s[i]);
      ByteRoundTrip(t[i]);
      assert BlockOf(s)[i] == BlockOf(t)[i];
    }
  }

  // ---------- key expansion ----------

  const RCON: seq<bv8> := [0x00, 0x01, 0x02, 0x04, 0x08, 0x10, 0x20, 0x40, 0x80, 0x1b, 0x36]

  /** Each round constant is twice the one before. */
  lemma RoundConstants(i: nat)
    requires 1 <= i < 10
    ensures RCON[1] == 1 && RCON[i + 1] == XTime(RCON[i])
  {
  }

  function FromBytes(b0: bv8, b1: bv8, b2: bv8, b3: bv8): bv32 {
    (b0 as bv32 << 24) | (b1 as bv32 << 16) | (b2 as bv32 << 8) | b3 as bv32
  }

  function RotWord(w: bv32): bv32 { (w << 8) | (w >> 24) }

  function SubWord(w: bv32): bv32 {
    FromBytes(SBox(KeyByte(w, 0)), SBox(KeyByte(w, 1)), SBox(KeyByte(w, 2)), SBox(KeyByte(w, 3)))
  }

  function KeyWord(key: seq<byte>, i: nat): bv32
    requires 4 * i + 4 <= |key|
  {
    FromBytes(ToBits(key[4 * i]), ToBits(key[4 * i + 1]), ToBits(key[4 * i + 2]), ToBits(key[4 * i + 3]))
  }

  /** Word i of the expanded key (FIPS 197, section 5.2). */
  function Expanded(key: seq<byte>, nk: nat, i: nat): bv32
    requires nk in {4, 6, 8} && |key| == 4 * nk && i < 4 * (nk + 7)
  {
    if i < nk then KeyWord(key, i)
    else
      var t := Expanded(key, nk, i - 1);
      Xor32(Expanded(key, nk, i - nk), ScheduleStep(t, nk, i))
  }

  function Xor32(a: bv32, b: bv32): bv32 { a ^ b }

  function RconWord(k: nat): bv32
    requires k <= 10
  {
    RCON[k] as bv32 << 24
  }

  lemma RconIndex(nk: nat, i: nat)
    requires nk in {4, 6, 8} && i < 4 * (nk + 7)
    ensures i / nk <= 10
  {
    if nk == 4 { } else if nk == 6 { } else { }
  }

  /** What the previous word contributes. */
  function ScheduleStep(t: bv32, nk: nat, i: nat): bv32
    requires nk in {4, 6, 8} && i < 4 * (nk + 7)
  {
    RconIndex(nk, i);
    if i % nk == 0 then Xor32(SubWord(RotWord(t)), RconWord(i / nk))
    else if nk > 6 && i % nk == 4 then SubWord(t)
    else t
  }

  function ScheduleOf(key: seq<byte>, nk: nat): (k: Schedule)
    requires nk in {4, 6, 8} && |key| == 4 * nk
    ensures k.Valid()
  {
    Schedule(seq(4 * (nk + 7), i requires 0 <= i < 4 * (nk + 7) => Expanded(key, nk, i)), nk + 6)
  }

  // ---------- the standard, byte by byte ----------

  lemma BytesOfWord(b0: bv8, b1: bv8, b2: bv8, b3: bv8)
    ensures var w := FromBytes(b0, b1, b2, b3);
      KeyByte(w, 0) == b0 && KeyByte(w, 1) == b1 && KeyByte(w, 2) == b2 && KeyByte(w, 3) == b3
  {
  }

  lemma BytesOfSum(a: bv32, b: bv32, j: nat)
    requires j < 4
    ensures KeyByte(Xor32(a, b), j) == Plus(KeyByte(a, j), KeyByte(b, j))
  {
    if j == 0 { } else if j == 1 { } else if j == 2 { } else { }
  }

  lemma BytesOfRotated(w: bv32, j: nat)
    requires j < 4
    ensures KeyByte(RotWord(w), j) == KeyByte(w, (j + 1) % 4)
  {
    if j == 0 { } else if j == 1 { } else if j == 2 { } else { }
  }

  lemma BytesOfSubstituted(w: bv32, j: nat)
    requires j < 4
    ensures KeyByte(SubWord(w), j) == SBox(KeyByte(w, j))
  {
    hide SBox, KeyByte, FromBytes;
    BytesOfWord(SBox(KeyByte(w, 0)), SBox(KeyByte(w, 1)), SBox(KeyByte(w, 2)), SBox(KeyByte(w, 3)));
  }

  lemma BytesOfConstant(k: nat, j: nat)
    requires k <= 10 && j < 4
    ensures KeyByte(RconWord(k), j) == if j == 0 then RCON[k] else 0
  {
    ConstantBytes(RCON[k], j);
  }

  lemma ConstantBytes(b: bv8, j: nat)
    requires j < 4
    ensures KeyByte(b as bv32 << 24, j) == if j == 0 then b else 0
  {
    if j == 0 { } else if j == 1 { } else if j == 2 { } else { }
  }

  lemma ScheduleWord(key: seq<byte>, nk: nat, i: nat)
    requires nk in {4, 6, 8} && |key| == 4 * nk && i < 4 * (nk + 7)
    ensures |ScheduleOf(key, nk).rk| == 4 * (nk + 7) && ScheduleOf(key, nk).rk[i] == Expanded(key, nk, i)
  {
    hide Expanded;
  }

  /** The expanded key starts with the key, and there are 4 words for each round and 4 more. */
  lemma ScheduleStart(key: seq<byte>, nk: nat, i: nat, j: nat)
    requires nk in {4, 6, 8} && |key| == 4 * nk && i < nk && j < 4
    ensures ScheduleOf(key, nk).rounds == nk + 6 && |ScheduleOf(key, nk).rk| == 4 * (nk + 7)
    ensures KeyByte(ScheduleOf(key, nk).rk[i], j) as int == key[4 * i + j]
  {
    hide KeyByte, ToNumber, ToBits, Expanded;
    ScheduleWord(key, nk, i);
    FirstWord(key, nk, i, j);
    ByteRoundTrip(key[4 * i + j]);
    NumberIs(KeyByte(Expanded(key, nk, i), j));
  }

  /** What section 5.2 of FIPS 197 adds to byte j of the word nk back to make word i, from the word
      before: its next byte, substituted and with the round constant, where a multiple of nk starts;
      its byte j, substituted half-way through the eight words of a 256-bit key. */
  function Contribution(before: bv32, nk: nat, i: nat, j: nat): bv8
    requires nk in {4, 6, 8} && i < 4 * (nk + 7) && j < 4
  {
    RconIndex(nk, i);
    if i % nk == 0 then Plus(SBox(KeyByte(before, (j + 1) % 4)), if j == 0 then RCON[i / nk] else 0)
    else if nk == 8 && i % 8 == 4 then SBox(KeyByte(before, j))
    else KeyByte(before, j)
  }

  /** The rest of the key schedule, byte by byte. */
  lemma ScheduleMeaning(key: seq<byte>, nk: nat, i: nat, j: nat)
    requires nk in {4, 6, 8} && |key| == 4 * nk && nk <= i < 4 * (nk + 7) && j < 4
    ensures |ScheduleOf(key, nk).rk| == 4 * (nk + 7)
    ensures var w := ScheduleOf(key, nk).rk;
      KeyByte(w[i], j) == Plus(KeyByte(w[i - nk], j), Contribution(w[i - 1], nk, i, j))
  {
    hide KeyByte, Plus, Expanded, Contribution, ScheduleOf;
    ScheduleWord(key, nk, i);
    ScheduleWord(key, nk, i - 1);
    ScheduleWord(key, nk, i - nk);
    NextWord(key, nk, i, j);
  }

  lemma NextWord(key: seq<byte>, nk: nat, i: nat, j: nat)
    requires nk in {4, 6, 8} && |key| == 4 * nk && nk <= i < 4 * (nk + 7) && j < 4
    ensures KeyByte(Expanded(key, nk, i), j)
      == Plus(KeyByte(Expanded(key, nk, i - nk), j), Contribution(Expanded(key, nk, i - 1), nk, i, j))
  {
    hide KeyByte, Plus, Xor32, Expanded, ScheduleStep, Contribution;
    ExpandedNext(key, nk, i);
    var t := Expanded(key, nk, i - 1);
    BytesOfSum(Expanded(key, nk, i - nk), ScheduleStep(t, nk, i), j);
    StepBytes(t, nk, i, j);
  }

  lemma FirstWord(key: seq<byte>, nk: nat, i: nat, j: nat)
    requires nk in {4, 6, 8} && |key| == 4 * nk && i < nk && j < 4
    ensures KeyByte(Expanded(key, nk, i), j) == ToBits(key[4 * i + j])
  {
    hide KeyByte, FromBytes, ToBits;
    BytesOfWord(ToBits(key[4 * i]), ToBits(key[4 * i + 1]), ToBits(key[4 * i + 2]), ToBits(key[4 * i + 3]));
    if j == 0 { } else if j == 1 { } else if j == 2 { } else { }
  }

  lemma StepBytes(t: bv32, nk: nat, i: nat, j: nat)
    requires nk in {4, 6, 8} && i < 4 * (nk + 7) && j < 4
    ensures KeyByte(ScheduleStep(t, nk, i), j) == Contribution(t, nk, i, j)
  {
    hide KeyByte, SBox, Plus, Xor32, SubWord, RotWord, RconWord, RCON;
    RconIndex(nk, i);
    if i % nk == 0 {
      BytesOfSum(SubWord(RotWord(t)), RconWord(i / nk), j);
      BytesOfSubstituted(RotWord(t), j);
      BytesOfRotated(t, j);
      BytesOfConstant(i / nk, j);
    } else if nk > 6 && i % nk == 4 {
      BytesOfSubstituted(t, j);
    }
  }

  /** The byte in a row and a column; columns follow one another in the block. */
  function At(s: Block, row: nat, col: nat): bv8
    requires row < 4 && col < 4
  {
    s[4 * col + row]
  }

  /** The i-th row or column after one, around the square. */
  function On(a: nat, i: nat): (b: nat)
    ensures b < 4
  {
    (a + i) % 4
  }

  /** The byte in a row and a column of the state after r rounds, as section 5.1 of FIPS 197 has it:
      the bytes of a diagonal, substituted, times the row of the matrix, plus the round key. */
  function RoundByte(w: seq<bv32>, s: Block, r: nat, row: nat, col: nat): bv8
    requires 4 * r + 4 <= |w| && row < 4 && col < 4
    decreases r
  {
    if r == 0 then Plus(At(s, row, col), KeyByte(w[col], row))
    else
      var b0 := SBox(RoundByte(w, s, r - 1, row, On(col, row)));
      var b1 := SBox(RoundByte(w, s, r - 1, On(row, 1), On(col, On(row, 1))));
      var b2 := SBox(RoundByte(w, s, r - 1, On(row, 2), On(col, On(row, 2))));
      var b3 := SBox(RoundByte(w, s, r - 1, On(row, 3), On(col, On(row, 3))));
      Plus(Plus(Plus(GMul(b0, 2), GMul(b1, 3)), Plus(b2, b3)), KeyByte(w[4 * r + col], row))
  }

  lemma KeyedByte(s: Block, w: seq<bv32>, at: nat, row: nat, col: nat)
    requires at + 4 <= |w| && row < 4 && col < 4
    ensures At(Keyed(s, w, at), row, col) == Plus(At(s, row, col), KeyByte(w[at + col], row))
  {
    hide Plus, KeyByte, KeyColumn;
    ColumnsFlattened(KeyColumn(ColumnAt(s, 0), w[at]), KeyColumn(ColumnAt(s, 1), w[at + 1]),
                     KeyColumn(ColumnAt(s, 2), w[at + 2]), KeyColumn(ColumnAt(s, 3), w[at + 3]));
    assert ColumnAt(Keyed(s, w, at), col) == KeyColumn(ColumnAt(s, col), w[at + col]);
    KeyedInColumn(ColumnAt(s, col), w[at + col]);
    InColumn(s, row, col);
    InColumn(Keyed(s, w, at), row, col);
  }

  /** A byte of a column. */
  function Of(c: Column, row: nat): bv8
    requires row < 4
  {
    if row == 0 then c.a0 else if row == 1 then c.a1 else if row == 2 then c.a2 else c.a3
  }

  lemma InColumn(s: Block, row: nat, col: nat)
    requires row < 4 && col < 4
    ensures At(s, row, col) == Of(ColumnAt(s, col), row)
  {
  }

  lemma KeyedInColumn(c: Column, w: bv32)
    ensures forall row: nat | row < 4 :: Of(KeyColumn(c, w), row) == Plus(Of(c, row), KeyByte(w, row))
  {
    hide Plus, KeyByte;
  }

  lemma MixedInColumn(c: Column, row: nat)
    requires row < 4
    ensures Of(MixColumn(c), row)
      == Plus(Plus(GMul(Of(c, row), 2), GMul(Of(c, On(row, 1)), 3)), Plus(Of(c, On(row, 2)), Of(c, On(row, 3))))
  {
    MatrixRows(c);
    OnValues(row);
    hide *;
    InFour(c);
    InFour(MixColumn(c));
    if row == 0 { } else if row == 1 { } else if row == 2 { } else { }
  }

  lemma InFour(c: Column)
    ensures Of(c, 0) == c.a0 && Of(c, 1) == c.a1 && Of(c, 2) == c.a2 && Of(c, 3) == c.a3
  {
  }

  lemma MatrixRows(c: Column)
    ensures var m := MixColumn(c);
      && m.a0 == Plus(Plus(GMul(c.a0, 2), GMul(c.a1, 3)), Plus(c.a2, c.a3))
      && m.a1 == Plus(Plus(GMul(c.a1, 2), GMul(c.a2, 3)), Plus(c.a3, c.a0))
      && m.a2 == Plus(Plus(GMul(c.a2, 2), GMul(c.a3, 3)), Plus(c.a0, c.a1))
      && m.a3 == Plus(Plus(GMul(c.a3, 2), GMul(c.a0, 3)), Plus(c.a1, c.a2))
  {
    MixColumnMatrix(c);
    hide *;
  }

  lemma OnValues(row: nat)
    requires row < 4
    ensures On(row, 1) == (if row == 3 then 0 else row + 1) && On(row, 2) == (if row >= 2 then row - 2 else row + 2)
    ensures On(row, 3) == (if row == 0 then 3 else row - 1)
  {
  }

  lemma MixedByte(s: Block, row: nat, col: nat)
    requires row < 4 && col < 4
    ensures At(Mixed(s), row, col)
      == Plus(Plus(GMul(At(s, row, col), 2), GMul(At(s, On(row, 1), col), 3)),
              Plus(At(s, On(row, 2), col), At(s, On(row, 3), col)))
  {
    hide Plus, GMul, MixColumn, Mixed, At, Of, On, ColumnAt;
    MixedColumns(s);
    assert ColumnAt(Mixed(s), col) == MixColumn(ColumnAt(s, col));
    MixedInColumn(ColumnAt(s, col), row);
    InColumn(Mixed(s), row, col);
    InColumn(s, row, col);
    InColumn(s, On(row, 1), col);
    InColumn(s, On(row, 2), col);
    InColumn(s, On(row, 3), col);
  }

  lemma ShiftedByte(s: Block, row: nat, col: nat)
    requires row < 4 && col < 4
    ensures At(Shifted(s), row, col) == At(s, row, On(col, row))
  {
    if col == 0 { } else if col == 1 { } else if col == 2 { } else { }
    if row == 0 { } else if row == 1 { } else if row == 2 { } else { }
  }

  /** The substituted and shifted state. */
  lemma DiagonalByte(s: Block, row: nat, col: nat)
    requires row < 4 && col < 4
    ensures At(Shifted(Substituted(s)), row, col) == SBox(At(s, row, On(col, row)))
  {
    hide SBox, Shifted, On;
    ShiftedByte(Substituted(s), row, col);
  }

  lemma OneRound(w: seq<bv32>, t: Block, at: nat, row: nat, col: nat)
    requires at + 4 <= |w| && row < 4 && col < 4
    ensures At(Keyed(Mixed(Shifted(Substituted(t))), w, at), row, col)
      == Plus(Plus(Plus(GMul(SBox(At(t, row, On(col, row))), 2), GMul(SBox(At(t, On(row, 1), On(col, On(row, 1)))), 3)),
                   Plus(SBox(At(t, On(row, 2), On(col, On(row, 2)))), SBox(At(t, On(row, 3), On(col, On(row, 3)))))),
              KeyByte(w[at + col], row))
  {
    hide Keyed, Mixed, Shifted, Substituted, SBox, GMul, Plus, KeyByte, At, On;
    var u := Shifted(Substituted(t));
    KeyedByte(Mixed(u), w, at, row, col);
    MixedByte(u, row, col);
    DiagonalByte(t, row, col);
    DiagonalByte(t, On(row, 1), col);
    DiagonalByte(t, On(row, 2), col);
    DiagonalByte(t, On(row, 3), col);
  }

  lemma {:induction false} RoundsMeaning(w: seq<bv32>, s: Block, r: nat, row: nat, col: nat)
    requires 4 * r + 4 <= |w| && row < 4 && col < 4
    ensures At(Rounds(w, s, r), row, col) == RoundByte(w, s, r, row, col)
    decreases r
  {
    hide Keyed, Mixed, Shifted, Substituted, SBox, GMul, Plus, KeyByte, At, On;
    if r == 0 {
      KeyedByte(s, w, 0, row, col);
    } else {
      OneRound(w, Rounds(w, s, r - 1), 4 * r, row, col);
      RoundsMeaning(w, s, r - 1, row, On(col, row));
      RoundsMeaning(w, s, r - 1, On(row, 1), On(col, On(row, 1)));
      RoundsMeaning(w, s, r - 1, On(row, 2), On(col, On(row, 2)));
      RoundsMeaning(w, s, r - 1, On(row, 3), On(col, On(row, 3)));
    }
  }

  /** Every byte of the ciphertext, for every key schedule: all but the last round mix the columns. */
  lemma EncryptedMeaning(k: Schedule, s: seq<byte>, row: nat, col: nat) returns (t: Block)
    requires k.Valid() && |s| == 16 && row < 4 && col < 4
    ensures forall i :: 0 <= i < 16 ==> t[i] as int == s[i]
    ensures var n := k.rounds;
      Encrypted(k, s)[4 * col + row] as int
        == Plus(SBox(RoundByte(k.rk, t, n - 1, row, On(col, row))), KeyByte(k.rk[4 * n + col], row)) as int
  {
    hide Keyed, Shifted, Substituted, SBox, Plus, KeyByte, ToNumber, ToBits, Rounds, RoundByte, On;
    t := BlockOf(s);
    forall i | 0 <= i < 16 ensures t[i] as int == s[i] {
      NumberIs(t[i]);
      ByteRoundTrip(s[i]);
    }
    var u := Rounds(k.rk, t, k.rounds - 1);
    KeyedByte(Shifted(Substituted(u)), k.rk, 4 * k.rounds, row, col);
    DiagonalByte(u, row, col);
    RoundsMeaning(k.rk, t, k.rounds - 1, row, On(col, row));
    NumberIs(At(Cipher(k, t), row, col));
  }

  // ---------- the in-place code ----------

  method AddRoundKey(s: array<bv8>, rk: array<bv32>, at: nat)
    requires s.Length == 16 && at + 4 <= rk.Length
    modifies s
    ensures s[..] == Keyed(old(s[..]), rk[..], at)
  {
    ghost var x := s[..];
    hide KeyColumn, Keyed, ColumnAt;
    var c := 0;
    while c < 4
      invariant 0 <= c <= 4
      invariant forall j: nat | j < 4 ::
        ColumnAt(s[..], j) == if j < c then KeyColumn(ColumnAt(x, j), rk[at + j]) else ColumnAt(x, j)
    {
      KeyOne(s, rk[at + c], c);
      c := c + 1;
    }
    KeyedColumns(x, s[..], rk[..], at);
  }

  lemma KeyedColumns(x: Block, t: Block, k: seq<bv32>, at: nat)
    requires at + 4 <= |k|
    requires forall j: nat | j < 4 :: ColumnAt(t, j) == KeyColumn(ColumnAt(x, j), k[at + j])
    ensures t == Keyed(x, k, at)
  {
    hide KeyColumn, ColumnAt, Flatten;
    FlattenColumns(t);
  }

  method KeyOne(s: array<bv8>, w: bv32, c: nat)
    requires s.Length == 16 && c < 4
    modifies s
    ensures forall j: nat | j < 4 ::
      ColumnAt(s[..], j) == if j == c then KeyColumn(old(ColumnAt(s[..], c)), w) else old(ColumnAt(s[..], j))
  {
    hide KeyByte, Plus;
    s[4 * c] := Plus(s[4 * c], KeyByte(w, 0));
    s[4 * c + 1] := Plus(s[4 * c + 1], KeyByte(w, 1));
    s[4 * c + 2] := Plus(s[4 * c + 2], KeyByte(w, 2));
    s[4 * c + 3] := Plus(s[4 * c + 3], KeyByte(w, 3));
  }

  method SubBytes(s: array<bv8>)
    requires s.Length == 16
    modifies s
    ensures s[..] == Substituted(old(s[..]))
  {
    hide SBox;
    ghost var x := s[..];
    var i := 0;
    while i < 16
      invariant 0 <= i <= 16
      invariant forall k :: 0 <= k < i ==> s[k] == SBox(x[k])
      invariant forall k :: i <= k < 16 ==> s[k] == x[k]
    {
      s[i] := SBox(s[i]);
      i := i + 1;
    }
  }

  method ShiftRows(s: array<bv8>)
    requires s.Length == 16
    modifies s
    ensures s[..] == Shifted(old(s[..]))
  {
    ShiftRow1(s);
    ShiftRow2(s);
    ShiftRow3(s);
  }

  /** Row 1 moves left by one. */
  method ShiftRow1(s: array<bv8>)
    requires s.Length == 16
    modifies s
    ensures s[..] == old(s[..])[1 := old(s[5])][5 := old(s[9])][9 := old(s[13])][13 := old(s[1])]
  {
    var t := s[1];
    s[1] := s[5];
    s[5] := s[9];
    s[9] := s[13];
    s[13] := t;
  }

  /** Row 2 moves left by two. */
  method ShiftRow2(s: array<bv8>)
    requires s.Length == 16
    modifies s
    ensures s[..] == old(s[..])[2 := old(s[10])][10 := old(s[2])][6 := old(s[14])][14 := old(s[6])]
  {
    var t := s[2];
    s[2] := s[10];
    s[10] := t;
    t := s[6];
    s[6] := s[14];
    s[14] := t;
  }

  /** Row 3 moves left by three, which is right by one. */
  method ShiftRow3(s: array<bv8>)
    requires s.Length == 16
    modifies s
    ensures s[..] == old(s[..])[15 := old(s[11])][11 := old(s[7])][7 := old(s[3])][3 := old(s[15])]
  {
    var t := s[15];
    s[15] := s[11];
    s[11] := s[7];
    s[7] := s[3];
    s[3] := t;
  }

  method MixColumns(s: array<bv8>)
    requires s.Length == 16
    modifies s
    ensures s[..] == Mixed(old(s[..]))
  {
    ghost var x := s[..];
    hide MixColumn, Mixed, Flatten;
    var c := 0;
    while c < 4
      invariant 0 <= c <= 4
      invariant forall j: nat | j < 4 ::
        ColumnAt(s[..], j) == if j < c then MixColumn(ColumnAt(x, j)) else ColumnAt(x, j)
    {
      MixOne(s, c);
      c := c + 1;
    }
    MixedColumns(x);
    FlattenColumns(s[..]);
    FlattenColumns(Mixed(x));
  }

  method MixOne(s: array<bv8>, c: nat)
    requires s.Length == 16 && c < 4
    modifies s
    ensures forall j: nat | j < 4 ::
      ColumnAt(s[..], j) == if j == c then MixColumn(old(ColumnAt(s[..], c))) else old(ColumnAt(s[..], j))
  {
    hide XTime, Plus;
    var a0, a1, a2, a3 := s[4 * c], s[4 * c + 1], s[4 * c + 2], s[4 * c + 3];
    var all := Plus(Plus(Plus(a0, a1), a2), a3);
    s[4 * c] := Plus(s[4 * c], Plus(all, XTime(Plus(a0, a1))));
    s[4 * c + 1] := Plus(s[4 * c + 1], Plus(all, XTime(Plus(a1, a2))));
    s[4 * c + 2] := Plus(s[4 * c + 2], Plus(all, XTime(Plus(a2, a3))));
    s[4 * c + 3] := Plus(s[4 * c + 3], Plus(all, XTime(Plus(a3, a0))));
  }

  /** An aes_ctx_t: the round keys and the number of rounds. */
  class AesCtx {
    const rk: array<bv32>
    var rounds: nat

    constructor ()
      ensures fresh(rk) && rk.Length == 60 && rounds == 0
    {
      rk := new bv32[60](_ => 0);
      rounds := 0;
    }

    ghost predicate Cleared()
      reads this, rk
    {
      rounds == 0 && forall i :: 0 <= i < rk.Length ==> rk[i] == 0
    }

    method Clear()
      modifies this, rk
      ensures Cleared()
    {
      rounds := 0;
      forall i | 0 <= i < rk.Length { rk[i] := 0; }
    }

    ghost predicate Valid()
      reads this
    {
      rk.Length == 60 && rounds in {10, 12, 14}
    }

    ghost function Key(): (k: Schedule)
      requires Valid()
      reads this, rk
      ensures k.Valid()
    {
      Schedule(rk[..4 * (rounds + 1)], rounds)
    }

    /** aes_set_encrypt_key: fails exactly for a key size that is not 128, 192 or 256. */
    method SetEncryptKey(key: seq<byte>, keyBits: int) returns (ok: bool)
      requires rk.Length == 60 && (keyBits in {128, 192, 256} ==> 8 * |key| == keyBits)
      modifies this, rk
      ensures ok <==> keyBits in {128, 192, 256}
      ensures ok ==> Valid() && Key() == ScheduleOf(key, keyBits / 32)
      ensures !ok ==> rounds == old(rounds) && rk[..] == old(rk[..])
    {
      if keyBits != 128 && keyBits != 192 && keyBits != 256 { return false; }
      var nk := if keyBits == 128 then 4 else if keyBits == 192 then 6 else 8;
      rounds := nk + 6;
      LoadKey(key, nk);
      Expand(key, nk);
      hide Expanded;
      assert rk[..4 * (rounds + 1)] == ScheduleOf(key, nk).rk;
      ok := true;
    }

    method Expand(key: seq<byte>, nk: nat)
      requires rk.Length == 60 && nk in {4, 6, 8} && |key| == 4 * nk
      requires forall k :: 0 <= k < nk ==> rk[k] == Expanded(key, nk, k)
      modifies rk
      ensures forall k :: 0 <= k < 4 * (nk + 7) ==> rk[k] == Expanded(key, nk, k)
    {
      hide Expanded, ScheduleStep, Xor32;
      var i, total := nk, 4 * (nk + 7);
      while i < total
        invariant nk <= i <= total
        invariant forall k :: 0 <= k < i ==> rk[k] == Expanded(key, nk, k)
      {
        var temp := NextTemp(rk[i - 1], nk, i);
        ExpandedNext(key, nk, i);
        rk[i] := Xor32(rk[i - nk], temp);
        i := i + 1;
      }
    }

    method LoadKey(key: seq<byte>, nk: nat)
      requires rk.Length == 60 && nk in {4, 6, 8} && |key| == 4 * nk
      modifies rk
      ensures forall k :: 0 <= k < nk ==> rk[k] == Expanded(key, nk, k)
    {
      hide KeyWord;
      var i := 0;
      while i < nk
        invariant 0 <= i <= nk
        invariant forall k :: 0 <= k < i ==> rk[k] == Expanded(key, nk, k)
      {
        rk[i] := KeyWord(key, i);
        i := i + 1;
      }
    }

    /** aes_encrypt_block */
    method EncryptBlock(input: array<byte>, out: array<byte>)
      requires Valid() && input.Length == 16 && out.Length == 16
      modifies out
      ensures out[..] == Encrypted(Key(), old(input[..]))
    {
      hide Keyed, Mixed, Shifted, Substituted, BytesOf, BlockOf;
      var s := Load(input);
      ghost var x := s[..];
      AddRoundKey(s, rk, 0);
      var r := 1;
      while r < rounds
        invariant 1 <= r <= rounds
        invariant s[..] == Rounds(rk[..], x, r - 1)
      {
        SubBytes(s);
        ShiftRows(s);
        MixColumns(s);
        AddRoundKey(s, rk, 4 * r);
        r := r + 1;
      }
      SubBytes(s);
      ShiftRows(s);
      AddRoundKey(s, rk, 4 * rounds);
      PrefixCipher(rk[..], x, rounds);
      Store(out, s[..]);
    }
  }

  lemma ExpandedNext(key: seq<byte>, nk: nat, i: nat)
    requires nk in {4, 6, 8} && |key| == 4 * nk && nk <= i < 4 * (nk + 7)
    ensures Expanded(key, nk, i) == Xor32(Expanded(key, nk, i - nk), ScheduleStep(Expanded(key, nk, i - 1), nk, i))
  {
    hide ScheduleStep, Xor32;
  }

  method NextTemp(prev: bv32, nk: nat, i: nat) returns (temp: bv32)
    requires nk in {4, 6, 8} && i < 4 * (nk + 7)
    ensures temp == ScheduleStep(prev, nk, i)
  {
    hide Xor32, SubWord, RotWord, RconWord;
    RconIndex(nk, i);
    temp := prev;
    if i % nk == 0 {
      temp := Xor32(SubWord(RotWord(temp)), RconWord(i / nk));
    } else if nk > 6 && i % nk == 4 {
      temp := SubWord(temp);
    }
  }

  /** Only the first 4 (rounds + 1) words of the key array matter. */
  lemma PrefixCipher(rk: seq<bv32>, s: Block, n: nat)
    requires n in {10, 12, 14} && 4 * (n + 1) <= |rk|
    ensures Cipher(Schedule(rk[..4 * (n + 1)], n), s)
      == Keyed(Shifted(Substituted(Rounds(rk, s, n - 1))), rk, 4 * n)
  {
    hide Shifted, Substituted, Rounds;
    PrefixRounds(rk, s, n - 1, 4 * (n + 1));
  }

  lemma {:induction false} PrefixRounds(rk: seq<bv32>, s: Block, r: nat, m: nat)
    requires 4 * r + 4 <= m <= |rk|
    ensures Rounds(rk[..m], s, r) == Rounds(rk, s, r)
  {
    hide Shifted, Substituted, Mixed, Keyed;
    if r > 0 {
      PrefixRounds(rk, s, r - 1, m);
      PrefixKeyed(rk, Mixed(Shifted(Substituted(Rounds(rk, s, r - 1)))), 4 * r, m);
    } else {
      PrefixKeyed(rk, s, 0, m);
    }
  }

  lemma PrefixKeyed(rk: seq<bv32>, s: Block, at: nat, m: nat)
    requires at + 4 <= m <= |rk|
    ensures Keyed(s, rk[..m], at) == Keyed(s, rk, at)
  {
    hide KeyByte;
  }

  method Load(input: array<byte>) returns (s: array<bv8>)
    requires input.Length == 16
    ensures fresh(s) && s.Length == 16 && s[..] == BlockOf(input[..])
  {
    hide ToBits;
    s := new bv8[16];
    var i := 0;
    while i < 16
      invariant 0 <= i <= 16
      invariant forall k :: 0 <= k < i ==> s[k] == ToBits(input[k])
    {
      s[i] := ToBits(input[i]);
      i := i + 1;
    }
  }

  method Store(out: array<byte>, s: Block)
    requires out.Length == 16
    modifies out
    ensures out[..] == BytesOf(s)
  {
    hide ToNumber;
    var i := 0;
    while i < 16
      invariant 0 <= i <= 16
      invariant forall k :: 0 <= k < i ==> out[k] == ToNumber(s[k])
    {
      out[i] := ToNumber(s[i]);
      i := i + 1;
    }
  }
}
