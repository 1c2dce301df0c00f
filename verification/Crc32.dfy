/**
 The CRC-32 that seals the slot block (section 8 of RFC 1952), one bit at a time, and the error
 detection that follows from its bit step being linear and one-to-one.
 */
module Crc32 {
  const POLY: bv32 := 0xedb8_8320

  // Named so that proofs can treat them as opaque operations with the laws below.
  function Xor(a: bv32, b: bv32): bv32 { a ^ b }

  function Wide(p: bv8): bv32 { p as bv32 }

  function Not(a: bv32): bv32 { !a }

  function Double(a: bv32): bv32 { a << 1 }

  function Init(): bv32 { 0xffff_ffff }

  function BitStep(c: bv32): bv32 {
    (c >> 1) ^ (POLY & (0 - (c & 1)))
  }

  function Steps(c: bv32, n: nat): bv32
    decreases n
  {
    if n == 0 then c else Steps(BitStep(c), n - 1)
  }

  function ByteStep(c: bv32, p: bv8): bv32 {
    Steps(Xor(c, Wide(p)), 8)
  }

  /** The register after feeding the bytes `p`. */
  function Feed(c: bv32, p: seq<bv8>): bv32
    decreases |p|
  {
    if p == [] then c else Feed(ByteStep(c, p[0]), p[1..])
  }

  function Crc(p: seq<bv8>): bv32 {
    Not(Feed(Init(), p))
  }

  /** `crc32_le`. */
  method Compute(p: seq<bv8>) returns (crc: bv32)
    ensures crc == Crc(p)
  {
    hide BitStep, Xor, Wide, Init, Not;
    crc := Init();
    for i := 0 to |p|
      invariant Feed(crc, p[i..]) == Feed(Init(), p)
    {
      ghost var start := crc;
      crc := Xor(crc, Wide(p[i]));
      for j := 0 to 8
        invariant Steps(crc, 8 - j) == ByteStep(start, p[i])
      {
        crc := BitStep(crc);
      }
      assert p[i..][1..] == p[i + 1..];
    }
    crc := Not(crc);
  }

  // ----- the check value

  lemma ByteValue(c: bv32, p: bv8, s: seq<bv32>)
    requires |s| == 9 && s[0] == Xor(c, Wide(p))
    requires forall i :: 0 <= i < 8 ==> s[i + 1] == BitStep(s[i])
    ensures ByteStep(c, p) == s[8]
  {
    hide BitStep, Xor, Wide;
    StepsAlong(s, 0);
  }

  lemma {:induction false} StepsAlong(s: seq<bv32>, k: nat)
    requires k < |s| && forall i :: 0 <= i < |s| - 1 ==> s[i + 1] == BitStep(s[i])
    ensures Steps(s[k], |s| - 1 - k) == s[|s| - 1]
    decreases |s| - k
  {
    if k + 1 < |s| {
      hide BitStep;
      StepsAlong(s, k + 1);
    }
  }

  lemma Digit1()
    ensures ByteStep(0xffff_ffff, 0x31) == 0x7c23_1048
  {
    ByteValue(0xffff_ffff, 0x31, [0xffff_ffce, 0x7fff_ffe7, 0xd247_7cd3, 0x849b_3d49,
                                   0xaff5_1d84, 0x57fa_8ec2, 0x2bfd_4761, 0xf846_2090, 0x7c23_1048]);
  }

  lemma Digit2()
    ensures ByteStep(0x7c23_1048, 0x32) == 0xb0ac_bb32
  {
    ByteValue(0x7c23_1048, 0x32, [0x7c23_107a, 0x3e11_883d, 0xf2b0_473e, 0x7958_239f,
                                   0xd114_92ef, 0x8532_ca57, 0xaf21_e60b, 0xba28_7025, 0xb0ac_bb32]);
  }

  lemma Digit3()
    ensures ByteStep(0xb0ac_bb32, 0x33) == 0x77b7_9c2d
  {
    ByteValue(0xb0ac_bb32, 0x33, [0xb0ac_bb01, 0xb5ee_dea0, 0x5af7_6f50, 0x2d7b_b7a8,
                                   0x16bd_dbd4, 0x0b5e_edea, 0x05af_76f5, 0xef6f_385a, 0x77b7_9c2d]);
  }

  lemma Digit4()
    ensures ByteStep(0x77b7_9c2d, 0x34) == 0x641c_1f5c
  {
    ByteValue(0x77b7_9c2d, 0x34, [0x77b7_9c19, 0xd663_4d2c, 0x6b31_a696, 0x3598_d34b,
                                   0xf774_ea85, 0x9602_f662, 0x4b01_7b31, 0xc838_3eb8, 0x641c_1f5c]);
  }

  lemma Digit5()
    ensures ByteStep(0x641c_1f5c, 0x35) == 0x340a_c5e3
  {
    ByteValue(0x641c_1f5c, 0x35, [0x641c_1f69, 0xdfb6_8c94, 0x6fdb_464a, 0x37ed_a325,
                                   0xf64e_52b2, 0x7b27_2959, 0xd02b_178c, 0x6815_8bc6, 0x340a_c5e3]);
  }

  lemma Digit6()
    ensures ByteStep(0x340a_c5e3, 0x36) == 0xf68d_2c9e
  {
    ByteValue(0x340a_c5e3, 0x36, [0x340a_c5d5, 0xf7bd_e1ca, 0x7bde_f0e5, 0xd057_fb52,
                                   0x682b_fda9, 0xd9ad_7df4, 0x6cd6_befa, 0x366b_5f7d, 0xf68d_2c9e]);
  }

  lemma Digit7()
    ensures ByteStep(0xf68d_2c9e, 0x37) == 0xaffc_9660
  {
    ByteValue(0xf68d_2c9e, 0x37, [0xf68d_2ca9, 0x96fe_1574, 0x4b7f_0aba, 0x25bf_855d,
                                   0xff67_418e, 0x7fb3_a0c7, 0xd261_5343, 0x8488_2a81, 0xaffc_9660]);
  }

  lemma Digit8()
    ensures ByteStep(0xaffc_9660, 0x38) == 0x651f_2550
  {
    ByteValue(0xaffc_9660, 0x38, [0xaffc_9658, 0x57fe_4b2c, 0x2bff_2596, 0x15ff_92cb,
                                   0xe747_4a45, 0x9e1b_2602, 0x4f0d_9301, 0xca3e_4aa0, 0x651f_2550]);
  }

  lemma Digit9()
    ensures ByteStep(0x651f_2550, 0x39) == 0x340b_c6d9
  {
    ByteValue(0x651f_2550, 0x39, [0x651f_2569, 0xdf37_1194, 0x6f9b_88ca, 0x37cd_c465,
                                   0xf65e_6112, 0x7b2f_3089, 0xd02f_1b64, 0x6817_8db2, 0x340b_c6d9]);
  }

  lemma FeedFrom(c: bv32, p: seq<bv8>, k: nat)
    requires k < |p|
    ensures Feed(c, p[k..]) == Feed(ByteStep(c, p[k]), p[k + 1..])
  {
    hide ByteStep;
    assert p[k..][1..] == p[k + 1..];
  }

  lemma FeedEnds(c: bv32, p: seq<bv8>)
    ensures p[0..] == p && Feed(c, p[|p|..]) == c
  {
  }

  /** The check value of this CRC: that of the digits `123456789`. It fixes the polynomial, the bit order,
      the initial value and the final complement. */
  lemma CheckValue()
    ensures Crc([0x31, 0x32, 0x33, 0x34, 0x35, 0x36, 0x37, 0x38, 0x39]) == 0xcbf4_3926
  {
    hide ByteStep, Feed;
    var p: seq<bv8> := [0x31, 0x32, 0x33, 0x34, 0x35, 0x36, 0x37, 0x38, 0x39];
    Digit1();
    FeedFrom(0xffff_ffff, p, 0);
    Digit2();
    FeedFrom(0x7c23_1048, p, 1);
    Digit3();
    FeedFrom(0xb0ac_bb32, p, 2);
    Digit4();
    FeedFrom(0x77b7_9c2d, p, 3);
    Digit5();
    FeedFrom(0x641c_1f5c, p, 4);
    Digit6();
    FeedFrom(0x340a_c5e3, p, 5);
    Digit7();
    FeedFrom(0xf68d_2c9e, p, 6);
    Digit8();
    FeedFrom(0xaffc_9660, p, 7);
    Digit9();
    FeedFrom(0x651f_2550, p, 8);
    FeedEnds(Init(), p);
    FeedEnds(0x340b_c6d9, p);
  }

  // ----- laws of the operations

  lemma XorAssoc(a: bv32, b: bv32, c: bv32)
    ensures Xor(Xor(a, b), c) == Xor(a, Xor(b, c))
  {
  }

  lemma XorCancel(a: bv32, b: bv32, x: bv32)
    requires Xor(a, x) == Xor(b, x) || Xor(x, a) == Xor(x, b)
    ensures a == b
  {
  }

  lemma NotInjective(a: bv32, b: bv32)
    requires Not(a) == Not(b)
    ensures a == b
  {
  }

  lemma BitStepLinear(a: bv32, b: bv32)
    ensures BitStep(Xor(a, b)) == Xor(BitStep(a), BitStep(b))
  {
    assert (a & 1 == 0 || a & 1 == 1) && (b & 1 == 0 || b & 1 == 1);
    assert (a ^ b) & 1 == (a & 1) ^ (b & 1);
    assert (a ^ b) >> 1 == (a >> 1) ^ (b >> 1);
  }

  lemma BitStepInjective(a: bv32, b: bv32)
    requires BitStep(a) == BitStep(b)
    ensures a == b
  {
  }

  lemma {:induction false} StepsLinear(a: bv32, b: bv32, n: nat)
    ensures Steps(Xor(a, b), n) == Xor(Steps(a, n), Steps(b, n))
    decreases n
  {
    hide BitStep, Xor;
    if n > 0 {
      BitStepLinear(a, b);
      StepsLinear(BitStep(a), BitStep(b), n - 1);
    }
  }

  lemma {:induction false} StepsInjective(a: bv32, b: bv32, n: nat)
    requires Steps(a, n) == Steps(b, n)
    ensures a == b
    decreases n
  {
    hide BitStep;
    if n > 0 {
      StepsInjective(BitStep(a), BitStep(b), n - 1);
      BitStepInjective(a, b);
    }
  }

  lemma {:induction false} StepsAdd(c: bv32, m: nat, n: nat)
    ensures Steps(Steps(c, m), n) == Steps(c, m + n)
    decreases m
  {
    hide BitStep;
    if m > 0 {
      StepsAdd(BitStep(c), m - 1, n);
    }
  }

  // ----- a register whose low bits are clear is only shifted

  function Up(x: bv32, k: nat): bv32 {
    if k == 0 then x else Double(Up(x, k - 1))
  }

  function TopBits(k: nat): bv32 {
    if k == 0 then 0 else if k == 1 then 0x8000_0000 else if k == 2 then 0xc000_0000
    else if k == 3 then 0xe000_0000 else if k == 4 then 0xf000_0000 else if k == 5 then 0xf800_0000
    else if k == 6 then 0xfc00_0000 else if k == 7 then 0xfe00_0000 else 0xff00_0000
  }

  /** The top `k` bits are clear. */
  predicate Room(x: bv32, k: nat) { x & TopBits(k) == 0 }

  lemma RoomStep(x: bv32, k: nat)
    requires 1 <= k <= 8 && Room(x, k)
    ensures Room(x, 1) && Room(Double(x), k - 1)
  {
  }

  lemma {:induction false} RoomUp(x: bv32, j: nat, k: nat)
    requires j <= k <= 8 && Room(x, k)
    ensures Room(Up(x, j), k - j)
  {
    hide Room, Double;
    if j > 0 {
      RoomUp(x, j - 1, k);
      RoomStep(Up(x, j - 1), k - j + 1);
    }
  }

  lemma HalveDouble(y: bv32)
    requires Room(y, 1)
    ensures BitStep(Double(y)) == y
  {
  }

  lemma {:induction false} StepsUp(x: bv32, k: nat)
    requires k <= 8 && Room(x, 8)
    ensures Steps(Up(x, k), k) == x
  {
    hide BitStep, Room, Double;
    if k > 0 {
      RoomUp(x, k - 1, 8);
      RoomStep(Up(x, k - 1), 8 - (k - 1));
      HalveDouble(Up(x, k - 1));
      StepsUp(x, k - 1);
    }
  }

  // ----- four bytes at once

  /** The byte `p` below the bytes `t`. */
  function Below(p: bv8, t: bv32): bv32 {
    Xor(Wide(p), Up(t, 8))
  }

  /** Little-endian word of four bytes. */
  function Word(a: bv8, b: bv8, c: bv8, d: bv8): bv32 {
    Below(a, Below(b, Below(c, Wide(d))))
  }

  function Shl(x: bv32, k: nat): bv32
    requires k <= 8
  {
    if k == 0 then x else if k == 1 then x << 1 else if k == 2 then x << 2 else if k == 3 then x << 3
    else if k == 4 then x << 4 else if k == 5 then x << 5 else if k == 6 then x << 6
    else if k == 7 then x << 7 else x << 8
  }

  lemma DoubleShifts(x: bv32)
    ensures Double(x) == x << 1 && Double(x << 1) == x << 2 && Double(x << 2) == x << 3 && Double(x << 3) == x << 4
    ensures Double(x << 4) == x << 5 && Double(x << 5) == x << 6 && Double(x << 6) == x << 7 && Double(x << 7) == x << 8
  {
  }

  lemma ShlStep(x: bv32, k: nat)
    requires k < 8
    ensures Double(Shl(x, k)) == Shl(x, k + 1)
  {
    hide Double;
    DoubleShifts(x);
  }

  lemma {:induction false} UpIsShl(x: bv32, k: nat)
    requires k <= 8
    ensures Up(x, k) == Shl(x, k)
  {
    if k > 0 {
      hide Double, Shl;
      UpIsShl(x, k - 1);
      ShlStep(x, k - 1);
    }
  }

  lemma UpEight(x: bv32)
    ensures Up(x, 8) == x << 8
  {
    hide Up;
    UpIsShl(x, 8);
  }

  lemma BelowInjective(p: bv8, t: bv32, p': bv8, t': bv32)
    requires Room(t, 8) && Room(t', 8) && Below(p, t) == Below(p', t')
    ensures p == p' && t == t'
  {
    hide Up;
    UpEight(t);
    UpEight(t');
  }

  lemma BelowRoom(b: bv8, c: bv8, d: bv8)
    ensures Room(Wide(d), 8) && Room(Below(c, Wide(d)), 8) && Room(Below(b, Below(c, Wide(d))), 8)
  {
    hide Up;
    UpEight(Wide(d));
    UpEight(Below(c, Wide(d)));
  }

  lemma WideInjective(p: bv8, q: bv8)
    requires Wide(p) == Wide(q)
    ensures p == q
  {
  }

  lemma WordInjective(a: bv8, b: bv8, c: bv8, d: bv8, a': bv8, b': bv8, c': bv8, d': bv8)
    requires Word(a, b, c, d) == Word(a', b', c', d')
    ensures a == a' && b == b' && c == c' && d == d'
  {
    hide Below, Wide, Room;
    BelowRoom(b, c, d);
    BelowRoom(b', c', d');
    BelowInjective(a, Below(b, Below(c, Wide(d))), a', Below(b', Below(c', Wide(d'))));
    BelowInjective(b, Below(c, Wide(d)), b', Below(c', Wide(d')));
    BelowInjective(c, Wide(d), c', Wide(d'));
    WideInjective(d, d');
  }

  /** Eight steps with a byte and what lies above it mixed in feed the byte and bring the rest down. */
  lemma Peel(s: bv32, p: bv8, t: bv32)
    requires Room(t, 8)
    ensures Steps(Xor(s, Below(p, t)), 8) == Xor(ByteStep(s, p), t)
  {
    hide Xor, Wide, Room, Up, Steps;
    XorAssoc(s, Wide(p), Up(t, 8));
    StepsLinear(Xor(s, Wide(p)), Up(t, 8), 8);
    StepsUp(t, 8);
  }

  /** Four bytes fed one by one are one 32-step move of the register with the whole word mixed in. */
  lemma FeedWord(s: bv32, a: bv8, b: bv8, c: bv8, d: bv8)
    ensures ByteStep(ByteStep(ByteStep(ByteStep(s, a), b), c), d) == Steps(Xor(s, Word(a, b, c, d)), 32)
  {
    hide Xor, Wide, Room, Below, Steps;
    var (t3, t2) := (Wide(d), Below(c, Wide(d)));
    var t1 := Below(b, t2);
    BelowRoom(b, c, d);
    var s1 := ByteStep(s, a);
    var s2 := ByteStep(s1, b);
    var s3 := ByteStep(s2, c);
    Peel(s, a, t1);
    Peel(s1, b, t2);
    Peel(s2, c, t3);
    StepsAdd(Xor(s, Below(a, t1)), 8, 24);
    StepsAdd(Xor(s1, t1), 8, 16);
    StepsAdd(Xor(s2, t2), 8, 8);
  }

  // ----- error detection

  lemma {:induction false} FeedAppend(s: bv32, p: seq<bv8>, q: seq<bv8>)
    ensures Feed(s, p + q) == Feed(Feed(s, p), q)
    decreases |p|
  {
    hide ByteStep;
    if p == [] {
      assert p + q == q;
    } else {
      assert (p + q)[1..] == p[1..] + q;
      FeedAppend(ByteStep(s, p[0]), p[1..], q);
    }
  }

  lemma {:induction false} FeedInjective(s: bv32, t: bv32, p: seq<bv8>)
    requires Feed(s, p) == Feed(t, p)
    ensures s == t
    decreases |p|
  {
    hide Steps, Xor, Wide;
    if p != [] {
      FeedInjective(ByteStep(s, p[0]), ByteStep(t, p[0]), p[1..]);
      StepsInjective(Xor(s, Wide(p[0])), Xor(t, Wide(p[0])), 8);
      XorCancel(s, t, Wide(p[0]));
    }
  }

  lemma FeedFour(s: bv32, p: seq<bv8>)
    requires |p| == 4
    ensures Feed(s, p) == Steps(Xor(s, Word(p[0], p[1], p[2], p[3])), 32)
  {
    hide Steps, ByteStep, Word, Xor;
    var (a, b, c, d) := (p[0], p[1], p[2], p[3]);
    var s1 := ByteStep(s, a);
    var s2 := ByteStep(s1, b);
    var s3 := ByteStep(s2, c);
    assert Feed(s, p) == Feed(s1, p[1..]) && p[1..] == [b, c, d];
    assert Feed(s1, [b, c, d]) == Feed(s2, [b, c, d][1..]) && [b, c, d][1..] == [c, d];
    assert Feed(s2, [c, d]) == Feed(s3, [c, d][1..]) && [c, d][1..] == [d];
    assert Feed(s3, [d]) == Feed(ByteStep(s3, d), [d][1..]) && [d][1..] == [];
    FeedWord(s, a, b, c, d);
  }

  /** From the same register, two different groups of four bytes lead to different registers. */
  lemma FeedFourInjective(s: bv32, p: seq<bv8>, q: seq<bv8>)
    requires |p| == 4 && |q| == 4 && Feed(s, p) == Feed(s, q)
    ensures p == q
  {
    hide Feed, Steps, Word, Xor;
    var w, w' := Word(p[0], p[1], p[2], p[3]), Word(q[0], q[1], q[2], q[3]);
    FeedFour(s, p);
    FeedFour(s, q);
    StepsInjective(Xor(s, w), Xor(s, w'), 32);
    XorCancel(w, w', s);
    WordInjective(p[0], p[1], p[2], p[3], q[0], q[1], q[2], q[3]);
  }

  lemma FeedParts(s: bv32, pre: seq<bv8>, p: seq<bv8>, post: seq<bv8>)
    ensures Feed(s, pre + (p + post)) == Feed(Feed(Feed(s, pre), p), post)
  {
    hide Feed;
    FeedAppend(s, pre, p + post);
    FeedAppend(Feed(s, pre), p, post);
  }

  /** Two messages that differ only inside four consecutive bytes have different checksums. */
  lemma BurstDetected(x: seq<bv8>, y: seq<bv8>, w: nat)
    requires |x| == |y| && w + 4 <= |x|
    requires forall i :: 0 <= i < |x| && !(w <= i < w + 4) ==> x[i] == y[i]
    requires Crc(x) == Crc(y)
    ensures x == y
  {
    hide Feed, Not, Init;
    var (pre, p, q, post) := (x[..w], x[w..w + 4], y[w..w + 4], x[w + 4..]);
    var init := Init();
    assert x == pre + (p + post);
    assert y == pre + (q + post);
    NotInjective(Feed(init, x), Feed(init, y));
    FeedParts(init, pre, p, post);
    FeedParts(init, pre, q, post);
    FeedInjective(Feed(Feed(init, pre), p), Feed(Feed(init, pre), q), post);
    FeedFourInjective(Feed(init, pre), p, q);
  }
}
