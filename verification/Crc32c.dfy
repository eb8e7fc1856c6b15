/** CRC32C: the bit-serial division, the 256-entry table and the 8-byte stride are one function. */
module Crc32c {
  const INITIAL: bv32 := 0xFFFF_FFFF

  // --------------------------------------------- words over GF(2)

  function Plus(a: bv32, b: bv32): bv32 { a ^ b }

  function Half(t: bv32): bv32 { t >> 1 }

  predicate Odd(t: bv32) { t & 1 == 1 }

  function Extend(d: bv8): bv32 { d as bv32 }

  function Halves(t: bv32, n: nat): bv32
    decreases n
  {
    if n == 0 then t else Halves(Half(t), n - 1)
  }

  // The n low bits are zero.
  predicate Clear(t: bv32, n: nat)
    decreases n
  {
    n == 0 || (!Odd(t) && Clear(Half(t), n - 1))
  }

  lemma PlusZero(c: bv32)
    ensures Plus(c, 0) == c
  {
  }

  // --------------------------------------------- the division

  // One step of the division by the reflected polynomial 0x82F63B78.
  function Bit(c: bv32): bv32 { (c >> 1) ^ (if c & 1 == 1 then 0x82F6_3B78 else 0) }

  // n steps.
  function Bits(x: bv32, n: nat): bv32
    decreases n
  {
    if n == 0 then x else Bits(Bit(x), n - 1)
  }

  // The register after one byte.
  function Step(c: bv32, d: bv8): bv32 { Bits(Plus(c, Extend(d)), 8) }

  // The register after a buffer.
  function Crc(c: bv32, data: seq<bv8>): bv32
    decreases |data|
  {
    if |data| == 0 then c else Crc(Step(c, data[0]), data[1..])
  }

  // What generate_crc32c returns.
  function Checksum(data: seq<bv8>): bv32 { Flip(Crc(INITIAL, data)) }

  function Flip(c: bv32): bv32 { !c }

  lemma FlipTwice(c: bv32)
    ensures Flip(Flip(c)) == c
  {
  }

  // Further bytes leave the checksum as it is exactly when they leave the register as it is.
  lemma SameChecksum(data: seq<bv8>, more: seq<bv8>)
    ensures Checksum(data + more) == Checksum(data) <==> Crc(Crc(INITIAL, data), more) == Crc(INITIAL, data)
  {
    hide Crc, Flip;
    Chain(INITIAL, data, more);
    FlipTwice(Crc(INITIAL, data));
    FlipTwice(Crc(INITIAL, data + more));
  }

  lemma {:induction false} Chain(c: bv32, a: seq<bv8>, b: seq<bv8>)
    ensures Crc(c, a + b) == Crc(Crc(c, a), b)
    decreases |a|
  {
    hide Step;
    if |a| == 0 {
      assert a + b == b;
    } else {
      assert (a + b)[1..] == a[1..] + b;
      Chain(Step(c, a[0]), a[1..], b);
    }
  }

  lemma BitIs(x: bv32)
    ensures Bit(x) == (x >> 1) ^ (if x & 1 == 1 then 0x82F6_3B78 else 0)
  {
  }

  lemma BitSum(a: bv32, b: bv32, z: bv32)
    requires z == a ^ b
    ensures Bit(z) == Bit(a) ^ Bit(b)
  {
    if a & 1 == 1 {
      if b & 1 == 1 {
        assert z & 1 == 0;
      } else {
        assert z & 1 == 1;
      }
    } else {
      if b & 1 == 1 {
        assert z & 1 == 1;
      } else {
        assert z & 1 == 0;
      }
    }
  }

  // The division is linear.
  lemma {:induction false} BitsAdd(a: bv32, b: bv32, n: nat)
    ensures Bits(Plus(a, b), n) == Plus(Bits(a, n), Bits(b, n))
    decreases n
  {
    hide Bit, Plus;
    if n > 0 {
      BitAdd(a, b);
      BitsAdd(Bit(a), Bit(b), n - 1);
    }
  }

  lemma BitAdd(a: bv32, b: bv32)
    ensures Bit(Plus(a, b)) == Plus(Bit(a), Bit(b))
  {
    hide Bit;
    BitSum(a, b, Plus(a, b));
  }

  lemma BitOfEven(t: bv32)
    requires !Odd(t)
    ensures Bit(t) == Half(t)
  {
  }

  // Dividing zero bits only shifts.
  lemma {:induction false} BitsOfClear(t: bv32, n: nat)
    requires Clear(t, n)
    ensures Bits(t, n) == Halves(t, n)
    decreases n
  {
    hide Bit, Half, Odd;
    if n > 0 {
      BitOfEven(t);
      BitsOfClear(Half(t), n - 1);
    }
  }

  // --------------------------------------------- the step is a bijection

  function Unbit(y: bv32): bv32 {
    if y & 0x8000_0000 == 0 then y << 1 else ((y ^ 0x82F6_3B78) << 1) | 1
  }

  lemma UnbitValues(x: bv32, y: bv32, z: bv32)
    requires y == Bit(x) && z == Unbit(y)
    ensures z == x
  {
    if x & 1 == 1 {
      assert y & 0x8000_0000 != 0;
    } else {
      assert y & 0x8000_0000 == 0;
    }
  }

  lemma UnbitBit(x: bv32)
    ensures Unbit(Bit(x)) == x
  {
    hide Bit, Unbit;
    UnbitValues(x, Bit(x), Unbit(Bit(x)));
  }

  lemma UnbitValue(x: bv32, y: bv32)
    requires x == Unbit(y)
    ensures y == (x >> 1) ^ (if x & 1 == 1 then 0x82F6_3B78 else 0)
  {
    if y & 0x8000_0000 == 0 {
    } else {
    }
  }

  lemma BitUnbit(x: bv32, y: bv32)
    requires x == Unbit(y)
    ensures Bit(x) == y
  {
    hide Bit, Unbit;
    UnbitValue(x, y);
    BitIs(x);
  }

  function Unbits(y: bv32, n: nat): bv32
    decreases n
  {
    if n == 0 then y else Unbit(Unbits(y, n - 1))
  }

  lemma {:induction false} UnbitsBits(x: bv32, n: nat)
    ensures Unbits(Bits(x, n), n) == x
    decreases n
  {
    hide Unbit, Bit;
    if n > 0 {
      UnbitsBits(Bit(x), n - 1);
      UnbitBit(x);
    }
  }

  lemma {:induction false} BitsUnbits(y: bv32, n: nat)
    ensures Bits(Unbits(y, n), n) == y
    decreases n
  {
    hide Unbit, Bit;
    if n > 0 {
      BitUnbit(Unbits(y, n), Unbits(y, n - 1));
      BitsUnbits(y, n - 1);
    }
  }

  function Unstep(y: bv32, d: bv8): bv32 { Plus(Unbits(y, 8), Extend(d)) }

  lemma PlusTwice(a: bv32, b: bv32)
    ensures Plus(Plus(a, b), b) == a
  {
  }

  // For every byte, the step is a bijection of the register.
  lemma StepBijective(c: bv32, d: bv8)
    ensures Unstep(Step(c, d), d) == c && Step(Unstep(c, d), d) == c
  {
    hide Plus, Bits, Unbits, Extend;
    UnbitsBits(Plus(c, Extend(d)), 8);
    PlusTwice(c, Extend(d));
    PlusTwice(Unbits(c, 8), Extend(d));
    BitsUnbits(c, 8);
  }

  // --------------------------------------------- bit-serial reference

  // Feed one message bit: divide when it differs from the low bit of the register.
  function Feed(c: bv32, bit: bool): bv32 { Plus(Half(c), Mask(Odd(c) != bit)) }

  // What a step adds to the halved register.
  function Mask(divides: bool): bv32 { if divides then 0x82F6_3B78 else 0 }

  function Divide(c: bv32, bits: seq<bool>): bv32
    decreases |bits|
  {
    if |bits| == 0 then c else Divide(Feed(c, bits[0]), bits[1..])
  }

  // Low bit first, as the reflected algorithm reads them.
  function BitsOf(t: bv32, n: nat): (r: seq<bool>)
    ensures |r| == n
    decreases n
  {
    if n == 0 then [] else [Odd(t)] + BitsOf(Half(t), n - 1)
  }

  function MessageBits(data: seq<bv8>): (r: seq<bool>)
    ensures |r| == 8 * |data|
    decreases |data|
  {
    if |data| == 0 then [] else BitsOf(Extend(data[0]), 8) + MessageBits(data[1..])
  }

  // Feeding a bit of t divides the sum of the register and t.
  lemma FeedBit(a: bv32, b: bv32, x: bv32, odd: bool, a1: bv32, x1: bv32, h: bv32)
    requires x == a ^ b && odd == (b & 1 == 1)
    requires a1 == Feed(a, odd) && x1 == Bit(x) && h == b >> 1
    ensures x1 == a1 ^ h
  {
    if a & 1 == 1 {
      if b & 1 == 1 {
      } else {
      }
    } else {
      if b & 1 == 1 {
      } else {
      }
    }
  }

  lemma FeedPlus(c: bv32, t: bv32)
    ensures Bit(Plus(c, t)) == Plus(Feed(c, Odd(t)), Half(t))
  {
    hide Bit, Feed;
    FeedBit(c, t, Plus(c, t), Odd(t), Feed(c, Odd(t)), Bit(Plus(c, t)), Half(t));
  }

  lemma {:induction false} DivideBits(c: bv32, t: bv32, n: nat, rest: seq<bool>)
    requires Halves(t, n) == 0
    ensures Divide(c, BitsOf(t, n) + rest) == Divide(Bits(Plus(c, t), n), rest)
    decreases n
  {
    hide Bit, Feed, Odd, Half, Plus;
    if n == 0 {
      PlusZero(c);
      assert BitsOf(t, n) + rest == rest;
    } else {
      FeedPlus(c, t);
      DivideBits(Feed(c, Odd(t)), Half(t), n - 1, rest);
      assert (BitsOf(t, n) + rest)[1..] == BitsOf(Half(t), n - 1) + rest;
    }
  }

  lemma ByteHalves(d: bv8)
    ensures Half(Half(Half(Half(Half(Half(Half(Half(Extend(d))))))))) == 0
  {
  }

  lemma EightHalves(t: bv32)
    ensures Halves(t, 8) == Half(Half(Half(Half(Half(Half(Half(Half(t))))))))
  {
    hide Half;
    var u := Half(Half(Half(Half(t))));
    assert Halves(t, 8) == Halves(u, 4);
  }

  // The register after a buffer is what is left of dividing its bits.
  lemma {:induction false} CrcIsDivision(c: bv32, data: seq<bv8>)
    ensures Crc(c, data) == Divide(c, MessageBits(data))
    decreases |data|
  {
    hide Feed, Bits, Plus, Half, Halves, BitsOf, Extend;
    if |data| > 0 {
      var d := data[0];
      ByteHalves(d);
      EightHalves(Extend(d));
      DivideBits(c, Extend(d), 8, MessageBits(data[1..]));
      CrcIsDivision(Step(c, d), data[1..]);
    }
  }

  // --------------------------------------------- the table form

  function Pick(d: bv8, r0: bv32, r1: bv32, r2: bv32, r3: bv32, r4: bv32, r5: bv32, r6: bv32, r7: bv32,
                r8: bv32, r9: bv32, r10: bv32, r11: bv32, r12: bv32, r13: bv32, r14: bv32, r15: bv32): bv32
  {
    if d & 8 == 0 then
      if d & 4 == 0 then (if d & 2 == 0 then if d & 1 == 0 then r0 else r1 else if d & 1 == 0 then r2 else r3)
      else (if d & 2 == 0 then if d & 1 == 0 then r4 else r5 else if d & 1 == 0 then r6 else r7)
    else
      if d & 4 == 0 then (if d & 2 == 0 then if d & 1 == 0 then r8 else r9 else if d & 1 == 0 then r10 else r11)
      else (if d & 2 == 0 then if d & 1 == 0 then r12 else r13 else if d & 1 == 0 then r14 else r15)
  }

  function Table(d: bv8): bv32 {
    if d & 0x80 == 0 then
      if d & 0x40 == 0 then
        if d & 0x20 == 0 then
          if d & 0x10 == 0 then
            Pick(d, 0x0000_0000, 0xF26B_8303, 0xE13B_70F7, 0x1350_F3F4, 0xC79A_971F, 0x35F1_141C, 0x26A1_E7E8, 0xD4CA_64EB,
                 0x8AD9_58CF, 0x78B2_DBCC, 0x6BE2_2838, 0x9989_AB3B, 0x4D43_CFD0, 0xBF28_4CD3, 0xAC78_BF27, 0x5E13_3C24)
          else
            Pick(d, 0x105E_C76F, 0xE235_446C, 0xF165_B798, 0x030E_349B, 0xD7C4_5070, 0x25AF_D373, 0x36FF_2087, 0xC494_A384,
                 0x9A87_9FA0, 0x68EC_1CA3, 0x7BBC_EF57, 0x89D7_6C54, 0x5D1D_08BF, 0xAF76_8BBC, 0xBC26_7848, 0x4E4D_FB4B)
        else
          if d & 0x10 == 0 then
            Pick(d, 0x20BD_8EDE, 0xD2D6_0DDD, 0xC186_FE29, 0x33ED_7D2A, 0xE727_19C1, 0x154C_9AC2, 0x061C_6936, 0xF477_EA35,
                 0xAA64_D611, 0x580F_5512, 0x4B5F_A6E6, 0xB934_25E5, 0x6DFE_410E, 0x9F95_C20D, 0x8CC5_31F9, 0x7EAE_B2FA)
          else
            Pick(d, 0x30E3_49B1, 0xC288_CAB2, 0xD1D8_3946, 0x23B3_BA45, 0xF779_DEAE, 0x0512_5DAD, 0x1642_AE59, 0xE429_2D5A,
                 0xBA3A_117E, 0x4851_927D, 0x5B01_6189, 0xA96A_E28A, 0x7DA0_8661, 0x8FCB_0562, 0x9C9B_F696, 0x6EF0_7595)
      else
        if d & 0x20 == 0 then
          if d & 0x10 == 0 then
            Pick(d, 0x417B_1DBC, 0xB310_9EBF, 0xA040_6D4B, 0x522B_EE48, 0x86E1_8AA3, 0x748A_09A0, 0x67DA_FA54, 0x95B1_7957,
                 0xCBA2_4573, 0x39C9_C670, 0x2A99_3584, 0xD8F2_B687, 0x0C38_D26C, 0xFE53_516F, 0xED03_A29B, 0x1F68_2198)
          else
            Pick(d, 0x5125_DAD3, 0xA34E_59D0, 0xB01E_AA24, 0x4275_2927, 0x96BF_4DCC, 0x64D4_CECF, 0x7784_3D3B, 0x85EF_BE38,
                 0xDBFC_821C, 0x2997_011F, 0x3AC7_F2EB, 0xC8AC_71E8, 0x1C66_1503, 0xEE0D_9600, 0xFD5D_65F4, 0x0F36_E6F7)
        else
          if d & 0x10 == 0 then
            Pick(d, 0x61C6_9362, 0x93AD_1061, 0x80FD_E395, 0x7296_6096, 0xA65C_047D, 0x5437_877E, 0x4767_748A, 0xB50C_F789,
                 0xEB1F_CBAD, 0x1974_48AE, 0x0A24_BB5A, 0xF84F_3859, 0x2C85_5CB2, 0xDEEE_DFB1, 0xCDBE_2C45, 0x3FD5_AF46)
          else
            Pick(d, 0x7198_540D, 0x83F3_D70E, 0x90A3_24FA, 0x62C8_A7F9, 0xB602_C312, 0x4469_4011, 0x5739_B3E5, 0xA552_30E6,
                 0xFB41_0CC2, 0x092A_8FC1, 0x1A7A_7C35, 0xE811_FF36, 0x3CDB_9BDD, 0xCEB0_18DE, 0xDDE0_EB2A, 0x2F8B_6829)
    else
      if d & 0x40 == 0 then
        if d & 0x20 == 0 then
          if d & 0x10 == 0 then
            Pick(d, 0x82F6_3B78, 0x709D_B87B, 0x63CD_4B8F, 0x91A6_C88C, 0x456C_AC67, 0xB707_2F64, 0xA457_DC90, 0x563C_5F93,
                 0x082F_63B7, 0xFA44_E0B4, 0xE914_1340, 0x1B7F_9043, 0xCFB5_F4A8, 0x3DDE_77AB, 0x2E8E_845F, 0xDCE5_075C)
          else
            Pick(d, 0x92A8_FC17, 0x60C3_7F14, 0x7393_8CE0, 0x81F8_0FE3, 0x5532_6B08, 0xA759_E80B, 0xB409_1BFF, 0x4662_98FC,
                 0x1871_A4D8, 0xEA1A_27DB, 0xF94A_D42F, 0x0B21_572C, 0xDFEB_33C7, 0x2D80_B0C4, 0x3ED0_4330, 0xCCBB_C033)
        else
          if d & 0x10 == 0 then
            Pick(d, 0xA24B_B5A6, 0x5020_36A5, 0x4370_C551, 0xB11B_4652, 0x65D1_22B9, 0x97BA_A1BA, 0x84EA_524E, 0x7681_D14D,
                 0x2892_ED69, 0xDAF9_6E6A, 0xC9A9_9D9E, 0x3BC2_1E9D, 0xEF08_7A76, 0x1D63_F975, 0x0E33_0A81, 0xFC58_8982)
          else
            Pick(d, 0xB215_72C9, 0x407E_F1CA, 0x532E_023E, 0xA145_813D, 0x758F_E5D6, 0x87E4_66D5, 0x94B4_9521, 0x66DF_1622,
                 0x38CC_2A06, 0xCAA7_A905, 0xD9F7_5AF1, 0x2B9C_D9F2, 0xFF56_BD19, 0x0D3D_3E1A, 0x1E6D_CDEE, 0xEC06_4EED)
      else
        if d & 0x20 == 0 then
          if d & 0x10 == 0 then
            Pick(d, 0xC38D_26C4, 0x31E6_A5C7, 0x22B6_5633, 0xD0DD_D530, 0x0417_B1DB, 0xF67C_32D8, 0xE52C_C12C, 0x1747_422F,
                 0x4954_7E0B, 0xBB3F_FD08, 0xA86F_0EFC, 0x5A04_8DFF, 0x8ECE_E914, 0x7CA5_6A17, 0x6FF5_99E3, 0x9D9E_1AE0)
          else
            Pick(d, 0xD3D3_E1AB, 0x21B8_62A8, 0x32E8_915C, 0xC083_125F, 0x1449_76B4, 0xE622_F5B7, 0xF572_0643, 0x0719_8540,
                 0x590A_B964, 0xAB61_3A67, 0xB831_C993, 0x4A5A_4A90, 0x9E90_2E7B, 0x6CFB_AD78, 0x7FAB_5E8C, 0x8DC0_DD8F)
        else
          if d & 0x10 == 0 then
            Pick(d, 0xE330_A81A, 0x115B_2B19, 0x020B_D8ED, 0xF060_5BEE, 0x24AA_3F05, 0xD6C1_BC06, 0xC591_4FF2, 0x37FA_CCF1,
                 0x69E9_F0D5, 0x9B82_73D6, 0x88D2_8022, 0x7AB9_0321, 0xAE73_67CA, 0x5C18_E4C9, 0x4F48_173D, 0xBD23_943E)
          else
            Pick(d, 0xF36E_6F75, 0x0105_EC76, 0x1255_1F82, 0xE03E_9C81, 0x34F4_F86A, 0xC69F_7B69, 0xD5CF_889D, 0x27A4_0B9E,
                 0x79B7_37BA, 0x8BDC_B4B9, 0x988C_474D, 0x6AE7_C44E, 0xBE2D_A0A5, 0x4C46_23A6, 0x5F16_D052, 0xAD7D_5351)
  }

  function Four(c: bv32): bv32 { Bit(Bit(Bit(Bit(c)))) }

  lemma FourIs(x: bv32)
    ensures Bits(x, 4) == Four(x)
  {
    hide Bit;
    assert Bits(Bit(x), 3) == Bits(Bit(Bit(x)), 2);
  }

  lemma EightBits(x: bv32)
    ensures Bits(x, 8) == Four(Four(x))
  {
    hide Bit, Four;
    FourIs(x);
    FourIs(Four(x));
    BitsSplit(x, 4, 4);
  }

  lemma {:induction false} BitsSplit(x: bv32, m: nat, n: nat)
    ensures Bits(x, m + n) == Bits(Bits(x, m), n)
    decreases m
  {
    hide Bit;
    if m > 0 {
      BitsSplit(Bit(x), m - 1, n);
    }
  }

  function Share(present: bool, c: bv32): bv32 { if present then c else 0 }

  predicate HasBit(d: bv8, mask: bv8) { d & mask != 0 }

  // Every entry is the sum of the entries of its index's bits: by evaluation, a quarter at a time.
  lemma FirstQuarter(d: bv8)
    requires d & 0xC0 == 0
    ensures Table(d) ==
    Plus(Plus(Plus(Share(HasBit(d, 0x01), 0xF26B_8303), Share(HasBit(d, 0x02), 0xE13B_70F7)),
              Plus(Share(HasBit(d, 0x04), 0xC79A_971F), Share(HasBit(d, 0x08), 0x8AD9_58CF))),
         Plus(Plus(Share(HasBit(d, 0x10), 0x105E_C76F), Share(HasBit(d, 0x20), 0x20BD_8EDE)),
              Plus(Share(HasBit(d, 0x40), 0x417B_1DBC), Share(HasBit(d, 0x80), 0x82F6_3B78))))
  {
  }

  lemma SecondQuarter(d: bv8)
    requires d & 0xC0 == 0x40
    ensures Table(d) ==
    Plus(Plus(Plus(Share(HasBit(d, 0x01), 0xF26B_8303), Share(HasBit(d, 0x02), 0xE13B_70F7)),
              Plus(Share(HasBit(d, 0x04), 0xC79A_971F), Share(HasBit(d, 0x08), 0x8AD9_58CF))),
         Plus(Plus(Share(HasBit(d, 0x10), 0x105E_C76F), Share(HasBit(d, 0x20), 0x20BD_8EDE)),
              Plus(Share(HasBit(d, 0x40), 0x417B_1DBC), Share(HasBit(d, 0x80), 0x82F6_3B78))))
  {
  }

  lemma ThirdQuarter(d: bv8)
    requires d & 0xC0 == 0x80
    ensures Table(d) ==
    Plus(Plus(Plus(Share(HasBit(d, 0x01), 0xF26B_8303), Share(HasBit(d, 0x02), 0xE13B_70F7)),
              Plus(Share(HasBit(d, 0x04), 0xC79A_971F), Share(HasBit(d, 0x08), 0x8AD9_58CF))),
         Plus(Plus(Share(HasBit(d, 0x10), 0x105E_C76F), Share(HasBit(d, 0x20), 0x20BD_8EDE)),
              Plus(Share(HasBit(d, 0x40), 0x417B_1DBC), Share(HasBit(d, 0x80), 0x82F6_3B78))))
  {
  }

  lemma FourthQuarter(d: bv8)
    requires d & 0xC0 == 0xC0
    ensures Table(d) ==
    Plus(Plus(Plus(Share(HasBit(d, 0x01), 0xF26B_8303), Share(HasBit(d, 0x02), 0xE13B_70F7)),
              Plus(Share(HasBit(d, 0x04), 0xC79A_971F), Share(HasBit(d, 0x08), 0x8AD9_58CF))),
         Plus(Plus(Share(HasBit(d, 0x10), 0x105E_C76F), Share(HasBit(d, 0x20), 0x20BD_8EDE)),
              Plus(Share(HasBit(d, 0x40), 0x417B_1DBC), Share(HasBit(d, 0x80), 0x82F6_3B78))))
  {
  }

  lemma Quarters(d: bv8)
    ensures d & 0xC0 == 0 || d & 0xC0 == 0x40 || d & 0xC0 == 0x80 || d & 0xC0 == 0xC0
  {
  }

  lemma TableBasis(d: bv8)
    ensures Table(d) ==
    Plus(Plus(Plus(Share(HasBit(d, 0x01), 0xF26B_8303), Share(HasBit(d, 0x02), 0xE13B_70F7)),
              Plus(Share(HasBit(d, 0x04), 0xC79A_971F), Share(HasBit(d, 0x08), 0x8AD9_58CF))),
         Plus(Plus(Share(HasBit(d, 0x10), 0x105E_C76F), Share(HasBit(d, 0x20), 0x20BD_8EDE)),
              Plus(Share(HasBit(d, 0x40), 0x417B_1DBC), Share(HasBit(d, 0x80), 0x82F6_3B78))))
  {
    hide Table, Plus, Share, HasBit;
    Quarters(d);
    if d & 0xC0 == 0 {
      FirstQuarter(d);
    } else if d & 0xC0 == 0x40 {
      SecondQuarter(d);
    } else if d & 0xC0 == 0x80 {
      ThirdQuarter(d);
    } else {
      FourthQuarter(d);
    }
  }

  // The bits of an index under two disjoint masks.
  lemma Join(d: bv8, m: bv8, n: bv8)
    requires m & n == 0
    ensures Extend(d & (m | n)) == Plus(Extend(d & m), Extend(d & n))
  {
  }

  lemma Single(d: bv8, b: bv8, c: bv32)
    requires b != 0 && b & (b - 1) == 0 && c == Extend(b)
    ensures Extend(d & b) == Share(HasBit(d, b), c)
  {
    if d & b == 0 {
    } else {
      assert d & b == b;
    }
  }

  lemma AllBits(d: bv8)
    ensures d & 0xFF == d
  {
  }

  lemma IndexBasis(d: bv8)
    ensures Extend(d) ==
    Plus(Plus(Plus(Share(HasBit(d, 0x01), 1), Share(HasBit(d, 0x02), 2)),
              Plus(Share(HasBit(d, 0x04), 4), Share(HasBit(d, 0x08), 8))),
         Plus(Plus(Share(HasBit(d, 0x10), 16), Share(HasBit(d, 0x20), 32)),
              Plus(Share(HasBit(d, 0x40), 64), Share(HasBit(d, 0x80), 128))))
  {
    hide Extend, Plus, Share, HasBit;
    AllBits(d);
    Join(d, 0x0F, 0xF0);
    Join(d, 0x03, 0x0C);
    Join(d, 0x30, 0xC0);
    Join(d, 0x01, 0x02);
    Join(d, 0x04, 0x08);
    Join(d, 0x10, 0x20);
    Join(d, 0x40, 0x80);
    Singles(d);
  }

  lemma Singles(d: bv8)
    ensures Extend(d & 0x01) == Share(HasBit(d, 0x01), 1)
    ensures Extend(d & 0x02) == Share(HasBit(d, 0x02), 2)
    ensures Extend(d & 0x04) == Share(HasBit(d, 0x04), 4)
    ensures Extend(d & 0x08) == Share(HasBit(d, 0x08), 8)
    ensures Extend(d & 0x10) == Share(HasBit(d, 0x10), 16)
    ensures Extend(d & 0x20) == Share(HasBit(d, 0x20), 32)
    ensures Extend(d & 0x40) == Share(HasBit(d, 0x40), 64)
    ensures Extend(d & 0x80) == Share(HasBit(d, 0x80), 128)
  {
    hide Share, HasBit;
    Single(d, 0x01, 1);
    Single(d, 0x02, 2);
    Single(d, 0x04, 4);
    Single(d, 0x08, 8);
    Single(d, 0x10, 16);
    Single(d, 0x20, 32);
    Single(d, 0x40, 64);
    Single(d, 0x80, 128);
  }

  lemma BasisEntries()
    ensures Bits(1, 8) == 0xF26B_8303
    ensures Bits(2, 8) == 0xE13B_70F7
    ensures Bits(4, 8) == 0xC79A_971F
    ensures Bits(8, 8) == 0x8AD9_58CF
    ensures Bits(16, 8) == 0x105E_C76F
    ensures Bits(32, 8) == 0x20BD_8EDE
    ensures Bits(64, 8) == 0x417B_1DBC
    ensures Bits(128, 8) == 0x82F6_3B78
  {
    hide Bits;
    EightBits(1);
    EightBits(2);
    EightBits(4);
    EightBits(8);
    EightBits(16);
    EightBits(32);
    EightBits(64);
    EightBits(128);
  }

  lemma ShareBits(present: bool, c: bv32, e: bv32)
    requires Bits(c, 8) == e
    ensures Bits(Share(present, c), 8) == Share(present, e)
  {
    hide Bits;
    EightBits(0);
  }

  // The entries of four bits of an index.
  lemma FourShares(a: bool, b: bool, c: bool, d: bool, p: bv32, q: bv32, r: bv32, s: bv32)
    ensures Bits(Plus(Plus(Share(a, p), Share(b, q)), Plus(Share(c, r), Share(d, s))), 8)
         == Plus(Plus(Share(a, Bits(p, 8)), Share(b, Bits(q, 8))), Plus(Share(c, Bits(r, 8)), Share(d, Bits(s, 8))))
  {
    hide Bits, Plus, Share;
    BitsAdd(Plus(Share(a, p), Share(b, q)), Plus(Share(c, r), Share(d, s)), 8);
    BitsAdd(Share(a, p), Share(b, q), 8);
    BitsAdd(Share(c, r), Share(d, s), 8);
    ShareBits(a, p, Bits(p, 8));
    ShareBits(b, q, Bits(q, 8));
    ShareBits(c, r, Bits(r, 8));
    ShareBits(d, s, Bits(s, 8));
  }

  // Entry d of the table is eight division steps from d.
  lemma TableEntry(d: bv8)
    ensures Table(d) == Bits(Extend(d), 8)
  {
    hide Table, Bits, Extend, Plus, Share, HasBit;
    IndexBasis(d);
    TableBasis(d);
    BasisEntries();
    var low := Plus(Plus(Share(HasBit(d, 0x01), 1), Share(HasBit(d, 0x02), 2)),
                    Plus(Share(HasBit(d, 0x04), 4), Share(HasBit(d, 0x08), 8)));
    var high := Plus(Plus(Share(HasBit(d, 0x10), 16), Share(HasBit(d, 0x20), 32)),
                     Plus(Share(HasBit(d, 0x40), 64), Share(HasBit(d, 0x80), 128)));
    BitsAdd(low, high, 8);
    FourShares(HasBit(d, 0x01), HasBit(d, 0x02), HasBit(d, 0x04), HasBit(d, 0x08), 1, 2, 4, 8);
    FourShares(HasBit(d, 0x10), HasBit(d, 0x20), HasBit(d, 0x40), HasBit(d, 0x80), 16, 32, 64, 128);
  }

  function Low(x: bv32): bv8 { (x & 0xFF) as bv8 }

  function High(x: bv32): bv32 { x & 0xFFFF_FF00 }

  function Drop(x: bv32): bv32 { x >> 8 }

  function TableStep(c: bv32, d: bv8): bv32 {
    Plus(Drop(c), Table(Low(Plus(c, Extend(d)))))
  }

  lemma LowHigh(x: bv32)
    ensures Plus(Extend(Low(x)), High(x)) == x
  {
  }

  lemma HighClear(x: bv32)
    ensures
      var t := High(x);
      !Odd(t) && !Odd(Half(t)) && !Odd(Half(Half(t))) && !Odd(Half(Half(Half(t))))
  {
  }

  lemma HighClearMore(x: bv32)
    ensures
      var t := Half(Half(Half(Half(High(x)))));
      !Odd(t) && !Odd(Half(t)) && !Odd(Half(Half(t))) && !Odd(Half(Half(Half(t))))
  {
  }

  lemma HighHalves(x: bv32)
    ensures Half(Half(Half(Half(Half(Half(Half(Half(High(x))))))))) == Drop(x)
  {
  }

  lemma HighBits(x: bv32)
    ensures Bits(High(x), 8) == Drop(x)
  {
    hide Bit, High, Half, Odd, Drop;
    var t := High(x);
    var u := Half(Half(Half(Half(t))));
    HighClear(x);
    HighClearMore(x);
    assert Clear(u, 4);
    assert Clear(t, 8);
    BitsOfClear(t, 8);
    EightHalves(t);
    HighHalves(x);
  }

  lemma DropMixed(c: bv32, d: bv8)
    ensures Drop(Plus(c, Extend(d))) == Drop(c)
  {
  }

  lemma PlusCommutes(a: bv32, b: bv32)
    ensures Plus(a, b) == Plus(b, a)
  {
  }

  // Eight divisions: the byte shifted out picks a table entry, the rest moves down.
  lemma EightSplit(x: bv32)
    ensures Bits(x, 8) == Plus(Drop(x), Bits(Extend(Low(x)), 8))
  {
    hide Plus, Bits, Low, High, Drop, Extend;
    LowHigh(x);
    BitsAdd(Extend(Low(x)), High(x), 8);
    HighBits(x);
    PlusCommutes(Bits(Extend(Low(x)), 8), Drop(x));
  }

  lemma TableStepIsStep(c: bv32, d: bv8)
    ensures TableStep(c, d) == Step(c, d)
  {
    hide Plus, Bits, Low, Drop, Extend, Table;
    var x := Plus(c, Extend(d));
    EightSplit(x);
    DropMixed(c, d);
    TableEntry(Low(x));
  }

  // The four bytes in the opposite order.
  function ByteSwap(x: bv32): bv32 {
    ((x & 0xFF) << 24) | (((x >> 8) & 0xFF) << 16) | (((x >> 16) & 0xFF) << 8) | ((x >> 24) & 0xFF)
  }

  lemma SwapTwice(x: bv32, y: bv32)
    requires y == ByteSwap(x)
    ensures ByteSwap(y) == x
  {
  }

  // generate_crc32c without SSE 4.2: its byte swap and the htonl of a little-endian host cancel.
  method GenerateByTable(data: seq<bv8>) returns (crc: bv32)
    ensures crc == Checksum(data)
  {
    hide Step, TableStep, ByteSwap;
    crc := INITIAL;
    for i := 0 to |data|
      invariant Crc(INITIAL, data) == Crc(crc, data[i..])
    {
      TableStepIsStep(crc, data[i]);
      assert data[i..][1..] == data[i + 1..];
      crc := TableStep(crc, data[i]);
    }
    var result := !crc;
    crc := ByteSwap(result);
    SwapTwice(result, crc);
    crc := ByteSwap(crc);
  }

  // --------------------------------------------- the 8-byte stride

  function WidePlus(a: bv64, b: bv64): bv64 { a ^ b }

  function WideHalf(t: bv64): bv64 { t >> 1 }

  predicate WideOdd(t: bv64) { t & 1 == 1 }

  function Widen(x: bv32): bv64 { x as bv64 }

  function Low32(t: bv64): bv32 { (t & 0xFFFF_FFFF) as bv32 }

  function WideLow(t: bv64): bv8 { (t & 0xFF) as bv8 }

  function WideHigh(t: bv64): bv64 { t & 0xFFFF_FFFF_FFFF_FF00 }

  function WideDrop(t: bv64): bv64 { t >> 8 }

  // One step of the division in a 64-bit register.
  function WideBit(c: bv64): bv64 { (c >> 1) ^ (if c & 1 == 1 then 0x82F6_3B78 else 0) }

  function WideBits(x: bv64, n: nat): bv64
    decreases n
  {
    if n == 0 then x else WideBits(WideBit(x), n - 1)
  }

  function WideHalves(t: bv64, n: nat): bv64
    decreases n
  {
    if n == 0 then t else WideHalves(WideHalf(t), n - 1)
  }

  predicate WideClear(t: bv64, n: nat)
    decreases n
  {
    n == 0 || (!WideOdd(t) && WideClear(WideHalf(t), n - 1))
  }

  // The 64-bit instruction: the remainder of the low half of crc with a whole chunk.
  function Crc32Chunk(crc: bv64, chunk: bv64): bv64 { WideBits(WidePlus(Widen(Low32(crc)), chunk), 64) }

  // The byte instruction.
  function Crc32Byte(crc: bv64, d: bv8): bv64 { Widen(Step(Low32(crc), d)) }

  lemma WideBitSum(a: bv64, b: bv64, z: bv64)
    requires z == a ^ b
    ensures WideBit(z) == WideBit(a) ^ WideBit(b)
  {
    if a & 1 == 1 {
      if b & 1 == 1 {
        assert z & 1 == 0;
      } else {
        assert z & 1 == 1;
      }
    } else {
      if b & 1 == 1 {
        assert z & 1 == 1;
      } else {
        assert z & 1 == 0;
      }
    }
  }

  lemma WideBitAdd(a: bv64, b: bv64)
    ensures WideBit(WidePlus(a, b)) == WidePlus(WideBit(a), WideBit(b))
  {
    hide WideBit;
    WideBitSum(a, b, WidePlus(a, b));
  }

  lemma {:induction false} WideBitsAdd(a: bv64, b: bv64, n: nat)
    ensures WideBits(WidePlus(a, b), n) == WidePlus(WideBits(a, n), WideBits(b, n))
    decreases n
  {
    hide WideBit, WidePlus;
    if n > 0 {
      WideBitAdd(a, b);
      WideBitsAdd(WideBit(a), WideBit(b), n - 1);
    }
  }

  lemma WideBitOfEven(t: bv64)
    requires !WideOdd(t)
    ensures WideBit(t) == WideHalf(t)
  {
  }

  lemma {:induction false} WideBitsOfClear(t: bv64, n: nat)
    requires WideClear(t, n)
    ensures WideBits(t, n) == WideHalves(t, n)
    decreases n
  {
    hide WideBit, WideHalf, WideOdd;
    if n > 0 {
      WideBitOfEven(t);
      WideBitsOfClear(WideHalf(t), n - 1);
    }
  }

  lemma WidenValues(x: bv32, y: bv64, r: bv32, s: bv64, t: bv64)
    requires y == x as bv64 && r == Bit(x) && s == WideBit(y) && t == r as bv64
    ensures s == t
  {
    if x & 1 == 1 {
      assert y & 1 == 1;
    } else {
      assert y & 1 != 1;
    }
  }

  lemma {:induction false} WidenBits(x: bv32, n: nat)
    ensures WideBits(Widen(x), n) == Widen(Bits(x, n))
    decreases n
  {
    hide WideBit, Bit, Widen;
    if n > 0 {
      WidenBit(x);
      WidenBits(Bit(x), n - 1);
    }
  }

  lemma WidenBit(x: bv32)
    ensures WideBit(Widen(x)) == Widen(Bit(x))
  {
    hide WideBit, Bit;
    WidenValues(x, Widen(x), Bit(x), WideBit(Widen(x)), Widen(Bit(x)));
  }

  lemma WideHighClear(x: bv64)
    ensures
      var t := WideHigh(x);
      !WideOdd(t) && !WideOdd(WideHalf(t)) && !WideOdd(WideHalf(WideHalf(t)))
      && !WideOdd(WideHalf(WideHalf(WideHalf(t))))
  {
  }

  lemma WideHighClearMore(x: bv64)
    ensures
      var t := WideHalf(WideHalf(WideHalf(WideHalf(WideHigh(x)))));
      !WideOdd(t) && !WideOdd(WideHalf(t)) && !WideOdd(WideHalf(WideHalf(t)))
      && !WideOdd(WideHalf(WideHalf(WideHalf(t))))
  {
  }

  lemma WideHighHalves(x: bv64)
    ensures WideHalf(WideHalf(WideHalf(WideHalf(WideHalf(WideHalf(WideHalf(WideHalf(WideHigh(x)))))))))
         == WideDrop(x)
  {
  }

  lemma WideHighBits(x: bv64)
    ensures WideBits(WideHigh(x), 8) == WideDrop(x)
  {
    hide WideBit, WideHigh, WideHalf, WideOdd, WideDrop;
    var t := WideHigh(x);
    var u := WideHalf(WideHalf(WideHalf(WideHalf(t))));
    WideHighClear(x);
    WideHighClearMore(x);
    assert WideClear(u, 4);
    assert WideClear(t, 8);
    WideBitsOfClear(t, 8);
    WideHighHalves(x);
    assert WideHalves(t, 8) == WideHalves(u, 4);
  }

  lemma WidenPlus(a: bv32, b: bv32)
    ensures Widen(Plus(a, b)) == WidePlus(Widen(a), Widen(b))
  {
  }

  lemma WideParts(t: bv64)
    ensures WidePlus(Widen(Extend(WideLow(t))), WideHigh(t)) == t
  {
  }

  lemma WideXorAssociates(a: bv64, b: bv64, c: bv64)
    ensures a ^ (b ^ c) == (a ^ b) ^ c
  {
  }

  lemma WidePlusIs(a: bv64, b: bv64)
    ensures WidePlus(a, b) == a ^ b
  {
  }

  lemma WidePlusAssociates(a: bv64, b: bv64, c: bv64)
    ensures WidePlus(a, WidePlus(b, c)) == WidePlus(WidePlus(a, b), c)
  {
    calc {
      WidePlus(a, WidePlus(b, c));
      { WidePlusIs(b, c); }
      WidePlus(a, b ^ c);
      { WidePlusIs(a, b ^ c); }
      a ^ (b ^ c);
      { WideXorAssociates(a, b, c); }
      (a ^ b) ^ c;
      { WidePlusIs(a ^ b, c); }
      WidePlus(a ^ b, c);
      { WidePlusIs(a, b); }
      WidePlus(WidePlus(a, b), c);
    }
  }

  lemma WideLowHigh(c: bv32, t: bv64)
    ensures WidePlus(Widen(c), t) == WidePlus(Widen(Plus(c, Extend(WideLow(t)))), WideHigh(t))
  {
    hide WidePlus, Widen, Plus, WideLow, WideHigh, Extend;
    var e := Extend(WideLow(t));
    WideParts(t);
    WidenPlus(c, e);
    WidePlusAssociates(Widen(c), Widen(e), WideHigh(t));
  }

  // Eight wide steps take the low byte of the chunk and leave the others for later.
  lemma WideStep(c: bv32, t: bv64)
    ensures WideBits(WidePlus(Widen(c), t), 8) == WidePlus(Widen(Step(c, WideLow(t))), WideDrop(t))
  {
    hide WidePlus, Widen, Plus, Extend, WideLow, WideHigh, WideDrop, WideBits, Bits;
    var x := Plus(c, Extend(WideLow(t)));
    WideLowHigh(c, t);
    WideBitsAdd(Widen(x), WideHigh(t), 8);
    WidenBits(x, 8);
    WideHighBits(t);
  }

  // The first n bytes of a word, in the order of a little-endian memory.
  function WideBytes(t: bv64, n: nat): (r: seq<bv8>)
    ensures |r| == n
    decreases n
  {
    if n == 0 then [] else [WideLow(t)] + WideBytes(WideDrop(t), n - 1)
  }

  function WideDrops(t: bv64, n: nat): bv64
    decreases n
  {
    if n == 0 then t else WideDrops(WideDrop(t), n - 1)
  }

  lemma {:induction false} WideBitsSplit(x: bv64, m: nat, n: nat)
    ensures WideBits(x, m + n) == WideBits(WideBits(x, m), n)
    decreases m
  {
    hide WideBit;
    if m > 0 {
      WideBitsSplit(WideBit(x), m - 1, n);
    }
  }

  lemma {:induction false} WideChunk(c: bv32, t: bv64, n: nat)
    ensures WideBits(WidePlus(Widen(c), t), 8 * n) == WidePlus(Widen(Crc(c, WideBytes(t, n))), WideDrops(t, n))
    decreases n
  {
    hide WidePlus, Widen, WideLow, WideDrop, Step, WideBits;
    if n == 0 {
      WideBitsNone(WidePlus(Widen(c), t));
    } else {
      var d := WideLow(t);
      WideBitsSplit(WidePlus(Widen(c), t), 8, 8 * (n - 1));
      WideStep(c, t);
      WideChunk(Step(c, d), WideDrop(t), n - 1);
    }
  }

  lemma WideBitsNone(x: bv64)
    ensures WideBits(x, 0) == x
  {
  }

  lemma WideDropAll(t: bv64)
    ensures WideDrop(WideDrop(WideDrop(WideDrop(WideDrop(WideDrop(WideDrop(WideDrop(t)))))))) == 0
  {
  }

  lemma WidePlusZero(x: bv64)
    ensures WidePlus(x, 0) == x
  {
  }

  // The 64-bit instruction is eight byte steps.
  lemma ChunkIsEightBytes(crc: bv64, chunk: bv64)
    ensures Crc32Chunk(crc, chunk) == Widen(Crc(Low32(crc), WideBytes(chunk, 8)))
  {
    hide WidePlus, Widen, WideDrop, Low32, WideBits, Crc, WideBytes;
    var c := Low32(crc);
    WideChunk(c, chunk, 8);
    WideDropAll(chunk);
    var u := WideDrop(WideDrop(WideDrop(WideDrop(chunk))));
    assert WideDrops(chunk, 8) == WideDrops(u, 4);
    WidePlusZero(Widen(Crc(c, WideBytes(chunk, 8))));
  }

  // What memcpy puts into a 64-bit word.
  function Load(b: seq<bv8>): bv64
    requires |b| == 8
  {
    (b[0] as bv64) | ((b[1] as bv64) << 8) | ((b[2] as bv64) << 16) | ((b[3] as bv64) << 24)
    | ((b[4] as bv64) << 32) | ((b[5] as bv64) << 40) | ((b[6] as bv64) << 48) | ((b[7] as bv64) << 56)
  }

  lemma LoadLow(b: seq<bv8>)
    requires |b| == 8
    ensures
      var t := Load(b);
      WideLow(t) == b[0] && WideLow(WideDrop(t)) == b[1] && WideLow(WideDrop(WideDrop(t))) == b[2]
      && WideLow(WideDrop(WideDrop(WideDrop(t)))) == b[3]
  {
  }

  lemma LoadHigh(b: seq<bv8>)
    requires |b| == 8
    ensures
      var t := WideDrop(WideDrop(WideDrop(WideDrop(Load(b)))));
      WideLow(t) == b[4] && WideLow(WideDrop(t)) == b[5] && WideLow(WideDrop(WideDrop(t))) == b[6]
      && WideLow(WideDrop(WideDrop(WideDrop(t)))) == b[7]
  {
  }

  lemma FirstTwo(t: bv64, n: nat)
    ensures WideBytes(t, 2 + n) == [WideLow(t), WideLow(WideDrop(t))] + WideBytes(WideDrop(WideDrop(t)), n)
  {
    hide WideLow, WideDrop;
    assert WideBytes(t, 2 + n) == [WideLow(t)] + WideBytes(WideDrop(t), 1 + n);
  }

  lemma FirstFour(t: bv64, n: nat)
    ensures
      var u := WideDrop(WideDrop(WideDrop(WideDrop(t))));
      WideBytes(t, 4 + n) == [WideLow(t), WideLow(WideDrop(t)), WideLow(WideDrop(WideDrop(t))),
        WideLow(WideDrop(WideDrop(WideDrop(t))))] + WideBytes(u, n)
  {
    hide WideLow, WideDrop, WideBytes;
    FirstTwo(t, 2 + n);
    FirstTwo(WideDrop(WideDrop(t)), n);
  }

  lemma LoadBytes(b: seq<bv8>)
    requires |b| == 8
    ensures WideBytes(Load(b), 8) == b
  {
    hide WideLow, WideDrop, Load, WideBytes;
    var t := Load(b);
    var u := WideDrop(WideDrop(WideDrop(WideDrop(t))));
    LoadLow(b);
    LoadHigh(b);
    FirstFour(t, 4);
    FirstFour(u, 0);
    assert |WideBytes(WideDrop(WideDrop(WideDrop(WideDrop(u)))), 0)| == 0;
  }

  lemma LowOfWiden(x: bv32)
    ensures Low32(Widen(x)) == x
  {
  }

  // What generate_crc32c_on_crc32c returns from the register crc.
  function Register(crc: bv64, data: seq<bv8>): bv64 {
    if |data| == 0 then crc else Widen(Crc(Low32(crc), data))
  }

  // generate_crc32c_on_crc32c over a concatenation is the call on the second part from the
  // result of the first.
  lemma RegisterChains(crc: bv64, a: seq<bv8>, b: seq<bv8>)
    ensures Register(crc, a + b) == Register(Register(crc, a), b)
  {
    hide Crc, Widen, Low32;
    if |a| == 0 {
      assert a + b == b;
    } else {
      LowOfWiden(Crc(Low32(crc), a));
      Chain(Low32(crc), a, b);
      if |b| == 0 {
        assert a + b == a;
      }
    }
  }

  // generate_crc32c_on_crc32c: eight bytes at a time, then the tail byte by byte.
  method GenerateOnCrc(data: seq<bv8>, start: bv64) returns (crc: bv64)
    ensures crc == Register(start, data)
  {
    hide Widen, Low32, Load, Crc, Crc32Chunk, Crc32Byte, WideBytes;
    crc := start;
    var i := 0;
    while i + 8 <= |data|
      invariant 0 <= i <= |data|
      invariant crc == Register(start, data[..i])
    {
      var part := data[i..i + 8];
      var chunk := Load(part);
      ChunkIsEightBytes(crc, chunk);
      LoadBytes(part);
      RegisterChains(start, data[..i], part);
      assert data[..i] + part == data[..i + 8];
      crc := Crc32Chunk(crc, chunk);
      i := i + 8;
    }
    while i < |data|
      invariant 0 <= i <= |data|
      invariant crc == Register(start, data[..i])
    {
      ByteIsOne(crc, data[i]);
      RegisterChains(start, data[..i], [data[i]]);
      assert data[..i] + [data[i]] == data[..i + 1];
      crc := Crc32Byte(crc, data[i]);
      i := i + 1;
    }
    assert data[..i] == data;
  }

  lemma ByteIsOne(crc: bv64, d: bv8)
    ensures Crc32Byte(crc, d) == Register(crc, [d])
  {
    hide Step, Widen, Low32;
    assert Crc(Low32(crc), [d]) == Crc(Step(Low32(crc), d), [d][1..]);
  }

  // generate_crc32c with SSE 4.2.
  method Generate(data: seq<bv8>) returns (crc: bv32)
    ensures crc == Checksum(data)
  {
    hide Crc, Low32, Widen;
    var wide := GenerateOnCrc(data, Widen(INITIAL));
    LowOfWiden(INITIAL);
    if |data| > 0 {
      LowOfWiden(Crc(INITIAL, data));
    } else {
      NoBytes();
    }
    crc := !Low32(wide);
  }

  lemma NoBytes()
    ensures Crc(INITIAL, []) == INITIAL
  {
  }

  // --------------------------------------------- bursts of 32 bits

  lemma {:induction false} DivideChain(c: bv32, a: seq<bool>, b: seq<bool>)
    ensures Divide(c, a + b) == Divide(Divide(c, a), b)
    decreases |a|
  {
    hide Feed;
    if |a| == 0 {
      assert a + b == b;
    } else {
      assert (a + b)[1..] == a[1..] + b;
      DivideChain(Feed(c, a[0]), a[1..], b);
    }
  }

  predicate TopSet(t: bv32) { t & 0x8000_0000 != 0 }

  // The top bit of the register after a step tells whether it divided.
  lemma FeedTop(c: bv32, bit: bool)
    ensures TopSet(Feed(c, bit)) <==> Odd(c) != bit
  {
    if c & 1 == 1 {
    } else {
    }
  }

  lemma HalfDifference(a: bv32, b: bv32, k: bv32)
    ensures Plus(Plus(Half(a), k), Plus(Half(b), k)) == Half(Plus(a, b))
  {
  }

  // Two steps that both divide, or both do not, halve the difference of the registers.
  lemma FeedDifference(a: bv32, b: bv32, p: bool, q: bool)
    requires (Odd(a) != p) == (Odd(b) != q)
    ensures Plus(Feed(a, p), Feed(b, q)) == Half(Plus(a, b))
  {
    hide Plus, Half, Odd, Mask;
    HalfDifference(a, b, Mask(Odd(a) != p));
  }

  lemma TopOfDifference(a: bv32, b: bv32)
    ensures TopSet(Plus(a, b)) <==> TopSet(a) != TopSet(b)
  {
    if a & 0x8000_0000 != 0 {
    } else {
    }
  }

  lemma DropHalves(t: bv32)
    ensures Half(Half(Half(Half(Half(Half(Half(Half(t)))))))) == Drop(t)
  {
  }

  lemma {:induction false} HalvesSplit(t: bv32, m: nat, n: nat)
    ensures Halves(t, m + n) == Halves(Halves(t, m), n)
    decreases m
  {
    hide Half;
    if m > 0 {
      HalvesSplit(Half(t), m - 1, n);
    }
  }

  lemma HalfZero()
    ensures Half(0) == 0
  {
  }

  lemma {:induction false} HalvesZero(n: nat)
    ensures Halves(0, n) == 0
  {
    hide Half;
    if n > 0 {
      HalfZero();
      HalvesZero(n - 1);
    }
  }

  lemma SevenMore(t: bv32)
    requires Half(Half(Half(Half(Half(Half(Half(Drop(Drop(Drop(t)))))))))) == 0
    ensures !TopSet(t)
  {
  }

  // A word that fewer than 32 halvings clear has a clear top bit.
  lemma TopClear(t: bv32, n: nat)
    requires n <= 31 && Halves(t, n) == 0
    ensures !TopSet(t)
  {
    hide Half, Drop, TopSet;
    HalvesSplit(t, n, 31 - n);
    HalvesZero(31 - n);
    var u := Drop(t);
    var v := Drop(u);
    var w := Drop(v);
    HalvesSplit(t, 8, 23);
    HalvesSplit(u, 8, 15);
    HalvesSplit(v, 8, 7);
    EightHalves(t);
    EightHalves(u);
    EightHalves(v);
    DropHalves(t);
    DropHalves(u);
    DropHalves(v);
    var z := Half(Half(Half(Half(w))));
    assert Halves(w, 7) == Halves(z, 3);
    SevenMore(t);
  }

  // Registers that the same number of bits, at most 31, lead to the same value agree but for so many
  // low bits.
  lemma {:induction false} LowDifference(a: bv32, b: bv32, u: seq<bool>, v: seq<bool>)
    requires |u| == |v| <= 31 && Divide(a, u) == Divide(b, v)
    ensures Halves(Plus(a, b), |u|) == 0
    decreases |u|
  {
    hide Feed, Odd, Half, Plus, TopSet;
    if |u| == 0 {
      PlusSame(a);
    } else {
      var a1, b1 := Feed(a, u[0]), Feed(b, v[0]);
      LowDifference(a1, b1, u[1..], v[1..]);
      TopClear(Plus(a1, b1), |u| - 1);
      TopOfDifference(a1, b1);
      FeedTop(a, u[0]);
      FeedTop(b, v[0]);
      FeedDifference(a, b, u[0], v[0]);
    }
  }

  lemma PlusSame(a: bv32)
    ensures Plus(a, a) == 0
  {
  }

  // From any register, two different strings of at most 32 bits leave different registers.
  lemma {:induction false} BitsBurst(c: bv32, u: seq<bool>, v: seq<bool>)
    requires |u| == |v| <= 32 && u != v
    ensures Divide(c, u) != Divide(c, v)
    decreases |u|
  {
    hide Feed, Odd, Plus, TopSet;
    if Divide(c, u) == Divide(c, v) {
      var a, b := Feed(c, u[0]), Feed(c, v[0]);
      LowDifference(a, b, u[1..], v[1..]);
      TopClear(Plus(a, b), |u| - 1);
      TopOfDifference(a, b);
      FeedTop(c, u[0]);
      FeedTop(c, v[0]);
      assert u == [u[0]] + u[1..] && v == [v[0]] + v[1..];
      BitsBurst(a, u[1..], v[1..]);
    }
  }

  lemma SameFeed(a: bv32, b: bv32, d: bv32)
    requires d == Plus(a, b) && Odd(a) == Odd(b) && Half(d) == 0
    ensures a == b
  {
    if a & 1 == 1 {
    } else {
    }
  }

  lemma FeedInjective(a: bv32, b: bv32, bit: bool)
    requires Feed(a, bit) == Feed(b, bit)
    ensures a == b
  {
    hide Feed, Odd, Half, Plus, TopSet;
    FeedTop(a, bit);
    FeedTop(b, bit);
    FeedDifference(a, b, bit, bit);
    PlusSame(Feed(a, bit));
    SameFeed(a, b, Plus(a, b));
  }

  lemma {:induction false} DivideInjective(a: bv32, b: bv32, bits: seq<bool>)
    requires a != b
    ensures Divide(a, bits) != Divide(b, bits)
    decreases |bits|
  {
    hide Feed;
    if |bits| > 0 {
      if Feed(a, bits[0]) == Feed(b, bits[0]) {
        FeedInjective(a, b, bits[0]);
      }
      DivideInjective(Feed(a, bits[0]), Feed(b, bits[0]), bits[1..]);
    }
  }

  lemma SplitAt(s: seq<bool>, t: seq<bool>, lo: nat, hi: nat)
    requires |s| == |t| && lo <= hi <= |s|
    requires forall j :: 0 <= j < |s| && !(lo <= j < hi) ==> s[j] == t[j]
    ensures s == s[..lo] + (s[lo..hi] + s[hi..]) && t == s[..lo] + (t[lo..hi] + s[hi..])
  {
    assert t[..lo] == s[..lo] && t[hi..] == s[hi..];
    assert s == s[..lo] + s[lo..] && s[lo..] == s[lo..hi] + s[hi..];
    assert t == t[..lo] + t[lo..] && t[lo..] == t[lo..hi] + t[hi..];
  }

  lemma SameHalves(a: bv32, b: bv32)
    requires Odd(a) == Odd(b) && Half(a) == Half(b)
    ensures a == b
  {
    if a & 1 == 1 {
    } else {
    }
  }

  lemma {:induction false} BitsOfInjective(a: bv32, b: bv32, n: nat)
    requires BitsOf(a, n) == BitsOf(b, n) && Halves(a, n) == Halves(b, n)
    ensures a == b
    decreases n
  {
    hide Odd, Half;
    if n > 0 {
      assert BitsOf(a, n)[0] == BitsOf(b, n)[0];
      assert BitsOf(a, n)[1..] == BitsOf(b, n)[1..];
      BitsOfInjective(Half(a), Half(b), n - 1);
      SameHalves(a, b);
    }
  }

  lemma ExtendInjective(d: bv8, e: bv8)
    requires Extend(d) == Extend(e)
    ensures d == e
  {
  }

  lemma ByteBits(d: bv8, e: bv8)
    requires BitsOf(Extend(d), 8) == BitsOf(Extend(e), 8)
    ensures d == e
  {
    hide Extend, Half, Halves, BitsOf;
    ByteHalves(d);
    ByteHalves(e);
    EightHalves(Extend(d));
    EightHalves(Extend(e));
    BitsOfInjective(Extend(d), Extend(e), 8);
    ExtendInjective(d, e);
  }

  lemma {:induction false} MessageBitsInjective(x: seq<bv8>, y: seq<bv8>)
    requires |x| == |y| && MessageBits(x) == MessageBits(y)
    ensures x == y
    decreases |x|
  {
    hide Extend, BitsOf;
    if |x| > 0 {
      assert MessageBits(x)[..8] == BitsOf(Extend(x[0]), 8) && MessageBits(x)[8..] == MessageBits(x[1..]);
      assert MessageBits(y)[..8] == BitsOf(Extend(y[0]), 8) && MessageBits(y)[8..] == MessageBits(y[1..]);
      ByteBits(x[0], y[0]);
      MessageBitsInjective(x[1..], y[1..]);
      assert x == [x[0]] + x[1..] && y == [y[0]] + y[1..];
    }
  }

  // Bit j of a message is bit j % 8 of its byte j / 8.
  lemma {:induction false} MessageBitsAt(data: seq<bv8>, j: nat)
    requires j < 8 * |data|
    ensures MessageBits(data)[j] == BitsOf(Extend(data[j / 8]), 8)[j % 8]
    decreases |data|
  {
    hide Extend, BitsOf;
    if j >= 8 {
      MessageBitsAt(data[1..], j - 8);
      assert data[1..][(j - 8) / 8] == data[j / 8];
    }
  }

  // Two messages whose bits differ, but only within 32 consecutive ones, have different checksums.
  lemma BitBurstDetected(x: seq<bv8>, y: seq<bv8>, i: nat)
    requires |x| == |y| && x != y
    requires forall j :: 0 <= j < |MessageBits(x)| && !(i <= j < i + 32) ==> MessageBits(x)[j] == MessageBits(y)[j]
    ensures Checksum(x) != Checksum(y)
  {
    hide Crc, MessageBits, Divide;
    var s, t := MessageBits(x), MessageBits(y);
    if s == t {
      MessageBitsInjective(x, y);
    }
    var n := |s|;
    var lo := if i < n then i else n;
    var hi := if i + 32 < n then i + 32 else n;
    SplitAt(s, t, lo, hi);
    var p, a, b, rest := s[..lo], s[lo..hi], t[lo..hi], s[hi..];
    var c := Divide(INITIAL, p);
    DivideChain(INITIAL, p, a + rest);
    DivideChain(INITIAL, p, b + rest);
    DivideChain(c, a, rest);
    DivideChain(c, b, rest);
    BitsBurst(c, a, b);
    DivideInjective(Divide(c, a), Divide(c, b), rest);
    CrcIsDivision(INITIAL, x);
    CrcIsDivision(INITIAL, y);
  }

  // In particular, messages that differ only within four consecutive bytes.
  lemma BurstDetected(x: seq<bv8>, y: seq<bv8>, i: nat)
    requires |x| == |y| && x != y
    requires forall j :: 0 <= j < |x| && !(i <= j < i + 4) ==> x[j] == y[j]
    ensures Checksum(x) != Checksum(y)
  {
    hide Crc, MessageBits, Extend, BitsOf;
    forall j | 0 <= j < |MessageBits(x)| && !(8 * i <= j < 8 * i + 32)
      ensures MessageBits(x)[j] == MessageBits(y)[j]
    {
      MessageBitsAt(x, j);
      MessageBitsAt(y, j);
      assert x[j / 8] == y[j / 8];
    }
    BitBurstDetected(x, y, 8 * i);
  }

  // From any register, two different runs of at most four bytes leave different registers.
  lemma BurstInjective(c: bv32, a: seq<bv8>, b: seq<bv8>)
    requires |a| == |b| <= 4 && a != b
    ensures Crc(c, a) != Crc(c, b)
  {
    hide Crc, MessageBits, Divide;
    if MessageBits(a) == MessageBits(b) {
      MessageBitsInjective(a, b);
    }
    BitsBurst(c, MessageBits(a), MessageBits(b));
    CrcIsDivision(c, a);
    CrcIsDivision(c, b);
  }

  // --------------------------------------------- zero bytes behind a message

  // The only registers a step over a zero bit leaves as they are.
  const FIXED: bv32 := 0xFCA4_2DAF

  predicate Still(r: bv32) { r == 0 || r == FIXED }

  lemma FixedBit(r: bv32)
    ensures Bit(r) == r <==> Still(r)
  {
    if r & 1 == 1 {
    } else {
    }
  }

  lemma NeverBetween(s: bv32)
    ensures Plus(Bit(s), s) != FIXED
  {
    if s & 1 == 1 {
    } else {
    }
  }

  lemma ThreeSteps(r: bv32)
    requires Bit(Bit(Bit(r))) == r
    ensures Still(r)
  {
  }

  lemma Regroup(b: bv32, p: bv32, q: bv32, r: bv32)
    ensures ((p ^ q) ^ b) ^ r == (p ^ b) ^ (q ^ r)
  {
  }

  lemma MoveOver(x: bv32, b: bv32, w: bv32)
    requires x ^ b == w
    ensures x == w ^ b
  {
  }

  lemma PlusIs(a: bv32, b: bv32)
    ensures Plus(a, b) == a ^ b
  {
  }

  lemma Rearrange(x: bv32, b: bv32, p: bv32, q: bv32, r: bv32)
    requires Plus(x, b) == Plus(p, q)
    ensures Plus(x, r) == Plus(Plus(p, b), Plus(q, r))
  {
    hide Plus;
    PlusIs(x, b);
    PlusIs(p, q);
    MoveOver(x, b, p ^ q);
    Regroup(b, p, q, r);
    PlusIs(x, r);
    PlusIs(p, b);
    PlusIs(q, r);
    PlusIs(p ^ b, q ^ r);
  }

  lemma BitOfZero()
    ensures Bit(0) == 0
  {
  }

  // What m steps change is what one step changes of some other register.
  lemma {:induction false} Telescope(r: bv32, m: nat) returns (s: bv32)
    ensures Plus(Bits(r, m), r) == Plus(Bit(s), s)
    decreases m
  {
    hide Bit, Plus;
    if m == 0 {
      s := 0;
      PlusSame(r);
      BitOfZero();
      PlusSame(s);
    } else {
      var t := Telescope(Bit(r), m - 1);
      s := Plus(t, r);
      BitAdd(t, r);
      Rearrange(Bits(r, m), Bit(r), Bit(t), t, r);
    }
  }

  // One or three, doubled any number of times.
  predicate Tower(m: nat) { m == 1 || m == 3 || (m > 0 && m % 2 == 0 && Tower(m / 2)) }

  lemma EqualPlus(a: bv32, b: bv32)
    requires Plus(a, b) == 0
    ensures a == b
  {
  }

  // A register that so many steps over zero bits lead back to itself is one that a single step keeps.
  lemma {:induction false} FixedBits(r: bv32, m: nat)
    requires Tower(m) && Bits(r, m) == r
    ensures Still(r)
    decreases m
  {
    hide Bit, Plus, Still;
    if m == 1 {
      assert Bits(r, 1) == Bit(r);
      FixedBit(r);
    } else if m == 3 {
      assert Bits(r, 3) == Bits(Bit(r), 2);
      ThreeSteps(r);
    } else {
      var h := m / 2;
      var half := Bits(r, h);
      var d := Plus(half, r);
      BitsSplit(r, h, h);
      BitsAdd(half, r, h);
      PlusCommutes(r, half);
      FixedBits(d, h);
      var s := Telescope(r, h);
      NeverBetween(s);
      assert d == 0 by {
        NotFixed(d);
      }
      EqualPlus(half, r);
      FixedBits(r, h);
    }
  }

  lemma NotFixed(d: bv32)
    requires Still(d) && d != FIXED
    ensures d == 0
  {
  }

  lemma {:induction false} StillKept(r: bv32, m: nat)
    requires Still(r)
    ensures Bits(r, m) == r
    decreases m
  {
    hide Bit, Still;
    if m > 0 {
      FixedBit(r);
      StillKept(r, m - 1);
    }
  }

  function Zeros(n: nat): (r: seq<bv8>)
    ensures |r| == n
  {
    seq(n, _ => 0)
  }

  lemma ZeroByte(r: bv32)
    ensures Plus(r, Extend(0)) == r
  {
  }

  lemma {:induction false} ZeroBytes(r: bv32, n: nat)
    ensures Crc(r, Zeros(n)) == Bits(r, 8 * n)
    decreases n
  {
    hide Bits, Plus, Extend;
    if n == 0 {
      BitsNone(r);
    } else {
      ZeroByte(r);
      ZeroBytes(Bits(r, 8), n - 1);
      BitsSplit(r, 8, 8 * (n - 1));
      assert Zeros(n)[0] == 0 && Zeros(n)[1..] == Zeros(n - 1);
    }
  }

  lemma BitsNone(r: bv32)
    ensures Bits(r, 0) == r
  {
  }

  // The checksums that zero padding does not change: those of the two still registers.
  predicate Unmoved(sum: bv32) { sum == 0xFFFF_FFFF || sum == 0x035B_D250 }

  lemma StillUnmoved(r: bv32)
    ensures Still(r) <==> Unmoved(Flip(r))
  {
  }

  // One to three zero bytes behind a message leave its checksum as it is only for two checksums.
  lemma PaddedChecksum(data: seq<bv8>, n: nat)
    requires 1 <= n <= 3
    ensures Checksum(data + Zeros(n)) == Checksum(data) <==> Unmoved(Checksum(data))
  {
    hide Crc, Bits, Flip, Unmoved, Still;
    var r := Crc(INITIAL, data);
    SameChecksum(data, Zeros(n));
    ZeroBytes(r, n);
    StillUnmoved(r);
    if Still(r) {
      StillKept(r, 8 * n);
    }
    if Bits(r, 8 * n) == r {
      Towers();
      FixedBits(r, 8 * n);
    }
  }

  lemma Towers()
    ensures Tower(8) && Tower(16) && Tower(24)
  {
    assert Tower(1) && Tower(2) && Tower(4) && Tower(6) && Tower(12);
  }

  // --------------------------------------------- the start value

  // t reads as n one bits.
  predicate Ones(t: bv32, n: nat)
    decreases n
  {
    n == 0 || (Odd(t) && Ones(Half(t), n - 1))
  }

  lemma OnesByte(t: bv32)
    requires t & 0xFF == 0xFF
    ensures Odd(t) && Odd(Half(t)) && Odd(Half(Half(t))) && Odd(Half(Half(Half(t))))
    ensures
      var u := Half(Half(Half(Half(t))));
      Odd(u) && Odd(Half(u)) && Odd(Half(Half(u))) && Odd(Half(Half(Half(u))))
  {
  }

  lemma OnesFour(t: bv32, n: nat)
    requires Odd(t) && Odd(Half(t)) && Odd(Half(Half(t))) && Odd(Half(Half(Half(t))))
    requires Ones(Half(Half(Half(Half(t)))), n)
    ensures Ones(t, n + 4)
  {
    hide Odd, Half;
    var v := Half(Half(t));
    assert Ones(Half(v), n + 1);
    assert Ones(v, n + 2);
    assert Ones(Half(t), n + 3);
  }

  lemma OnesMore(t: bv32, n: nat)
    requires t & 0xFF == 0xFF && Ones(Drop(t), n)
    ensures Ones(t, n + 8)
  {
    hide Odd, Half, Drop, Ones;
    OnesByte(t);
    DropHalves(t);
    OnesFour(Half(Half(Half(Half(t)))), n);
    OnesFour(t, n + 4);
  }

  lemma DropsOfStart()
    ensures Drop(0xFFFF_FFFF) == 0x00FF_FFFF && Drop(0x00FF_FFFF) == 0x0000_FFFF
    ensures Drop(0x0000_FFFF) == 0x0000_00FF && Drop(0x0000_00FF) == 0
  {
  }

  lemma StartIsOnes()
    ensures Ones(0xFFFF_FFFF, 32) && Halves(0xFFFF_FFFF, 32) == 0
  {
    hide Drop, Halves, Ones;
    DropsOfStart();
    NoOnes(0);
    OnesMore(0x0000_00FF, 0);
    OnesMore(0x0000_FFFF, 8);
    OnesMore(0x00FF_FFFF, 16);
    OnesMore(0xFFFF_FFFF, 24);
    HalvesDrop(0xFFFF_FFFF, 24);
    HalvesDrop(0x00FF_FFFF, 16);
    HalvesDrop(0x0000_FFFF, 8);
    HalvesDrop(0x0000_00FF, 0);
    HalvesZero(0);
  }

  lemma NoOnes(t: bv32)
    ensures Ones(t, 0)
  {
  }

  lemma HalvesDrop(t: bv32, n: nat)
    ensures Halves(t, n + 8) == Halves(Drop(t), n)
  {
    hide Half, Drop, Halves;
    HalvesSplit(t, 8, n);
    EightHalves(t);
    DropHalves(t);
  }

  // bits with the first n inverted.
  function Inverted(bits: seq<bool>, n: nat): (r: seq<bool>)
    requires n <= |bits|
    ensures |r| == |bits|
  {
    seq(|bits|, i requires 0 <= i < |bits| => if i < n then !bits[i] else bits[i])
  }

  lemma FeedSum(a: bv32, t: bv32, bit: bool)
    requires Odd(t)
    ensures Feed(Plus(a, t), bit) == Plus(Feed(a, !bit), Half(t))
  {
    hide Odd, Half, Mask, Plus;
    OddSum(a, t);
    HalfSum(a, t, Mask(Odd(a) != !bit));
  }

  lemma OddSum(a: bv32, t: bv32)
    requires Odd(t)
    ensures Odd(Plus(a, t)) <==> !Odd(a)
  {
    if a & 1 == 1 {
    } else {
    }
  }

  lemma HalfOfSum(a: bv32, t: bv32)
    ensures Half(Plus(a, t)) == Plus(Half(a), Half(t))
  {
  }

  lemma SwapXor(x: bv32, y: bv32, k: bv32)
    ensures (x ^ y) ^ k == (x ^ k) ^ y
  {
  }

  lemma SwapPlus(x: bv32, y: bv32, k: bv32)
    ensures Plus(Plus(x, y), k) == Plus(Plus(x, k), y)
  {
    calc {
      Plus(Plus(x, y), k);
      { PlusIs(x, y); }
      Plus(x ^ y, k);
      { PlusIs(x ^ y, k); }
      (x ^ y) ^ k;
      { SwapXor(x, y, k); }
      (x ^ k) ^ y;
      { PlusIs(x ^ k, y); }
      Plus(x ^ k, y);
      { PlusIs(x, k); }
      Plus(Plus(x, k), y);
    }
  }

  lemma HalfSum(a: bv32, t: bv32, k: bv32)
    ensures Plus(Half(Plus(a, t)), k) == Plus(Plus(Half(a), k), Half(t))
  {
    hide Plus, Half;
    HalfOfSum(a, t);
    SwapPlus(Half(a), Half(t), k);
  }

  // A start register of ones inverts the bits that pass while it is shifted out.
  lemma {:induction false} DivideOnes(a: bv32, t: bv32, n: nat, bits: seq<bool>)
    requires n <= |bits| && Ones(t, n) && Halves(t, n) == 0
    ensures Divide(Plus(a, t), bits) == Divide(a, Inverted(bits, n))
    decreases n
  {
    hide Feed, Odd, Half, Plus;
    if n == 0 {
      PlusZero(a);
      assert Inverted(bits, 0) == bits;
    } else {
      FeedSum(a, t, bits[0]);
      DivideOnes(Feed(a, !bits[0]), Half(t), n - 1, bits[1..]);
      assert Inverted(bits, n)[1..] == Inverted(bits[1..], n - 1);
    }
  }

  lemma ZeroPlus(t: bv32)
    ensures Plus(0, t) == t
  {
  }

  // The checksum of at least four bytes is the complement of the division, from register 0, of the
  // message bits with the first 32 inverted (RFC 9260, Appendix A).
  lemma StartLaw(data: seq<bv8>)
    requires |data| >= 4
    ensures Checksum(data) == !Divide(0, Inverted(MessageBits(data), 32))
  {
    hide Crc, Divide, MessageBits, Inverted, Plus, Ones, Halves;
    StartIsOnes();
    ZeroPlus(0xFFFF_FFFF);
    DivideOnes(0, 0xFFFF_FFFF, 32, MessageBits(data));
    CrcIsDivision(0xFFFF_FFFF, data);
    FlipIs(Divide(0, Inverted(MessageBits(data), 32)));
  }

  lemma FlipIs(c: bv32)
    ensures Flip(c) == !c
  {
  }

  lemma StartMoves()
    ensures !Still(INITIAL)
  {
  }

  lemma ByteOnly(c: bv32)
    ensures Crc(c, [0]) == Bits(c, 8)
  {
    hide Bits, Plus, Extend;
    ZeroByte(c);
    assert Crc(Step(c, 0), [0 as bv8][1..]) == Step(c, 0);
  }

  // A leading zero byte always counts.
  lemma LeadingZeroCounts(data: seq<bv8>)
    ensures Checksum([0] + data) != Checksum(data)
  {
    hide Crc, Bits, Divide, MessageBits, Flip, Still;
    var c := Crc(INITIAL, [0]);
    ByteOnly(INITIAL);
    StartMoves();
    if c == INITIAL {
      Towers();
      FixedBits(INITIAL, 8);
    }
    Chain(INITIAL, [0], data);
    CrcIsDivision(INITIAL, data);
    CrcIsDivision(c, data);
    DivideInjective(c, INITIAL, MessageBits(data));
    FlipTwice(Crc(INITIAL, data));
    FlipTwice(Crc(c, data));
  }

  lemma ByteStep(c: bv32, d: bv8, r: bv32, rest: seq<bv8>)
    requires Four(Four(Plus(c, Extend(d)))) == r
    ensures Crc(c, [d] + rest) == Crc(r, rest)
  {
    hide Plus, Extend, Four, Bits;
    EightBits(Plus(c, Extend(d)));
    assert ([d] + rest)[0] == d && ([d] + rest)[1..] == rest;
  }

  lemma NothingLeft(c: bv32)
    ensures Crc(c, []) == c
  {
  }

  // The registers after each of the digits 1 to 9.
  lemma Registers()
    ensures Four(Four(Plus(0xFFFF_FFFF, Extend(0x31)))) == 0x6F0A_661C
    ensures Four(Four(Plus(0x6F0A_661C, Extend(0x32)))) == 0x8CAA_3B9F
    ensures Four(Four(Plus(0x8CAA_3B9F, Extend(0x33)))) == 0xEF84_D04D
    ensures Four(Four(Plus(0xEF84_D04D, Extend(0x34)))) == 0x09C5_0B11
    ensures Four(Four(Plus(0x09C5_0B11, Extend(0x35)))) == 0xE72E_DCCA
    ensures Four(Four(Plus(0xE72E_DCCA, Extend(0x36)))) == 0xBECA_8E79
    ensures Four(Four(Plus(0xBECA_8E79, Extend(0x37)))) == 0xEDBD_6815
    ensures Four(Four(Plus(0xEDBD_6815, Extend(0x38)))) == 0x9F78_7F65
    ensures Four(Four(Plus(0x9F78_7F65, Extend(0x39)))) == 0x1CF9_6D7C
  {
  }

  // The catalogued check value of CRC-32C: that of the digits 1 to 9.
  lemma CheckValue()
    ensures Checksum([0x31] + ([0x32] + ([0x33] + ([0x34] + ([0x35] + ([0x36] + ([0x37] + ([0x38] + ([0x39] + [])))))))))
         == 0xE306_9283
  {
    hide Crc, Four, Plus, Extend;
    Registers();
    var s9: seq<bv8> := [0x39] + [];
    var s8: seq<bv8> := [0x38] + s9;
    var s7: seq<bv8> := [0x37] + s8;
    var s6: seq<bv8> := [0x36] + s7;
    var s5: seq<bv8> := [0x35] + s6;
    var s4: seq<bv8> := [0x34] + s5;
    var s3: seq<bv8> := [0x33] + s4;
    var s2: seq<bv8> := [0x32] + s3;
    ByteStep(0xFFFF_FFFF, 0x31, 0x6F0A_661C, s2);
    ByteStep(0x6F0A_661C, 0x32, 0x8CAA_3B9F, s3);
    ByteStep(0x8CAA_3B9F, 0x33, 0xEF84_D04D, s4);
    ByteStep(0xEF84_D04D, 0x34, 0x09C5_0B11, s5);
    ByteStep(0x09C5_0B11, 0x35, 0xE72E_DCCA, s6);
    ByteStep(0xE72E_DCCA, 0x36, 0xBECA_8E79, s7);
    ByteStep(0xBECA_8E79, 0x37, 0xEDBD_6815, s8);
    ByteStep(0xEDBD_6815, 0x38, 0x9F78_7F65, s9);
    ByteStep(0x9F78_7F65, 0x39, 0x1CF9_6D7C, []);
    NothingLeft(0x1CF9_6D7C);
  }
}
