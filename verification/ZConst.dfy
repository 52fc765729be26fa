/** The length and distance tables of the DEFLATE decoder, and the rule they follow. */
module ZConst {
  import Bits
  import opened Deflate
  const ZLENGTH_BASE: seq<nat> := [
    3, 4, 5, 6, 7, 8, 9, 10, 11, 13,
    15, 17, 19, 23, 27, 31, 35, 43, 51, 59,
    67, 83, 99, 115, 131, 163, 195, 227, 258, 0, 0]
  const ZLENGTH_EXTRA: seq<nat> := [0, 0, 0, 0, 0, 0, 0, 0, 1, 1, 1, 1, 2, 2, 2, 2, 3, 3, 3, 3, 4, 4, 4, 4, 5, 5, 5, 5, 0, 0, 0]
  const ZDIST_BASE: seq<nat> := [
    1, 2, 3, 4, 5, 7, 9, 13, 17, 25, 33, 49, 65, 97, 129, 193,
    257, 385, 513, 769, 1025, 1537, 2049, 3073, 4097, 6145, 8193, 12289, 16385, 24577, 0, 0]
  const ZDIST_EXTRA: seq<nat> := [0, 0, 0, 0, 1, 1, 2, 2, 3, 3, 4, 4, 5, 5, 6, 6, 7, 7, 8, 8, 9, 9, 10, 10, 11, 11, 12, 12, 13, 13, 0, 0]

  method LengthCode(z: nat) returns (base: nat, extra: nat)
    requires z < 29
    ensures base == LengthBase(z) && extra == LengthExtra(z)
  {
    LengthTable(z);
    base, extra := ZLENGTH_BASE[z], ZLENGTH_EXTRA[z];
  }

  lemma LengthExtraTable(z: nat)
    requires z < 29
    ensures ZLENGTH_EXTRA[z] == LengthExtra(z)
  {
  }

  lemma {:induction false} LengthTable(z: nat)
    requires z < 29
    ensures ZLENGTH_BASE[z] == LengthBase(z) && ZLENGTH_EXTRA[z] == LengthExtra(z)
  {
    LengthExtraTable(z);
    if 0 < z < 28 {
      LengthTable(z - 1);
      LengthStep(z);
    }
  }

  lemma LengthStep(z: nat)
    requires 0 < z < 28
    ensures ZLENGTH_BASE[z] == ZLENGTH_BASE[z - 1] + Bits.Pow2(LengthExtra(z - 1))
  {
    Bits.Pow2Values();
    if z < 8 {
    } else if z < 16 {
      assert LengthExtra(z - 1) == 0 || LengthExtra(z - 1) == 1 || LengthExtra(z - 1) == 2;
    } else {
      assert LengthExtra(z - 1) == 2 || LengthExtra(z - 1) == 3 || LengthExtra(z - 1) == 4 || LengthExtra(z - 1) == 5;
    }
  }

  method DistCode(z: nat) returns (base: nat, extra: nat)
    requires z < 30
    ensures base == DistBase(z) && extra == DistExtra(z) <= 13
  {
    DistTable(z);
    base, extra := ZDIST_BASE[z], ZDIST_EXTRA[z];
  }

  lemma DistExtraTable(z: nat)
    requires z < 30
    ensures ZDIST_EXTRA[z] == DistExtra(z) <= 13
  {
  }

  lemma {:induction false} DistTable(z: nat)
    requires z < 30
    ensures ZDIST_BASE[z] == DistBase(z) && ZDIST_EXTRA[z] == DistExtra(z) <= 13
  {
    DistExtraTable(z);
    if z > 0 {
      DistTable(z - 1);
      DistStep(z);
    }
  }

  lemma DistStep(z: nat)
    requires 0 < z < 30
    ensures ZDIST_BASE[z] == ZDIST_BASE[z - 1] + Bits.Pow2(DistExtra(z - 1))
  {
    Bits.Pow2Values();
    if z < 8 {
    } else if z < 12 {
      assert DistExtra(z - 1) == 2 || DistExtra(z - 1) == 3 || DistExtra(z - 1) == 4;
    } else if z < 16 {
      assert DistExtra(z - 1) == 4 || DistExtra(z - 1) == 5 || DistExtra(z - 1) == 6;
    } else if z < 20 {
      assert DistExtra(z - 1) == 6 || DistExtra(z - 1) == 7 || DistExtra(z - 1) == 8;
    } else if z < 24 {
      assert Bits.Pow2(10) == 1024;
      assert DistExtra(z - 1) == 8 || DistExtra(z - 1) == 9 || DistExtra(z - 1) == 10;
    } else {
      assert Bits.Pow2(10) == 1024 && Bits.Pow2(11) == 2048;
      assert DistExtra(z - 1) == 10 || DistExtra(z - 1) == 11 || DistExtra(z - 1) == 12 || DistExtra(z - 1) == 13;
    }
  }
}
