/** How powers of 256 sit between powers of 58: the arithmetic behind base58_encode's size
    estimate of 138 digits for 100 bytes and behind MAX_DEC_INPUT_SIZE. */
module PowerBounds {
  import opened Numerals

  lemma MulBoth(a: nat, b: nat, c: nat, d: nat)
    requires a <= b && c <= d
    ensures a * c <= b * d
  {
    MulMonotone(a, b, c);
    MulMonotone(c, d, b);
  }

  lemma {:induction false} SizeEstimate(k: nat)
    ensures Pow(256, k) <= Pow(58, 138 * k / 100 + 1)
  {
    if k < 8 {
      SmallEstimate(k);
    } else {
      hide Pow;
      var e := 138 * (k - 8) / 100 + 1;
      SizeEstimate(k - 8);
      PowAdd(256, 8, k - 8);
      PowAdd(58, 11, e);
      EightBytes();
      MulBoth(Pow(256, 8), Pow(58, 11), Pow(256, k - 8), Pow(58, e));
      PowMonotone(58, 11 + e, 138 * k / 100 + 1);
    }
  }

  lemma SmallEstimate(k: nat)
    requires k < 8
    ensures Pow(256, k) <= Pow(58, 138 * k / 100 + 1)
  {
    hide Pow;
    SmallPowers();
  }

  lemma SmallPowers()
    ensures Pow(256, 0) <= Pow(58, 1) && Pow(256, 1) <= Pow(58, 2) && Pow(256, 2) <= Pow(58, 3)
    ensures Pow(256, 3) <= Pow(58, 5) && Pow(256, 4) <= Pow(58, 6) && Pow(256, 5) <= Pow(58, 7)
    ensures Pow(256, 6) <= Pow(58, 9) && Pow(256, 7) <= Pow(58, 10)
  {
  }

  /** 8 bytes fit in 11 base-58 digits. */
  lemma EightBytes()
    ensures Pow(256, 8) <= Pow(58, 11)
  {
  }

  /** 30 bytes fit in 41 base-58 digits. */
  lemma ThirtyBytes()
    ensures Pow(256, 30) <= Pow(58, 41)
  {
    TenDigits();
    hide Pow;
    PowAdd(256, 10, 10);
    PowAdd(256, 10, 20);
    PowAdd(58, 10, 10);
    PowAdd(58, 20, 20);
    PowAdd(58, 40, 1);
  }

  lemma TenDigits()
    ensures Pow(256, 10) == 1208925819614629174706176
    ensures Pow(58, 10) == 430804206899405824 && Pow(58, 1) == 58
  {
  }

  lemma MaximalInput()
    ensures Pow(256, 120) <= Pow(58, 164)
  {
    hide Pow;
    ThirtyBytes();
    PowAdd(256, 30, 30);
    PowAdd(256, 60, 60);
    PowAdd(58, 41, 41);
    PowAdd(58, 82, 82);
    MulBoth(Pow(256, 30), Pow(58, 41), Pow(256, 30), Pow(58, 41));
    MulBoth(Pow(256, 60), Pow(58, 82), Pow(256, 60), Pow(58, 82));
  }

  lemma {:induction false} PowBaseMonotone(a: nat, b: nat, n: nat)
    requires a <= b
    ensures Pow(a, n) <= Pow(b, n)
  {
    if n > 0 {
      PowBaseMonotone(a, b, n - 1);
      MulBoth(a, b, Pow(a, n - 1), Pow(b, n - 1));
    }
  }

  /** At most 120 bytes grow by at most 44 digits. */
  lemma TightPower(n: nat)
    requires n <= 120
    ensures Pow(256, n) <= Pow(58, n + 44)
  {
    var m := 120 - n;
    if Pow(256, n) > Pow(58, n + 44) {
      PowAdd(256, n, m);
      PowAdd(58, n + 44, m);
      PowBaseMonotone(58, 256, m);
      PowPositive(58, m);
      MulStrict(Pow(58, n + 44), Pow(256, n), Pow(58, m), Pow(256, m));
      MaximalInput();
    }
  }

  lemma MulStrict(a: nat, b: nat, c: nat, d: nat)
    requires a < b && 0 < c <= d
    ensures a * c < b * d
  {
    MulMonotone(a + 1, b, c);
    MulMonotone(c, d, b);
  }
}
