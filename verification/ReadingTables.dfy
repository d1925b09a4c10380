/** The tables of the reader: how many digits are kept, and the exponents that need no arithmetic. */
module ReadingTables {
  import opened Powers
  import opened RealPowers
  import opened FloorLog

  /** How many significant digits are kept, for each radix from 2 on. */
  const ATOD_MAX_DIGITS: seq<nat> := [
    64, 80, 32, 55, 49, 45, 21, 40, 38, 37, 35, 34, 33, 32, 16, 31, 30, 30,
    29, 29, 28, 28, 27, 27, 27, 26, 26, 26, 26, 25, 12, 25, 25, 24, 24
  ]

  /** From radix^MAX_EXPONENT on, everything overflows. */
  const MAX_EXPONENT: seq<int> := [
    1024, 647, 512, 442, 397, 365, 342, 324, 309, 297, 286, 277,
    269, 263, 256, 251, 246, 242, 237, 234, 230, 227, 224, 221,
    218, 216, 214, 211, 209, 207, 205, 203, 202, 200, 199
  ]

  /** Up to radix^MIN_EXPONENT, everything underflows. */
  const MIN_EXPONENT: seq<int> := [
    -1075, -679, -538, -463, -416, -383, -359, -340, -324, -311, -300, -291,
    -283, -276, -269, -263, -258, -254, -249, -245, -242, -238, -235, -232,
    -229, -227, -224, -222, -220, -217, -215, -214, -212, -210, -208
  ]

  /** The power-of-two radices keep enough bits below the mantissa for a sticky bit. */
  lemma EnoughBits(radix: nat)
    requires IsPow2(radix)
    ensures var c := ATOD_MAX_DIGITS[radix - 2]; c > 0 && Pow(radix, c - 1) >= Pow(2, 55)
  {
    hide Pow;
    var c, bits := ATOD_MAX_DIGITS[radix - 2], RadixBits(radix);
    PowOfPow(2, bits, c - 1);
    PowUp(2, 55, bits * (c - 1));
  }

  /** The limits of the exponents are right. */
  lemma Limits(radix: nat)
    requires IsRadix(radix) && !IsPow2(radix)
    ensures Exp(2, 1024) <= Exp(radix, MAX_EXPONENT[radix - 2])
    ensures Exp(radix, MIN_EXPONENT[radix - 2]) <= Exp(2, -1075)
  {
    hide Exp, Pow;
    var hi, lo := MAX_EXPONENT[radix - 2], MIN_EXPONENT[radix - 2];
    LimitPowers(radix);
    ExpIsPow(2, 1024);
    ExpIsPow(radix, hi);
    PowPos(2, 1075);
    PowPos(radix, -lo);
    NegativeExp(2, 1075);
    NegativeExp(radix, -lo);
    InverseOrder(Pow(2, 1075) as real, Pow(radix, -lo) as real, Exp(2, -1075), Exp(radix, lo));
  }

  lemma LimitPowers(radix: nat)
    requires IsRadix(radix) && !IsPow2(radix)
    ensures MAX_EXPONENT[radix - 2] >= 0 && MIN_EXPONENT[radix - 2] <= 0
    ensures Pow(2, 1024) < Pow(radix, MAX_EXPONENT[radix - 2]) && Pow(2, 1075) < Pow(radix, -MIN_EXPONENT[radix - 2])
  {
    hide Pow;
    if radix <= 13 { Limits3(radix); } else if radix <= 24 { Limits14(radix); } else { Limits25(radix); }
  }

  lemma Limits3(radix: nat)
    requires 3 <= radix <= 13 && !IsPow2(radix)
    ensures Pow(2, 1024) < Pow(radix, MAX_EXPONENT[radix - 2]) && Pow(2, 1075) < Pow(radix, -MIN_EXPONENT[radix - 2])
  {
    hide Pow;
    match radix
    case 3 => Over3(); Under3();
    case 5 => Over5(); Under5();
    case 6 => Over6(); Under6();
    case 7 => Over7(); Under7();
    case 9 => Over9(); Under9();
    case 10 => Over10(); Under10();
    case 11 => Over11(); Under11();
    case 12 => Over12(); Under12();
    case 13 => Over13(); Under13();
  }

  lemma Limits14(radix: nat)
    requires 14 <= radix <= 24 && !IsPow2(radix)
    ensures Pow(2, 1024) < Pow(radix, MAX_EXPONENT[radix - 2]) && Pow(2, 1075) < Pow(radix, -MIN_EXPONENT[radix - 2])
  {
    hide Pow;
    match radix
    case 14 => Over14(); Under14();
    case 15 => Over15(); Under15();
    case 17 => Over17(); Under17();
    case 18 => Over18(); Under18();
    case 19 => Over19(); Under19();
    case 20 => Over20(); Under20();
    case 21 => Over21(); Under21();
    case 22 => Over22(); Under22();
    case 23 => Over23(); Under23();
    case 24 => Over24(); Under24();
  }

  lemma Limits25(radix: nat)
    requires 25 <= radix <= 36 && !IsPow2(radix)
    ensures Pow(2, 1024) < Pow(radix, MAX_EXPONENT[radix - 2]) && Pow(2, 1075) < Pow(radix, -MIN_EXPONENT[radix - 2])
  {
    hide Pow;
    match radix
    case 25 => Over25(); Under25();
    case 26 => Over26(); Under26();
    case 27 => Over27(); Under27();
    case 28 => Over28(); Under28();
    case 29 => Over29(); Under29();
    case 30 => Over30(); Under30();
    case 31 => Over31(); Under31();
    case 33 => Over33(); Under33();
    case 34 => Over34(); Under34();
    case 35 => Over35(); Under35();
    case 36 => Over36(); Under36();
  }

  lemma Over3() ensures Pow(2, 1024) < Pow(3, 647) { hide Pow; PowAbove(3, 80, 7, 3731219423, 95, 264); }
  lemma Under3() ensures Pow(2, 1075) < Pow(3, 679) { hide Pow; PowAbove(3, 84, 7, 2361162291, 102, 259); }
  lemma Over5() ensures Pow(2, 1024) < Pow(5, 442) { hide Pow; PowAbove(5, 55, 2, 3503246160, 96, 256); }
  lemma Under5() ensures Pow(2, 1075) < Pow(5, 463) { hide Pow; PowAbove(5, 57, 7, 2736911063, 101, 267); }
  lemma Over6() ensures Pow(2, 1024) < Pow(6, 397) { hide Pow; PowAbove(6, 49, 5, 3400648001, 95, 264); }
  lemma Under6() ensures Pow(2, 1075) < Pow(6, 416) { hide Pow; PowAbove(6, 52, 0, 2869296750, 103, 251); }
  lemma Over7() ensures Pow(2, 1024) < Pow(7, 365) { hide Pow; PowAbove(7, 45, 5, 2701234031, 95, 264); }
  lemma Under7() ensures Pow(2, 1075) < Pow(7, 383) { hide Pow; PowAbove(7, 47, 7, 4136264610, 100, 275); }
  lemma Over9() ensures Pow(2, 1024) < Pow(9, 324) { hide Pow; PowAbove(9, 40, 4, 3731219423, 95, 264); }
  lemma Under9() ensures Pow(2, 1075) < Pow(9, 340) { hide Pow; PowAbove(9, 42, 4, 2361162291, 102, 259); }
  lemma Over10() ensures Pow(2, 1024) < Pow(10, 309) { hide Pow; PowAbove(10, 38, 5, 2524354896, 95, 264); }
  lemma Under10() ensures Pow(2, 1075) < Pow(10, 324) { hide Pow; PowAbove(10, 40, 4, 3944304526, 101, 267); }
  lemma Over11() ensures Pow(2, 1024) < Pow(11, 297) { hide Pow; PowAbove(11, 37, 1, 4291901706, 96, 256); }
  lemma Under11() ensures Pow(2, 1075) < Pow(11, 311) { hide Pow; PowAbove(11, 38, 7, 2950682422, 100, 275); }
  lemma Over12() ensures Pow(2, 1024) < Pow(12, 286) { hide Pow; PowAbove(12, 35, 6, 2982112473, 94, 272); }
  lemma Under12() ensures Pow(2, 1075) < Pow(12, 300) { hide Pow; PowAbove(12, 37, 4, 3354876532, 101, 267); }
  lemma Over13() ensures Pow(2, 1024) < Pow(13, 277) { hide Pow; PowAbove(13, 34, 5, 3777934169, 94, 272); }
  lemma Under13() ensures Pow(2, 1075) < Pow(13, 291) { hide Pow; PowAbove(13, 36, 3, 2494026853, 102, 259); }
  lemma Over14() ensures Pow(2, 1024) < Pow(14, 269) { hide Pow; PowAbove(14, 33, 5, 3352784074, 94, 272); }
  lemma Under14() ensures Pow(2, 1075) < Pow(14, 283) { hide Pow; PowAbove(14, 35, 3, 2566975307, 102, 259); }
  lemma Over15() ensures Pow(2, 1024) < Pow(15, 263) { hide Pow; PowAbove(15, 32, 7, 2178214763, 94, 272); }
  lemma Under15() ensures Pow(2, 1075) < Pow(15, 276) { hide Pow; PowAbove(15, 34, 4, 3828893139, 101, 267); }
  lemma Over17() ensures Pow(2, 1024) < Pow(17, 251) { hide Pow; PowAbove(17, 31, 3, 3516146605, 95, 264); }
  lemma Under17() ensures Pow(2, 1075) < Pow(17, 263) { hide Pow; PowAbove(17, 32, 7, 3735905768, 99, 283); }
  lemma Over18() ensures Pow(2, 1024) < Pow(18, 246) { hide Pow; PowAbove(18, 30, 6, 2298029294, 94, 272); }
  lemma Under18() ensures Pow(2, 1075) < Pow(18, 258) { hide Pow; PowAbove(18, 32, 2, 2908443326, 102, 259); }
  lemma Over19() ensures Pow(2, 1024) < Pow(19, 242) { hide Pow; PowAbove(19, 30, 2, 2908897677, 96, 256); }
  lemma Under19() ensures Pow(2, 1075) < Pow(19, 254) { hide Pow; PowAbove(19, 31, 6, 3454315991, 100, 275); }
  lemma Over20() ensures Pow(2, 1024) < Pow(20, 237) { hide Pow; PowAbove(20, 29, 5, 2710505431, 94, 272); }
  lemma Under20() ensures Pow(2, 1075) < Pow(20, 249) { hide Pow; PowAbove(20, 31, 1, 4235164736, 102, 259); }
  lemma Over21() ensures Pow(2, 1024) < Pow(21, 234) { hide Pow; PowAbove(21, 29, 2, 2789201971, 96, 256); }
  lemma Under21() ensures Pow(2, 1075) < Pow(21, 245) { hide Pow; PowAbove(21, 30, 5, 3660827587, 100, 275); }
  lemma Over22() ensures Pow(2, 1024) < Pow(22, 230) { hide Pow; PowAbove(22, 28, 6, 3908818150, 93, 280); }
  lemma Under22() ensures Pow(2, 1075) < Pow(22, 242) { hide Pow; PowAbove(22, 30, 2, 3695054657, 102, 259); }
  lemma Over23() ensures Pow(2, 1024) < Pow(23, 227) { hide Pow; PowAbove(23, 28, 3, 3392577835, 95, 264); }
  lemma Under23() ensures Pow(2, 1075) < Pow(23, 238) { hide Pow; PowAbove(23, 29, 6, 2438415319, 100, 275); }
  lemma Over24() ensures Pow(2, 1024) < Pow(24, 224) { hide Pow; PowAbove(24, 28, 0, 2792577203, 97, 248); }
  lemma Under24() ensures Pow(2, 1075) < Pow(24, 235) { hide Pow; PowAbove(24, 29, 3, 4188865805, 101, 267); }
  lemma Over25() ensures Pow(2, 1024) < Pow(25, 221) { hide Pow; PowAbove(25, 27, 5, 2802596928, 94, 272); }
  lemma Under25() ensures Pow(2, 1075) < Pow(25, 232) { hide Pow; PowAbove(25, 29, 0, 3421138828, 103, 251); }
  lemma Over26() ensures Pow(2, 1024) < Pow(26, 218) { hide Pow; PowAbove(26, 27, 2, 4040459957, 95, 264); }
  lemma Under26() ensures Pow(2, 1075) < Pow(26, 229) { hide Pow; PowAbove(26, 28, 5, 3282873715, 100, 275); }
  lemma Over27() ensures Pow(2, 1024) < Pow(27, 216) { hide Pow; PowAbove(27, 27, 0, 2798414567, 97, 248); }
  lemma Under27() ensures Pow(2, 1075) < Pow(27, 227) { hide Pow; PowAbove(27, 28, 3, 2361162291, 102, 259); }
  lemma Over28() ensures Pow(2, 1024) < Pow(28, 214) { hide Pow; PowAbove(28, 26, 6, 4268931815, 93, 280); }
  lemma Under28() ensures Pow(2, 1075) < Pow(28, 224) { hide Pow; PowAbove(28, 28, 0, 3268400920, 103, 251); }
  lemma Over29() ensures Pow(2, 1024) < Pow(29, 211) { hide Pow; PowAbove(29, 26, 3, 2657653497, 95, 264); }
  lemma Under29() ensures Pow(2, 1075) < Pow(29, 222) { hide Pow; PowAbove(29, 27, 6, 2408498481, 100, 275); }
  lemma Over30() ensures Pow(2, 1024) < Pow(30, 209) { hide Pow; PowAbove(30, 26, 1, 3208285725, 96, 256); }
  lemma Under30() ensures Pow(2, 1075) < Pow(30, 220) { hide Pow; PowAbove(30, 27, 4, 3007767867, 101, 267); }
  lemma Over31() ensures Pow(2, 1024) < Pow(31, 207) { hide Pow; PowAbove(31, 25, 7, 3884031511, 92, 288); }
  lemma Under31() ensures Pow(2, 1075) < Pow(31, 217) { hide Pow; PowAbove(31, 27, 1, 3645072541, 102, 259); }
  lemma Over33() ensures Pow(2, 1024) < Pow(33, 203) { hide Pow; PowAbove(33, 25, 3, 2317388827, 95, 264); }
  lemma Under33() ensures Pow(2, 1075) < Pow(33, 214) { hide Pow; PowAbove(33, 26, 6, 2389807228, 100, 275); }
  lemma Over34() ensures Pow(2, 1024) < Pow(34, 202) { hide Pow; PowAbove(34, 25, 2, 2443955772, 96, 256); }
  lemma Under34() ensures Pow(2, 1075) < Pow(34, 212) { hide Pow; PowAbove(34, 26, 4, 2596703008, 101, 267); }
  lemma Over35() ensures Pow(2, 1024) < Pow(35, 200) { hide Pow; PowAbove(35, 25, 0, 2522269738, 97, 248); }
  lemma Under35() ensures Pow(2, 1075) < Pow(35, 210) { hide Pow; PowAbove(35, 26, 2, 2758732526, 102, 259); }
  lemma Over36() ensures Pow(2, 1024) < Pow(36, 199) { hide Pow; PowAbove(36, 24, 7, 2267098667, 93, 280); }
  lemma Under36() ensures Pow(2, 1075) < Pow(36, 208) { hide Pow; PowAbove(36, 26, 0, 2869296750, 103, 251); }
}
