/** The cached powers of ten (fpconv/fpconv_powers.h:54-99). */
module FpPowers {
  import opened FpBase

  const NPOWERS: nat := 87

  /** firstpower + i * steppowers. */
  function DecimalExp(i: int): int { 8 * i - 348 }

  /** powers_ten: entry i approximates 10^(8 i - 348). */
  function PowerTen(i: nat): Fp
    requires i < NPOWERS
  {
    if i < 8 then
      if i == 0 then Fp(18054884314459144840, -1220)
      else if i == 1 then Fp(13451937075301367670, -1193)
      else if i == 2 then Fp(10022474136428063862, -1166)
      else if i == 3 then Fp(14934650266808366570, -1140)
      else if i == 4 then Fp(11127181549972568877, -1113)
      else if i == 5 then Fp(16580792590934885855, -1087)
      else if i == 6 then Fp(12353653155963782858, -1060)
      else Fp(18408377700990114895, -1034)
    else if i < 16 then
      if i == 8 then Fp(13715310171984221708, -1007)
      else if i == 9 then Fp(10218702384817765436, -980)
      else if i == 10 then Fp(15227053142812498563, -954)
      else if i == 11 then Fp(11345038669416679861, -927)
      else if i == 12 then Fp(16905424996341287883, -901)
      else if i == 13 then Fp(12595523146049147757, -874)
      else if i == 14 then Fp(9384396036005875287, -847)
      else Fp(13983839803942852151, -821)
    else if i < 24 then
      if i == 16 then Fp(10418772551374772303, -794)
      else if i == 17 then Fp(15525180923007089351, -768)
      else if i == 18 then Fp(11567161174868858868, -741)
      else if i == 19 then Fp(17236413322193710309, -715)
      else if i == 20 then Fp(12842128665889583758, -688)
      else if i == 21 then Fp(9568131466127621947, -661)
      else if i == 22 then Fp(14257626930069360058, -635)
      else Fp(10622759856335341974, -608)
    else if i < 32 then
      if i == 24 then Fp(15829145694278690180, -582)
      else if i == 25 then Fp(11793632577567316726, -555)
      else if i == 26 then Fp(17573882009934360870, -529)
      else if i == 27 then Fp(13093562431584567480, -502)
      else if i == 28 then Fp(9755464219737475723, -475)
      else if i == 29 then Fp(14536774485912137811, -449)
      else if i == 30 then Fp(10830740992659433045, -422)
      else Fp(16139061738043178685, -396)
    else if i < 40 then
      if i == 32 then Fp(12024538023802026127, -369)
      else if i == 33 then Fp(17917957937422433684, -343)
      else if i == 34 then Fp(13349918974505688015, -316)
      else if i == 35 then Fp(9946464728195732843, -289)
      else if i == 36 then Fp(14821387422376473014, -263)
      else if i == 37 then Fp(11042794154864902060, -236)
      else if i == 38 then Fp(16455045573212060422, -210)
      else Fp(12259964326927110867, -183)
    else if i < 48 then
      if i == 40 then Fp(18268770466636286478, -157)
      else if i == 41 then Fp(13611294676837538539, -130)
      else if i == 42 then Fp(10141204801825835212, -103)
      else if i == 43 then Fp(15111572745182864684, -77)
      else if i == 44 then Fp(11258999068426240000, -50)
      else if i == 45 then Fp(16777216000000000000, -24)
      else if i == 46 then Fp(12500000000000000000, 3)
      else Fp(9313225746154785156, 30)
    else if i < 56 then
      if i == 48 then Fp(13877787807814456755, 56)
      else if i == 49 then Fp(10339757656912845936, 83)
      else if i == 50 then Fp(15407439555097886824, 109)
      else if i == 51 then Fp(11479437019748901445, 136)
      else if i == 52 then Fp(17105694144590052135, 162)
      else if i == 53 then Fp(12744735289059618216, 189)
      else if i == 54 then Fp(9495567745759798747, 216)
      else Fp(14149498560666738074, 242)
    else if i < 64 then
      if i == 56 then Fp(10542197943230523224, 269)
      else if i == 57 then Fp(15709099088952724970, 295)
      else if i == 58 then Fp(11704190886730495818, 322)
      else if i == 59 then Fp(17440603504673385349, 348)
      else if i == 60 then Fp(12994262207056124023, 375)
      else if i == 61 then Fp(9681479787123295682, 402)
      else if i == 62 then Fp(14426529090290212157, 428)
      else Fp(10748601772107342003, 455)
    else if i < 72 then
      if i == 64 then Fp(16016664761464807395, 481)
      else if i == 65 then Fp(11933345169920330789, 508)
      else if i == 66 then Fp(17782069995880619868, 534)
      else if i == 67 then Fp(13248674568444952270, 561)
      else if i == 68 then Fp(9871031767461413346, 588)
      else if i == 69 then Fp(14708983551653345445, 614)
      else if i == 70 then Fp(10959046745042015199, 641)
      else Fp(16330252207878254650, 667)
    else if i < 80 then
      if i == 72 then Fp(12166986024289022870, 694)
      else if i == 73 then Fp(18130221999122236476, 720)
      else if i == 74 then Fp(13508068024458167312, 747)
      else if i == 75 then Fp(10064294952495520794, 774)
      else if i == 76 then Fp(14996968138956309548, 800)
      else if i == 77 then Fp(11173611982879273257, 827)
      else if i == 78 then Fp(16649979327439178909, 853)
      else Fp(12405201291620119593, 880)
    else
      if i == 80 then Fp(9242595204427927429, 907)
      else if i == 81 then Fp(13772540099066387757, 933)
      else if i == 82 then Fp(10261342003245940623, 960)
      else if i == 83 then Fp(15290591125556738113, 986)
      else if i == 84 then Fp(11392378155556871081, 1013)
      else if i == 85 then Fp(16975966327722178521, 1039)
      else Fp(12648080533535911531, 1066)
  }

  /** The next 64 bits of each power of ten beyond its significand: a certificate for the accuracy proof. */
  ghost function Tail(i: nat): int
    requires i < NPOWERS
  {
    if i < 8 then
      if i == 0 then 1671618768450675796
      else if i == 1 then 6735622456908576330
      else if i == 2 then 5493207715531443249
      else if i == 3 then 5910495864778290617
      else if i == 4 then 5166248661484910191
      else if i == 5 then 8050505971837842366
      else if i == 6 then 7907585416552444935
      else 2731688931043774331
    else if i < 16 then
      if i == 8 then 2579604275232953684
      else if i == 9 then -5891368184943504668
      else if i == 10 then 962181821410786820
      else if i == 11 then 8031958568804398249
      else if i == 12 then 5070514048102157020
      else if i == 13 then 6411694268519837209
      else if i == 14 then 8558313775058847832
      else -7468914334623251739
    else if i < 24 then
      if i == 16 then 4607414176811284002
      else if i == 17 then 9035120885289943691
      else if i == 18 then -9157889458785081179
      else if i == 19 then -8720225134666286027
      else if i == 20 then -1612744301171463613
      else if i == 21 then 3021029092058325107
      else if i == 22 then 4679224488766679550
      else -3841273781498745803
    else if i < 32 then
      if i == 24 then -2358206946763686087
      else if i == 25 then -4522070525825979462
      else if i == 26 then 6523987031636299003
      else if i == 27 then 973227847154161339
      else if i == 28 then 1244995533423855987
      else if i == 29 then -249470856692830026
      else if i == 30 then 4209185567039092848
      else 6447041592208152311
    else if i < 40 then
      if i == 32 then -3797434642040374957
      else if i == 33 then 8476984389250486570
      else if i == 34 then -573958201337495958
      else if i == 35 then 1985699082112030976
      else if i == 36 then 4004531380238580045
      else if i == 37 then -1925667057416912855
      else if i == 38 then -8306719647944912789
      else -2457545025797441046
    else if i < 48 then
      if i == 40 then -8373707460958465028
      else if i == 41 then -8578025658503072380
      else if i == 42 then -486521013540076076
      else if i == 43 then -3187597375937010519
      else if i == 44 then 0
      else if i == 45 then 0
      else if i == 46 then 0
      else 4611686018427387904
    else if i < 56 then
      if i == 48 then 5449091666327633920
      else if i == 49 then -1981020733047832576
      else if i == 50 then 8260886245095692416
      else if i == 51 then 132682750386005393
      else if i == 52 then 5523571108200991709
      else if i == 53 then 4261994450943298508
      else if i == 54 then 8729779031470891258
      else 4298070930406474644
    else if i < 64 then
      if i == 56 then 6430056314514152534
      else if i == 57 then -1725319251657714538
      else if i == 58 then -2036086408133152610
      else if i == 59 then -4582539761593113446
      else if i == 60 then 3006924907348169212
      else if i == 61 then 831516194300602802
      else if i == 62 then 8039631859474607303
      else -2480258038432112252
    else if i < 72 then
      if i == 64 then 8055355950647669691
      else if i == 65 then 4898431519131537558
      else if i == 66 then -8454007886460797627
      else if i == 67 then 869737256868047663
      else if i == 68 then 4908902581746016003
      else if i == 69 then 3597254110643241460
      else if i == 70 then -4363290727450709942
      else 3333981370896602654
    else if i < 80 then
      if i == 72 then 9158133232781315341
      else if i == 73 then 1628122660560806833
      else if i == 74 then -7102991539009341454
      else if i == 75 then 1932195658189984910
      else if i == 76 then 3254824252494523781
      else if i == 77 then -3855940325606653145
      else if i == 78 then 920161932633717461
      else 6080780864604458308
    else
      if i == 80 then 8755227902219092403
      else if i == 81 then -2285846861678029117
      else if i == 82 then 6273243709394548296
      else if i == 83 then 6892203506629956076
      else if i == 84 then 7784369436827535057
      else if i == 85 then -2009630378153219953
      else -1472767802899791692
  }

  ghost function Wide(i: nat): int
    requires i < NPOWERS
  {
    PowerTen(i).frac * 0x1_0000_0000_0000_0000 + Tail(i)
  }

  function Binades(i: nat): int
    requires i + 1 < NPOWERS
  {
    PowerTen(i + 1).exp - PowerTen(i).exp
  }

  /** Everything about one row that is checked by evaluation: it is normalised, its tail is below one half,
      and its successor is 26 or 27 binary orders up and 10^8 times as large, up to two units of the last place. */
  ghost predicate GoodRow(i: nat)
    requires i < NPOWERS
  {
    && PowerTen(i).frac >= TWO63
    && -0x7FFF_0000_0000_0000 <= Tail(i) <= 0x7FFF_0000_0000_0000
    && (i + 1 < NPOWERS ==>
          var p := if Binades(i) == 26 then 0x400_0000 else 0x800_0000;
          && 26 <= Binades(i) <= 27
          && -2 * p <= PowerTen(i).frac * 100000000 - PowerTen(i + 1).frac * p <= 2 * p
          && -2 * p <= Wide(i) * 100000000 - Wide(i + 1) * p <= 2 * p)
  }

  lemma Rows0(i: nat)
    requires 0 <= i <= 7
    ensures GoodRow(i)
  {
    if i == 0 {
    } else if i == 1 {
    } else if i == 2 {
    } else if i == 3 {
    } else if i == 4 {
    } else if i == 5 {
    } else if i == 6 {
    } else {
    }
  }

  lemma Rows8(i: nat)
    requires 8 <= i <= 15
    ensures GoodRow(i)
  {
    if i == 8 {
    } else if i == 9 {
    } else if i == 10 {
    } else if i == 11 {
    } else if i == 12 {
    } else if i == 13 {
    } else if i == 14 {
    } else {
    }
  }

  lemma Rows16(i: nat)
    requires 16 <= i <= 23
    ensures GoodRow(i)
  {
    if i == 16 {
    } else if i == 17 {
    } else if i == 18 {
    } else if i == 19 {
    } else if i == 20 {
    } else if i == 21 {
    } else if i == 22 {
    } else {
    }
  }

  lemma Rows24(i: nat)
    requires 24 <= i <= 31
    ensures GoodRow(i)
  {
    if i == 24 {
    } else if i == 25 {
    } else if i == 26 {
    } else if i == 27 {
    } else if i == 28 {
    } else if i == 29 {
    } else if i == 30 {
    } else {
    }
  }

  lemma Rows32(i: nat)
    requires 32 <= i <= 39
    ensures GoodRow(i)
  {
    if i == 32 {
    } else if i == 33 {
    } else if i == 34 {
    } else if i == 35 {
    } else if i == 36 {
    } else if i == 37 {
    } else if i == 38 {
    } else {
    }
  }

  lemma Rows40(i: nat)
    requires 40 <= i <= 47
    ensures GoodRow(i)
  {
    if i == 40 {
    } else if i == 41 {
    } else if i == 42 {
    } else if i == 43 {
    } else if i == 44 {
    } else if i == 45 {
    } else if i == 46 {
    } else {
    }
  }

  lemma Rows48(i: nat)
    requires 48 <= i <= 55
    ensures GoodRow(i)
  {
    if i == 48 {
    } else if i == 49 {
    } else if i == 50 {
    } else if i == 51 {
    } else if i == 52 {
    } else if i == 53 {
    } else if i == 54 {
    } else {
    }
  }

  lemma Rows56(i: nat)
    requires 56 <= i <= 63
    ensures GoodRow(i)
  {
    if i == 56 {
    } else if i == 57 {
    } else if i == 58 {
    } else if i == 59 {
    } else if i == 60 {
    } else if i == 61 {
    } else if i == 62 {
    } else {
    }
  }

  lemma Rows64(i: nat)
    requires 64 <= i <= 71
    ensures GoodRow(i)
  {
    if i == 64 {
    } else if i == 65 {
    } else if i == 66 {
    } else if i == 67 {
    } else if i == 68 {
    } else if i == 69 {
    } else if i == 70 {
    } else {
    }
  }

  lemma Rows72(i: nat)
    requires 72 <= i <= 79
    ensures GoodRow(i)
  {
    if i == 72 {
    } else if i == 73 {
    } else if i == 74 {
    } else if i == 75 {
    } else if i == 76 {
    } else if i == 77 {
    } else if i == 78 {
    } else {
    }
  }

  lemma Rows80(i: nat)
    requires 80 <= i <= 86
    ensures GoodRow(i)
  {
    if i == 80 {
    } else if i == 81 {
    } else if i == 82 {
    } else if i == 83 {
    } else if i == 84 {
    } else if i == 85 {
    } else {
    }
  }

  lemma EveryRowGood(i: nat)
    requires i < NPOWERS
    ensures GoodRow(i)
  {
    if i <= 7 {
      Rows0(i);
    } else if i <= 15 {
      Rows8(i);
    } else if i <= 23 {
      Rows16(i);
    } else if i <= 31 {
      Rows24(i);
    } else if i <= 39 {
      Rows32(i);
    } else if i <= 47 {
      Rows40(i);
    } else if i <= 55 {
      Rows48(i);
    } else if i <= 63 {
      Rows56(i);
    } else if i <= 71 {
      Rows64(i);
    } else if i <= 79 {
      Rows72(i);
    } else {
      Rows80(i);
    }
  }

  // ---- find_cachedpow10 (lines 109-133) ------------------------------------------------------

  const EXP_MAX: int := -32
  const EXP_MIN: int := -60

  /** Exponent of the product of a number with exponent `exp` and entry `i`. */
  function ProductExp(exp: int, i: nat): int
    requires i < NPOWERS
  {
    exp + PowerTen(i).exp + 64
  }

  function Excess(exp: int, i: nat): nat
    requires i < NPOWERS
  {
    var current := ProductExp(exp, i);
    if current < EXP_MIN then EXP_MIN - current else if current > EXP_MAX then current - EXP_MAX else 0
  }

  /** The search loop, from any start index: the window is wider than a step, so the walk never turns back. */
  method SearchFrom(exp: int, start: nat) returns (i: nat)
    requires -1137 <= exp <= 960 && start < NPOWERS
    ensures i < NPOWERS && EXP_MIN <= ProductExp(exp, i) <= EXP_MAX
  {
    i := start;
    while true
      invariant i < NPOWERS
      decreases Excess(exp, i)
    {
      var current := ProductExp(exp, i);
      if current < EXP_MIN {
        assert i != 86;
        EveryRowGood(i);
        i := i + 1;
      } else if current > EXP_MAX {
        assert i != 0;
        EveryRowGood(i - 1);
        i := i - 1;
      } else {
        return;
      }
    }
  }

  function Truncate(x: real): int {
    if x >= 0.0 then x.Floor else -((-x).Floor)
  }

  /** The first guess, a logarithm estimate computed in floating point. */
  function StartIndex(exp: int): (i: int)
    requires -1137 <= exp <= 960
    ensures 0 <= i < NPOWERS
  {
    var approx := Truncate((-(exp + NPOWERS)) as real * 0.30102999566398114);
    (approx + 348) / 8
  }

  method FindCachedPow10(exp: int) returns (cp: Fp, k: int, ghost i: nat)
    requires -1137 <= exp <= 960
    ensures i < NPOWERS && cp == PowerTen(i) && k == DecimalExp(i)
    ensures EXP_MIN <= exp + cp.exp + 64 <= EXP_MAX
  {
    var idx := SearchFrom(exp, StartIndex(exp));
    return PowerTen(idx), DecimalExp(idx), idx;
  }
}
