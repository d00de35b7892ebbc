/** The readings shown for a measured value (`interpret_fd`, `interpret_l`):
    fixed, ordered thresholds pick a tier name, a description and a level. */
module Interpretation {

  /** The level that colours a reading. */
  datatype Level = Low | Preferred | Medium | High

  /** What `interpret_fd` and `interpret_l` return: a tier name, a description
      and a level. */
  datatype Reading = Reading(name: string, description: string, level: Level)

  /** The order of the levels from least to most complex. */
  function LevelRank(l: Level): nat {
    match l
    case Low => 0
    case Preferred => 1
    case Medium => 1
    case High => 2
  }

  /** The readings of `interpret_fd`, in increasing order of the value. */
  const FdReadings: seq<Reading> := [
    Reading("매우 단순", "단순한 패턴", Low),
    Reading("선호 범위 (하)", "편안한 복잡도", Preferred),
    Reading("선호 범위 (상)", "흥미로운 복잡도", Preferred),
    Reading("복잡", "높은 복잡도", High),
    Reading("매우 복잡", "매우 높은 복잡도", High)
  ]

  /** The lower bounds of the second to fifth readings of `interpret_fd`. */
  const FdThresholds: seq<real> := [1.2, 1.4, 1.7, 1.8]

  /** The readings of `interpret_l`, in increasing order of the value. */
  const LReadings: seq<Reading> := [
    Reading("균일함", "규칙적 배치", Low),
    Reading("중간", "중간 불균일", Medium),
    Reading("불균일함", "불규칙 배치", High)
  ]

  /** The lower bounds of the second and third readings of `interpret_l`. */
  const LThresholds: seq<real> := [0.3, 0.6]

  /** How many of the thresholds `v` has reached: the index of its tier. */
  function TierIndex(thresholds: seq<real>, v: real): (i: nat)
    ensures i <= |thresholds|
  {
    if thresholds == [] then 0
    else (if thresholds[0] <= v then 1 else 0) + TierIndex(thresholds[1..], v)
  }

  /** A larger value never reaches fewer thresholds. */
  lemma {:induction false} TierIndexMonotone(thresholds: seq<real>, x: real, y: real)
    requires x <= y
    ensures TierIndex(thresholds, x) <= TierIndex(thresholds, y)
  {
    if thresholds != [] {
      TierIndexMonotone(thresholds[1..], x, y);
    }
  }

  /** `interpret_fd`: below 1.2 low; from 1.2 to below 1.7 preferred (split at
      1.4); from 1.7 high (split at 1.8). */
  function InterpretFd(value: real): (r: Reading)
    ensures r.level == Low <==> value < 1.2
    ensures r.level == Preferred <==> 1.2 <= value < 1.7
    ensures r.level == High <==> 1.7 <= value
    ensures r in FdReadings
  {
    if value < 1.2 then Reading("매우 단순", "단순한 패턴", Low)
    else if value < 1.4 then Reading("선호 범위 (하)", "편안한 복잡도", Preferred)
    else if value < 1.7 then Reading("선호 범위 (상)", "흥미로운 복잡도", Preferred)
    else if value < 1.8 then Reading("복잡", "높은 복잡도", High)
    else Reading("매우 복잡", "매우 높은 복잡도", High)
  }

  /** `interpret_l`: below 0.3 low; from 0.3 to below 0.6 medium; from 0.6 high. */
  function InterpretL(value: real): (r: Reading)
    ensures r.level == Low <==> value < 0.3
    ensures r.level == Medium <==> 0.3 <= value < 0.6
    ensures r.level == High <==> 0.6 <= value
    ensures r in LReadings
  {
    if value < 0.3 then Reading("균일함", "규칙적 배치", Low)
    else if value < 0.6 then Reading("중간", "중간 불균일", Medium)
    else Reading("불균일함", "불규칙 배치", High)
  }

  /** The if-chain of `interpret_fd` picks the reading whose index is the number
      of thresholds the value has reached. */
  lemma InterpretFdByThresholds(value: real)
    ensures InterpretFd(value) == FdReadings[TierIndex(FdThresholds, value)]
  {
    var t1, t2, t3 := [1.4, 1.7, 1.8], [1.7, 1.8], [1.8];
    assert FdThresholds[1..] == t1 && t1[1..] == t2 && t2[1..] == t3 && t3[1..] == [];
    var i3 := TierIndex(t3, value);
    var i2 := TierIndex(t2, value);
    var i1 := TierIndex(t1, value);
    assert i3 == if 1.8 <= value then 1 else 0;
    assert i2 == (if 1.7 <= value then 1 else 0) + i3;
    assert i1 == (if 1.4 <= value then 1 else 0) + i2;
    assert TierIndex(FdThresholds, value) == (if 1.2 <= value then 1 else 0) + i1;
  }

  /** The if-chain of `interpret_l` picks the reading whose index is the number
      of thresholds the value has reached. */
  lemma InterpretLByThresholds(value: real)
    ensures InterpretL(value) == LReadings[TierIndex(LThresholds, value)]
  {
    assert LThresholds[1..] == [0.6];
  }

  /** A larger dimension never gets an earlier reading or a lower level. */
  lemma InterpretFdMonotone(x: real, y: real)
    requires x <= y
    ensures TierIndex(FdThresholds, x) <= TierIndex(FdThresholds, y)
    ensures LevelRank(InterpretFd(x).level) <= LevelRank(InterpretFd(y).level)
  {
    TierIndexMonotone(FdThresholds, x, y);
  }

  /** A larger lacunarity never gets an earlier reading or a lower level. */
  lemma InterpretLMonotone(x: real, y: real)
    requires x <= y
    ensures TierIndex(LThresholds, x) <= TierIndex(LThresholds, y)
    ensures LevelRank(InterpretL(x).level) <= LevelRank(InterpretL(y).level)
  {
    TierIndexMonotone(LThresholds, x, y);
  }
}
