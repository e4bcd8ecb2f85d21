// The two fixed public schedules of the subgroup test, both of which compute [L]P.
module Schedules {
  import opened Arithmetic
  import opened Words
  import opened Groups
  import opened Straus

  /** The signed schedule: position and digit of entry `n`, most significant first. */
  function PrimeOrderWnaf8(n: nat): (nat, int)
    requires n < 18
  {
    match n
    case 0 => (299, 1) case 1 => (149, 1) case 2 => (141, -73) case 3 => (131, -103) case 4 => (119, 17)
    case 5 => (111, 37) case 6 => (99, 19) case 7 => (91, 9) case 8 => (82, -1) case 9 => (73, -91)
    case 10 => (65, 25) case 11 => (57, -109) case 12 => (45, 23) case 13 => (37, 29) case 14 => (28, 29)
    case 15 => (17, 95) case 16 => (9, 75) case _ => (0, 3)
  }

  /** The set-bit schedule: position of entry `n`, most significant first. */
  function PrimeOrderSetBit(n: nat): nat
    requires n < 64
  {
    if n < 8 then (match n
      case 0 => 299 case 1 => 148 case 2 => 146 case 3 => 145
      case 4 => 143 case 5 => 142 case 6 => 140 case _ => 139)
    else if n < 16 then (match n
      case 8 => 138 case 9 => 135 case 10 => 134 case 11 => 131
      case 12 => 123 case 13 => 119 case 14 => 116 case _ => 113)
    else if n < 24 then (match n
      case 16 => 111 case 17 => 103 case 18 => 100 case 19 => 99
      case 20 => 94 case 21 => 90 case 22 => 89 case _ => 88)
    else if n < 32 then (match n
      case 24 => 87 case 25 => 86 case 26 => 85 case 27 => 84
      case 28 => 83 case 29 => 81 case 30 => 80 case _ => 78)
    else if n < 40 then (match n
      case 32 => 75 case 33 => 73 case 34 => 69 case 35 => 68
      case 36 => 64 case 37 => 61 case 38 => 58 case _ => 57)
    else if n < 48 then (match n
      case 40 => 49 case 41 => 47 case 42 => 46 case 43 => 45
      case 44 => 41 case 45 => 40 case 46 => 39 case _ => 37)
    else if n < 56 then (match n
      case 48 => 32 case 49 => 31 case 50 => 30 case 51 => 28
      case 52 => 23 case 53 => 21 case 54 => 20 case _ => 19)
    else (match n
      case 56 => 18 case 57 => 17 case 58 => 15 case 59 => 12
      case 60 => 10 case 61 => 9 case 62 => 1 case _ => 0)
  }

  datatype Schedule = Wnaf8 | SetBits {
    function Length(): nat {
      if Wnaf8? then 18 else 64
    }

    function Position(n: nat): nat
      requires n < Length()
    {
      if Wnaf8? then PrimeOrderWnaf8(n).0 else PrimeOrderSetBit(n)
    }

    function Digit(n: nat): int
      requires n < Length()
    {
      if Wnaf8? then PrimeOrderWnaf8(n).1 else 1
    }
  }

  /** The multiple held by the accumulator and the bit position it stands at. */
  datatype State = State(multiple: int, bit: nat) {
    /** Double down to `position`, then add `digit`. */
    function Next(position: nat, digit: int): State {
      if position < bit then State(Pow2(bit - position) * multiple + digit, position)
      else State(multiple + digit, bit)
    }
  }

  /** State after entry `n` of a schedule; both lead with digit one. */
  ghost function ScheduleState(s: Schedule, n: nat): State
    requires n < s.Length()
    decreases n, s
  {
    if n == 0 then State(1, s.Position(0)) else ScheduleState(s, n - 1).Next(s.Position(n), s.Digit(n))
  }

  ghost predicate Reaches(s: Schedule, n: nat, multiple: int, bit: nat) {
    n < s.Length() && ScheduleState(s, n) == State(multiple, bit)
  }

  lemma FirstEntry(s: Schedule)
    ensures Reaches(s, 0, 1, s.Position(0))
  {
  }

  /** One schedule entry, checked against its value. */
  lemma NextEntry(s: Schedule, n: nat, gap: nat, power: nat, multiple: int, next: int)
    requires 0 < n < s.Length() && gap > 0 && Reaches(s, n - 1, multiple, s.Position(n) + gap)
    requires Pow2(gap) == power && next == power * multiple + s.Digit(n)
    ensures Reaches(s, n, next, s.Position(n))
  {
  }

  lemma SmallPowers()
    ensures Pow2(1) == 2 && Pow2(6) == 64 && Pow2(7) == 128 && Pow2(2) == 4 && Pow2(3) == 8 && Pow2(4) == 16
            && Pow2(5) == 32
    ensures Pow2(8) == 256 && Pow2(9) == 512 && Pow2(10) == 1024 && Pow2(11) == 2048 && Pow2(12) == 4096
  {
  }

  /** The gaps below the leading digit. */
  lemma WideGap(n: nat)
    requires n == 10
    ensures Pow2(15 * n) == 0x40_0000000000000000_0000000000000000_0000
    ensures Pow2(15 * n + 1) == 0x80_0000000000000000_0000000000000000_0000
  {
    SmallPowers();
    Pow2Add(n, n);
    Pow2Add(2 * n, n);
    Pow2Add(3 * n, 2 * n);
    Pow2Add(5 * n, 5 * n);
    Pow2Add(10 * n, 5 * n);
  }

  lemma WnafFirst()
    ensures Reaches(Wnaf8, 9, 0x40000000000000000000000000000000000000b6e640449404c23fda5, 73)
  {
    hide Reaches;
    SmallPowers();
    FirstEntry(Wnaf8);
    var ten := 10;
    WideGap(ten);
    NextEntry(Wnaf8, 1, 15 * ten,
              0x40000000000000000000000000000000000000, 0x1, 0x40000000000000000000000000000000000001);
    NextEntry(Wnaf8, 2, 8, 256, 0x40000000000000000000000000000000000001, 0x40000000000000000000000000000000000000b7);
    NextEntry(Wnaf8, 3, 10, 1024,
              0x40000000000000000000000000000000000000b7, 0x100000000000000000000000000000000000002db99);
    NextEntry(Wnaf8, 4, 12, 4096,
              0x100000000000000000000000000000000000002db99, 0x100000000000000000000000000000000000002db99011);
    NextEntry(Wnaf8, 5, 8, 256,
              0x100000000000000000000000000000000000002db99011, 0x100000000000000000000000000000000000002db9901125);
    NextEntry(Wnaf8, 6, 12, 4096,
              0x100000000000000000000000000000000000002db9901125,
                0x100000000000000000000000000000000000002db9901125013);
    NextEntry(Wnaf8, 7, 8, 256,
              0x100000000000000000000000000000000000002db9901125013,
                0x100000000000000000000000000000000000002db990112501309);
    NextEntry(Wnaf8, 8, 9, 512,
              0x100000000000000000000000000000000000002db990112501309,
                0x200000000000000000000000000000000000005b7320224a02611ff);
    NextEntry(Wnaf8, 9, 9, 512,
              0x200000000000000000000000000000000000005b7320224a02611ff,
                0x40000000000000000000000000000000000000b6e640449404c23fda5);
  }

  lemma WnafLast()
    requires Reaches(Wnaf8, 9, 0x40000000000000000000000000000000000000b6e640449404c23fda5, 73)
    ensures Reaches(Wnaf8, 17, 0x800000000000000000000000000000000000016dcc80892809847fb4a312602e3a1d0be9603, 0)
  {
    hide Reaches;
    SmallPowers();
    NextEntry(Wnaf8, 10, 8, 256,
              0x40000000000000000000000000000000000000b6e640449404c23fda5,
                0x40000000000000000000000000000000000000b6e640449404c23fda519);
    NextEntry(Wnaf8, 11, 8, 256,
              0x40000000000000000000000000000000000000b6e640449404c23fda519,
                0x40000000000000000000000000000000000000b6e640449404c23fda51893);
    NextEntry(Wnaf8, 12, 12, 4096,
              0x40000000000000000000000000000000000000b6e640449404c23fda51893,
                0x40000000000000000000000000000000000000b6e640449404c23fda51893017);
    NextEntry(Wnaf8, 13, 8, 256,
              0x40000000000000000000000000000000000000b6e640449404c23fda51893017,
                0x40000000000000000000000000000000000000b6e640449404c23fda518930171d);
    NextEntry(Wnaf8, 14, 9, 512,
              0x40000000000000000000000000000000000000b6e640449404c23fda518930171d,
                0x800000000000000000000000000000000000016dcc80892809847fb4a312602e3a1d);
    NextEntry(Wnaf8, 15, 11, 2048,
              0x800000000000000000000000000000000000016dcc80892809847fb4a312602e3a1d,
                0x40000000000000000000000000000000000000b6e640449404c23fda518930171d0e85f);
    NextEntry(Wnaf8, 16, 8, 256,
              0x40000000000000000000000000000000000000b6e640449404c23fda518930171d0e85f,
                0x40000000000000000000000000000000000000b6e640449404c23fda518930171d0e85f4b);
    NextEntry(Wnaf8, 17, 9, 512,
              0x40000000000000000000000000000000000000b6e640449404c23fda518930171d0e85f4b,
                0x800000000000000000000000000000000000016dcc80892809847fb4a312602e3a1d0be9603);
  }

  lemma SetBitsFrom0()
    ensures Reaches(SetBits, 13, 0x100000000000000000000000000000000000002db99011, 119)
  {
    hide Reaches;
    SmallPowers();
    FirstEntry(SetBits);
    var ten := 10;
    WideGap(ten);
    NextEntry(SetBits, 1, 15 * ten + 1,
              0x80000000000000000000000000000000000000, 0x1, 0x80000000000000000000000000000000000001);
    NextEntry(SetBits, 2, 2, 4, 0x80000000000000000000000000000000000001, 0x200000000000000000000000000000000000005);
    NextEntry(SetBits, 3, 1, 2, 0x200000000000000000000000000000000000005, 0x40000000000000000000000000000000000000b);
    NextEntry(SetBits, 4, 2, 4, 0x40000000000000000000000000000000000000b, 0x100000000000000000000000000000000000002d);
    NextEntry(SetBits, 5, 1, 2, 0x100000000000000000000000000000000000002d, 0x200000000000000000000000000000000000005b);
    NextEntry(SetBits, 6, 2, 4, 0x200000000000000000000000000000000000005b, 0x800000000000000000000000000000000000016d);
    NextEntry(SetBits, 7, 1, 2,
              0x800000000000000000000000000000000000016d, 0x100000000000000000000000000000000000002db);
    NextEntry(SetBits, 8, 1, 2,
              0x100000000000000000000000000000000000002db, 0x200000000000000000000000000000000000005b7);
    NextEntry(SetBits, 9, 3, 8,
              0x200000000000000000000000000000000000005b7, 0x100000000000000000000000000000000000002db9);
    NextEntry(SetBits, 10, 1, 2,
              0x100000000000000000000000000000000000002db9, 0x200000000000000000000000000000000000005b73);
    NextEntry(SetBits, 11, 3, 8,
              0x200000000000000000000000000000000000005b73, 0x100000000000000000000000000000000000002db99);
    NextEntry(SetBits, 12, 8, 256,
              0x100000000000000000000000000000000000002db99, 0x100000000000000000000000000000000000002db9901);
    NextEntry(SetBits, 13, 4, 16,
              0x100000000000000000000000000000000000002db9901, 0x100000000000000000000000000000000000002db99011);
  }

  lemma SetBitsFrom13()
    requires Reaches(SetBits, 13, 0x100000000000000000000000000000000000002db99011, 119)
    ensures Reaches(SetBits, 26, 0x40000000000000000000000000000000000000b6e640449404c23f, 85)
  {
    hide Reaches;
    SmallPowers();
    NextEntry(SetBits, 14, 3, 8,
              0x100000000000000000000000000000000000002db99011, 0x800000000000000000000000000000000000016dcc8089);
    NextEntry(SetBits, 15, 3, 8,
              0x800000000000000000000000000000000000016dcc8089, 0x40000000000000000000000000000000000000b6e640449);
    NextEntry(SetBits, 16, 2, 4,
              0x40000000000000000000000000000000000000b6e640449, 0x100000000000000000000000000000000000002db9901125);
    NextEntry(SetBits, 17, 8, 256,
              0x100000000000000000000000000000000000002db9901125, 0x100000000000000000000000000000000000002db990112501);
    NextEntry(SetBits, 18, 3, 8,
              0x100000000000000000000000000000000000002db990112501,
                0x800000000000000000000000000000000000016dcc80892809);
    NextEntry(SetBits, 19, 1, 2,
              0x800000000000000000000000000000000000016dcc80892809,
                0x100000000000000000000000000000000000002db9901125013);
    NextEntry(SetBits, 20, 5, 32,
              0x100000000000000000000000000000000000002db9901125013,
                0x200000000000000000000000000000000000005b7320224a0261);
    NextEntry(SetBits, 21, 4, 16,
              0x200000000000000000000000000000000000005b7320224a0261,
                0x200000000000000000000000000000000000005b7320224a02611);
    NextEntry(SetBits, 22, 1, 2,
              0x200000000000000000000000000000000000005b7320224a02611,
                0x40000000000000000000000000000000000000b6e640449404c23);
    NextEntry(SetBits, 23, 1, 2,
              0x40000000000000000000000000000000000000b6e640449404c23,
                0x800000000000000000000000000000000000016dcc80892809847);
    NextEntry(SetBits, 24, 1, 2,
              0x800000000000000000000000000000000000016dcc80892809847,
                0x100000000000000000000000000000000000002db990112501308f);
    NextEntry(SetBits, 25, 1, 2,
              0x100000000000000000000000000000000000002db990112501308f,
                0x200000000000000000000000000000000000005b7320224a02611f);
    NextEntry(SetBits, 26, 1, 2,
              0x200000000000000000000000000000000000005b7320224a02611f,
                0x40000000000000000000000000000000000000b6e640449404c23f);
  }

  lemma SetBitsFrom26()
    requires Reaches(SetBits, 26, 0x40000000000000000000000000000000000000b6e640449404c23f, 85)
    ensures Reaches(SetBits, 39, 0x40000000000000000000000000000000000000b6e640449404c23fda51893, 57)
  {
    hide Reaches;
    SmallPowers();
    NextEntry(SetBits, 27, 1, 2,
              0x40000000000000000000000000000000000000b6e640449404c23f,
                0x800000000000000000000000000000000000016dcc80892809847f);
    NextEntry(SetBits, 28, 1, 2,
              0x800000000000000000000000000000000000016dcc80892809847f,
                0x100000000000000000000000000000000000002db990112501308ff);
    NextEntry(SetBits, 29, 2, 4,
              0x100000000000000000000000000000000000002db990112501308ff,
                0x40000000000000000000000000000000000000b6e640449404c23fd);
    NextEntry(SetBits, 30, 1, 2,
              0x40000000000000000000000000000000000000b6e640449404c23fd,
                0x800000000000000000000000000000000000016dcc80892809847fb);
    NextEntry(SetBits, 31, 2, 4,
              0x800000000000000000000000000000000000016dcc80892809847fb,
                0x200000000000000000000000000000000000005b7320224a02611fed);
    NextEntry(SetBits, 32, 3, 8,
              0x200000000000000000000000000000000000005b7320224a02611fed,
                0x100000000000000000000000000000000000002db990112501308ff69);
    NextEntry(SetBits, 33, 2, 4,
              0x100000000000000000000000000000000000002db990112501308ff69,
                0x40000000000000000000000000000000000000b6e640449404c23fda5);
    NextEntry(SetBits, 34, 4, 16,
              0x40000000000000000000000000000000000000b6e640449404c23fda5,
                0x40000000000000000000000000000000000000b6e640449404c23fda51);
    NextEntry(SetBits, 35, 1, 2,
              0x40000000000000000000000000000000000000b6e640449404c23fda51,
                0x800000000000000000000000000000000000016dcc80892809847fb4a3);
    NextEntry(SetBits, 36, 4, 16,
              0x800000000000000000000000000000000000016dcc80892809847fb4a3,
                0x800000000000000000000000000000000000016dcc80892809847fb4a31);
    NextEntry(SetBits, 37, 3, 8,
              0x800000000000000000000000000000000000016dcc80892809847fb4a31,
                0x40000000000000000000000000000000000000b6e640449404c23fda5189);
    NextEntry(SetBits, 38, 3, 8,
              0x40000000000000000000000000000000000000b6e640449404c23fda5189,
                0x200000000000000000000000000000000000005b7320224a02611fed28c49);
    NextEntry(SetBits, 39, 1, 2,
              0x200000000000000000000000000000000000005b7320224a02611fed28c49,
                0x40000000000000000000000000000000000000b6e640449404c23fda51893);
  }

  lemma SetBitsFrom39()
    requires Reaches(SetBits, 39, 0x40000000000000000000000000000000000000b6e640449404c23fda51893, 57)
    ensures Reaches(SetBits, 51, 0x800000000000000000000000000000000000016dcc80892809847fb4a312602e3a1d, 28)
  {
    hide Reaches;
    SmallPowers();
    NextEntry(SetBits, 40, 8, 256,
              0x40000000000000000000000000000000000000b6e640449404c23fda51893,
                0x40000000000000000000000000000000000000b6e640449404c23fda5189301);
    NextEntry(SetBits, 41, 2, 4,
              0x40000000000000000000000000000000000000b6e640449404c23fda5189301,
                0x100000000000000000000000000000000000002db990112501308ff694624c05);
    NextEntry(SetBits, 42, 1, 2,
              0x100000000000000000000000000000000000002db990112501308ff694624c05,
                0x200000000000000000000000000000000000005b7320224a02611fed28c4980b);
    NextEntry(SetBits, 43, 1, 2,
              0x200000000000000000000000000000000000005b7320224a02611fed28c4980b,
                0x40000000000000000000000000000000000000b6e640449404c23fda51893017);
    NextEntry(SetBits, 44, 4, 16,
              0x40000000000000000000000000000000000000b6e640449404c23fda51893017,
                0x40000000000000000000000000000000000000b6e640449404c23fda518930171);
    NextEntry(SetBits, 45, 1, 2,
              0x40000000000000000000000000000000000000b6e640449404c23fda518930171,
                0x800000000000000000000000000000000000016dcc80892809847fb4a312602e3);
    NextEntry(SetBits, 46, 1, 2,
              0x800000000000000000000000000000000000016dcc80892809847fb4a312602e3,
                0x100000000000000000000000000000000000002db990112501308ff694624c05c7);
    NextEntry(SetBits, 47, 2, 4,
              0x100000000000000000000000000000000000002db990112501308ff694624c05c7,
                0x40000000000000000000000000000000000000b6e640449404c23fda518930171d);
    NextEntry(SetBits, 48, 5, 32,
              0x40000000000000000000000000000000000000b6e640449404c23fda518930171d,
                0x800000000000000000000000000000000000016dcc80892809847fb4a312602e3a1);
    NextEntry(SetBits, 49, 1, 2,
              0x800000000000000000000000000000000000016dcc80892809847fb4a312602e3a1,
                0x100000000000000000000000000000000000002db990112501308ff694624c05c743);
    NextEntry(SetBits, 50, 1, 2,
              0x100000000000000000000000000000000000002db990112501308ff694624c05c743,
                0x200000000000000000000000000000000000005b7320224a02611fed28c4980b8e87);
    NextEntry(SetBits, 51, 2, 4,
              0x200000000000000000000000000000000000005b7320224a02611fed28c4980b8e87,
                0x800000000000000000000000000000000000016dcc80892809847fb4a312602e3a1d);
  }

  lemma SetBitsFrom51()
    requires Reaches(SetBits, 51, 0x800000000000000000000000000000000000016dcc80892809847fb4a312602e3a1d, 28)
    ensures Reaches(SetBits, 63, 0x800000000000000000000000000000000000016dcc80892809847fb4a312602e3a1d0be9603, 0)
  {
    hide Reaches;
    SmallPowers();
    NextEntry(SetBits, 52, 5, 32,
              0x800000000000000000000000000000000000016dcc80892809847fb4a312602e3a1d,
                0x100000000000000000000000000000000000002db990112501308ff694624c05c743a1);
    NextEntry(SetBits, 53, 2, 4,
              0x100000000000000000000000000000000000002db990112501308ff694624c05c743a1,
                0x40000000000000000000000000000000000000b6e640449404c23fda518930171d0e85);
    NextEntry(SetBits, 54, 1, 2,
              0x40000000000000000000000000000000000000b6e640449404c23fda518930171d0e85,
                0x800000000000000000000000000000000000016dcc80892809847fb4a312602e3a1d0b);
    NextEntry(SetBits, 55, 1, 2,
              0x800000000000000000000000000000000000016dcc80892809847fb4a312602e3a1d0b,
                0x100000000000000000000000000000000000002db990112501308ff694624c05c743a17);
    NextEntry(SetBits, 56, 1, 2,
              0x100000000000000000000000000000000000002db990112501308ff694624c05c743a17,
                0x200000000000000000000000000000000000005b7320224a02611fed28c4980b8e8742f);
    NextEntry(SetBits, 57, 1, 2,
              0x200000000000000000000000000000000000005b7320224a02611fed28c4980b8e8742f,
                0x40000000000000000000000000000000000000b6e640449404c23fda518930171d0e85f);
    NextEntry(SetBits, 58, 2, 4,
              0x40000000000000000000000000000000000000b6e640449404c23fda518930171d0e85f,
                0x100000000000000000000000000000000000002db990112501308ff694624c05c743a17d);
    NextEntry(SetBits, 59, 3, 8,
              0x100000000000000000000000000000000000002db990112501308ff694624c05c743a17d,
                0x800000000000000000000000000000000000016dcc80892809847fb4a312602e3a1d0be9);
    NextEntry(SetBits, 60, 2, 4,
              0x800000000000000000000000000000000000016dcc80892809847fb4a312602e3a1d0be9,
                0x200000000000000000000000000000000000005b7320224a02611fed28c4980b8e8742fa5);
    NextEntry(SetBits, 61, 1, 2,
              0x200000000000000000000000000000000000005b7320224a02611fed28c4980b8e8742fa5,
                0x40000000000000000000000000000000000000b6e640449404c23fda518930171d0e85f4b);
    NextEntry(SetBits, 62, 8, 256,
              0x40000000000000000000000000000000000000b6e640449404c23fda518930171d0e85f4b,
                0x40000000000000000000000000000000000000b6e640449404c23fda518930171d0e85f4b01);
    NextEntry(SetBits, 63, 1, 2,
              0x40000000000000000000000000000000000000b6e640449404c23fda518930171d0e85f4b01,
                0x800000000000000000000000000000000000016dcc80892809847fb4a312602e3a1d0be9603);
  }

  /** The signed schedule spells L. */
  lemma WnafScheduleIsOrder()
    ensures Reaches(Wnaf8, 17, L, 0)
  {
    WnafFirst();
    WnafLast();
  }

  /** So does the set-bit schedule. */
  lemma SetBitsScheduleIsOrder()
    ensures Reaches(SetBits, 63, L, 0)
  {
    SetBitsFrom0();
    SetBitsFrom13();
    SetBitsFrom26();
    SetBitsFrom39();
    SetBitsFrom51();
  }

  /** Every scheduled digit after the first is odd and indexes the odd table. */
  lemma ScheduledDigit(n: nat)
    requires 0 < n < 18
    ensures TableDigit(Wnaf8.Digit(n))
  {
  }

  /** Double from `from` down to `to`. */
  method DoubleDown<T(!new)>(g: Group<T>, start: T, from: nat, to: nat, ghost n: int, ghost point: T)
    returns (accumulator: T, bit: nat)
    requires IsAbelianGroup(g) && start == Mul(g, n, point)
    ensures to < from ==> bit == to && accumulator == Mul(g, Pow2(from - to) * n, point)
    ensures to >= from ==> bit == from && accumulator == start
  {
    hide IsAbelianGroup, Mul;
    accumulator, bit := start, from;
    while bit > to
      invariant bit <= from && (to <= bit || bit == from)
      invariant accumulator == Mul(g, Pow2(from - bit) * n, point)
    {
      MulDouble(g, Pow2(from - bit) * n, point);
      assert 2 * (Pow2(from - bit) * n) == Pow2(from - (bit - 1)) * n;
      accumulator := g.Double(accumulator);
      bit := bit - 1;
    }
  }

  /** `[L]P` is the identity, by the signed schedule over the odd multiples of P. */
  method IsPrimeSubgroupWithTable<T(!new, ==)>(g: Group<T>, point: T, table: seq<T>) returns (b: bool)
    requires IsAbelianGroup(g) && IsOddTable(g, point, table)
    ensures b <==> Mul(g, L, point) == g.zero
  {
    hide IsAbelianGroup, Mul, IsOddTable, TableDigit, PrimeOrderWnaf8;
    var accumulator := point;
    var currentBit: nat := Wnaf8.Position(0);
    var digitIndex := 1;
    MulOne(g, point);
    while digitIndex < 18
      invariant 1 <= digitIndex <= 18
      invariant accumulator == Mul(g, ScheduleState(Wnaf8, digitIndex - 1).multiple, point)
      invariant currentBit == ScheduleState(Wnaf8, digitIndex - 1).bit
    {
      var (position, digit) := PrimeOrderWnaf8(digitIndex);
      ghost var state := ScheduleState(Wnaf8, digitIndex - 1);
      accumulator, currentBit := DoubleDown(g, accumulator, currentBit, position, state.multiple, point);
      ScheduledDigit(digitIndex);
      MulAdd(g, state.Next(position, digit).multiple - digit, digit, point);
      accumulator := VartimeAddSigned(g, accumulator, digit, table, false, point);
      digitIndex := digitIndex + 1;
    }
    WnafScheduleIsOrder();
    b := accumulator == g.zero;
  }

  /** `[L]P` by the set bits of L. */
  method ScalarMulPrimeOrderSparse<T(!new)>(g: Group<T>, point: T) returns (accumulator: T)
    requires IsAbelianGroup(g)
    ensures accumulator == Mul(g, L, point)
  {
    hide IsAbelianGroup, Mul, PrimeOrderSetBit;
    accumulator := point;
    var currentBit: nat := PrimeOrderSetBit(0);
    var setBitIndex := 1;
    MulOne(g, point);
    while setBitIndex < 64
      invariant 1 <= setBitIndex <= 64
      invariant accumulator == Mul(g, ScheduleState(SetBits, setBitIndex - 1).multiple, point)
      invariant currentBit == ScheduleState(SetBits, setBitIndex - 1).bit
    {
      var setBit := PrimeOrderSetBit(setBitIndex);
      ghost var state := ScheduleState(SetBits, setBitIndex - 1);
      accumulator, currentBit := DoubleDown(g, accumulator, currentBit, setBit, state.multiple, point);
      MulSuccessor(g, state.Next(setBit, 1).multiple - 1, point);
      accumulator := g.add(accumulator, point);
      setBitIndex := setBitIndex + 1;
    }
    SetBitsScheduleIsOrder();
  }

  method IsPrimeSubgroup<T(!new, ==)>(g: Group<T>, point: T) returns (b: bool)
    requires IsAbelianGroup(g)
    ensures b <==> Mul(g, L, point) == g.zero
  {
    var multiple := ScalarMulPrimeOrderSparse(g, point);
    b := multiple == g.zero;
  }

  /** Over the curve's group the test accepts exactly the points without torsion. */
  lemma SubgroupTestExact(x: Element)
    ensures Mul(ProductGroup(), L, x) == ProductGroup().zero <==> x.torsion == 0
  {
    ProductGroupMultiples(L, x);
    MultipleOf(x.prime, L);
    assert L % 4 == 3;
    TorsionSurvives(L, x.torsion);
  }

  lemma TorsionSurvives(n: nat, t: int)
    requires n % 4 == 3 && 0 <= t < 4
    ensures n * t % 4 == 0 <==> t == 0
  {
    assert t == 0 || t == 1 || t == 2 || t == 3;
  }
}
