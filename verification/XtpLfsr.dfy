/** The 8-bit Galois LFSR behind the error locator, and its exact period. */
module XtpLfsr {
  type octet = bv8

  /** Exclusive or, by name: proofs about blocks use its laws and never its bits. */
  function Xor(x: octet, y: octet): octet { x ^ y }

  lemma XorLaws(x: octet, y: octet)
    ensures Xor(x, y) == Xor(y, x)
    ensures Xor(x, 0) == x && Xor(x, x) == 0
    ensures Xor(Xor(x, y), y) == x
  {}

  lemma XorAssoc(x: octet, y: octet, z: octet)
    ensures Xor(Xor(x, y), z) == Xor(x, Xor(y, z))
  {}

  lemma XorZero(x: octet, y: octet)
    ensures Xor(x, y) == 0 <==> x == y
  {}

  /** One right shift; the tap mask 0x8E is folded in when bit 0 was set. */
  function Step(x: octet): octet {
    (x >> 1) ^ ((0 - (x & 1)) & 0x8E)
  }

  function Iterate(n: nat, x: octet): octet {
    if n == 0 then x else Step(Iterate(n - 1, x))
  }

  lemma StepLinear(x: octet, y: octet)
    ensures Step(Xor(x, y)) == Xor(Step(x), Step(y))
  {}

  lemma {:induction false} IterateLinear(n: nat, x: octet, y: octet)
    ensures Iterate(n, Xor(x, y)) == Xor(Iterate(n, x), Iterate(n, y))
  {
    hide Xor, Step;
    if n == 0 {
    } else {
      IterateLinear(n - 1, x, y);
      StepLinear(Iterate(n - 1, x), Iterate(n - 1, y));
    }
  }

  lemma IterateOnce(n: nat, x: octet)
    ensures Iterate(0, x) == x && Iterate(n + 1, x) == Step(Iterate(n, x))
  {}

  lemma {:induction false} IterateAdd(m: nat, n: nat, x: octet)
    ensures Iterate(m + n, x) == Iterate(m, Iterate(n, x))
  {
    if m == 0 {
    } else {
      IterateAdd(m - 1, n, x);
    }
  }

  lemma {:induction false} IterateZero(n: nat)
    ensures Iterate(n, 0) == 0
  {
    if n == 0 {
    } else {
      IterateZero(n - 1);
    }
  }

  // ---- Closed forms of the doubling chain: a linear map is given by its eight columns.

  function Column(x: octet, bit: octet, c: octet): octet {
    if x & bit == 0 then 0 else c
  }

  function Linear(c0: octet, c1: octet, c2: octet, c3: octet, c4: octet, c5: octet, c6: octet, c7: octet,
                  x: octet): octet
  {
    Column(x, 0x01, c0) ^ Column(x, 0x02, c1) ^ Column(x, 0x04, c2) ^ Column(x, 0x08, c3) ^
    Column(x, 0x10, c4) ^ Column(x, 0x20, c5) ^ Column(x, 0x40, c6) ^ Column(x, 0x80, c7)
  }

  function Jump1(x: octet): octet { Linear(0x8E, 0x01, 0x02, 0x04, 0x08, 0x10, 0x20, 0x40, x) }
  function Jump2(x: octet): octet { Linear(0x47, 0x8E, 0x01, 0x02, 0x04, 0x08, 0x10, 0x20, x) }
  function Jump4(x: octet): octet { Linear(0xD8, 0xAD, 0x47, 0x8E, 0x01, 0x02, 0x04, 0x08, x) }
  function Jump8(x: octet): octet { Linear(0x83, 0x1B, 0x36, 0x6C, 0xD8, 0xAD, 0x47, 0x8E, x) }
  function Jump16(x: octet): octet { Linear(0x16, 0x2C, 0x58, 0xB0, 0x7D, 0xFA, 0xE9, 0xCF, x) }
  function Jump32(x: octet): octet { Linear(0x09, 0x12, 0x24, 0x48, 0x90, 0x3D, 0x7A, 0xF4, x) }
  function Jump64(x: octet): octet { Linear(0x41, 0x82, 0x19, 0x32, 0x64, 0xC8, 0x8D, 0x07, x) }
  function Jump128(x: octet): octet { Linear(0xCC, 0x85, 0x17, 0x2E, 0x5C, 0xB8, 0x6D, 0xDA, x) }

  lemma StepIsJump(x: octet)
    ensures Step(x) == Jump1(x)
  {}

  lemma StepTwice(x: octet)
    ensures Step(Step(x)) == Jump2(x)
  {}

  lemma JumpDouble2(x: octet)
    ensures Jump1(Jump1(x)) == Jump2(x)
  {
    hide *;
    StepIsJump(x);
    StepIsJump(Jump1(x));
    StepTwice(x);
  }

  lemma JumpDouble4(x: octet)
    ensures Jump2(Jump2(x)) == Jump4(x)
  {}

  lemma JumpDouble8Low(x: octet)
    requires x & 0x80 == 0
    ensures Jump4(Jump4(x)) == Jump8(x)
  {}

  lemma JumpDouble8High(x: octet)
    requires x & 0x80 != 0
    ensures Jump4(Jump4(x)) == Jump8(x)
  {}

  lemma JumpDouble8(x: octet)
    ensures Jump4(Jump4(x)) == Jump8(x)
  {
    hide *;
    if x & 0x80 == 0 { JumpDouble8Low(x); } else { JumpDouble8High(x); }
  }

  lemma JumpDouble16Low(x: octet)
    requires x & 0x80 == 0
    ensures Jump8(Jump8(x)) == Jump16(x)
  {}

  lemma JumpDouble16High(x: octet)
    requires x & 0x80 != 0
    ensures Jump8(Jump8(x)) == Jump16(x)
  {}

  lemma JumpDouble16(x: octet)
    ensures Jump8(Jump8(x)) == Jump16(x)
  {
    hide *;
    if x & 0x80 == 0 { JumpDouble16Low(x); } else { JumpDouble16High(x); }
  }

  lemma JumpDouble32Low(x: octet)
    requires x & 0x80 == 0
    ensures Jump16(Jump16(x)) == Jump32(x)
  {}

  lemma JumpDouble32High(x: octet)
    requires x & 0x80 != 0
    ensures Jump16(Jump16(x)) == Jump32(x)
  {}

  lemma JumpDouble32(x: octet)
    ensures Jump16(Jump16(x)) == Jump32(x)
  {
    hide *;
    if x & 0x80 == 0 { JumpDouble32Low(x); } else { JumpDouble32High(x); }
  }

  lemma JumpDouble64Low(x: octet)
    requires x & 0x80 == 0
    ensures Jump32(Jump32(x)) == Jump64(x)
  {}

  lemma JumpDouble64High(x: octet)
    requires x & 0x80 != 0
    ensures Jump32(Jump32(x)) == Jump64(x)
  {}

  lemma JumpDouble64(x: octet)
    ensures Jump32(Jump32(x)) == Jump64(x)
  {
    hide *;
    if x & 0x80 == 0 { JumpDouble64Low(x); } else { JumpDouble64High(x); }
  }

  lemma JumpDouble128Low(x: octet)
    requires x & 0x80 == 0
    ensures Jump64(Jump64(x)) == Jump128(x)
  {}

  lemma JumpDouble128High(x: octet)
    requires x & 0x80 != 0
    ensures Jump64(Jump64(x)) == Jump128(x)
  {}

  lemma JumpDouble128(x: octet)
    ensures Jump64(Jump64(x)) == Jump128(x)
  {
    hide *;
    if x & 0x80 == 0 { JumpDouble128Low(x); } else { JumpDouble128High(x); }
  }

  lemma IterateJump(x: octet)
    ensures Iterate(1, x) == Jump1(x) && Iterate(2, x) == Jump2(x)
    ensures Iterate(4, x) == Jump4(x) && Iterate(8, x) == Jump8(x)
    ensures Iterate(16, x) == Jump16(x) && Iterate(32, x) == Jump32(x)
    ensures Iterate(64, x) == Jump64(x) && Iterate(128, x) == Jump128(x)
  {
    forall y ensures Iterate(1, y) == Jump1(y) { StepIsJump(y); }
    forall y ensures Iterate(2, y) == Jump2(y) { IterateAdd(1, 1, y); JumpDouble2(y); }
    forall y ensures Iterate(4, y) == Jump4(y) { IterateAdd(2, 2, y); JumpDouble4(y); }
    forall y ensures Iterate(8, y) == Jump8(y) { IterateAdd(4, 4, y); JumpDouble8(y); }
    forall y ensures Iterate(16, y) == Jump16(y) { IterateAdd(8, 8, y); JumpDouble16(y); }
    forall y ensures Iterate(32, y) == Jump32(y) { IterateAdd(16, 16, y); JumpDouble32(y); }
    forall y ensures Iterate(64, y) == Jump64(y) { IterateAdd(32, 32, y); JumpDouble64(y); }
    IterateAdd(64, 64, x); JumpDouble128(x);
  }

  lemma StepInjective(x: octet, y: octet)
    requires Step(x) == Step(y)
    ensures x == y
  {}

  lemma {:induction false} IterateInjective(n: nat, x: octet, y: octet)
    requires Iterate(n, x) == Iterate(n, y)
    ensures x == y
  {
    if n == 0 {
    } else {
      StepInjective(Iterate(n - 1, x), Iterate(n - 1, y));
      IterateInjective(n - 1, x, y);
    }
  }

  lemma Jump128Wraps(x: octet)
    ensures Jump128(Jump128(x)) == Jump1(x)
  {}

  /** 255 steps are the identity. */
  lemma Period(x: octet)
    ensures Iterate(255, x) == x
  {
    IterateAdd(128, 128, x);
    IterateJump(x);
    IterateJump(Jump128(x));
    Jump128Wraps(x);
    StepIsJump(x);
    StepInjective(Iterate(255, x), x);
  }

  lemma {:induction false} PeriodMultiple(q: nat, r: nat, x: octet)
    ensures Iterate(255 * q + r, x) == Iterate(r, x)
  {
    if q == 0 {
    } else {
      IterateAdd(255, 255 * (q - 1) + r, x);
      Period(Iterate(255 * (q - 1) + r, x));
      PeriodMultiple(q - 1, r, x);
    }
  }

  // 255 = 3 * 5 * 17: the three maximal proper divisors leave no nonzero byte fixed.

  lemma Jump15Moves(x: octet)
    requires Jump16(x) == Jump1(x)
    ensures x == 0
  {}

  function Jump3(x: octet): octet { Linear(0xAD, 0x47, 0x8E, 0x01, 0x02, 0x04, 0x08, 0x10, x) }
  function Jump5(x: octet): octet { Linear(0x6C, 0xD8, 0xAD, 0x47, 0x8E, 0x01, 0x02, 0x04, x) }
  function Jump48(x: octet): octet { Linear(0xA6, 0x51, 0xA2, 0x59, 0xB2, 0x79, 0xF2, 0xF9, x) }
  function Jump80(x: octet): octet { Linear(0xFF, 0xE3, 0xDB, 0xAB, 0x4B, 0x96, 0x31, 0x62, x) }
  function Jump51(x: octet): octet { Linear(0xDD, 0xA7, 0x53, 0xA6, 0x51, 0xA2, 0x59, 0xB2, x) }
  function Jump85(x: octet): octet { Linear(0xD7, 0xB3, 0x7B, 0xF6, 0xF1, 0xFF, 0xE3, 0xDB, x) }

  lemma Jump3Splits(x: octet)
    ensures Jump2(Jump1(x)) == Jump3(x)
  {}

  lemma Jump5Splits(x: octet)
    ensures Jump4(Jump1(x)) == Jump5(x)
  {}

  lemma Jump48Splits(x: octet)
    ensures Jump32(Jump16(x)) == Jump48(x)
  {}

  lemma Jump80SplitsLow(x: octet)
    requires x & 0x80 == 0
    ensures Jump64(Jump16(x)) == Jump80(x)
  {}

  lemma Jump80SplitsHigh(x: octet)
    requires x & 0x80 != 0
    ensures Jump64(Jump16(x)) == Jump80(x)
  {}

  lemma Jump80Splits(x: octet)
    ensures Jump64(Jump16(x)) == Jump80(x)
  {
    hide *;
    if x & 0x80 == 0 { Jump80SplitsLow(x); } else { Jump80SplitsHigh(x); }
  }

  lemma Jump51SplitsLow(x: octet)
    requires x & 0x80 == 0
    ensures Jump48(Jump3(x)) == Jump51(x)
  {}

  lemma Jump51SplitsHigh(x: octet)
    requires x & 0x80 != 0
    ensures Jump48(Jump3(x)) == Jump51(x)
  {}

  lemma Jump51Splits(x: octet)
    ensures Jump48(Jump3(x)) == Jump51(x)
  {
    hide *;
    if x & 0x80 == 0 { Jump51SplitsLow(x); } else { Jump51SplitsHigh(x); }
  }

  lemma Jump85SplitsLow(x: octet)
    requires x & 0x80 == 0
    ensures Jump80(Jump5(x)) == Jump85(x)
  {}

  lemma Jump85SplitsHigh(x: octet)
    requires x & 0x80 != 0
    ensures Jump80(Jump5(x)) == Jump85(x)
  {}

  lemma Jump85Splits(x: octet)
    ensures Jump80(Jump5(x)) == Jump85(x)
  {
    hide *;
    if x & 0x80 == 0 { Jump85SplitsLow(x); } else { Jump85SplitsHigh(x); }
  }

  lemma Jump51Moves(x: octet)
    requires Jump51(x) == x
    ensures x == 0
  {}

  lemma Jump85Moves(x: octet)
    requires Jump85(x) == x
    ensures x == 0
  {}

  lemma FixedBy15(x: octet)
    requires Iterate(15, x) == x
    ensures x == 0
  {
    IterateAdd(1, 15, x);
    IterateJump(x);
    Jump15Moves(x);
  }

  lemma FixedBy51(x: octet)
    requires Iterate(51, x) == x
    ensures x == 0
  {
    hide *;
    var y := Jump3(x);
    IterateAdd(48, 3, x); IterateAdd(2, 1, x); IterateAdd(32, 16, y);
    IterateJump(x); IterateJump(Jump1(x)); IterateJump(y); IterateJump(Jump16(y));
    Jump3Splits(x); Jump48Splits(y); Jump51Splits(x);
    Jump51Moves(x);
  }

  lemma FixedBy85(x: octet)
    requires Iterate(85, x) == x
    ensures x == 0
  {
    hide *;
    var y := Jump5(x);
    IterateAdd(80, 5, x); IterateAdd(4, 1, x); IterateAdd(64, 16, y);
    IterateJump(x); IterateJump(Jump1(x)); IterateJump(y); IterateJump(Jump16(y));
    Jump5Splits(x); Jump80Splits(y); Jump85Splits(x);
    Jump85Moves(x);
  }

  /** Whatever m fixes, every multiple of m fixes. */
  lemma {:induction false} FixedByMultiple(j: nat, m: nat, x: octet)
    requires Iterate(m, x) == x
    ensures Iterate(j * m, x) == x
  {
    if j == 0 {
    } else {
      FixedByMultiple(j - 1, m, x);
      assert j * m == m + (j - 1) * m;
      IterateAdd(m, (j - 1) * m, x);
    }
  }

  /** The step in the period argument: from m and a prime p with 255 == p * c, m fixes a nonzero byte
      only if p divides m; otherwise c itself would fix it. */
  lemma FixedByCofactor(m: nat, j: nat, p: nat, c: nat, q: nat, x: octet)
    requires Iterate(m, x) == x
    requires p * c == 255 && j * m == p * q + 1
    ensures Iterate(c, x) == x
  {
    hide *;
    FixedByMultiple(j, m, x);
    FixedByMultiple(c, j * m, x);
    CofactorProduct(p, c, q);
    PeriodMultiple(q, c, x);
  }

  lemma CofactorProduct(p: nat, c: nat, q: nat)
    requires p * c == 255
    ensures c * (p * q + 1) == 255 * q + c
  {
    assert c * (p * q) == (p * c) * q;
  }

  /** j is the inverse of m modulo p; q is the quotient. */
  lemma Inverse17(m: nat) returns (j: nat, q: nat)
    requires m % 17 != 0
    ensures j * m == 17 * q + 1
  {
    var k := m / 17;
    match m % 17
    case 1 => j, q := 1, k;
    case 2 => j, q := 9, 9 * k + 1;
    case 3 => j, q := 6, 6 * k + 1;
    case 4 => j, q := 13, 13 * k + 3;
    case 5 => j, q := 7, 7 * k + 2;
    case 6 => j, q := 3, 3 * k + 1;
    case 7 => j, q := 5, 5 * k + 2;
    case 8 => j, q := 15, 15 * k + 7;
    case 9 => j, q := 2, 2 * k + 1;
    case 10 => j, q := 12, 12 * k + 7;
    case 11 => j, q := 14, 14 * k + 9;
    case 12 => j, q := 10, 10 * k + 7;
    case 13 => j, q := 4, 4 * k + 3;
    case 14 => j, q := 11, 11 * k + 9;
    case 15 => j, q := 8, 8 * k + 7;
    case _ => j, q := 16, 16 * k + 15;
  }

  lemma Inverse5(m: nat) returns (j: nat, q: nat)
    requires m % 5 != 0
    ensures j * m == 5 * q + 1
  {
    var k := m / 5;
    match m % 5
    case 1 => j, q := 1, k;
    case 2 => j, q := 3, 3 * k + 1;
    case 3 => j, q := 2, 2 * k + 1;
    case _ => j, q := 4, 4 * k + 3;
  }

  lemma Inverse3(m: nat) returns (j: nat, q: nat)
    requires m % 3 != 0
    ensures j * m == 3 * q + 1
  {
    var k := m / 3;
    match m % 3
    case 1 => j, q := 1, k;
    case _ => j, q := 2, 2 * k + 1;
  }

  lemma MultipleOf255(m: int, a: int, b: int, c: int)
    requires m == 17 * a == 5 * b == 3 * c
    ensures m == 255 * (c - 84 * b + 280 * a)
  {}

  /** No shift by fewer than 255 steps returns a nonzero byte to itself: the period is exactly 255. */
  lemma ExactPeriod(m: nat, x: octet)
    requires x != 0 && 0 < m < 255
    ensures Iterate(m, x) != x
  {
    hide *;
    if Iterate(m, x) == x {
      if m % 17 != 0 {
        var j, q := Inverse17(m);
        FixedByCofactor(m, j, 17, 15, q, x);
        FixedBy15(x);
      } else if m % 5 != 0 {
        var j, q := Inverse5(m);
        FixedByCofactor(m, j, 5, 51, q, x);
        FixedBy51(x);
      } else if m % 3 != 0 {
        var j, q := Inverse3(m);
        FixedByCofactor(m, j, 3, 85, q, x);
        FixedBy85(x);
      } else {
        MultipleOf255(m, m / 17, m / 5, m / 3);
      }
    }
  }

  // ---- One orbit holds every nonzero byte.

  lemma OrbitDistinct(i: nat, j: nat, x: octet)
    requires x != 0 && i < j < 255
    ensures Iterate(i, x) != Iterate(j, x)
  {
    hide *;
    if Iterate(i, x) == Iterate(j, x) {
      IterateAdd(i, j - i, x);
      IterateInjective(i, x, Iterate(j - i, x));
      ExactPeriod(j - i, x);
    }
  }

  ghost function Orbit(n: nat, x: octet): set<octet> {
    if n == 0 then {} else Orbit(n - 1, x) + {Iterate(n - 1, x)}
  }

  lemma {:induction false} OrbitMember(n: nat, x: octet, y: octet)
    requires y in Orbit(n, x)
    ensures exists t: nat :: t < n && Iterate(t, x) == y
  {
    if y == Iterate(n - 1, x) {
    } else {
      OrbitMember(n - 1, x, y);
    }
  }

  lemma {:induction false} OrbitSize(n: nat, x: octet)
    requires x != 0 && n <= 255
    ensures |Orbit(n, x)| == n && 0 !in Orbit(n, x)
  {
    hide Iterate, Step;
    if n == 0 {
    } else {
      OrbitSize(n - 1, x);
      if Iterate(n - 1, x) in Orbit(n - 1, x) {
        OrbitMember(n - 1, x, Iterate(n - 1, x));
        var t: nat :| t < n - 1 && Iterate(t, x) == Iterate(n - 1, x);
        OrbitDistinct(t, n - 1, x);
      }
      if Iterate(n - 1, x) == 0 {
        IterateZero(n - 1);
        IterateInjective(n - 1, x, 0);
      }
    }
  }

  ghost function Octets(n: nat): set<octet>
    requires n <= 256
  {
    if n == 0 then {} else Octets(n - 1) + {(n - 1) as octet}
  }

  lemma {:induction false} OctetsSize(n: nat)
    requires n <= 256
    ensures |Octets(n)| <= n
  {
    if n == 0 {
    } else {
      OctetsSize(n - 1);
    }
  }

  lemma {:induction false} OctetsAll(n: nat, k: nat)
    requires k < n <= 256
    ensures k as octet in Octets(n)
  {
    if k == n - 1 {
    } else {
      OctetsAll(n - 1, k);
    }
  }

  lemma {:induction false} SubsetSize<T>(a: set<T>, b: set<T>)
    requires a <= b
    ensures |a| <= |b|
  {
    if a == {} {
    } else {
      var z :| z in a;
      SubsetSize(a - {z}, b - {z});
    }
  }

  /** A set of 255 nonzero bytes has them all. */
  lemma FullOrbit(orbit: set<octet>, y: octet)
    requires |orbit| == 255 && 0 !in orbit && y != 0
    ensures y in orbit
  {
    hide *;
    if y !in orbit {
      assert |orbit + {0} + {y}| == 257;
      forall z: octet ensures z in Octets(256) { OctetsAll(256, z as nat); }
      SubsetSize(orbit + {0} + {y}, Octets(256));
      OctetsSize(256);
    }
  }

  /** Any nonzero byte is reached from any other by one shift count below 255, and only one. */
  lemma OrbitCovers(x: octet, y: octet) returns (t: nat)
    requires x != 0 && y != 0
    ensures t < 255 && Iterate(t, x) == y
    ensures forall u: nat :: u < 255 && Iterate(u, x) == y ==> u == t
  {
    hide *;
    OrbitSize(255, x);
    FullOrbit(Orbit(255, x), y);
    OrbitMember(255, x, y);
    t :| t < 255 && Iterate(t, x) == y;
    forall u: nat | u < 255 && Iterate(u, x) == y ensures u == t {
      if u < t { OrbitDistinct(u, t, x); } else if t < u { OrbitDistinct(t, u, x); }
    }
  }
}
