/** Single-byte error correction: a parity byte and an LFSR-weighted locator byte. */
module XtpEcc {
  import opened XtpLfsr

  datatype EccResult = EccOk | EccCorrected | EccFailParity | EccFailUncorrected

  function Parity(block: seq<octet>): octet {
    if block == [] then 0 else Xor(Parity(block[..|block| - 1]), block[|block| - 1])
  }

  function Locator(block: seq<octet>): octet {
    if block == [] then 0 else Step(Xor(Locator(block[..|block| - 1]), block[|block| - 1]))
  }

  ghost predicate CodeWord(block: seq<octet>, ecc0: octet, ecc1: octet) {
    Parity(block) == ecc0 && Locator(block) == ecc1
  }

  function Flip(block: seq<octet>, k: nat, e: octet): (r: seq<octet>)
    requires k < |block|
    ensures |r| == |block|
  {
    block[k := Xor(block[k], e)]
  }

  /** fixed is a code word at distance exactly one byte from block. */
  ghost predicate Repairs(block: seq<octet>, fixed: seq<octet>, ecc0: octet, ecc1: octet) {
    && |fixed| == |block|
    && CodeWord(fixed, ecc0, ecc1)
    && exists k, e :: 0 <= k < |block| && e != 0 && fixed == Flip(block, k, e)
  }

  ghost predicate Repairable(block: seq<octet>, ecc0: octet, ecc1: octet) {
    exists fixed :: Repairs(block, fixed, ecc0, ecc1)
  }

  /** What decoding must do, said without the search: an empty block is never accepted; a code word passes; one
      matching check byte means the other was hit; otherwise the block is replaced by the code word one byte away,
      when there is one. */
  ghost function Outcome(block: seq<octet>, ecc0: octet, ecc1: octet): (r: (EccResult, seq<octet>))
    ensures |r.1| == |block|
  {
    if block == [] then (EccFailUncorrected, block)
    else if CodeWord(block, ecc0, ecc1) then (EccOk, block)
    else if Parity(block) == ecc0 || Locator(block) == ecc1 then (EccFailParity, block)
    else if Repairable(block, ecc0, ecc1) then
      var fixed :| Repairs(block, fixed, ecc0, ecc1); (EccCorrected, fixed)
    else (EccFailUncorrected, block)
  }

  // ---- How one byte moves the two check bytes.

  lemma XorSwap(a: octet, b: octet, c: octet)
    ensures Xor(Xor(a, b), c) == Xor(Xor(a, c), b)
  {}

  lemma XorMove(a: octet, b: octet, c: octet)
    ensures Xor(a, b) == c <==> b == Xor(a, c)
  {
    hide *;
    XorLaws(b, a);
    XorLaws(c, a);
  }

  lemma {:induction false} FlipShifts(block: seq<octet>, k: nat, e: octet)
    requires k < |block|
    ensures Parity(Flip(block, k, e)) == Xor(Parity(block), e)
    ensures Locator(Flip(block, k, e)) == Xor(Locator(block), Iterate(|block| - k, e))
  {
    hide Step, Iterate, Xor;
    var n := |block| - 1;
    var last, rest, flipped := block[n], block[..n], Flip(block, k, e);
    if k == n {
      assert flipped[..n] == rest;
      XorAssoc(Parity(rest), last, e);
      XorAssoc(Locator(rest), last, e);
      StepLinear(Xor(Locator(rest), last), e);
      IterateOnce(0, e);
    } else {
      var shifted := Iterate(n - k, e);
      assert flipped[..n] == Flip(rest, k, e);
      FlipShifts(rest, k, e);
      XorSwap(Parity(rest), e, last);
      XorSwap(Locator(rest), shifted, last);
      StepLinear(Xor(Locator(rest), last), shifted);
      IterateOnce(n - k, e);
    }
  }

  /** A flip by e at k mends the block exactly when e is the parity syndrome and the locator syndrome is e shifted
      once for every byte from k to the end. */
  lemma RepairCondition(block: seq<octet>, k: nat, e: octet, ecc0: octet, ecc1: octet)
    requires k < |block|
    ensures CodeWord(Flip(block, k, e), ecc0, ecc1) <==>
            e == Xor(Parity(block), ecc0) && Iterate(|block| - k, e) == Xor(Locator(block), ecc1)
  {
    hide Step, Iterate, Xor, Parity, Locator, Flip;
    FlipShifts(block, k, e);
    XorMove(Parity(block), e, ecc0);
    XorMove(Locator(block), Iterate(|block| - k, e), ecc1);
  }

  /** The position a repair must have, read off the number of shifts that turn one syndrome into the other. */
  lemma RepairPosition(n: nat, k: nat, s0: octet, s1: octet, t: nat)
    requires n <= 255 && k < n && s0 != 0 && t < 255
    requires Iterate(n - k, s0) == s1 && Iterate(t, s1) == s0
    ensures k == n - 255 + t
  {
    hide *;
    IterateAdd(t, n - k, s0);
    if t + n - k < 255 {
      ExactPeriod(t + n - k, s0);
    } else if t + n - k > 255 {
      IterateAdd(t + n - k - 255, 255, s0);
      Period(s0);
      ExactPeriod(t + n - k - 255, s0);
    }
  }

  /** Shifting on to a full period leads back. */
  lemma ShiftBack(a: nat, b: nat, x: octet, y: octet)
    requires a + b == 255 && Iterate(a, x) == y
    ensures Iterate(b, y) == x
  {
    hide *;
    IterateAdd(b, a, x);
    Period(x);
  }

  lemma ShiftedNonzero(n: nat, x: octet)
    requires x != 0
    ensures Iterate(n, x) != 0
  {
    hide *;
    if Iterate(n, x) == 0 {
      IterateZero(n);
      IterateInjective(n, x, 0);
    }
  }

  /** What a repair says about the two syndromes. */
  lemma RepairSyndromes(block: seq<octet>, fixed: seq<octet>, ecc0: octet, ecc1: octet) returns (k: nat, e: octet)
    requires Repairs(block, fixed, ecc0, ecc1)
    ensures k < |block| && fixed == Flip(block, k, e)
    ensures e == Xor(Parity(block), ecc0) && Iterate(|block| - k, e) == Xor(Locator(block), ecc1)
    ensures Parity(block) != ecc0 && Locator(block) != ecc1
  {
    hide Step, Iterate, Xor, Parity, Locator, Flip;
    k, e :| 0 <= k < |block| && e != 0 && fixed == Flip(block, k, e);
    RepairCondition(block, k, e, ecc0, ecc1);
    XorZero(Parity(block), ecc0);
    XorZero(Locator(block), ecc1);
    ShiftedNonzero(|block| - k, e);
  }

  /** In a block of at most 255 bytes there is at most one way to mend it. */
  lemma RepairUnique(block: seq<octet>, a: seq<octet>, b: seq<octet>, ecc0: octet, ecc1: octet)
    requires |block| <= 255
    requires Repairs(block, a, ecc0, ecc1) && Repairs(block, b, ecc0, ecc1)
    ensures a == b
  {
    hide Step, Iterate, Xor, Parity, Locator, Repairs, Flip;
    var ka, ea := RepairSyndromes(block, a, ecc0, ecc1);
    var kb, eb := RepairSyndromes(block, b, ecc0, ecc1);
    XorZero(Parity(block), ecc0);
    ShiftBack(|block| - ka, 255 - (|block| - ka), ea, Xor(Locator(block), ecc1));
    RepairPosition(|block|, kb, eb, Xor(Locator(block), ecc1), 255 - (|block| - ka));
  }

  /** Correction: one wrong byte, anywhere in a block of 1..255 bytes, is put back. */
  lemma SingleErrorCorrected(block: seq<octet>, k: nat, e: octet)
    requires k < |block| <= 255 && e != 0
    ensures Outcome(Flip(block, k, e), Parity(block), Locator(block)) == (EccCorrected, block)
  {
    hide Step, Iterate, Xor, Parity, Locator;
    var hit := Flip(block, k, e);
    XorLaws(block[k], e);
    assert Flip(hit, k, e) == block;
    assert Repairs(hit, block, Parity(block), Locator(block));
    var _, _ := RepairSyndromes(hit, block, Parity(block), Locator(block));
    RepairUnique(hit, block, Outcome(hit, Parity(block), Locator(block)).1, Parity(block), Locator(block));
  }

  /** The search for the rotation count never needs 255 rotations: its give-up return is dead code. */
  lemma SearchAlwaysStops(s0: octet, s1: octet) returns (t: nat)
    requires s0 != 0 && s1 != 0
    ensures t < 255 && Iterate(t, s1) == s0 && forall u: nat :: u < t ==> Iterate(u, s1) != s0
  {
    hide *;
    t := OrbitCovers(s1, s0);
  }

  /** When both check bytes disagree, correction happens exactly when the one rotation count lands inside the
      block; so on a full 255-byte block it always happens, whatever was really damaged. */
  lemma CorrectionRule(block: seq<octet>, ecc0: octet, ecc1: octet, t: nat)
    requires 0 < |block| <= 255 && Parity(block) != ecc0 && Locator(block) != ecc1
    requires t < 255 && Iterate(t, Xor(Locator(block), ecc1)) == Xor(Parity(block), ecc0)
    ensures Outcome(block, ecc0, ecc1) ==
            if 255 - |block| <= t then (EccCorrected, Flip(block, |block| - 255 + t, Xor(Parity(block), ecc0)))
            else (EccFailUncorrected, block)
  {
    hide Step, Iterate, Xor, Parity, Locator, Flip, Repairs;
    var s0, s1 := Xor(Parity(block), ecc0), Xor(Locator(block), ecc1);
    XorZero(Parity(block), ecc0);
    if Repairable(block, ecc0, ecc1) {
      var fixed :| Repairs(block, fixed, ecc0, ecc1);
      var k, e := RepairSyndromes(block, fixed, ecc0, ecc1);
      RepairPosition(|block|, k, s0, s1, t);
    }
    if 255 - |block| <= t {
      var k := |block| - 255 + t;
      ShiftBack(t, 255 - t, s1, s0);
      RepairCondition(block, k, s0, ecc0, ecc1);
      FlipRepairs(block, k, s0, ecc0, ecc1);
      RepairUnique(block, Flip(block, k, s0), Outcome(block, ecc0, ecc1).1, ecc0, ecc1);
    }
  }

  lemma FlipRepairs(block: seq<octet>, k: nat, e: octet, ecc0: octet, ecc1: octet)
    requires k < |block| && e != 0 && CodeWord(Flip(block, k, e), ecc0, ecc1)
    ensures Repairs(block, Flip(block, k, e), ecc0, ecc1)
  {
    hide Step, Iterate, Xor, Parity, Locator;
  }

  /** If no rotation below 255 matches the syndromes, no repair exists. */
  lemma NoRotationNoRepair(block: seq<octet>, ecc0: octet, ecc1: octet)
    requires |block| <= 255
    requires forall u: nat :: u < 255 ==> Iterate(u, Xor(Locator(block), ecc1)) != Xor(Parity(block), ecc0)
    ensures !Repairable(block, ecc0, ecc1)
  {
    hide Step, Iterate, Xor, Parity, Locator, Flip, Repairs;
    if Repairable(block, ecc0, ecc1) {
      var fixed :| Repairs(block, fixed, ecc0, ecc1);
      var k, e := RepairSyndromes(block, fixed, ecc0, ecc1);
      ShiftBack(|block| - k, 255 - (|block| - k), e, Xor(Locator(block), ecc1));
    }
  }

  // ---- Two wrong bytes. The design says such blocks are detected; what holds is weaker.

  /** Two wrong bytes never pass as an intact block and never come back as the original. */
  lemma DoubleErrorNotRestored(block: seq<octet>, i: nat, j: nat, a: octet, b: octet)
    requires i < j < |block| <= 255 && a != 0 && b != 0
    ensures var r := Outcome(Flip(Flip(block, i, a), j, b), Parity(block), Locator(block));
            r.0 != EccOk && r.1 != block
  {
    hide Step, Iterate, Xor, Parity, Locator;
    var once, hit := Flip(block, i, a), Flip(Flip(block, i, a), j, b);
    DoubleErrorSyndromes(block, i, j, a, b);
    XorZero(Parity(hit), Parity(block));
    XorZero(Locator(hit), Locator(block));
    ChangesByte(block[i], a);
    ChangesByte(block[j], b);
    assert hit[i] != block[i] && hit[j] != block[j];
    if Repairable(hit, Parity(block), Locator(block)) && Repairs(hit, block, Parity(block), Locator(block)) {
      var k, e := RepairSyndromes(hit, block, Parity(block), Locator(block));
    }
  }

  lemma ChangesByte(x: octet, e: octet)
    requires e != 0
    ensures Xor(x, e) != x
  {}

  lemma DoubleErrorSyndromes(block: seq<octet>, i: nat, j: nat, a: octet, b: octet)
    requires i < j < |block| <= 255 && a != 0 && b != 0
    ensures var hit := Flip(Flip(block, i, a), j, b);
            && Xor(Parity(hit), Parity(block)) == Xor(a, b)
            && Xor(Locator(hit), Locator(block)) == Xor(Iterate(|block| - i, a), Iterate(|block| - j, b))
            && (Parity(hit) != Parity(block) || Locator(hit) != Locator(block))
  {
    hide Step, Iterate, Xor, Parity, Locator, Flip;
    var n := |block|;
    var once := Flip(block, i, a);
    FlipShifts(block, i, a);
    FlipShifts(once, j, b);
    var hit := Flip(once, j, b);
    XorAssoc(Parity(block), a, b);
    XorAssoc(Locator(block), Iterate(n - i, a), Iterate(n - j, b));
    XorMove(Parity(block), Xor(a, b), Parity(hit));
    XorMove(Locator(block), Xor(Iterate(n - i, a), Iterate(n - j, b)), Locator(hit));
    XorLaws(Parity(hit), Parity(block));
    XorLaws(Locator(hit), Locator(block));
    XorZero(Parity(hit), Parity(block));
    XorZero(a, b);
    XorZero(Locator(hit), Locator(block));
    XorZero(Iterate(n - i, a), Iterate(n - j, b));
    if a == b {
      IterateAdd(n - j, j - i, a);
      if Iterate(n - i, a) == Iterate(n - j, b) {
        IterateInjective(n - j, a, Iterate(j - i, a));
        ExactPeriod(j - i, a);
      }
    }
  }

  /** A block with a repair is replaced by it. */
  lemma OutcomeRepaired(block: seq<octet>, fixed: seq<octet>, ecc0: octet, ecc1: octet)
    requires |block| <= 255 && Repairs(block, fixed, ecc0, ecc1)
    ensures Outcome(block, ecc0, ecc1) == (EccCorrected, fixed)
  {
    hide Step, Iterate, Xor, Parity, Locator, Flip;
    var k, e := RepairSyndromes(block, fixed, ecc0, ecc1);
    assert Repairable(block, ecc0, ecc1);
    RepairUnique(block, fixed, Outcome(block, ecc0, ecc1).1, ecc0, ecc1);
  }

  /** A block without one is refused. */
  lemma OutcomeRefused(block: seq<octet>, ecc0: octet, ecc1: octet)
    requires block != [] && !CodeWord(block, ecc0, ecc1) && !Repairable(block, ecc0, ecc1)
    ensures Outcome(block, ecc0, ecc1) ==
            (if Parity(block) == ecc0 || Locator(block) == ecc1 then EccFailParity else EccFailUncorrected, block)
  {
    hide Parity, Locator, Repairs;
  }

  // ---- Every outcome, in terms of the two syndromes.

  /** One wrong byte at k, with the parity syndrome as its pattern, would leave this locator syndrome. */
  ghost predicate Aims(n: nat, s0: octet, s1: octet, k: nat) { k < n && Iterate(n - k, s0) == s1 }

  ghost predicate Aimed(n: nat, s0: octet, s1: octet) {
    s0 != 0 && exists k: nat :: Aims(n, s0, s1, k)
  }

  lemma AimedFix(block: seq<octet>, ecc0: octet, ecc1: octet, k: nat)
    requires |block| <= 255 && Parity(block) != ecc0
    requires Aims(|block|, Xor(Parity(block), ecc0), Xor(Locator(block), ecc1), k)
    ensures Outcome(block, ecc0, ecc1) == (EccCorrected, Flip(block, k, Xor(Parity(block), ecc0)))
  {
    hide Step, Iterate, Xor, Parity, Locator, Flip, CodeWord;
    var s0 := Xor(Parity(block), ecc0);
    XorZero(Parity(block), ecc0);
    RepairCondition(block, k, s0, ecc0, ecc1);
    FlipRepairs(block, k, s0, ecc0, ecc1);
    OutcomeRepaired(block, Flip(block, k, s0), ecc0, ecc1);
  }

  lemma RepairAims(block: seq<octet>, ecc0: octet, ecc1: octet)
    requires Repairable(block, ecc0, ecc1)
    ensures Aimed(|block|, Xor(Parity(block), ecc0), Xor(Locator(block), ecc1))
  {
    hide Step, Iterate, Xor, Parity, Locator, Flip, Repairs;
    var fixed :| Repairs(block, fixed, ecc0, ecc1);
    var k, e := RepairSyndromes(block, fixed, ecc0, ecc1);
    XorZero(Parity(block), ecc0);
    assert Aims(|block|, Xor(Parity(block), ecc0), Xor(Locator(block), ecc1), k);
  }

  lemma NotAimed(block: seq<octet>, ecc0: octet, ecc1: octet)
    requires block != [] && !CodeWord(block, ecc0, ecc1)
    requires !Aimed(|block|, Xor(Parity(block), ecc0), Xor(Locator(block), ecc1))
    ensures Outcome(block, ecc0, ecc1) ==
            (if Parity(block) == ecc0 || Locator(block) == ecc1 then EccFailParity else EccFailUncorrected, block)
  {
    hide Step, Iterate, Xor, Parity, Locator, Flip, CodeWord;
    if Repairable(block, ecc0, ecc1) { RepairAims(block, ecc0, ecc1); }
    OutcomeRefused(block, ecc0, ecc1);
  }

  /** The result of decoding any nonempty block against any check bytes. */
  lemma OutcomeRule(block: seq<octet>, ecc0: octet, ecc1: octet)
    requires 0 < |block| <= 255
    ensures Outcome(block, ecc0, ecc1).0 ==
            var s0, s1 := Xor(Parity(block), ecc0), Xor(Locator(block), ecc1);
            if s0 == 0 && s1 == 0 then EccOk
            else if s0 == 0 || s1 == 0 then EccFailParity
            else if Aimed(|block|, s0, s1) then EccCorrected
            else EccFailUncorrected
  {
    hide Step, Iterate, Xor, Parity, Locator, Flip;
    var n, s0, s1 := |block|, Xor(Parity(block), ecc0), Xor(Locator(block), ecc1);
    XorZero(Parity(block), ecc0);
    XorZero(Locator(block), ecc1);
    if Aimed(n, s0, s1) {
      var k: nat :| Aims(n, s0, s1, k);
      ShiftedNonzero(n - k, s0);
      AimedFix(block, ecc0, ecc1, k);
    } else if !CodeWord(block, ecc0, ecc1) {
      NotAimed(block, ecc0, ecc1);
    }
  }

  // ---- Two wrong bytes, for every length.

  /** The two syndromes that errors a at i and b at j leave are also those of one error. */
  ghost predicate Mistaken(n: nat, i: nat, j: nat, a: octet, b: octet)
    requires i < n && j < n
  {
    Aimed(n, Xor(a, b), Xor(Iterate(n - i, a), Iterate(n - j, b)))
  }

  /** A mistaken double error puts a third byte wrong, by the sum of the two patterns. */
  lemma MistakenFix(block: seq<octet>, i: nat, j: nat, a: octet, b: octet, k: nat)
    requires i < j < |block| <= 255 && k < |block| && a != 0 && b != 0 && a != b
    requires Iterate(|block| - k, Xor(a, b)) == Xor(Iterate(|block| - i, a), Iterate(|block| - j, b))
    ensures var hit := Flip(Flip(block, i, a), j, b);
            Outcome(hit, Parity(block), Locator(block)) == (EccCorrected, Flip(hit, k, Xor(a, b)))
  {
    hide Step, Iterate, Xor, Parity, Locator, Flip, Outcome;
    var hit := Flip(Flip(block, i, a), j, b);
    DoubleErrorSyndromes(block, i, j, a, b);
    XorZero(a, b);
    XorZero(Parity(hit), Parity(block));
    AimedFix(hit, Parity(block), Locator(block), k);
  }

  /** The fate of two wrong bytes, for every length: refused if one syndrome vanishes, "corrected" into a third block
      if the two together look like one wrong byte somewhere, and refused otherwise. */
  lemma DoubleErrorRule(block: seq<octet>, i: nat, j: nat, a: octet, b: octet)
    requires i < j < |block| <= 255 && a != 0 && b != 0
    ensures Outcome(Flip(Flip(block, i, a), j, b), Parity(block), Locator(block)).0 ==
            if a == b || Iterate(|block| - i, a) == Iterate(|block| - j, b) then EccFailParity
            else if Mistaken(|block|, i, j, a, b) then EccCorrected
            else EccFailUncorrected
  {
    hide Step, Iterate, Xor, Parity, Locator, Flip, Outcome, Aimed;
    var n, hit := |block|, Flip(Flip(block, i, a), j, b);
    DoubleErrorSyndromes(block, i, j, a, b);
    OutcomeRule(hit, Parity(block), Locator(block));
    XorZero(Parity(hit), Parity(block));
    XorZero(Locator(hit), Locator(block));
    XorZero(a, b);
    XorZero(Iterate(n - i, a), Iterate(n - j, b));
  }

  lemma NotVanishing(n: nat, i: nat, j: nat, a: octet, b: octet)
    requires i < n && j < n && Mistaken(n, i, j, a, b)
    ensures a != b && Iterate(n - i, a) != Iterate(n - j, b)
  {
    hide Step, Iterate, Xor;
    var s0, s1 := Xor(a, b), Xor(Iterate(n - i, a), Iterate(n - j, b));
    var k: nat :| Aims(n, s0, s1, k);
    XorZero(a, b);
    ShiftedNonzero(n - k, s0);
    XorZero(Iterate(n - i, a), Iterate(n - j, b));
  }

  /** On a full block, two wrong bytes are reported as one corrected byte whenever both syndromes are nonzero. */
  lemma FullBlockHidesDoubleError(block: seq<octet>, i: nat, j: nat, a: octet, b: octet)
    requires i < j < |block| == 255 && a != 0 && b != 0
    ensures Outcome(Flip(Flip(block, i, a), j, b), Parity(block), Locator(block)).0 == EccCorrected
            <==> a != b && Iterate(255 - i, a) != Iterate(255 - j, b)
  {
    hide Step, Iterate, Xor, Parity, Locator, Flip;
    var hit := Flip(Flip(block, i, a), j, b);
    DoubleErrorSyndromes(block, i, j, a, b);
    XorZero(Parity(hit), Parity(block));
    XorZero(a, b);
    XorZero(Locator(hit), Locator(block));
    XorZero(Iterate(255 - i, a), Iterate(255 - j, b));
    if a != b && Iterate(255 - i, a) != Iterate(255 - j, b) {
      var t := OrbitCovers(Xor(Locator(hit), Locator(block)), Xor(Parity(hit), Parity(block)));
      CorrectionRule(hit, Parity(block), Locator(block), t);
    }
  }

  /** The shortest code word but zero: three neighbouring bytes whose effects on both check bytes cancel. */
  lemma TripleCancels(m: nat)
    ensures Xor(0x8F, 0x8E) == 0x01
    ensures Iterate(m + 3, 0x01) == Xor(Iterate(m + 2, 0x8F), Iterate(m + 1, 0x8E))
  {
    assert Step(0x01) == 0x8E && Step(0x8E) == 0x47 && Step(0x47) == 0xAD && Step(0x8F) == 0xC9 && Step(0xC9) == 0xEA;
    hide Step;
    IterateAdd(m, 3, 0x01);
    IterateAdd(m, 2, 0x8F);
    IterateAdd(m, 1, 0x8E);
    FewSteps(0x01);
    FewSteps(0x8F);
    FewSteps(0x8E);
    IterateLinear(m, 0xEA, 0x47);
  }

  lemma FewSteps(x: octet)
    ensures Iterate(1, x) == Step(x) && Iterate(2, x) == Step(Step(x)) && Iterate(3, x) == Step(Step(Step(x)))
  {
    hide Step;
    IterateOnce(0, x);
    IterateOnce(1, x);
    IterateOnce(2, x);
  }

  /** A hidden double error in every block of three bytes or more: two bytes are wrong, a third is "corrected". */
  lemma HiddenDoubleError(block: seq<octet>, k: nat)
    requires k + 2 < |block| <= 255
    ensures var hit := Flip(Flip(block, k + 1, 0x8F), k + 2, 0x8E);
            Outcome(hit, Parity(block), Locator(block)) == (EccCorrected, Flip(hit, k, 0x01))
  {
    hide Step, Iterate, Parity, Locator, Flip, Outcome;
    TripleCancels(|block| - k - 3);
    MistakenFix(block, k + 1, k + 2, 0x8F, 0x8E, k);
  }

  /** No two wrong bytes in a block of this length, under true check bytes, are taken for one. */
  ghost predicate DetectsInData(n: nat) {
    forall block: seq<octet>, i: nat, j: nat, a: octet, b: octet ::
      |block| == n && i < j < n && a != 0 && b != 0 ==>
        Outcome(Flip(Flip(block, i, a), j, b), Parity(block), Locator(block)).0 != EccCorrected
  }

  /** Among the bytes of the block alone, two wrong ones are always noticed exactly up to a length of two. */
  lemma DataDetectionRule(n: nat)
    requires n <= 255
    ensures DetectsInData(n) <==> n < 3
  {
    hide Step, Iterate, Xor, Parity, Locator, Flip, Outcome;
    if n < 3 {
      forall block: seq<octet>, i: nat, j: nat, a: octet, b: octet | |block| == n && i < j < n && a != 0 && b != 0
        ensures Outcome(Flip(Flip(block, i, a), j, b), Parity(block), Locator(block)).0 != EccCorrected
      {
        DoubleErrorRule(block, i, j, a, b);
        PairDetected(a, b);
      }
    } else {
      var block := seq(n, _ => 0 as octet);
      HiddenDoubleError(block, 0);
    }
  }

  /** How many bytes of two blocks of one length differ. */
  function Wrong(p: seq<octet>, q: seq<octet>): nat
    requires |p| == |q|
  {
    if p == [] then 0 else (if p[0] == q[0] then 0 else 1) + Wrong(p[1..], q[1..])
  }

  lemma {:induction false} NoneWrong(p: seq<octet>)
    ensures Wrong(p, p) == 0
  {
    if p == [] {
    } else {
      NoneWrong(p[1..]);
    }
  }

  /** No two wrong bytes, in the block or its check bytes, are accepted or "corrected". */
  ghost predicate DetectsDoubleErrors(n: nat) {
    forall block: seq<octet>, hit: seq<octet>, ecc0: octet, ecc1: octet ::
      (|block| == |hit| == n && TwoWrong(block, hit, ecc0, ecc1)) ==>
        var result := Outcome(hit, ecc0, ecc1).0; result != EccOk && result != EccCorrected
  }

  ghost predicate TwoWrong(block: seq<octet>, hit: seq<octet>, ecc0: octet, ecc1: octet)
    requires |block| == |hit|
  {
    Wrong(block, hit) + (if ecc0 == Parity(block) then 0 else 1) + (if ecc1 == Locator(block) then 0 else 1) == 2
  }

  /** Both check bytes wrong over an intact block: left alone exactly when no place in the block fits the two errors;
      otherwise the block is spoilt there. */
  lemma CheckBytesWrong(block: seq<octet>, e0: octet, e1: octet)
    requires 0 < |block| <= 255 && e0 != 0 && e1 != 0
    ensures var (result, fixed) := Outcome(block, Xor(Parity(block), e0), Xor(Locator(block), e1));
            if Aimed(|block|, e0, e1) then
              && result == EccCorrected
              && exists k: nat :: k < |block| && Aims(|block|, e0, e1, k) && fixed == Flip(block, k, e0)
            else result == EccFailUncorrected && fixed == block
  {
    hide Step, Iterate, Xor, Parity, Locator, Flip, Outcome;
    var n, ecc0, ecc1 := |block|, Xor(Parity(block), e0), Xor(Locator(block), e1);
    XorMove(Parity(block), e0, ecc0);
    XorMove(Locator(block), e1, ecc1);
    XorZero(Parity(block), ecc0);
    XorZero(Locator(block), ecc1);
    if Aimed(n, e0, e1) {
      var k: nat :| Aims(n, e0, e1, k);
      AimedFix(block, ecc0, ecc1, k);
    } else {
      NotAimed(block, ecc0, ecc1);
    }
  }

  /** Counting the check bytes, the promise to detect two wrong bytes fails for every block but the empty one. */
  lemma DetectionRule(n: nat)
    requires n <= 255
    ensures DetectsDoubleErrors(n) <==> n == 0
  {
    hide Step, Iterate, Xor, Parity, Locator, Flip;
    if n > 0 {
      hide Outcome, Wrong;
      var block := seq(n, _ => 0 as octet);
      var e1 := Iterate(1, 1);
      ShiftedNonzero(1, 1);
      assert Aims(n, 1, e1, n - 1);
      CheckBytesWrong(block, 1, e1);
      NoneWrong(block);
      ChangesByte(Parity(block), 1);
      ChangesByte(Locator(block), e1);
      assert TwoWrong(block, block, Xor(Parity(block), 1), Xor(Locator(block), e1));
    }
  }

  lemma PairDetected(a: octet, b: octet)
    requires a != 0 && b != 0
    ensures !Mistaken(2, 0, 1, a, b)
  {
    hide Step, Iterate, Xor;
    if Mistaken(2, 0, 1, a, b) {
      var k: nat :| Aims(2, Xor(a, b), Xor(Iterate(2, a), Iterate(1, b)), k);
      XorZero(a, b);
      IterateLinear(2 - k, a, b);
      if k == 0 {
        XorInjects(Iterate(2, a), Iterate(2, b), Iterate(1, b));
        IterateAdd(1, 1, b);
        IterateInjective(1, Iterate(1, b), b);
        ExactPeriod(1, b);
      } else {
        XorInjects(Iterate(1, b), Iterate(1, a), Iterate(2, a));
        IterateAdd(1, 1, a);
        IterateInjective(1, Iterate(1, a), a);
        ExactPeriod(1, a);
      }
    }
  }

  lemma XorInjects(a: octet, b: octet, c: octet)
    ensures Xor(a, b) == Xor(a, c) ==> b == c
    ensures Xor(b, a) == Xor(c, a) ==> b == c
  {}

  // ---- The algorithms.

  method Encode(data: array<octet>, len: nat) returns (ecc0: octet, ecc1: octet)
    requires len <= data.Length
    ensures CodeWord(data[..len], ecc0, ecc1)
  {
    hide Step, Xor;
    ecc0, ecc1 := 0, 0;
    for i := 0 to len
      invariant CodeWord(data[..i], ecc0, ecc1)
    {
      ecc0 := Xor(ecc0, data[i]);
      ecc1 := Step(Xor(ecc1, data[i]));
      assert data[..i + 1][..i] == data[..i];
    }
  }

  method Decode(data: array<octet>, len: nat, ecc0: octet, ecc1: octet) returns (r: EccResult)
    requires len <= data.Length && len <= 255
    modifies data
    ensures (r, data[..len]) == Outcome(old(data[..len]), ecc0, ecc1)
    ensures data[len..] == old(data[len..])
  {
    hide Step, Iterate, Xor, Parity, Locator, Repairable;
    ghost var block := data[..len];
    if len == 0 { return EccFailUncorrected; }
    var scc0, scc1 := Encode(data, len);
    XorZero(scc0, ecc0);
    XorZero(scc1, ecc1);
    scc0, scc1 := Xor(scc0, ecc0), Xor(scc1, ecc1);
    if scc0 == 0 && scc1 == 0 { return EccOk; }
    if scc0 == 0 || scc1 == 0 { return EccFailParity; }
    var idx: int := len - 255;
    var steps := 0;
    ghost var start := scc1;
    ghost var t := SearchAlwaysStops(scc0, scc1);
    IterateOnce(0, start);
    while scc1 != scc0
      invariant 0 <= steps <= t && idx == len - 255 + steps && scc1 == Iterate(steps, start)
      invariant data[..] == old(data[..])
      decreases t - steps
    {
      IterateOnce(steps, start);
      scc1 := Step(scc1);
      idx := idx + 1;
      steps := steps + 1;
      if steps >= 255 { assert false; }  // giving up never happens
    }
    CorrectionRule(block, ecc0, ecc1, steps);
    if idx < 0 || idx >= len { return EccFailUncorrected; }
    data[idx] := Xor(data[idx], scc0);
    assert data[..] == old(data[..])[idx := data[idx]];
    assert data[..len] == Flip(block, idx, scc0);
    return EccCorrected;
  }
}
