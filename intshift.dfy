/**
 The bit masks as the code computes them: `1 << (i - 1)` is a shift of the
 literal 1, a signed 32-bit `int`, and only afterwards meets the backing word.

 An `int` is given here by its 32-bit two's complement pattern. The shift has a
 value only for counts 0..31; count 31 yields INT_MIN (0x8000_0000), and larger
 counts (elements 33..64) have no defined value in C++. When an `int` meets an
 unsigned word of width w, its value is taken modulo 2^w, which is the pattern
 sign-extended and then cut to w bits. For a negative mask and a 64-bit word
 this sets bits 32..63 as well.

 The class model uses the corrected masks of BitWord (SetBit, ClearBit, HasBit),
 computed in the width of the word. The lemmas below show where the code agrees
 with them and exhibit the inputs where it does not.
 */
module IntShift {
  import opened BitWord

  /** A shift count for which `1 << k` on an `int` has a value. */
  type IntShiftCount = k: bv8 | k < 32

  /** A 32-bit `int`, given by its two's complement pattern in the low 32 bits. */
  type IntPattern = x: bv64 | x <= 0xFFFF_FFFF

  /** `1 << k` as an `int`. */
  function IntOneShl(k: IntShiftCount): IntPattern {
    (1 as bv64) << k
  }

  /** `~x` on an `int`. */
  function IntNot(x: IntPattern): IntPattern {
    x ^ 0xFFFF_FFFF
  }

  /** An `int` converted to the unsigned word of width w: sign-extended, then cut to w bits. */
  function IntToWord(x: IntPattern, w: Width): bv64 {
    var extended := if x & 0x8000_0000 != 0 then x | 0xFFFF_FFFF_0000_0000 else x;
    extended & WordMask(w)
  }

  /** insert as written: `tinybitrep |= (1 << (i-1))` with k = i - 1. */
  function InsertAsWritten(bits: bv64, k: IntShiftCount, w: Width): bv64 {
    bits | IntToWord(IntOneShl(k), w)
  }

  /** remove as written: `tinybitrep = tinybitrep & ~(1 << (i-1))`. */
  function RemoveAsWritten(bits: bv64, k: IntShiftCount, w: Width): bv64 {
    bits & IntToWord(IntNot(IntOneShl(k)), w)
  }

  /** contains as written: `(tinybitrep & (1 << (i-1))) != 0`; getIntegerElements
      makes the same test with `1 << i`. */
  predicate ContainsAsWritten(bits: bv64, k: IntShiftCount, w: Width) {
    bits & IntToWord(IntOneShl(k), w) != 0
  }

  /** Below the sign bit, and at the sign bit of a word no wider than 32 bits, the `int`
      mask converts to exactly the single-bit mask of the word. */
  lemma IntMaskIsBit(k: IntShiftCount, w: Width)
    requires (k as int) < w && !(w == 64 && k == 31)
    ensures IntToWord(IntOneShl(k), w) == Bit(k)
  {
  }

  /** Likewise the complemented mask, on the bits a word of width w can have. */
  lemma IntComplementMaskIsClear(k: IntShiftCount, w: Width)
    requires (k as int) < w && !(w == 64 && k == 31)
    ensures IntToWord(IntNot(IntOneShl(k)), w) == !Bit(k) & WordMask(w)
  {
  }

  /** Where the shift has a value and does not reach the sign bit of a 64-bit word, the
      code as written computes the corrected insert ... */
  lemma InsertAsWrittenAgrees(bits: bv64, k: IntShiftCount, w: Width)
    requires (k as int) < w && !(w == 64 && k == 31)
    ensures InsertAsWritten(bits, k, w) == SetBit(bits, k)
  {
    IntMaskIsBit(k, w);
  }

  /** ... the corrected remove, cut to the width of the word as the assignment back to
      tinybitrep cuts it ... */
  lemma RemoveAsWrittenAgrees(bits: bv64, k: IntShiftCount, w: Width)
    requires (k as int) < w && !(w == 64 && k == 31)
    ensures RemoveAsWritten(bits, k, w) == ClearBit(bits, k) & WordMask(w)
  {
    IntComplementMaskIsClear(k, w);
  }

  /** ... and the corrected membership test. */
  lemma ContainsAsWrittenAgrees(bits: bv64, k: IntShiftCount, w: Width)
    requires (k as int) < w && !(w == 64 && k == 31)
    ensures ContainsAsWritten(bits, k, w) == HasBit(bits, k)
  {
    IntMaskIsBit(k, w);
  }

  /** Capacity 64, insert(32) on the empty set: INT_MIN sign-extends and the word gets
      bits 31..63, the bits of elements 32..64, where the corrected insert sets bit 31
      alone. Only a shift with no value could read bits 32..63 (see RunLowAgree). */
  lemma InsertAsWrittenAt32()
    ensures InsertAsWritten(0, 31, 64) == 0xFFFF_FFFF_8000_0000
    ensures Present(InsertAsWritten(0, 31, 64), 33) && Present(InsertAsWritten(0, 31, 64), 64)
    ensures SetBit(0, 31) == 0x8000_0000
    ensures !Present(SetBit(0, 31), 33)
  {
  }

  /** Capacity 64, remove(32) on the full set: ~INT_MIN is 0x7FFF_FFFF, so bits 31..63, the
      bits of elements 32..64, are all cleared, where the corrected remove clears bit 31
      alone. Only a shift with no value could read bits 32..63 (see RunLowAgree). */
  lemma RemoveAsWrittenAt32()
    ensures RemoveAsWritten(WordMask(64), 31, 64) == 0x7FFF_FFFF
    ensures !Present(RemoveAsWritten(WordMask(64), 31, 64), 40)
    ensures Present(ClearBit(WordMask(64), 31), 40)
  {
  }

  /** Bits 31..63 of a 64-bit word: the bits a sign-extended INT_MIN sets. */
  const HighBits: bv64 := 0xFFFF_FFFF_8000_0000

  /** The sign bit of an `int` mask: bit 31. */
  const SignBit: bv64 := 0x8000_0000

  /** Bits 31..63 all equal bit 31. On a 64-bit word every operation of the code that
      has a value keeps this, so these are the words the class can reach. */
  predicate HighUniform(bits: bv64) {
    bits & HighBits == if bits & SignBit != 0 then HighBits else 0
  }

  /** The constructor, removeall and fillall store uniform words. */
  lemma HighUniformStart()
    ensures HighUniform(0) && HighUniform(WordMask(64))
  {
  }

  /** A single bit below 31 lies outside bits 31..63. */
  lemma LowBitOutsideHigh(bits: bv64, k: IntShiftCount)
    requires k < 31
    ensures (bits | Bit(k)) & HighBits == bits & HighBits
    ensures (bits | Bit(k)) & SignBit == bits & SignBit
  {
  }

  /** Two words that agree on bits 31..63 are both uniform or both not. */
  lemma UniformTransfer(a: bv64, b: bv64)
    requires HighUniform(a) && a & HighBits == b & HighBits && a & SignBit == b & SignBit
    ensures HighUniform(b)
  {
  }

  /** Below the sign bit, `~(1 << k)` has a clear sign bit and so extends to a
      mask with bits 31..63 set. */
  lemma ComplementMaskHigh(k: IntShiftCount)
    requires k < 31
    ensures IntToWord(IntNot(IntOneShl(k)), 64) & HighBits == HighBits
    ensures IntToWord(IntNot(IntOneShl(k)), 64) & SignBit == SignBit
  {
  }

  /** An AND with a mask that has bits 31..63 set keeps a word uniform. */
  lemma AndMaskUniform(bits: bv64, c: bv64)
    requires HighUniform(bits) && c & HighBits == HighBits && c & SignBit == SignBit
    ensures HighUniform(bits & c)
  {
    assert (bits & c) & HighBits == bits & HighBits;
    assert (bits & c) & SignBit == bits & SignBit;
  }

  /** insert as written keeps a 64-bit word uniform: below bit 31 it sets one bit ... */
  lemma InsertLowUniform(bits: bv64, k: IntShiftCount)
    requires HighUniform(bits) && k < 31
    ensures HighUniform(InsertAsWritten(bits, k, 64))
  {
    InsertAsWrittenAgrees(bits, k, 64);
    LowBitOutsideHigh(bits, k);
    UniformTransfer(bits, SetBit(bits, k));
  }

  /** ... and at bit 31 it sets bits 31..63 together. */
  lemma InsertSignUniform(bits: bv64)
    ensures HighUniform(InsertAsWritten(bits, 31, 64))
  {
    assert InsertAsWritten(bits, 31, 64) == bits | HighBits;
  }

  /** insert as written keeps a 64-bit word uniform. */
  lemma InsertAsWrittenUniform(bits: bv64, k: IntShiftCount)
    requires HighUniform(bits)
    ensures HighUniform(InsertAsWritten(bits, k, 64))
  {
    if k < 31 {
      InsertLowUniform(bits, k);
    } else {
      InsertSignUniform(bits);
    }
  }

  /** remove as written keeps a 64-bit word uniform: below bit 31 it clears one bit ... */
  lemma RemoveLowUniform(bits: bv64, k: IntShiftCount)
    requires HighUniform(bits) && k < 31
    ensures HighUniform(RemoveAsWritten(bits, k, 64))
  {
    ComplementMaskHigh(k);
    AndMaskUniform(bits, IntToWord(IntNot(IntOneShl(k)), 64));
  }

  /** ... and at bit 31 it clears bits 31..63 together. */
  lemma RemoveSignUniform(bits: bv64)
    ensures HighUniform(RemoveAsWritten(bits, 31, 64))
  {
    assert RemoveAsWritten(bits, 31, 64) == bits & 0x7FFF_FFFF;
  }

  /** remove as written keeps a 64-bit word uniform. */
  lemma RemoveAsWrittenUniform(bits: bv64, k: IntShiftCount)
    requires HighUniform(bits)
    ensures HighUniform(RemoveAsWritten(bits, k, 64))
  {
    if k < 31 {
      RemoveLowUniform(bits, k);
    } else {
      RemoveSignUniform(bits);
    }
  }

  /** unionbitset keeps two uniform words uniform. */
  lemma UnionUniform(a: bv64, b: bv64)
    requires HighUniform(a) && HighUniform(b)
    ensures HighUniform(Union(a, b))
  {
    var u := Union(a, b);
    assert u & HighBits == (a & HighBits) | (b & HighBits);
    assert u & SignBit == (a & SignBit) | (b & SignBit);
  }

  /** At bit 31 of a 64-bit word the test as written looks at bits 31..63, which on a
      uniform word is bit 31 alone. */
  lemma ContainsSignOnUniform(bits: bv64)
    requires HighUniform(bits)
    ensures ContainsAsWritten(bits, 31, 64) == HasBit(bits, 31)
  {
    assert IntToWord(IntOneShl(31), 64) == HighBits;
    assert Bit(31) == SignBit;
  }

  /** On a uniform word the membership test as written is the corrected test for every
      count with a value, including 31 on a 64-bit word: contains(32) and the i = 31
      test of getIntegerElements answer correctly on every reachable state. */
  lemma ContainsAsWrittenOnUniform(bits: bv64, k: IntShiftCount)
    requires HighUniform(bits)
    ensures ContainsAsWritten(bits, k, 64) == HasBit(bits, k)
  {
    if k < 31 {
      ContainsAsWrittenAgrees(bits, k, 64);
    } else {
      ContainsSignOnUniform(bits);
    }
  }

  /** An operation of the code on a 64-bit word whose shift has a value: insert and
      remove of elements 1..32, fillall, removeall, and unionbitset with a set built
      from the empty set by such operations. */
  datatype Op =
    | InsertOp(k: IntShiftCount)
    | RemoveOp(k: IntShiftCount)
    | FillOp
    | RemoveAllOp
    | UnionOp(built: seq<Op>)

  /** The word after one operation, as written; `other` is the word a union takes in. */
  function Step(bits: bv64, op: Op, other: bv64): bv64 {
    match op
    case InsertOp(k) => InsertAsWritten(bits, k, 64)
    case RemoveOp(k) => RemoveAsWritten(bits, k, 64)
    case FillOp => WordMask(64)
    case RemoveAllOp => 0
    case UnionOp(_) => Union(bits, other)
  }

  /** The word after running the operations, as written, from `bits`. */
  function Run(bits: bv64, ops: seq<Op>): bv64
    decreases ops
  {
    if |ops| == 0 then bits
    else
      var other := if ops[0].UnionOp? then Run(0, ops[0].built) else 0;
      Run(Step(bits, ops[0], other), ops[1..])
  }

  /** The insert step keeps a word uniform. */
  lemma StepInsertUniform(bits: bv64, op: Op, other: bv64)
    requires HighUniform(bits) && op.InsertOp?
    ensures HighUniform(Step(bits, op, other))
  {
    InsertAsWrittenUniform(bits, op.k);
  }

  /** The remove step keeps a word uniform. */
  lemma StepRemoveUniform(bits: bv64, op: Op, other: bv64)
    requires HighUniform(bits) && op.RemoveOp?
    ensures HighUniform(Step(bits, op, other))
  {
    RemoveAsWrittenUniform(bits, op.k);
  }

  /** fillall and removeall store uniform words. */
  lemma StepResetUniform(bits: bv64, op: Op, other: bv64)
    requires op.FillOp? || op.RemoveAllOp?
    ensures HighUniform(Step(bits, op, other))
  {
    HighUniformStart();
  }

  /** The union step keeps a word uniform when it takes in a uniform word. */
  lemma StepUnionUniform(bits: bv64, op: Op, other: bv64)
    requires HighUniform(bits) && HighUniform(other) && op.UnionOp?
    ensures HighUniform(Step(bits, op, other))
  {
    UnionUniform(bits, other);
  }

  /** One operation keeps a uniform word uniform, when a union takes in a uniform word. */
  lemma StepUniform(bits: bv64, op: Op, other: bv64)
    requires HighUniform(bits) && HighUniform(other)
    ensures HighUniform(Step(bits, op, other))
  {
    if op.InsertOp? {
      StepInsertUniform(bits, op, other);
    } else if op.RemoveOp? {
      StepRemoveUniform(bits, op, other);
    } else if op.UnionOp? {
      StepUnionUniform(bits, op, other);
    } else {
      StepResetUniform(bits, op, other);
    }
  }

  /** Every word the operations reach from a uniform word is uniform. */
  lemma {:induction false} RunUniform(bits: bv64, ops: seq<Op>)
    requires HighUniform(bits)
    ensures HighUniform(Run(bits, ops))
    decreases ops
  {
    if |ops| > 0 {
      var other := if ops[0].UnionOp? then Run(0, ops[0].built) else 0;
      HighUniformStart();
      if ops[0].UnionOp? {
        RunUniform(0, ops[0].built);
      }
      StepUniform(bits, ops[0], other);
      RunUniform(Step(bits, ops[0], other), ops[1..]);
    }
  }

  /** On every word a set of capacity 33..64 can reach from the constructor without an
      undefined shift, contains as written (and the same test in getIntegerElements)
      gives the corrected answer. */
  lemma ReachableContainsCorrect(ops: seq<Op>, k: IntShiftCount)
    ensures ContainsAsWritten(Run(0, ops), k, 64) == HasBit(Run(0, ops), k)
  {
    HighUniformStart();
    RunUniform(0, ops);
    ContainsAsWrittenOnUniform(Run(0, ops), k);
  }

  /** The corrected operations of the class on a 64-bit word: the word after one
      operation, with the single-bit masks computed in the word's own width. */
  function StepC(bits: bv64, op: Op, other: bv64): bv64 {
    match op
    case InsertOp(k) => SetBit(bits, k)
    case RemoveOp(k) => ClearBit(bits, k)
    case FillOp => WordMask(64)
    case RemoveAllOp => 0
    case UnionOp(_) => Union(bits, other)
  }

  /** The word after running the operations, corrected, from `bits`. */
  function RunC(bits: bv64, ops: seq<Op>): bv64
    decreases ops
  {
    if |ops| == 0 then bits
    else
      var other := if ops[0].UnionOp? then RunC(0, ops[0].built) else 0;
      RunC(StepC(bits, ops[0], other), ops[1..])
  }

  /** Bits 0..31 of a 64-bit word: the bits an `int` mask with a value can test. */
  const LowHalf: bv64 := 0xFFFF_FFFF

  /** Two words that agree on bits 0..31. */
  predicate LowAgree(a: bv64, b: bv64) {
    a & LowHalf == b & LowHalf
  }

  /** An OR with masks that agree below bit 32 keeps two words agreeing there. */
  lemma OrLowAgree(a: bv64, b: bv64, x: bv64, y: bv64)
    requires LowAgree(a, b) && LowAgree(x, y)
    ensures LowAgree(a | x, b | y)
  {
  }

  /** An AND with masks that agree below bit 32 keeps two words agreeing there. */
  lemma AndLowAgree(a: bv64, b: bv64, x: bv64, y: bv64)
    requires LowAgree(a, b) && LowAgree(x, y)
    ensures LowAgree(a & x, b & y)
  {
    assert (a & x) & LowHalf == (a & LowHalf) & (x & LowHalf);
    assert (b & y) & LowHalf == (b & LowHalf) & (y & LowHalf);
  }

  /** Below bit 32 the `int` mask `1 << k` of a 64-bit word is bit k, for every count
      with a value; at count 31 it differs only in bits 32..63. */
  lemma IntMaskLowAgree(k: IntShiftCount)
    ensures LowAgree(IntToWord(IntOneShl(k), 64), Bit(k))
  {
    if k < 31 {
      IntMaskIsBit(k, 64);
    } else {
      assert IntToWord(IntOneShl(31), 64) == HighBits;
      assert Bit(31) == SignBit;
    }
  }

  /** Likewise `~(1 << k)` agrees with the complement of bit k below bit 32. */
  lemma IntComplementMaskLowAgree(k: IntShiftCount)
    ensures LowAgree(IntToWord(IntNot(IntOneShl(k)), 64), !Bit(k))
  {
    if k < 31 {
      IntComplementMaskIsClear(k, 64);
      assert WordMask(64) == 0xFFFF_FFFF_FFFF_FFFF;
    } else {
      assert IntToWord(IntNot(IntOneShl(31)), 64) == 0x7FFF_FFFF;
      assert !Bit(31) == 0xFFFF_FFFF_7FFF_FFFF;
    }
  }

  /** insert as written and corrected keeps two words agreeing below bit 32. */
  lemma InsertLowAgree(a: bv64, b: bv64, k: IntShiftCount)
    requires LowAgree(a, b)
    ensures LowAgree(InsertAsWritten(a, k, 64), SetBit(b, k))
  {
    IntMaskLowAgree(k);
    OrLowAgree(a, b, IntToWord(IntOneShl(k), 64), Bit(k));
  }

  /** remove as written and corrected keeps two words agreeing below bit 32. */
  lemma RemoveLowAgree(a: bv64, b: bv64, k: IntShiftCount)
    requires LowAgree(a, b)
    ensures LowAgree(RemoveAsWritten(a, k, 64), ClearBit(b, k))
  {
    IntComplementMaskLowAgree(k);
    AndLowAgree(a, b, IntToWord(IntNot(IntOneShl(k)), 64), !Bit(k));
  }

  /** The insert step as written and corrected keeps two words agreeing below bit 32. */
  lemma StepInsertLowAgree(a: bv64, b: bv64, op: Op, x: bv64, y: bv64)
    requires LowAgree(a, b) && op.InsertOp?
    ensures LowAgree(Step(a, op, x), StepC(b, op, y))
  {
    InsertLowAgree(a, b, op.k);
  }

  /** The remove step as written and corrected keeps two words agreeing below bit 32. */
  lemma StepRemoveLowAgree(a: bv64, b: bv64, op: Op, x: bv64, y: bv64)
    requires LowAgree(a, b) && op.RemoveOp?
    ensures LowAgree(Step(a, op, x), StepC(b, op, y))
  {
    RemoveLowAgree(a, b, op.k);
  }

  /** fillall and removeall store the same word as written and corrected. */
  lemma StepResetLowAgree(a: bv64, b: bv64, op: Op, x: bv64, y: bv64)
    requires op.FillOp? || op.RemoveAllOp?
    ensures LowAgree(Step(a, op, x), StepC(b, op, y))
  {
  }

  /** The union step keeps two words agreeing below bit 32 when it takes in agreeing words. */
  lemma StepUnionLowAgree(a: bv64, b: bv64, op: Op, x: bv64, y: bv64)
    requires LowAgree(a, b) && LowAgree(x, y) && op.UnionOp?
    ensures LowAgree(Step(a, op, x), StepC(b, op, y))
  {
    OrLowAgree(a, b, x, y);
  }

  /** One operation, as written and corrected, keeps two words agreeing below bit 32. */
  lemma StepLowAgree(a: bv64, b: bv64, op: Op, x: bv64, y: bv64)
    requires LowAgree(a, b) && LowAgree(x, y)
    ensures LowAgree(Step(a, op, x), StepC(b, op, y))
  {
    if op.InsertOp? {
      StepInsertLowAgree(a, b, op, x, y);
    } else if op.RemoveOp? {
      StepRemoveLowAgree(a, b, op, x, y);
    } else if op.UnionOp? {
      StepUnionLowAgree(a, b, op, x, y);
    } else {
      StepResetLowAgree(a, b, op, x, y);
    }
  }

  /** Every run of defined operations, as written and corrected, from words that agree
      below bit 32, ends in words that agree below bit 32. */
  lemma {:induction false} RunLowAgree(a: bv64, b: bv64, ops: seq<Op>)
    requires LowAgree(a, b)
    ensures LowAgree(Run(a, ops), RunC(b, ops))
    decreases ops
  {
    if |ops| > 0 {
      var x := if ops[0].UnionOp? then Run(0, ops[0].built) else 0;
      var y := if ops[0].UnionOp? then RunC(0, ops[0].built) else 0;
      if ops[0].UnionOp? {
        RunLowAgree(0, 0, ops[0].built);
      }
      var a', b' := Step(a, ops[0], x), StepC(b, ops[0], y);
      StepLowAgree(a, b, ops[0], x, y);
      RunLowAgree(a', b', ops[1..]);
      assert Run(a, ops) == Run(a', ops[1..]);
      assert RunC(b, ops) == RunC(b', ops[1..]);
    }
  }

  /** The defect of lines 70 and 79 stays inside the word: on a 64-bit set reached from
      the constructor by defined operations, contains as written on the word as written
      gives the answer of the corrected class, for every element 1..32. */
  lemma ReachableContainsAsCorrected(ops: seq<Op>, k: IntShiftCount)
    ensures ContainsAsWritten(Run(0, ops), k, 64) == HasBit(RunC(0, ops), k)
  {
    ReachableContainsCorrect(ops, k);
    RunLowAgree(0, 0, ops);
    assert Bit(k) & LowHalf == Bit(k);
    assert Run(0, ops) & Bit(k) == (Run(0, ops) & LowHalf) & Bit(k);
    assert RunC(0, ops) & Bit(k) == (RunC(0, ops) & LowHalf) & Bit(k);
  }

  /** Whether `1 << k` on an `int` has a value. */
  predicate ShiftDefined(k: int) {
    0 <= k < 32
  }
}
