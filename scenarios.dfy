/**
 The unit tests of tests/tinybittests.cpp, each as a method that runs the same calls
 on the model and states in its postcondition what the test asserts. A further
 scenario shows the bits fillall() leaves above the capacity of a small set: the
 bit string shows them, the element list and the size do not.
 */
module Scenarios {
  import opened BitWord
  import opened TinyBitSets

  /** A set {a} is listed as [a]. */
  lemma ListOfOne(bits: bv64, n: int, a: int)
    requires n <= 64 && ElementsOf(bits, n) == {a}
    ensures ElementList(bits, n) == [a]
  {
    ElementListCharacterized(bits, n, [a]);
  }

  /** A set {a, b} with a < b is listed as [a, b]. */
  lemma ListOfTwo(bits: bv64, n: int, a: int, b: int)
    requires n <= 64 && a < b && ElementsOf(bits, n) == {a, b}
    ensures ElementList(bits, n) == [a, b]
  {
    ElementListCharacterized(bits, n, [a, b]);
  }

  /** The word 0xFF renders as eight '1' digits. */
  lemma AllOnesBitString()
    ensures BitStringOf(WordMask(8)) == "11111111"
  {
    BitStringShowsLowElements(WordMask(8));
    forall j | 0 <= j < 8
      ensures BitStringOf(WordMask(8))[j] == '1'
    {
      PresentInWordMask(8, 8 - j);
    }
  }

  /** The list fillall gives at capacity 5. */
  lemma OneToFive()
    ensures OneTo(5) == [1, 2, 3, 4, 5]
  {
    assert OneTo(5)[4] == 5;
  }

  /** testValidSize: an empty set of capacity 8 reports 8 and 0. */
  method ValidSize() returns (maxElements: int, size: int)
    ensures maxElements == 8 && size == 0
  {
    var t := new TinyBitSet(8);
    maxElements := t.MaxElements();
    size := t.SetSize();
  }

  /** testInvalidSize: capacity 65 is refused. */
  method InvalidSize() returns (e: Error)
    ensures e == CapacityTooLarge(65)
  {
    var r := TinyBitSet.Create(65);
    e := r.error;
  }

  /** testInsertOne: insert(5) into capacity 32 gives the set {5}. */
  method InsertOne() returns (size: int, elems: seq<int>)
    ensures size == 1 && elems == [5]
  {
    var t := new TinyBitSet(32);
    var r := t.Insert(5);
    elems := t.IntegerElements();
    size := t.SetSize();
    assert t.Elements() == {5};
    ListOfOne(t.rep, 32, 5);
  }

  /** testInsertTwo: insert(5), insert(22) gives [5, 22]. */
  method InsertTwo() returns (size: int, elems: seq<int>)
    ensures size == 2 && elems == [5, 22]
  {
    var t := new TinyBitSet(32);
    var r1 := t.Insert(5);
    var r2 := t.Insert(22);
    elems := t.IntegerElements();
    size := t.SetSize();
    assert t.Elements() == {5, 22};
    ListOfTwo(t.rep, 32, 5, 22);
  }

  /** testRemoveOne: insert(5), insert(22), remove(5) leaves [22]. */
  method RemoveOne() returns (size: int, elems: seq<int>)
    ensures size == 1 && elems == [22]
  {
    var t := new TinyBitSet(32);
    var r1 := t.Insert(5);
    var r2 := t.Insert(22);
    var r3 := t.Remove(5);
    elems := t.IntegerElements();
    size := t.SetSize();
    assert t.Elements() == {22};
    ListOfOne(t.rep, 32, 22);
  }

  /** fillall() on capacity 5: all eight digits of the bit string are '1', while the
      elements are 1..5 and only those; an out-of-range insert fails. */
  method FillSmall() returns (bitString: string, size: int, elems: seq<int>, r: Outcome)
    ensures bitString == "11111111"
    ensures size == 5 && elems == [1, 2, 3, 4, 5]
    ensures r == Failed(ElementOutOfRange(6))
  {
    var t := new TinyBitSet(5);
    t.FillAll();
    assert t.rep == WordMask(8);
    AllOnesBitString();
    bitString := t.BitString();
    size := t.SetSize();
    elems := t.IntegerElements();
    OneToFive();
    r := t.Insert(6);
  }
}
