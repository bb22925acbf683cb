/**
 The backing word of a TinyBitSet and what it means.

 A set of capacity n (at most 64) is stored in one unsigned word of width
 RepWidth(n) bits. The word is modelled as a `bv64` whose bits at or above the
 width are zero (InWidth). Bit k of the word stands for element k + 1, so the
 set denoted by a word is ElementsOf(bits, n) and the list the class hands out
 is ElementList(bits, n).
 */
module BitWord {

  /** The four unsigned widths a set can be backed by. */
  const StandardWidths: set<int> := {8, 16, 32, 64}

  type Width = w: int | w in StandardWidths witness 8

  /** TinyBitRepType<MaxElems>: the width of the backing word chosen from the capacity.
      It is the narrowest standard width that holds the capacity. */
  function RepWidth(maxElems: int): (w: Width)
    ensures maxElems <= 64 ==> maxElems <= w
    ensures forall v :: v in StandardWidths && maxElems <= v ==> w <= v
  {
    if maxElems < 9 then 8
    else if maxElems < 17 then 16
    else if maxElems < 33 then 32
    else 64
  }

  /** A bit position of the 64-bit word. */
  type BitIndex = k: bv8 | k < 64

  /** The word with only bit k set, computed in the word's own width. */
  function Bit(k: BitIndex): bv64 {
    (1 as bv64) << k
  }

  /** Whether bit k of the word is set. */
  predicate HasBit(bits: bv64, k: BitIndex) {
    bits & Bit(k) != 0
  }

  /** Element i is stored in bit i - 1. */
  function ElementIndex(i: int): BitIndex
    requires 1 <= i <= 64
  {
    (i - 1) as bv8
  }

  /** Converting a position to a bit index loses nothing. */
  lemma IndexRoundTrip(k: int)
    requires 0 <= k < 64
    ensures (k as bv8) as int == k
  {
  }

  /** Distinct elements are stored in distinct bits. */
  lemma ElementIndexInjective(i: int, x: int)
    requires 1 <= i <= 64 && 1 <= x <= 64
    ensures ElementIndex(i) == ElementIndex(x) <==> i == x
  {
    IndexRoundTrip(i - 1);
    IndexRoundTrip(x - 1);
  }

  /** Whether the word holds element i, that is, whether bit i - 1 is set. */
  predicate Present(bits: bv64, i: int)
    requires 1 <= i <= 64
  {
    HasBit(bits, ElementIndex(i))
  }

  /** The value ~0 of a word of width w: its w low bits set, the others clear. */
  function WordMask(w: Width): bv64 {
    if w == 8 then 0xFF
    else if w == 16 then 0xFFFF
    else if w == 32 then 0xFFFF_FFFF
    else 0xFFFF_FFFF_FFFF_FFFF
  }

  /** The width w as a bit index bound. */
  function WidthBound(w: Width): (b: bv8)
    ensures b as int == w
  {
    if w == 8 then 8 else if w == 16 then 16 else if w == 32 then 32 else 64
  }

  /** Bit k of the mask ~0 of width w is set iff k is below w. */
  lemma WordMaskAt(w: Width, k: BitIndex)
    ensures HasBit(WordMask(w), k) <==> k as int < w
  {
    assert HasBit(WordMask(w), k) <==> k < WidthBound(w);
  }

  /** The word is a value of the unsigned type of width w: no bit at or above w is set. */
  predicate InWidth(bits: bv64, w: Width) {
    bits & !WordMask(w) == 0
  }

  /** `bits | (1 << k)`: insert element k + 1. */
  function SetBit(bits: bv64, k: BitIndex): bv64 {
    bits | Bit(k)
  }

  /** `bits & ~(1 << k)`: remove element k + 1. */
  function ClearBit(bits: bv64, k: BitIndex): bv64 {
    bits & !Bit(k)
  }

  /** `a | b`: the union of two words. */
  function Union(a: bv64, b: bv64): bv64 {
    a | b
  }

  /** SetBit sets bit k ... */
  lemma SetBitSame(bits: bv64, k: BitIndex)
    ensures HasBit(SetBit(bits, k), k)
  {
  }

  /** ... and no other. */
  lemma SetBitOther(bits: bv64, k: BitIndex, j: BitIndex)
    requires j != k
    ensures HasBit(SetBit(bits, k), j) == HasBit(bits, j)
  {
    assert (bits | Bit(k)) & Bit(j) == bits & Bit(j);
  }

  /** ClearBit clears bit k ... */
  lemma ClearBitSame(bits: bv64, k: BitIndex)
    ensures !HasBit(ClearBit(bits, k), k)
  {
  }

  /** ... and no other. */
  lemma ClearBitOther(bits: bv64, k: BitIndex, j: BitIndex)
    requires j != k
    ensures HasBit(ClearBit(bits, k), j) == HasBit(bits, j)
  {
    assert (bits & !Bit(k)) & Bit(j) == bits & Bit(j);
  }

  /** A bit of the union is set iff it is set in either word. */
  lemma UnionAt(a: bv64, b: bv64, j: BitIndex)
    ensures HasBit(Union(a, b), j) == (HasBit(a, j) || HasBit(b, j))
  {
    assert (a | b) & Bit(j) == (a & Bit(j)) | (b & Bit(j));
  }

  /** Setting a bit twice is setting it once. */
  lemma SetBitIdempotent(bits: bv64, k: BitIndex)
    ensures SetBit(SetBit(bits, k), k) == SetBit(bits, k)
  {
  }

  /** Setting a bit that is already set changes nothing. */
  lemma SetPresentBit(bits: bv64, k: BitIndex)
    requires HasBit(bits, k)
    ensures SetBit(bits, k) == bits
  {
    assert bits & Bit(k) == Bit(k);
  }

  /** Clearing a bit that is not set changes nothing. */
  lemma ClearAbsentBit(bits: bv64, k: BitIndex)
    requires !HasBit(bits, k)
    ensures ClearBit(bits, k) == bits
  {
  }

  /** Setting and then clearing an absent bit gives back the word. */
  lemma SetThenClearBit(bits: bv64, k: BitIndex)
    requires !HasBit(bits, k)
    ensures ClearBit(SetBit(bits, k), k) == bits
  {
  }

  /** Each word operation keeps a word of width w in width w. */
  lemma SetBitInWidth(a: bv64, k: BitIndex, w: Width)
    requires InWidth(a, w) && (k as int) < w
    ensures InWidth(SetBit(a, k), w)
  {
  }

  lemma ClearBitInWidth(a: bv64, k: BitIndex, w: Width)
    requires InWidth(a, w)
    ensures InWidth(ClearBit(a, k), w)
  {
  }

  lemma UnionInWidth(a: bv64, b: bv64, w: Width)
    requires InWidth(a, w) && InWidth(b, w)
    ensures InWidth(Union(a, b), w)
  {
  }

  /** Inserting element i touches only element i. */
  lemma PresentAfterSetBit(a: bv64, i: int, x: int)
    requires 1 <= i <= 64 && 1 <= x <= 64
    ensures Present(SetBit(a, ElementIndex(i)), x) <==> x == i || Present(a, x)
  {
    ElementIndexInjective(i, x);
    if x == i {
      SetBitSame(a, ElementIndex(i));
    } else {
      SetBitOther(a, ElementIndex(i), ElementIndex(x));
    }
  }

  /** Removing element i touches only element i. */
  lemma PresentAfterClearBit(a: bv64, i: int, x: int)
    requires 1 <= i <= 64 && 1 <= x <= 64
    ensures Present(ClearBit(a, ElementIndex(i)), x) <==> x != i && Present(a, x)
  {
    ElementIndexInjective(i, x);
    if x == i {
      ClearBitSame(a, ElementIndex(i));
    } else {
      ClearBitOther(a, ElementIndex(i), ElementIndex(x));
    }
  }

  /** Element x is in the union of two words iff it is in either. */
  lemma PresentAfterUnion(a: bv64, b: bv64, x: int)
    requires 1 <= x <= 64
    ensures Present(Union(a, b), x) == (Present(a, x) || Present(b, x))
  {
    UnionAt(a, b, ElementIndex(x));
  }

  /** Element x is in a width-w mask iff x fits the width. */
  lemma PresentInWordMask(w: Width, x: int)
    requires 1 <= x <= 64
    ensures Present(WordMask(w), x) <==> x <= w
  {
    WordMaskAt(w, ElementIndex(x));
    IndexRoundTrip(x - 1);
  }

  /** The set a word denotes for capacity n: element i is present iff bit i - 1 is set.
      Bits at or above n are not looked at. */
  function ElementsOf(bits: bv64, n: int): set<int>
    requires n <= 64
  {
    set i | 1 <= i <= n && Present(bits, i)
  }

  /** The elements 1..n in ascending order, as the class reports them: the bits
      below n are visited from 0 upwards and i + 1 is appended for each set bit i. */
  function ElementList(bits: bv64, n: int): seq<int>
    requires n <= 64
    decreases n
  {
    if n <= 0 then []
    else ElementList(bits, n - 1) + (if Present(bits, n) then [n] else [])
  }

  predicate StrictlyAscending(s: seq<int>) {
    forall j, k :: 0 <= j < k < |s| ==> s[j] < s[k]
  }

  /** [1, 2, ..., n]. */
  function OneTo(n: nat): (s: seq<int>)
    ensures |s| == n
    ensures forall j :: 0 <= j < n ==> s[j] == j + 1
  {
    seq(n, j => j + 1)
  }

  /** Every entry of the list is an element of the universe 1..n. */
  lemma {:induction false} ElementListInRange(bits: bv64, n: int)
    requires n <= 64
    ensures forall x :: x in ElementList(bits, n) ==> 1 <= x <= n
    decreases n
  {
    if n > 0 {
      ElementListInRange(bits, n - 1);
    }
  }

  /** The list is strictly ascending, so it has no repeated entry. */
  lemma {:induction false} ElementListAscending(bits: bv64, n: int)
    requires n <= 64
    ensures StrictlyAscending(ElementList(bits, n))
    decreases n
  {
    if n > 0 {
      ElementListAscending(bits, n - 1);
      ElementListInRange(bits, n - 1);
      var prefix := ElementList(bits, n - 1);
      if Present(bits, n) {
        var s := prefix + [n];
        forall j, k | 0 <= j < k < |s| ensures s[j] < s[k] {
          if k == |prefix| {
            assert s[j] == prefix[j] && prefix[j] in prefix;
          }
        }
      }
    }
  }

  /** A number is in the list iff it is an element of the set the word denotes. */
  lemma {:induction false} ElementListMembers(bits: bv64, n: int)
    requires n <= 64
    ensures forall x :: x in ElementList(bits, n) <==> x in ElementsOf(bits, n)
    decreases n
  {
    if n > 0 {
      ElementListMembers(bits, n - 1);
    }
  }

  /** Growing the capacity by one can only add the new element n. */
  lemma ElementsOfStep(bits: bv64, n: int)
    requires 1 <= n <= 64
    ensures n !in ElementsOf(bits, n - 1)
    ensures ElementsOf(bits, n) == ElementsOf(bits, n - 1) + (if Present(bits, n) then {n} else {})
  {
  }

  /** The list has one entry per element: its length is the size of the set. */
  lemma {:induction false} ElementListLength(bits: bv64, n: int)
    requires n <= 64
    ensures |ElementList(bits, n)| == |ElementsOf(bits, n)|
    decreases n
  {
    if n <= 0 {
      assert ElementsOf(bits, n) == {};
    } else {
      ElementListLength(bits, n - 1);
      ElementsOfStep(bits, n);
    }
  }

  /** Only the bits below n are observable: two words that agree on them give the same list and set. */
  lemma {:induction false} ElementListLowBitsOnly(a: bv64, b: bv64, n: int)
    requires n <= 64
    requires forall i :: 1 <= i <= n ==> (Present(a, i) <==> Present(b, i))
    ensures ElementList(a, n) == ElementList(b, n)
    ensures ElementsOf(a, n) == ElementsOf(b, n)
    decreases n
  {
    if n > 0 {
      ElementListLowBitsOnly(a, b, n - 1);
    }
  }

  /** A word whose bits below n are all set lists every element 1..n, whatever its higher bits. */
  lemma {:induction false} ElementListAllSet(bits: bv64, n: int)
    requires 0 <= n <= 64
    requires forall i :: 1 <= i <= n ==> Present(bits, i)
    ensures ElementList(bits, n) == OneTo(n)
    decreases n
  {
    if n > 0 {
      ElementListAllSet(bits, n - 1);
      assert OneTo(n) == OneTo(n - 1) + [n];
    }
  }

  /** The zero word lists nothing. */
  lemma {:induction false} ElementListZero(n: int)
    requires n <= 64
    ensures ElementList(0, n) == []
    decreases n
  {
    if n > 0 {
      ElementListZero(n - 1);
      assert !Present(0, n);
    }
  }

  /** Inserting element i adds exactly i to the set. */
  lemma ElementsOfSetBit(bits: bv64, n: int, i: int)
    requires 1 <= i <= n <= 64
    ensures ElementsOf(SetBit(bits, ElementIndex(i)), n) == ElementsOf(bits, n) + {i}
  {
    forall x | 1 <= x <= n
      ensures Present(SetBit(bits, ElementIndex(i)), x) <==> x == i || Present(bits, x)
    {
      PresentAfterSetBit(bits, i, x);
    }
  }

  /** Removing element i takes exactly i out of the set. */
  lemma ElementsOfClearBit(bits: bv64, n: int, i: int)
    requires 1 <= i <= n <= 64
    ensures ElementsOf(ClearBit(bits, ElementIndex(i)), n) == ElementsOf(bits, n) - {i}
  {
    forall x | 1 <= x <= n
      ensures Present(ClearBit(bits, ElementIndex(i)), x) <==> x != i && Present(bits, x)
    {
      PresentAfterClearBit(bits, i, x);
    }
  }

  /** The union of two words denotes the union of their sets. */
  lemma ElementsOfUnion(a: bv64, b: bv64, n: int)
    requires n <= 64
    ensures ElementsOf(Union(a, b), n) == ElementsOf(a, n) + ElementsOf(b, n)
  {
    var u := Union(a, b);
    forall x
      ensures x in ElementsOf(u, n) <==> x in ElementsOf(a, n) || x in ElementsOf(b, n)
    {
      if 1 <= x <= n {
        PresentAfterUnion(a, b, x);
      }
    }
  }

  /** The set of width mask ~0 is the whole universe 1..n when n fits the width. */
  lemma ElementsOfWordMask(w: Width, n: int)
    requires n <= w
    ensures forall i :: 1 <= i <= n ==> Present(WordMask(w), i)
  {
    forall i | 1 <= i <= n ensures Present(WordMask(w), i) {
      PresentInWordMask(w, i);
    }
  }

  /** The zero word denotes the empty set. */
  lemma ElementsOfZero(n: int)
    requires n <= 64
    ensures ElementsOf(0, n) == {}
  {
    forall i | 1 <= i <= n ensures !Present(0, i) {
    }
  }

  /** The word with exactly the bits 0..n - 1 set: the set 1..n with no bit above it. */
  function LowMask(n: int): bv64
    requires n <= 64
    decreases n
  {
    if n <= 0 then 0 else SetBit(LowMask(n - 1), ElementIndex(n))
  }

  lemma {:induction false} LowMaskPresent(n: int, i: int)
    requires n <= 64 && 1 <= i <= 64
    ensures Present(LowMask(n), i) <==> i <= n
    decreases n
  {
    if n > 0 {
      LowMaskPresent(n - 1, i);
      PresentAfterSetBit(LowMask(n - 1), n, i);
    }
  }

  /** The mask ~0 of width w has garbage bits at and above n when n < w, but no list, set
      or membership test over 1..n can tell it from LowMask(n). */
  lemma FillHighBitsUnobservable(w: Width, n: int)
    requires 0 <= n <= w
    ensures forall i :: 1 <= i <= n ==> (Present(WordMask(w), i) <==> Present(LowMask(n), i))
    ensures ElementList(WordMask(w), n) == ElementList(LowMask(n), n)
    ensures ElementsOf(WordMask(w), n) == ElementsOf(LowMask(n), n)
    ensures n < w ==> WordMask(w) != LowMask(n)
  {
    forall i | 1 <= i <= n ensures Present(WordMask(w), i) && Present(LowMask(n), i) {
      PresentInWordMask(w, i);
      LowMaskPresent(n, i);
    }
    ElementListLowBitsOnly(WordMask(w), LowMask(n), n);
    if n < w {
      PresentInWordMask(w, n + 1);
      LowMaskPresent(n, n + 1);
    }
  }

  /** x is in the list s: a witness index. */
  lemma InSeq(s: seq<int>, x: int) returns (j: nat)
    requires x in s
    ensures j < |s| && s[j] == x
  {
    j :| 0 <= j < |s| && s[j] == x;
  }

  /** Two strictly ascending lists with the same members are the same list. */
  lemma {:induction false} AscendingUnique(s: seq<int>, t: seq<int>)
    requires StrictlyAscending(s) && StrictlyAscending(t)
    requires forall x :: x in s <==> x in t
    ensures s == t
    decreases |s|
  {
    assert s != [] ==> s[0] in s;
    assert t != [] ==> t[0] in t;
    if s != [] && t != [] {
      var j := InSeq(t, s[0]);
      var k := InSeq(s, t[0]);
      assert s[0] == t[0];
      forall x ensures x in s[1..] <==> x in t[1..] {
        if x in s[1..] {
          var a := InSeq(s[1..], x);
          assert s[a + 1] == x && x in t;
          var b := InSeq(t, x);
          assert b != 0 && t[1..][b - 1] == x;
        }
        if x in t[1..] {
          var a := InSeq(t[1..], x);
          assert t[a + 1] == x && x in s;
          var b := InSeq(s, x);
          assert b != 0 && s[1..][b - 1] == x;
        }
      }
      AscendingUnique(s[1..], t[1..]);
      assert s == [s[0]] + s[1..] && t == [t[0]] + t[1..];
    }
  }

  /** The list is the only strictly ascending list of the set's elements. */
  lemma ElementListCharacterized(bits: bv64, n: int, s: seq<int>)
    requires n <= 64
    requires StrictlyAscending(s) && forall x :: x in s <==> x in ElementsOf(bits, n)
    ensures ElementList(bits, n) == s
  {
    ElementListAscending(bits, n);
    ElementListMembers(bits, n);
    AscendingUnique(ElementList(bits, n), s);
  }
}
