/**
 The class TinyBitSet<MaxElems>: a set of the integers 1..MaxElems (at most 64)
 kept in one unsigned word of width RepWidth(MaxElems), bit i - 1 standing for
 element i.

 The template argument MaxElems becomes the constant field maxElems, and the
 width of TinyBitRepType<MaxElems> the constant field width. The word itself,
 tinybitrep, is the mutable field rep. Every shift `1 << (i - 1)` is computed in
 the width of the word (see the module IntShift for the `int` shift the code
 writes).
 */
module TinyBitSets {
  import opened BitWord

  /** The std::invalid_argument exceptions the class throws. */
  datatype Error =
    | CapacityTooLarge(maxElems: int)  // the constructor, MaxElems > 64
    | ElementOutOfRange(i: int)        // insert, remove, contains: i outside 1..maxElems

  datatype Result<T> = Ok(value: T) | Err(error: Error)

  /** The outcome of an operation that returns nothing or throws. */
  datatype Outcome = Done | Failed(error: Error)

  /** The range check shared by insert, remove and contains. */
  predicate InRange(i: int, maxElems: int) {
    !(i > maxElems || i < 1)
  }

  /** `std::bitset<8>(bits).to_string()`: the low 8 bits of the word as '0'/'1'
      characters, highest bit first. */
  function BitStringOf(bits: bv64): string {
    LowBitsString(bits, 8)
  }

  /** The low `count` bits of the word, bit count - 1 first. */
  function LowBitsString(bits: bv64, count: nat): string
    requires count <= 64
  {
    if count == 0 then ""
    else [if Present(bits, count) then '1' else '0'] + LowBitsString(bits, count - 1)
  }

  /** Character j of the rendering shows bit count - 1 - j, that is, element count - j. */
  lemma {:induction false} LowBitsStringAt(bits: bv64, count: nat)
    requires count <= 64
    ensures |LowBitsString(bits, count)| == count
    ensures forall j :: 0 <= j < count ==>
      LowBitsString(bits, count)[j] == if Present(bits, count - j) then '1' else '0'
  {
    if count > 0 {
      LowBitsStringAt(bits, count - 1);
    }
  }

  /** The rendering has eight digits, and digit 8 - i is '1' iff element i is present. */
  lemma BitStringShowsLowElements(bits: bv64)
    ensures |BitStringOf(bits)| == 8
    ensures forall j :: 0 <= j < 8 ==> BitStringOf(bits)[j] in "01"
    ensures forall i :: 1 <= i <= 8 ==> (BitStringOf(bits)[8 - i] == '1' <==> Present(bits, i))
  {
    LowBitsStringAt(bits, 8);
  }

  class TinyBitSet {
    /** MaxElems, stored in the field maxElems by the constructor and never changed. */
    const maxElems: int
    /** The width of TinyBitRepType<MaxElems>. */
    const width: Width
    /** tinybitrep. */
    var rep: bv64

    /** The object invariant: the capacity was accepted by the constructor, the width is
        the one chosen for it, and the word is a value of that width. */
    ghost predicate Valid()
      reads this
    {
      maxElems <= 64 && width == RepWidth(maxElems) && InWidth(rep, width)
    }

    /** The set the object holds. */
    function Elements(): set<int>
      reads this
      requires maxElems <= 64
    {
      ElementsOf(rep, maxElems)
    }

    /** TinyBitSet(): accepts MaxElems up to 64 and starts empty. */
    constructor (n: int)
      requires n <= 64
      ensures Valid()
      ensures maxElems == n && rep == 0
      ensures Elements() == {} && SetSize() == 0 && MaxElements() == n
    {
      maxElems := n;
      width := RepWidth(n);
      rep := 0;
      new;
      ElementsOfZero(n);
    }

    /** The constructor with its exception: MaxElems > 64 fails. */
    static method Create(n: int) returns (r: Result<TinyBitSet>)
      ensures r.Err? <==> n > 64
      ensures r.Err? ==> r.error == CapacityTooLarge(n)
      ensures r.Ok? ==> fresh(r.value) && r.value.Valid() && r.value.maxElems == n
      ensures r.Ok? ==> r.value.rep == 0
      ensures r.Ok? ==> r.value.Elements() == {} && r.value.SetSize() == 0
    {
      if n > 64 {
        return Err(CapacityTooLarge(n));
      }
      var t := new TinyBitSet(n);
      return Ok(t);
    }

    /** insert(i): sets bit i - 1, or fails with the set unchanged. */
    method Insert(i: int) returns (r: Outcome)
      requires Valid()
      modifies this
      ensures Valid()
      ensures r == if InRange(i, maxElems) then Done else Failed(ElementOutOfRange(i))
      ensures rep == if r.Done? then SetBit(old(rep), ElementIndex(i)) else old(rep)
      ensures Elements() == if r.Done? then old(Elements()) + {i} else old(Elements())
      ensures r.Done? ==> Contains(i) == Ok(true)
    {
      if i > maxElems || i < 1 {
        return Failed(ElementOutOfRange(i));
      }
      SetBitInWidth(rep, ElementIndex(i), width);
      ElementsOfSetBit(rep, maxElems, i);
      rep := SetBit(rep, ElementIndex(i));
      return Done;
    }

    /** remove(i): clears bit i - 1, or fails with the set unchanged. */
    method Remove(i: int) returns (r: Outcome)
      requires Valid()
      modifies this
      ensures Valid()
      ensures r == if InRange(i, maxElems) then Done else Failed(ElementOutOfRange(i))
      ensures rep == if r.Done? then ClearBit(old(rep), ElementIndex(i)) else old(rep)
      ensures Elements() == if r.Done? then old(Elements()) - {i} else old(Elements())
      ensures r.Done? ==> Contains(i) == Ok(false)
    {
      if i > maxElems || i < 1 {
        return Failed(ElementOutOfRange(i));
      }
      ClearBitInWidth(rep, ElementIndex(i), width);
      ElementsOfClearBit(rep, maxElems, i);
      rep := ClearBit(rep, ElementIndex(i));
      return Done;
    }

    /** contains(i): whether i is in the set; fails for i outside 1..maxElems. */
    function Contains(i: int): (r: Result<bool>)
      reads this
      requires Valid()
      ensures r.Ok? <==> 1 <= i <= maxElems
      ensures r.Err? ==> r.error == ElementOutOfRange(i)
      ensures r.Ok? ==> (r.value <==> i in Elements())
    {
      if i > maxElems || i < 1 then Err(ElementOutOfRange(i))
      else Ok(HasBit(rep, ElementIndex(i)))
    }

    /** unionbitset(obj): ORs obj's word into this one; obj is not changed. */
    method UnionWith(obj: TinyBitSet)
      requires Valid() && obj.Valid() && obj.maxElems == maxElems
      modifies this
      ensures Valid()
      ensures rep == Union(old(rep), old(obj.rep))
      ensures Elements() == old(Elements()) + old(obj.Elements())
      ensures obj != this ==> obj.rep == old(obj.rep)
    {
      UnionInWidth(rep, obj.rep, width);
      ElementsOfUnion(rep, obj.rep, maxElems);
      rep := Union(rep, obj.rep);
    }

    /** fillall(): sets every bit of the word, including the bits at or above maxElems.
        Those are never seen: the set is the whole universe and the list is 1..maxElems. */
    method FillAll()
      requires Valid()
      modifies this
      ensures Valid()
      ensures rep == WordMask(width)
      ensures forall i :: i in Elements() <==> 1 <= i <= maxElems
      ensures 0 <= maxElems ==> ElementList(rep, maxElems) == OneTo(maxElems)
      ensures 0 <= maxElems ==> SetSize() == maxElems
    {
      rep := WordMask(width);
      ElementsOfWordMask(width, maxElems);
      if 0 <= maxElems {
        ElementListAllSet(rep, maxElems);
      }
    }

    /** removeall(): clears the word. */
    method RemoveAll()
      requires Valid()
      modifies this
      ensures Valid()
      ensures rep == 0
      ensures Elements() == {} && ElementList(rep, maxElems) == [] && SetSize() == 0
    {
      rep := 0;
      ElementsOfZero(maxElems);
      ElementListZero(maxElems);
    }

    /** getIntegerElements(): the elements in ascending order, built by visiting the
        bits 0..maxElems - 1 and appending i + 1 for each set bit i. */
    method IntegerElements() returns (elems: seq<int>)
      requires Valid()
      ensures elems == ElementList(rep, maxElems)
      ensures StrictlyAscending(elems)
      ensures forall x :: x in elems ==> 1 <= x <= maxElems
      ensures forall x :: x in elems <==> x in Elements()
      ensures |elems| == |Elements()|
    {
      elems := [];
      var i := 0;
      while i < maxElems
        invariant 0 <= i && (i == 0 || i <= maxElems)
        invariant elems == ElementList(rep, i)
      {
        if HasBit(rep, i as bv8) {
          elems := elems + [i + 1];
        }
        i := i + 1;
      }
      ElementListAscending(rep, maxElems);
      ElementListInRange(rep, maxElems);
      ElementListMembers(rep, maxElems);
      ElementListLength(rep, maxElems);
    }

    /** getBitStringElements(): the low 8 bits of the word. */
    function BitString(): (s: string)
      reads this
      ensures |s| == 8
      ensures forall i :: 1 <= i <= 8 ==> (s[8 - i] == '1' <==> Present(rep, i))
    {
      BitStringShowsLowElements(rep);
      BitStringOf(rep)
    }

    /** getMaxElements(): the capacity, which bounds the range checks. */
    function MaxElements(): (r: int)
      reads this
      requires Valid()
      ensures r <= 64 && RepWidth(r) == width
      ensures forall i :: Contains(i).Ok? <==> 1 <= i <= r
    {
      maxElems
    }

    /** getSetSize(): the length of getIntegerElements(), which is the size of the set. */
    function SetSize(): (r: int)
      reads this
      requires maxElems <= 64
      ensures r == |Elements()|
    {
      ElementListLength(rep, maxElems);
      |ElementList(rep, maxElems)|
    }
  }
}
