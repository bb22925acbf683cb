# TinyBitSet in Dafny

A model of `TinyBitSet<MaxElems>` from `tinybitset.h`, with proofs. It is a set of
the integers 1..MaxElems, where MaxElems is at most 64. The set is kept in a
single unsigned word, `tinybitrep`. Element i is bit i - 1. The type alias
`TinyBitRepType` picks the width of the word from the capacity.

The project has five modules, one per file:

- `BitWord` (`bitword.dfy`) holds the pure part.
  - The width selection `RepWidth`.
  - The word, a `bv64` that holds no bits at or above its nominal width (`InWidth`).
  - The single-bit operations, proved pointwise: the bit that is set or cleared
    changes and every other bit stays as it was.
  - The abstraction `ElementsOf(bits, n)`, the set of i in 1..n whose bit is set.
  - The ascending element list `ElementList(bits, n)`.
- `TinyBitSets` (`tinybitset.dfy`) holds the class `TinyBitSet`.
  - Fields: the constant capacity `maxElems`, the constant width `width`, and the
    mutable word `rep`.
  - The mutators are methods with `modifies this`. Each is proved against
    `Elements()` and against the exact new word.
  - `contains`, `getMaxElements` and `getSetSize` are functions.
  - `getIntegerElements` is a method whose loop invariant is that the list built
    so far equals `ElementList(rep, i)`.
  - The `std::invalid_argument` exceptions become `Failed(...)`/`Err(...)` results,
    and the state is left unchanged.
- `IntShift` (`intshift.dfy`) holds the masks as the code writes them: `1 << (i-1)`
  is a shift of a 32-bit `int`. This module shows where those masks agree with the
  word-width masks the class uses, and gives the inputs where they do not (see
  Findings). It also proves that on a 64-bit word every operation whose shift has
  a value keeps bits 31..63 all equal. On every word so reached, the membership
  test as written gives the right answer. The words as written and the words of
  the corrected class agree on bits 0..31, so the defect stays inside the word.
- `ShiftRange` (`shiftrange.dfy`) states which of the `int` shifts that the range
  checks and the loop of `getIntegerElements` let through have a value.
- `Scenarios` (`scenarios.dfy`) holds the unit tests of `tests/tinybittests.cpp`
  as methods. Each method's postcondition is what the test asserts. One extra
  scenario runs `fillall` on a small set.

Decisions where the code is defective or departs from the behaviour the class is
meant to have:

- `contains` tests `i > this->n`, but the class has no field `n`. The model tests
  against `maxElems`, the bound that `insert` and `remove` use and that the
  exception message prints.
- `unionbitset` is declared to return a `TinyBitSet` but has no `return`.
  Flowing off the end of a function that returns a value is undefined behaviour
  in C++, so every call is undefined, whether or not the result is used. The
  evident intent is to OR the argument's word into `this`, and that is what the
  model does: `UnionWith` is an in-place method returning nothing. `obj` is not
  changed.
- `fillall` stores `~0` in the word, so every bit of the word is set, including
  the bits at and above `maxElems`, where the bits above the capacity are meant to
  stay clear. The model follows the code. It then proves that `contains`,
  `getIntegerElements` and `getSetSize` cannot see those bits. The 8-digit
  `getBitStringElements` does show them on a set of capacity below 8
  (`Scenarios.FillSmall`).
- The code accepts MaxElems <= 0, although a capacity below 1 is meant to be
  refused. Such a set is always empty and rejects every insert. The model
  follows the code: only MaxElems > 64 is refused.
- The masks in the class are computed in the width of the word. The `int` shift
  the code writes is modelled separately, in `IntShift`.

## Model

| member | source | states |
|---|---|---|
| BitWord.RepWidth | tinybitset.h:19-23 | The chosen width is 8, 16, 32 or 64. It holds MaxElems whenever MaxElems <= 64. It is the smallest of the four that does. |
| BitWord.HasBit | tinybitset.h:87 | Definition: bit k of the word is set, `bits & (1 << k) != 0` with the mask in the word's width. |
| BitWord.Present | tinybitset.h:6 | Definition: element i is in the word, that is, bit i - 1 is set. |
| BitWord.SetBit | tinybitset.h:70 | Definition: the word with bit k set, the mask computed in the word's width. Its meaning is stated by SetBitSame, SetBitOther and ElementsOfSetBit. |
| BitWord.ClearBit | tinybitset.h:79 | Definition: the word with bit k cleared. Its meaning is stated by ClearBitSame, ClearBitOther and ElementsOfClearBit. |
| BitWord.Union | tinybitset.h:61 | Definition: the OR of two words. Its meaning is stated by UnionAt and ElementsOfUnion. |
| BitWord.WordMask | tinybitset.h:94 | Definition: `~0` converted to the unsigned word of width w. Its meaning is stated by WordMaskAt and PresentInWordMask. |
| BitWord.ElementsOf | tinybitset.h:5-6 | Definition: the set of i in 1..n whose bit i - 1 is set, the set the word stands for. |
| BitWord.ElementList | tinybitset.h:105-107 | Definition: the list the loop builds after visiting bits 0..n - 1. Its meaning is stated by ElementListCharacterized and the lemmas below. |
| BitWord.ElementIndexInjective | tinybitset.h:6 | Distinct elements 1..64 are stored in distinct bits. |
| BitWord.WordMaskAt | tinybitset.h:94 | `~0` in a word of width w has exactly the bits below w set. |
| BitWord.SetBitSame | tinybitset.h:70 | After the OR, the inserted bit is set. |
| BitWord.SetBitOther | tinybitset.h:70 | Every other bit is as it was. |
| BitWord.ClearBitSame | tinybitset.h:79 | After the AND with the complement, the removed bit is clear. |
| BitWord.ClearBitOther | tinybitset.h:79 | Every other bit is as it was. |
| BitWord.UnionAt | tinybitset.h:61 | A bit of the OR is set iff it is set in either word. |
| BitWord.SetBitIdempotent | tinybitset.h:70 | Inserting twice gives the word of inserting once. |
| BitWord.SetPresentBit | tinybitset.h:70 | Inserting an element already present leaves the word unchanged. |
| BitWord.ClearAbsentBit | tinybitset.h:79 | Removing an absent element leaves the word unchanged. |
| BitWord.SetThenClearBit | tinybitset.h:70-79 | Inserting an absent element and then removing it gives back the word. |
| BitWord.SetBitInWidth | tinybitset.h:70 | Insert keeps the word within its width. |
| BitWord.ClearBitInWidth | tinybitset.h:79 | Remove keeps the word within its width. |
| BitWord.UnionInWidth | tinybitset.h:61 | Union keeps the word within its width. |
| BitWord.PresentAfterSetBit | tinybitset.h:70 | After inserting i, x is present iff x == i or x was present. |
| BitWord.PresentAfterClearBit | tinybitset.h:79 | After removing i, x is present iff x != i and x was present. |
| BitWord.PresentAfterUnion | tinybitset.h:61 | x is in the OR iff it is in one of the two words. |
| BitWord.PresentInWordMask | tinybitset.h:94 | After `~0` in width w, element x is present iff x <= w. |
| BitWord.ElementListInRange | tinybitset.h:105-107 | Every listed element lies in 1..maxElems. |
| BitWord.ElementListAscending | tinybitset.h:105-107 | The list is strictly ascending. |
| BitWord.ElementListMembers | tinybitset.h:105-107 | x is listed iff it is in the set. |
| BitWord.ElementListLength | tinybitset.h:126-129 | The length of the list is the number of elements of the set. |
| BitWord.ElementListLowBitsOnly | tinybitset.h:105-107 | Two words that agree on bits 0..maxElems-1 give the same list and the same set. |
| BitWord.ElementListAllSet | tinybitset.h:102-111 | When all elements 1..maxElems are present, the list is [1, ..., maxElems]. |
| BitWord.ElementListZero | tinybitset.h:97-111 | The empty word lists nothing. |
| BitWord.ElementsOfStep | tinybitset.h:105-107 | Visiting bit n - 1 adds element n and only n to the set of elements visited. |
| BitWord.ElementsOfSetBit | tinybitset.h:65-72 | The set after insert(i) is the old set plus {i}. |
| BitWord.ElementsOfClearBit | tinybitset.h:74-80 | The set after remove(i) is the old set minus {i}. |
| BitWord.ElementsOfUnion | tinybitset.h:59-62 | The set of the OR is the union of the two sets. |
| BitWord.ElementsOfWordMask | tinybitset.h:92-95 | After fillall, every element 1..maxElems is present. |
| BitWord.ElementsOfZero | tinybitset.h:55 | The zero word holds the empty set. |
| BitWord.FillHighBitsUnobservable | tinybitset.h:92-95 | The word fillall stores agrees with the word of exactly the bits 0..maxElems-1 on every element, and gives the same list and the same set. The two words differ whenever maxElems is below the width. |
| BitWord.AscendingUnique | tinybitset.h:102-111 | Two strictly ascending lists with the same members are equal. |
| BitWord.ElementListCharacterized | tinybitset.h:102-111 | The element list is the only strictly ascending list of the set's elements. |
| TinyBitSets.InRange | tinybitset.h:67 | Definition: the range check of insert, remove and contains, `!((i > maxElems) \|\| (i < 1))`. |
| TinyBitSets.LowBitsString | tinybitset.h:116 | Definition: the low `count` bits of the word as '0'/'1' characters, highest first. |
| TinyBitSets.BitStringOf | tinybitset.h:116 | Definition: `std::bitset<8>(tinybitrep).to_string()`, the low 8 bits. |
| TinyBitSets.TinyBitSet.Elements | tinybitset.h:44 | Definition: the set that tinybitrep stands for at capacity maxElems. |
| TinyBitSets.LowBitsStringAt | tinybitset.h:116 | Character j of the rendering shows bit count - 1 - j. |
| TinyBitSets.BitStringShowsLowElements | tinybitset.h:114-117 | The rendering has 8 characters, each '0' or '1'. Character 8 - i is '1' iff element i is present. |
| TinyBitSets.TinyBitSet.constructor | tinybitset.h:49-56 | For MaxElems <= 64: maxElems is MaxElems, the word is 0, the set is empty, getSetSize is 0 and getMaxElements is MaxElems. |
| TinyBitSets.TinyBitSet.Create | tinybitset.h:49-56 | Fails with CapacityTooLarge iff MaxElems > 64. Otherwise gives a fresh, valid, empty set. |
| TinyBitSets.TinyBitSet.Insert | tinybitset.h:65-72 | Fails iff i is outside 1..maxElems, with the state unchanged. Otherwise the new word is the old one with bit i-1 set, the set gains i, and contains(i) holds. |
| TinyBitSets.TinyBitSet.Remove | tinybitset.h:74-80 | The same range check. Otherwise the new word is the old one with bit i-1 cleared, the set loses i, and contains(i) is false. |
| TinyBitSets.TinyBitSet.Contains | tinybitset.h:82-88 | Fails with ElementOutOfRange(i) iff i is outside 1..maxElems. Otherwise returns whether i is in the set. Reads only. |
| TinyBitSets.TinyBitSet.UnionWith | tinybitset.h:59-62 | The new word is the OR of the two old words and the set is the union of the two sets. obj is unchanged. |
| TinyBitSets.TinyBitSet.FillAll | tinybitset.h:92-95 | The word is all ones in its width, and the set is exactly 1..maxElems. The list is [1, ..., maxElems] and the size is maxElems. |
| TinyBitSets.TinyBitSet.RemoveAll | tinybitset.h:97-100 | The word is 0, and the set, the list and the size are empty or zero. |
| TinyBitSets.TinyBitSet.IntegerElements | tinybitset.h:102-111 | Returns the strictly ascending list of the set's elements. Each is in 1..maxElems, x is listed iff it is in the set, and the length is the set's size. |
| TinyBitSets.TinyBitSet.BitString | tinybitset.h:114-117 | 8 characters, with character 8 - i being '1' iff element i is present. |
| TinyBitSets.TinyBitSet.MaxElements | tinybitset.h:120-123 | Returns the capacity, which is at most 64, selects the width, and bounds the range contains accepts. |
| TinyBitSets.TinyBitSet.SetSize | tinybitset.h:126-129 | The size of the set, which is the length of the element list. |
| IntShift.IntToWord | tinybitset.h:70 | Definition: an `int` converted to the unsigned word of width w, that is, its value modulo 2^w: sign-extended, then cut to w bits. |
| IntShift.InsertAsWritten | tinybitset.h:70 | Definition: insert as written, `tinybitrep \|= (1 << (i-1))` with the `int` shift converted to the word. |
| IntShift.RemoveAsWritten | tinybitset.h:79 | Definition: remove as written, `tinybitrep & ~(1 << (i-1))` with `~` on the `int`. |
| IntShift.ContainsAsWritten | tinybitset.h:87 | Definition: the membership test as written, `(tinybitrep & (1 << (i-1))) != 0`. getIntegerElements makes the same test at line 106. |
| IntShift.IntMaskIsBit | tinybitset.h:70 | Below the sign bit, or in a word of at most 32 bits, `1 << k` as an `int` becomes exactly bit k of the word. |
| IntShift.IntComplementMaskIsClear | tinybitset.h:79 | Under the same condition, `~(1 << k)` becomes the word's mask with bit k cleared. |
| IntShift.InsertAsWrittenAgrees | tinybitset.h:70 | Under that condition, insert as written equals the corrected insert. |
| IntShift.RemoveAsWrittenAgrees | tinybitset.h:79 | Remove as written equals the corrected remove cut to the word's width. |
| IntShift.ContainsAsWrittenAgrees | tinybitset.h:87 | The membership test as written equals the corrected test. |
| IntShift.InsertAsWrittenAt32 | tinybitset.h:70 | Capacity 64, insert(32) as written sets bits 31..63, while the corrected insert sets bit 31 alone. |
| IntShift.RemoveAsWrittenAt32 | tinybitset.h:79 | Capacity 64, remove(32) as written on the full set clears bits 31..63, so the bit of element 40 is cleared too. The corrected remove clears bit 31 alone. |
| IntShift.HighUniformStart | tinybitset.h:55-99 | The constructor's, fillall's and removeall's words have bits 31..63 all equal. |
| IntShift.InsertSignUniform | tinybitset.h:70 | insert(32) as written on a 64-bit word sets bits 31..63 together. |
| IntShift.InsertAsWrittenUniform | tinybitset.h:70 | insert as written of 1..32 keeps bits 31..63 of a 64-bit word all equal. |
| IntShift.RemoveSignUniform | tinybitset.h:79 | remove(32) as written on a 64-bit word clears bits 31..63 together. |
| IntShift.RemoveAsWrittenUniform | tinybitset.h:79 | remove as written of 1..32 keeps bits 31..63 all equal. |
| IntShift.UnionUniform | tinybitset.h:61 | The OR of two such words is such a word. |
| IntShift.ContainsSignOnUniform | tinybitset.h:87 | On such a word, contains(32) as written, which tests bits 31..63, gives the answer of bit 31. |
| IntShift.ContainsAsWrittenOnUniform | tinybitset.h:87 | On such a word, the membership test as written equals the corrected test for every count 0..31. |
| IntShift.Step | tinybitset.h:59-100 | Definition: the word after one call of insert or remove of 1..32, fillall, removeall or unionbitset, as written, on a 64-bit word. |
| IntShift.Run | tinybitset.h:49-100 | Definition: the word after a sequence of such calls, where each union takes in a set built the same way from the constructor. |
| IntShift.StepUniform | tinybitset.h:59-100 | Each defined operation keeps a 64-bit word uniform, given that a union takes in a uniform word. |
| IntShift.RunUniform | tinybitset.h:49-100 | By induction, every word that defined operations reach from a uniform word is uniform. Unions take in sets built the same way. |
| IntShift.ReachableContainsCorrect | tinybitset.h:82-88 | On every word a 64-bit set reaches from the constructor by defined operations, contains(1..32) as written, and the same test in getIntegerElements, give the corrected answer. |
| IntShift.StepC | tinybitset.h:59-100 | Definition: the same calls as the corrected class makes them, with SetBit, ClearBit and Union as in `TinyBitSet`. |
| IntShift.RunC | tinybitset.h:49-100 | Definition: the word of the corrected class after a sequence of such calls. |
| IntShift.IntMaskLowAgree | tinybitset.h:70 | For every count 0..31, the `int` mask `1 << k` on a 64-bit word agrees with bit k on bits 0..31. |
| IntShift.IntComplementMaskLowAgree | tinybitset.h:79 | For every count 0..31, `~(1 << k)` agrees with the complement of bit k on bits 0..31. |
| IntShift.InsertLowAgree | tinybitset.h:70 | Insert as written and the corrected insert keep two words that agree on bits 0..31 agreeing there. |
| IntShift.RemoveLowAgree | tinybitset.h:79 | Likewise for remove as written and the corrected remove. |
| IntShift.StepLowAgree | tinybitset.h:59-100 | Each defined call, as written and corrected, keeps two words agreeing on bits 0..31, given that a union takes in agreeing words. |
| IntShift.RunLowAgree | tinybitset.h:49-100 | By induction, every sequence of defined calls, as written and corrected, ends in words that agree on bits 0..31. |
| IntShift.ReachableContainsAsCorrected | tinybitset.h:82-88 | On every 64-bit set reached by defined calls, contains(1..32) as written on the word as written gives the answer of the corrected class on its word. |
| ShiftRange.ShiftCountsDefined | tinybitset.h:65-106 | The shift counts i - 1 of the i that pass the range check `InRange`, and the counts 0..maxElems - 1 of the loop, all have a value iff maxElems <= 32. |
| ShiftRange.ContainsShiftUndefined | tinybitset.h:84-87 | For every valid set of capacity 33..64 and every i in 33..maxElems, `Contains(i)` passes the range check, and the shift by i - 1 it then computes has no value. |
| Scenarios.ValidSize | tests/tinybittests.cpp:7-17 | An empty set of capacity 8 has getMaxElements 8 and getSetSize 0. |
| Scenarios.InvalidSize | tests/tinybittests.cpp:19-27 | Capacity 65 fails with CapacityTooLarge(65). |
| Scenarios.InsertOne | tests/tinybittests.cpp:30-42 | insert(5) gives size 1 and the list [5]. |
| Scenarios.InsertTwo | tests/tinybittests.cpp:44-57 | insert(5), insert(22) gives size 2 and the list [5, 22]. |
| Scenarios.RemoveOne | tests/tinybittests.cpp:60-74 | insert(5), insert(22), remove(5) gives size 1 and the list [22]. |
| Scenarios.AllOnesBitString | tinybitset.h:116 | The word 0xFF renders as "11111111". |
| Scenarios.FillSmall | tinybitset.h:92-117 | fillall on capacity 5 renders "11111111", yet the size is 5, the list is [1, 2, 3, 4, 5], and insert(6) fails. |

## Left out

- `scripts/comparestl.cpp`, a timing benchmark, is not part of this model. Its clocks, floating point durations, `std::unordered_set` and console output are all left out. So are the operations it calls that the header does not define: `unionb`, `intersectionb`, `popLargest` and `popSmallest`.
- `bitmapping.h` is not part of this model. It holds constant tables that `tinybitset.h` does not include.
- Set operations that the header does not define are not modelled: intersection, the differences, invert, removing the largest or smallest element, construction from a raw bit pattern, and equality.
- Exception message text is not modelled. Only the kind of error and its argument are kept.
- Template instantiation is modelled only as a capacity fixed at construction. Concurrency is left out.
- The widths are the nominal 8, 16, 32 and 64 bits of `uint_fastN_t`. A platform may give the fast types more bits, for example 64 bits for `uint_fast16_t` and `uint_fast32_t`. That changes only bits above the capacity: those `fillall` sets, and for capacity 17..32 the bits 32..63 that `insert(32)` sets by sign extension and `remove(32)` clears. No operation observes them. `getBitStringElements` shows bits 0..7. `contains(32)` and the i = 31 test of `getIntegerElements` do read bits 31..63, through the sign-extended `1 << 31`. But those bits always equal bit 31, so the test gives the answer of bit 31. `IntShift.RunUniform` and `IntShift.ContainsAsWrittenOnUniform` prove this for the same arithmetic at width 64. `IntShift.IntMaskIsBit` at width 32 and count 31 holds only at the nominal width.
- `std::bitset<8>::to_string` is modelled only as the eight low bits, highest first.
- IntShift.InsertAsWritten: covers shift counts 0..31 only. A count of 32 or more, which elements 33..64 need, is undefined behaviour in C++ and has no value to model.
- IntShift.RemoveAsWrittenAgrees: does not restate the result for words within their width, where the cut to the width changes nothing. The class keeps its word within its width (`Valid`).
- The test harness output (`std::cout`, `assert`) is left out. The tests' checks are the scenario postconditions.

## Findings

| source | as written | input that shows it | evidently intended | confidence | as-written member | corrected member |
|---|---|---|---|---|---|---|
| tinybitset.h:70 | `tinybitrep \|= (1 << (i-1))` shifts a 32-bit `int`. For i = 32 the shift gives INT_MIN, which sign-extends into a 64-bit word. For i > 32 the shift has no defined value. | Capacity 64, insert(32) on the empty set: the word becomes 0xFFFF_FFFF_8000_0000 instead of 0x8000_0000, setting the bits of 33..64 as well (`IntShift.InsertAsWrittenAt32`). Capacity 64, insert(33): the shift by 32 is undefined (`ShiftRange.ShiftCountsDefined`). The defect stays inside the word: reading bits 32..63 needs an undefined shift, and on bits 0..31 the word as written agrees with the corrected word after every sequence of defined calls (`IntShift.RunLowAgree`). | Set bit i - 1 of the word alone, shifting in the word's own width. | not executed | IntShift.InsertAsWritten | BitWord.SetBit |
| tinybitset.h:79 | `tinybitrep & ~(1 << (i-1))`: for i = 32, `~INT_MIN` is 0x7FFF_FFFF, which clears bits 31..63. For i > 32 the shift has no defined value. | Capacity 64, fillall then remove(32): the bits of 33..64 are cleared as well (`IntShift.RemoveAsWrittenAt32`). The defect stays inside the word: no defined call reads bits 32..63, and the words agree on bits 0..31 (`IntShift.RunLowAgree`, `IntShift.ReachableContainsAsCorrected`). | Clear bit i - 1 alone. | not executed | IntShift.RemoveAsWritten | BitWord.ClearBit |
| tinybitset.h:87 | `(tinybitrep & (1 << (i-1))) != 0`: for i in 33..maxElems the range check passes and the shift by i - 1 >= 32 has no defined value. At i = 32 the answer is right on every reachable word (`IntShift.ReachableContainsCorrect`). | Capacity 64, contains(33) on any valid set (`ShiftRange.ContainsShiftUndefined`). | Test bit i - 1 of the word, shifting in the word's own width. | not executed | IntShift.ContainsAsWritten | BitWord.HasBit |
| tinybitset.h:106 | `tinybitrep & (1 << i)` in getIntegerElements: the same `int` shift, for every i in 0..maxElems - 1. | Any call at capacity 33..64: the loop reaches i = 32, and `1 << 32` has no defined value (`ShiftRange.ShiftCountsDefined`). | List i + 1 for each set bit i, shifting in the word's own width. | not executed | IntShift.ContainsAsWritten | TinyBitSets.TinyBitSet.IntegerElements |
