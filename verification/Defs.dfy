/** Record identifiers, lists without repetition, and the range of a C++ int. */
module Defs {

  datatype Rid = Rid(pageNo: int, slotNo: int)

  predicate NoDuplicates<T(==)>(list: seq<T>) {
    forall i, j | 0 <= i < j < |list| :: list[i] != list[j]
  }

  predicate IsInt32(v: int) {
    -0x8000_0000 <= v < 0x8000_0000
  }
}
