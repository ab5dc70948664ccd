/** Table, column and index metadata. */
module Catalog {

  datatype ColType = TypeInt | TypeFloat | TypeString

  datatype ColMeta = ColMeta(tabName: string, name: string, colType: ColType, len: int, offset: int, index: bool)

  datatype IndexMeta = IndexMeta(tabName: string, colTotLen: int, colNum: int, cols: seq<ColMeta>)

  datatype TabMeta = TabMeta(name: string, cols: seq<ColMeta>, indexes: seq<IndexMeta>)

  datatype DbMeta = DbMeta(name: string, tabs: map<string, TabMeta>)

  /** The index is on these columns, in this order; it counts as many columns as its own count says. */
  ghost predicate IndexOn(index: IndexMeta, names: seq<string>) {
    index.colNum == |names| <= |index.cols| && forall i | 0 <= i < |names| :: index.cols[i].name == names[i]
  }

  /** Whether the table has an index on exactly these columns, in this order. */
  method IsIndex(tab: TabMeta, names: seq<string>) returns (found: bool)
    requires forall x | x in tab.indexes :: x.colNum <= |x.cols|
    ensures found <==> exists k :: 0 <= k < |tab.indexes| && IndexOn(tab.indexes[k], names)
  {
    for k := 0 to |tab.indexes|
      invariant forall j | 0 <= j < k :: !IndexOn(tab.indexes[j], names)
    {
      var index := tab.indexes[k];
      if index.colNum == |names| {
        var i := 0;
        while i < index.colNum && index.cols[i].name == names[i]
          invariant 0 <= i <= index.colNum
          invariant forall j | 0 <= j < i :: index.cols[j].name == names[j]
        {
          i := i + 1;
        }
        if i == index.colNum { return true; }
      }
    }
    return false;
  }
}
