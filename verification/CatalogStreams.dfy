/** The catalogue's stream operators: `<<` appends to an output stream, `>>` consumes an input stream. */
module CatalogStreams {
  import opened Catalog
  import opened CatalogText

  class OStream {
    var text: string

    constructor ()
      ensures text == ""
    {
      text := "";
    }

    method Put(s: string)
      modifies this
      ensures text == old(text) + s
    {
      text := text + s;
    }
  }

  method WriteCol(output: OStream, c: ColMeta)
    modifies output
    ensures output.text == old(output.text) + ColText(c)
  {
    ColSplitAfter(output.text, c);
    hide Spaced, IntText, BoolText, TypeCode, ColText;
    output.Put(c.tabName);
    output.Put(Spaced(c.name));
    output.Put(Spaced(IntText(TypeCode(c.colType))));
    output.Put(Spaced(IntText(c.len)));
    output.Put(Spaced(IntText(c.offset)));
    output.Put(Spaced(BoolText(c.index)));
  }

  lemma ColSplitAfter(start: string, c: ColMeta)
    ensures start + ColText(c) == start + c.tabName + Spaced(c.name) + Spaced(IntText(TypeCode(c.colType))) +
                                  Spaced(IntText(c.len)) + Spaced(IntText(c.offset)) + Spaced(BoolText(c.index))
  {
    hide IntText, Spaced, BoolText, TypeCode;
    var (index, offset, len) := (Spaced(BoolText(c.index)), Spaced(IntText(c.offset)), Spaced(IntText(c.len)));
    var code := Spaced(IntText(TypeCode(c.colType)));
    var t3 := len + (offset + index);
    var t2 := code + t3;
    Assoc(start, c.tabName, Spaced(c.name) + t2);
    Assoc(start + c.tabName, Spaced(c.name), t2);
    Assoc(start + c.tabName + Spaced(c.name), code, t3);
    Assoc(start + c.tabName + Spaced(c.name) + code, len, offset + index);
    Assoc(start + c.tabName + Spaced(c.name) + code + len, offset, index);
  }

  method WriteIndex(output: OStream, x: IndexMeta)
    modifies output
    ensures output.text == old(output.text) + IndexText(x)
  {
    IndexSplitAfter(output.text, x);
    hide Spaced, IntText, IndexText, LinesBefore;
    output.Put(x.tabName);
    output.Put(Spaced(IntText(x.colTotLen)));
    output.Put(Spaced(IntText(x.colNum)));
    WriteLines(output, x.cols);
  }

  method WriteLines(output: OStream, cols: seq<ColMeta>)
    modifies output
    ensures output.text == old(output.text) + LinesBefore(cols)
  {
    for i := 0 to |cols|
      invariant old(output.text) + LinesBefore(cols) == output.text + LinesBefore(cols[i..])
    {
      LinesNext(output.text, cols[i..]);
      assert cols[i..][1..] == cols[i + 1..];
      hide ColText, LinesBefore;
      output.Put("\n");
      WriteCol(output, cols[i]);
    }
  }

  lemma IndexSplitAfter(start: string, x: IndexMeta)
    ensures start + IndexText(x) ==
            start + x.tabName + Spaced(IntText(x.colTotLen)) + Spaced(IntText(x.colNum)) + LinesBefore(x.cols)
  {
    hide IntText, Spaced, LinesBefore;
    var (len, num, lines) := (Spaced(IntText(x.colTotLen)), Spaced(IntText(x.colNum)), LinesBefore(x.cols));
    Assoc(start, x.tabName, len + (num + lines));
    Assoc(start + x.tabName, len, num + lines);
    Assoc(start + x.tabName + len, num, lines);
  }

  lemma LinesNext(text: string, cols: seq<ColMeta>)
    requires cols != []
    ensures text + LinesBefore(cols) == text + "\n" + ColText(cols[0]) + LinesBefore(cols[1..])
    ensures text + LinesAfter(cols) == text + ColText(cols[0]) + "\n" + LinesAfter(cols[1..])
  {
    hide ColText;
    var c := ColText(cols[0]);
    Assoc(text, "\n", c + LinesBefore(cols[1..]));
    Assoc(text + "\n", c, LinesBefore(cols[1..]));
    Assoc(text, c, "\n" + LinesAfter(cols[1..]));
    Assoc(text + c, "\n", LinesAfter(cols[1..]));
  }

  lemma IndexesNext(text: string, indexes: seq<IndexMeta>)
    requires indexes != []
    ensures text + IndexesText(indexes) == text + IndexText(indexes[0]) + "\n" + IndexesText(indexes[1..])
  {
    hide IndexText;
    Assoc(text, IndexText(indexes[0]), "\n" + IndexesText(indexes[1..]));
    Assoc(text + IndexText(indexes[0]), "\n", IndexesText(indexes[1..]));
  }

  method WriteCols(output: OStream, cols: seq<ColMeta>)
    modifies output
    ensures output.text == old(output.text) + LinesAfter(cols)
  {
    for i := 0 to |cols|
      invariant old(output.text) + LinesAfter(cols) == output.text + LinesAfter(cols[i..])
    {
      LinesNext(output.text, cols[i..]);
      assert cols[i..][1..] == cols[i + 1..];
      hide ColText, LinesAfter;
      WriteCol(output, cols[i]);
      output.Put("\n");
    }
  }

  method WriteIndexes(output: OStream, indexes: seq<IndexMeta>)
    modifies output
    ensures output.text == old(output.text) + IndexesText(indexes)
  {
    for i := 0 to |indexes|
      invariant old(output.text) + IndexesText(indexes) == output.text + IndexesText(indexes[i..])
    {
      IndexesNext(output.text, indexes[i..]);
      assert indexes[i..][1..] == indexes[i + 1..];
      hide IndexText, IndexesText;
      WriteIndex(output, indexes[i]);
      output.Put("\n");
    }
  }

  method WriteTab(output: OStream, t: TabMeta)
    modifies output
    ensures output.text == old(output.text) + TabText(t)
  {
    TabSplitAfter(output.text, t);
    hide NatText, LinesAfter, IndexesText, TabText;
    output.Put(t.name);
    output.Put("\n");
    output.Put(NatText(|t.cols|));
    output.Put("\n");
    WriteCols(output, t.cols);
    output.Put(NatText(|t.indexes|));
    output.Put("\n");
    WriteIndexes(output, t.indexes);
  }

  lemma TabSplitAfter(start: string, t: TabMeta)
    ensures start + TabText(t) == start + t.name + "\n" + NatText(|t.cols|) + "\n" + LinesAfter(t.cols) +
                                  NatText(|t.indexes|) + "\n" + IndexesText(t.indexes)
  {
    hide NatText, LinesAfter, IndexesText;
    var (n, lines, m, rest) := (NatText(|t.cols|), LinesAfter(t.cols), NatText(|t.indexes|), IndexesText(t.indexes));
    var t5 := m + ("\n" + rest);
    var t4 := lines + t5;
    var s1 := start + t.name;
    Assoc(start, t.name, "\n" + (n + ("\n" + t4)));
    Assoc(s1, "\n", n + ("\n" + t4));
    Assoc(s1 + "\n", n, "\n" + t4);
    Assoc(s1 + "\n" + n, "\n", t4);
    Assoc(s1 + "\n" + n + "\n", lines, t5);
    Assoc(s1 + "\n" + n + "\n" + lines, m, "\n" + rest);
    Assoc(s1 + "\n" + n + "\n" + lines + m, "\n", rest);
  }

  method WriteDb(output: OStream, db: DbMeta)
    modifies output
    ensures output.text == old(output.text) + DbText(db)
  {
    DbSplitAfter(output.text, db);
    hide NatText, DbText, TabsText;
    output.Put(db.name);
    output.Put("\n");
    output.Put(NatText(|db.tabs|));
    output.Put("\n");
    WriteTabs(output, db.tabs);
  }

  lemma DbSplitAfter(start: string, db: DbMeta)
    ensures start + DbText(db) == start + db.name + "\n" + NatText(|db.tabs|) + "\n" + TabsText(db.tabs, db.tabs.Keys)
  {
    hide NatText, TabsText;
    var n, rest := NatText(|db.tabs|), TabsText(db.tabs, db.tabs.Keys);
    Assoc(start, db.name, "\n" + (n + ("\n" + rest)));
    Assoc(start + db.name, "\n", n + ("\n" + rest));
    Assoc(start + db.name + "\n", n, "\n" + rest);
    Assoc(start + db.name + "\n" + n, "\n", rest);
  }

  /** Goes through the map as a std::map is gone through: in key order. */
  method WriteTabs(output: OStream, tabs: map<string, TabMeta>)
    modifies output
    ensures output.text == old(output.text) + TabsText(tabs, tabs.Keys)
  {
    var left := tabs.Keys;
    while left != {}
      invariant left <= tabs.Keys
      invariant old(output.text) + TabsText(tabs, tabs.Keys) == output.text + TabsText(tabs, left)
      decreases left
    {
      LeastExists(left);
      assert exists k :: k in left && forall x | x in left :: Below(k, x) by {
        var k :| IsLeast(left, k);
      }
      var k :| k in left && forall x | x in left :: Below(k, x);
      BelowTotal(k, Least(left));
      TabsNext(output.text, tabs, left);
      hide TabText, TabsText;
      WriteTab(output, tabs[k]);
      output.Put("\n");
      left := left - {k};
    }
  }

  lemma TabsNext(text: string, tabs: map<string, TabMeta>, keys: set<string>)
    requires keys <= tabs.Keys && keys != {}
    ensures var k := Least(keys);
            text + TabsText(tabs, keys) == text + TabText(tabs[k]) + "\n" + TabsText(tabs, keys - {k})
  {
    hide TabText;
    var k := Least(keys);
    Assoc(text, TabText(tabs[k]), "\n" + TabsText(tabs, keys - {k}));
    Assoc(text + TabText(tabs[k]), "\n", TabsText(tabs, keys - {k}));
  }

  // ----- Reading -----

  /** The stream has taken `v` from its input, or failed where there is nothing to take. */
  ghost predicate Took<T>(p: Parsed<T>, ok: bool, rest: string, v: T) {
    ok == p.Got? && (p.Got? ==> rest == p.rest && v == p.value)
  }

  class IStream {
    var rest: string
    var ok: bool

    constructor (text: string)
      ensures rest == text && ok
    {
      rest, ok := text, true;
    }

    method Take<T>(p: Parsed<T>, none: T) returns (v: T)
      modifies this
      ensures Took(p, ok, rest, v)
    {
      match p
      case Fail =>
        ok, v := false, none;
      case Got(value, r) =>
        ok, rest, v := true, r, value;
    }
  }

  method ReadColMeta(input: IStream) returns (col: ColMeta)
    requires input.ok
    modifies input
    ensures Took(ParseCol(old(input.rest)), input.ok, input.rest, col)
  {
    hide ReadWord, ReadType, ReadInt, ReadBool;
    col := ColMeta("", "", TypeInt, 0, 0, false);
    var tabName := input.Take(ReadWord(input.rest), "");
    if !input.ok { return; }
    var name := input.Take(ReadWord(input.rest), "");
    if !input.ok { return; }
    var colType := input.Take(ReadType(input.rest), TypeInt);
    if !input.ok { return; }
    var len := input.Take(ReadInt(input.rest), 0);
    if !input.ok { return; }
    var offset := input.Take(ReadInt(input.rest), 0);
    if !input.ok { return; }
    var index := input.Take(ReadBool(input.rest), false);
    col := ColMeta(tabName, name, colType, len, offset, index);
  }

  method ReadCols(input: IStream, n: int) returns (cols: seq<ColMeta>)
    requires input.ok
    modifies input
    ensures Took(ParseCols(old(input.rest), n, []), input.ok, input.rest, cols)
  {
    hide ParseCol;
    cols := [];
    var i := 0;
    while i < n
      invariant input.ok && 0 <= i && (n <= 0 ==> i == 0) && (n > 0 ==> i <= n)
      invariant ParseCols(old(input.rest), n, []) == ParseCols(input.rest, n - i, cols)
    {
      var col := ReadColMeta(input);
      if !input.ok { return; }
      cols := cols + [col];
      i := i + 1;
    }
  }

  method ReadIndexMeta(input: IStream) returns (index: IndexMeta)
    requires input.ok
    modifies input
    ensures Took(ParseIndex(old(input.rest)), input.ok, input.rest, index)
  {
    hide ReadWord, ReadInt, ParseCols;
    index := IndexMeta("", 0, 0, []);
    var tabName := input.Take(ReadWord(input.rest), "");
    if !input.ok { return; }
    var colTotLen := input.Take(ReadInt(input.rest), 0);
    if !input.ok { return; }
    var colNum := input.Take(ReadInt(input.rest), 0);
    if !input.ok { return; }
    var cols := ReadCols(input, colNum);
    index := IndexMeta(tabName, colTotLen, colNum, cols);
  }

  method ReadIndexes(input: IStream, n: int) returns (indexes: seq<IndexMeta>)
    requires input.ok
    modifies input
    ensures Took(ParseIndexes(old(input.rest), n, []), input.ok, input.rest, indexes)
  {
    hide ParseIndex;
    indexes := [];
    var i := 0;
    while i < n
      invariant input.ok && 0 <= i && (n <= 0 ==> i == 0) && (n > 0 ==> i <= n)
      invariant ParseIndexes(old(input.rest), n, []) == ParseIndexes(input.rest, n - i, indexes)
    {
      var index := ReadIndexMeta(input);
      if !input.ok { return; }
      indexes := indexes + [index];
      i := i + 1;
    }
  }

  method ReadTabMeta(input: IStream) returns (tab: TabMeta)
    requires input.ok
    modifies input
    ensures Took(ParseTab(old(input.rest)), input.ok, input.rest, tab)
  {
    hide ReadWord, ReadSize, ParseCols, ParseIndexes;
    tab := TabMeta("", [], []);
    var name := input.Take(ReadWord(input.rest), "");
    if !input.ok { return; }
    var n := input.Take(ReadSize(input.rest), 0);
    if !input.ok { return; }
    var cols := ReadCols(input, n);
    if !input.ok { return; }
    n := input.Take(ReadSize(input.rest), 0);
    if !input.ok { return; }
    var indexes := ReadIndexes(input, n);
    tab := TabMeta(name, cols, indexes);
  }

  /** Reads into a catalogue that holds `tabs` already. */
  method ReadDbMeta(input: IStream, tabs: map<string, TabMeta>) returns (db: DbMeta)
    requires input.ok
    modifies input
    ensures Took(ParseDb(old(input.rest), tabs), input.ok, input.rest, db)
  {
    hide ReadWord, ReadSize, ParseTab;
    db := DbMeta("", tabs);
    var name := input.Take(ReadWord(input.rest), "");
    if !input.ok { return; }
    var n := input.Take(ReadSize(input.rest), 0);
    if !input.ok { return; }
    ghost var s := input.rest;
    db := DbMeta(name, tabs);
    var i := 0;
    while i < n
      invariant input.ok && 0 <= i && db.name == name && (n <= 0 ==> i == 0) && (n > 0 ==> i <= n)
      invariant ParseTabs(s, n, tabs) == ParseTabs(input.rest, n - i, db.tabs)
    {
      var tab := ReadTabMeta(input);
      if !input.ok { return; }
      db := db.(tabs := db.tabs[tab.name := tab]);
      i := i + 1;
    }
  }

  /** Saving a catalogue and loading it again loses nothing exactly when the catalogue is well formed. */
  method SaveAndLoad(db: DbMeta) returns (same: bool)
    ensures same <==> DbOk(db)
  {
    var output := new OStream();
    WriteDb(output, db);
    assert "" + DbText(db) == DbText(db);
    var input := new IStream(output.text);
    var loaded := ReadDbMeta(input, map[]);
    ReadsBackIff(db);
    same := input.ok && loaded == db;
  }
}
