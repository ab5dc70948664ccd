/**
 The text of the database catalogue: what `<<` writes, what `>>` reads, and when reading gives back what was written.
 */
module CatalogText {
  import opened Defs
  import opened Catalog

  // ----- Reading -----

  datatype Parsed<+T> = Fail | Got(value: T, rest: string) {
    predicate IsFailure() {
      Fail?
    }

    function PropagateFailure<U>(): Parsed<U>
      requires Fail?
    {
      Fail
    }

    function Extract(): (T, string)
      requires Got?
    {
      (value, rest)
    }
  }

  predicate IsSpace(c: char) {
    c in " \t\n\r" || c as int == 11 || c as int == 12
  }

  predicate IsDigit(c: char) {
    '0' <= c <= '9'
  }

  function SkipSpace(s: string): (r: string)
    ensures |r| <= |s|
  {
    if s != "" && IsSpace(s[0]) then SkipSpace(s[1..]) else s
  }

  /** How many characters there are before the first space. */
  function WordLength(s: string): (n: nat)
    ensures n <= |s|
  {
    if s != "" && !IsSpace(s[0]) then 1 + WordLength(s[1..]) else 0
  }

  function DigitsLength(s: string): (n: nat)
    ensures n <= |s|
  {
    if s != "" && IsDigit(s[0]) then 1 + DigitsLength(s[1..]) else 0
  }

  function NatValue(digits: string): int {
    if digits == "" then 0 else 10 * NatValue(digits[..|digits| - 1]) + (digits[|digits| - 1] as int - '0' as int)
  }

  function ReadWord(s: string): Parsed<string> {
    var t := SkipSpace(s);
    var n := WordLength(t);
    if n == 0 then Fail else Got(t[..n], t[n..])
  }

  function ReadDigits(s: string): Parsed<int> {
    var n := DigitsLength(s);
    if n == 0 then Fail else Got(NatValue(s[..n]), s[n..])
  }

  /** A decimal number with an optional sign, of any size. */
  function ReadNumber(s: string): Parsed<int> {
    var t := SkipSpace(s);
    if t != "" && t[0] == '-' then
      var (v, r) :- ReadDigits(t[1..]);
      Got(-v, r)
    else if t != "" && t[0] == '+' then ReadDigits(t[1..])
    else ReadDigits(t)
  }

  const SIZE_MAX := 0xFFFF_FFFF_FFFF_FFFF

  function ReadInt(s: string): Parsed<int> {
    var (v, r) :- ReadNumber(s);
    if IsInt32(v) then Got(v, r) else Fail
  }

  /** An unsigned size; a minus sign wraps around. */
  function ReadSize(s: string): Parsed<int> {
    var (v, r) :- ReadNumber(s);
    if -SIZE_MAX <= v <= SIZE_MAX then Got(v % (SIZE_MAX + 1), r) else Fail
  }

  function ReadBool(s: string): Parsed<bool> {
    var (v, r) :- ReadNumber(s);
    if v == 0 || v == 1 then Got(v == 1, r) else Fail
  }

  function TypeCode(t: ColType): int {
    match t
    case TypeInt => 0
    case TypeFloat => 1
    case TypeString => 2
  }

  function ReadType(s: string): Parsed<ColType> {
    var (v, r) :- ReadInt(s);
    if v == 0 then Got(TypeInt, r) else if v == 1 then Got(TypeFloat, r) else if v == 2 then Got(TypeString, r) else Fail
  }

  function ParseCol(s: string): Parsed<ColMeta> {
    var (tabName, s1) :- ReadWord(s);
    var (name, s2) :- ReadWord(s1);
    var (colType, s3) :- ReadType(s2);
    var (len, s4) :- ReadInt(s3);
    var (offset, s5) :- ReadInt(s4);
    var (index, s6) :- ReadBool(s5);
    Got(ColMeta(tabName, name, colType, len, offset, index), s6)
  }

  /** Reads `n` columns behind those in `cols`. */
  function ParseCols(s: string, n: int, cols: seq<ColMeta>): Parsed<seq<ColMeta>>
    decreases n
  {
    if n <= 0 then Got(cols, s)
    else
      var (col, r) :- ParseCol(s);
      ParseCols(r, n - 1, cols + [col])
  }

  function ParseIndex(s: string): Parsed<IndexMeta> {
    var (tabName, s1) :- ReadWord(s);
    var (colTotLen, s2) :- ReadInt(s1);
    var (colNum, s3) :- ReadInt(s2);
    var (cols, s4) :- ParseCols(s3, colNum, []);
    Got(IndexMeta(tabName, colTotLen, colNum, cols), s4)
  }

  function ParseIndexes(s: string, n: int, indexes: seq<IndexMeta>): Parsed<seq<IndexMeta>>
    decreases n
  {
    if n <= 0 then Got(indexes, s)
    else
      var (index, r) :- ParseIndex(s);
      ParseIndexes(r, n - 1, indexes + [index])
  }

  function ParseTab(s: string): Parsed<TabMeta> {
    var (name, s1) :- ReadWord(s);
    var (n, s2) :- ReadSize(s1);
    var (cols, s3) :- ParseCols(s2, n, []);
    var (m, s4) :- ReadSize(s3);
    var (indexes, s5) :- ParseIndexes(s4, m, []);
    Got(TabMeta(name, cols, indexes), s5)
  }

  function ParseTabs(s: string, n: int, tabs: map<string, TabMeta>): Parsed<map<string, TabMeta>>
    decreases n
  {
    if n <= 0 then Got(tabs, s)
    else
      var (tab, r) :- ParseTab(s);
      ParseTabs(r, n - 1, tabs[tab.name := tab])
  }

  /** Reads a catalogue into one that already holds `tabs`. */
  function ParseDb(s: string, tabs: map<string, TabMeta>): Parsed<DbMeta> {
    var (name, s1) :- ReadWord(s);
    var (n, s2) :- ReadSize(s1);
    var (tabs', s3) :- ParseTabs(s2, n, tabs);
    Got(DbMeta(name, tabs'), s3)
  }

  // ----- Writing -----

  function NatText(n: nat): string {
    if n < 10 then [('0' as int + n) as char] else NatText(n / 10) + [('0' as int + n % 10) as char]
  }

  function IntText(v: int): string {
    if v < 0 then "-" + NatText(-v) else NatText(v)
  }

  function Spaced(w: string): string {
    " " + w
  }

  function BoolText(b: bool): string {
    if b then "1" else "0"
  }

  function ColText(c: ColMeta): string {
    c.tabName + (Spaced(c.name) + (Spaced(IntText(TypeCode(c.colType))) + (Spaced(IntText(c.len)) +
    (Spaced(IntText(c.offset)) + Spaced(BoolText(c.index))))))
  }

  /** Each column on a line of its own, with the line break in front. */
  function LinesBefore(cols: seq<ColMeta>): string {
    if cols == [] then "" else "\n" + (ColText(cols[0]) + LinesBefore(cols[1..]))
  }

  /** Each column on a line of its own, with the line break behind. */
  function LinesAfter(cols: seq<ColMeta>): string {
    if cols == [] then "" else ColText(cols[0]) + ("\n" + LinesAfter(cols[1..]))
  }

  function IndexText(x: IndexMeta): string {
    x.tabName + (Spaced(IntText(x.colTotLen)) + (Spaced(IntText(x.colNum)) + LinesBefore(x.cols)))
  }

  function IndexesText(indexes: seq<IndexMeta>): string {
    if indexes == [] then "" else IndexText(indexes[0]) + ("\n" + IndexesText(indexes[1..]))
  }

  function TabText(t: TabMeta): string {
    t.name + ("\n" + (NatText(|t.cols|) + ("\n" + (LinesAfter(t.cols) +
    (NatText(|t.indexes|) + ("\n" + IndexesText(t.indexes)))))))
  }

  /** The order of the tables' keys in a std::map. */
  predicate Below(a: string, b: string) {
    a == "" || (b != "" && (a[0] < b[0] || (a[0] == b[0] && Below(a[1..], b[1..]))))
  }

  ghost predicate IsLeast(keys: set<string>, k: string) {
    k in keys && forall x | x in keys :: Below(k, x)
  }

  lemma BelowTotal(a: string, b: string)
    ensures Below(a, b) || Below(b, a)
    ensures Below(a, b) && Below(b, a) ==> a == b
  {
    if a != "" && b != "" && a[0] == b[0] {
      BelowTotal(a[1..], b[1..]);
      assert a == [a[0]] + a[1..] && b == [b[0]] + b[1..];
    }
  }

  lemma BelowTransitive(a: string, b: string, c: string)
    requires Below(a, b) && Below(b, c)
    ensures Below(a, c)
  {
  }

  lemma LeastExists(keys: set<string>)
    requires keys != {}
    ensures exists k :: IsLeast(keys, k)
  {
    var k :| k in keys;
    var others := keys - {k};
    if others == {} {
      BelowTotal(k, k);
      assert forall x | x in keys :: x in others || x == k;
      assert IsLeast(keys, k);
    } else {
      LeastExists(others);
      var m :| IsLeast(others, m);
      BelowTotal(k, m);
      BelowTotal(k, k);
      var least := if Below(k, m) then k else m;
      forall x | x in keys ensures Below(least, x) {
        if x != k && least == k { BelowTransitive(k, m, x); }
      }
      assert IsLeast(keys, least);
    }
  }

  ghost function Least(keys: set<string>): (k: string)
    requires keys != {}
    ensures IsLeast(keys, k)
  {
    LeastExists(keys);
    var k :| IsLeast(keys, k);
    k
  }

  /** The tables under `keys`, in key order, each followed by a line break. */
  ghost function TabsText(tabs: map<string, TabMeta>, keys: set<string>): string
    requires keys <= tabs.Keys
  {
    if keys == {} then "" else
      var k := Least(keys);
      TabText(tabs[k]) + ("\n" + TabsText(tabs, keys - {k}))
  }

  ghost function DbText(db: DbMeta): string {
    db.name + ("\n" + (NatText(|db.tabs|) + ("\n" + TabsText(db.tabs, db.tabs.Keys))))
  }

  // ----- Well-formed catalogues -----

  predicate IsWord(w: string) {
    w != "" && forall i | 0 <= i < |w| :: !IsSpace(w[i])
  }

  predicate ColOk(c: ColMeta) {
    IsWord(c.tabName) && IsWord(c.name) && IsInt32(c.len) && IsInt32(c.offset)
  }

  predicate IndexOk(x: IndexMeta) {
    && IsWord(x.tabName) && IsInt32(x.colTotLen) && IsInt32(x.colNum)
    && |x.cols| == (if x.colNum < 0 then 0 else x.colNum)
    && forall c | c in x.cols :: ColOk(c)
  }

  predicate TabOk(t: TabMeta) {
    && IsWord(t.name) && |t.cols| <= SIZE_MAX && |t.indexes| <= SIZE_MAX
    && (forall c | c in t.cols :: ColOk(c))
    && (forall x | x in t.indexes :: IndexOk(x))
  }

  /** Every table is under its own name. */
  predicate TabsOk(tabs: map<string, TabMeta>) {
    forall k | k in tabs :: TabOk(tabs[k]) && tabs[k].name == k
  }

  predicate DbOk(db: DbMeta) {
    IsWord(db.name) && |db.tabs| <= SIZE_MAX && TabsOk(db.tabs)
  }

  // ----- What is written reads back -----

  /** What follows does not prolong a word or a number. */
  predicate Ends(tail: string) {
    tail == "" || IsSpace(tail[0])
  }

  lemma Assoc(a: string, b: string, c: string)
    ensures (a + b) + c == a + (b + c)
  {
  }

  lemma {:induction false} WordLengthOf(w: string, tail: string)
    requires Ends(tail) && forall i | 0 <= i < |w| :: !IsSpace(w[i])
    ensures WordLength(w + tail) == |w|
  {
    if w == "" {
      assert w + tail == tail;
    } else {
      hide IsSpace;
      WordLengthOf(w[1..], tail);
      assert (w + tail)[1..] == w[1..] + tail && (w + tail)[0] == w[0];
    }
  }

  lemma WordReadsBack(w: string, tail: string)
    requires IsWord(w) && Ends(tail)
    ensures ReadWord(w + tail) == Got(w, tail)
  {
    WordLengthOf(w, tail);
    assert (w + tail)[0] == w[0];
  }

  lemma NatTextDigits(n: nat)
    ensures NatText(n) != "" && NatValue(NatText(n)) == n
    ensures forall i | 0 <= i < |NatText(n)| :: IsDigit(NatText(n)[i])
  {
    if n >= 10 {
      NatTextDigits(n / 10);
      assert NatText(n)[..|NatText(n)| - 1] == NatText(n / 10);
    } else {
      assert NatText(n)[..0] == "";
    }
  }

  lemma {:induction false} DigitsLengthOf(d: string, tail: string)
    requires Ends(tail) && forall i | 0 <= i < |d| :: IsDigit(d[i])
    ensures DigitsLength(d + tail) == |d|
  {
    if d == "" {
      assert d + tail == tail;
    } else {
      hide IsDigit, IsSpace;
      DigitsLengthOf(d[1..], tail);
      assert (d + tail)[1..] == d[1..] + tail && (d + tail)[0] == d[0];
    }
  }

  lemma DigitsReadBack(n: nat, tail: string)
    requires Ends(tail)
    ensures ReadDigits(NatText(n) + tail) == Got(n, tail) && NatText(n) != "" && IsDigit((NatText(n) + tail)[0])
  {
    NatTextDigits(n);
    DigitsLengthOf(NatText(n), tail);
    hide NatText, NatValue, DigitsLength;
    assert (NatText(n) + tail)[..|NatText(n)|] == NatText(n);
  }

  lemma NoSpaceSkipped(s: string)
    requires s != "" && (s[0] == '-' || IsDigit(s[0]))
    ensures SkipSpace(s) == s
  {
  }

  lemma NumberReadsBack(v: int, tail: string)
    requires Ends(tail)
    ensures ReadNumber(IntText(v) + tail) == Got(v, tail)
  {
    hide NatText, ReadDigits, IsSpace, SkipSpace, Ends;
    if v < 0 {
      var d := NatText(-v) + tail;
      DigitsReadBack(-v, tail);
      Assoc("-", NatText(-v), tail);
      NoSpaceSkipped("-" + d);
      assert ("-" + d)[1..] == d;
    } else {
      DigitsReadBack(v, tail);
      NoSpaceSkipped(NatText(v) + tail);
    }
  }

  lemma SignSkipped(sign: char, d: string)
    requires sign == '+' || sign == '-'
    ensures SkipSpace([sign] + d) == [sign] + d && ([sign] + d)[1..] == d
  {
  }

  /** A plus sign is read over; a minus sign in front of a size wraps around, as far as the size can be expressed. */
  lemma SignsRead(n: nat, tail: string)
    requires Ends(tail)
    ensures ReadNumber("+" + (NatText(n) + tail)) == Got(n, tail)
    ensures ReadSize("-" + (NatText(n) + tail)) ==
            if n > SIZE_MAX then Fail else Got(if n == 0 then 0 else SIZE_MAX + 1 - n, tail)
  {
    DigitsReadBack(n, tail);
    hide NatText, ReadDigits, IsSpace, SkipSpace, Ends;
    SignSkipped('+', NatText(n) + tail);
    SignSkipped('-', NatText(n) + tail);
  }

  lemma SkipSpaced(w: string, tail: string)
    ensures SkipSpace(Spaced(w) + tail) == SkipSpace(w + tail) && Ends(Spaced(w) + tail)
  {
    assert (Spaced(w) + tail)[1..] == w + tail;
  }

  lemma SpacedWord(w: string, tail: string)
    requires IsWord(w) && Ends(tail)
    ensures ReadWord(Spaced(w) + tail) == Got(w, tail) && Ends(Spaced(w) + tail)
  {
    SkipSpaced(w, tail);
    WordReadsBack(w, tail);
  }

  lemma SpacedNumber(v: int, tail: string)
    requires Ends(tail)
    ensures ReadNumber(Spaced(IntText(v)) + tail) == Got(v, tail) && Ends(Spaced(IntText(v)) + tail)
  {
    SkipSpaced(IntText(v), tail);
    NumberReadsBack(v, tail);
  }

  lemma ColReadsBack(c: ColMeta, tail: string)
    requires ColOk(c) && Ends(tail)
    ensures ParseCol(ColText(c) + tail) == Got(c, tail)
  {
    hide ReadWord, ReadNumber, Spaced, IntText, IsWord, Ends, ColText;
    ColSplit(c, tail);
    assert BoolText(c.index) == IntText(if c.index then 1 else 0) by { BoolAsInt(c.index); }
    var t5 := Spaced(BoolText(c.index)) + tail;
    var t4 := Spaced(IntText(c.offset)) + t5;
    var t3 := Spaced(IntText(c.len)) + t4;
    var t2 := Spaced(IntText(TypeCode(c.colType))) + t3;
    SpacedNumber(if c.index then 1 else 0, tail);
    SpacedNumber(c.offset, t5);
    SpacedNumber(c.len, t4);
    SpacedNumber(TypeCode(c.colType), t3);
    SpacedWord(c.name, t2);
    WordReadsBack(c.tabName, Spaced(c.name) + t2);
  }

  lemma BoolAsInt(b: bool)
    ensures BoolText(b) == IntText(if b then 1 else 0)
  {
  }

  lemma ColSplit(c: ColMeta, tail: string)
    ensures ColText(c) + tail ==
            c.tabName + (Spaced(c.name) + (Spaced(IntText(TypeCode(c.colType))) + (Spaced(IntText(c.len)) +
            (Spaced(IntText(c.offset)) + (Spaced(BoolText(c.index)) + tail)))))
  {
    hide IntText, Spaced, BoolText, TypeCode;
    var (index, offset, len) := (Spaced(BoolText(c.index)), Spaced(IntText(c.offset)), Spaced(IntText(c.len)));
    var code := Spaced(IntText(TypeCode(c.colType)));
    Assoc(offset, index, tail);
    Assoc(len, offset + index, tail);
    Assoc(code, len + (offset + index), tail);
    Assoc(Spaced(c.name), code + (len + (offset + index)), tail);
    Assoc(c.tabName, Spaced(c.name) + (code + (len + (offset + index))), tail);
  }

  lemma BreakRead(s: string)
    ensures ReadWord("\n" + s) == ReadWord(s) && ReadNumber("\n" + s) == ReadNumber(s) && Ends("\n" + s)
  {
    assert ("\n" + s)[1..] == s;
    hide WordLength, ReadDigits;
  }

  /** A line break in front changes nothing for what is read next. */
  lemma BreakSkipped(s: string)
    ensures ReadSize("\n" + s) == ReadSize(s) && Ends("\n" + s)
    ensures ParseCol("\n" + s) == ParseCol(s) && ParseIndex("\n" + s) == ParseIndex(s) && ParseTab("\n" + s) == ParseTab(s)
  {
    BreakRead(s);
    hide ReadWord, ReadNumber, ReadInt, ReadType, ReadBool, ParseCols, ParseIndexes;
  }

  lemma LinesSplit(cols: seq<ColMeta>, tail: string)
    requires cols != []
    ensures LinesBefore(cols) + tail == "\n" + (ColText(cols[0]) + (LinesBefore(cols[1..]) + tail))
  {
    Assoc("\n", ColText(cols[0]) + LinesBefore(cols[1..]), tail);
    Assoc(ColText(cols[0]), LinesBefore(cols[1..]), tail);
  }

  lemma LinesEnd(cols: seq<ColMeta>, tail: string)
    requires Ends(tail)
    ensures Ends(LinesBefore(cols) + tail)
  {
    if cols == [] {
      assert LinesBefore(cols) + tail == tail;
    }
  }

  lemma Shifted<T>(before: seq<T>, list: seq<T>)
    requires list != []
    ensures before + [list[0]] + list[1..] == before + list
  {
  }

  lemma ColsStep(s: string, n: int, before: seq<ColMeta>, c: ColMeta, rest: string)
    requires n > 0 && ParseCol(s) == Got(c, rest)
    ensures ParseCols(s, n, before) == ParseCols(rest, n - 1, before + [c])
  {
  }

  lemma {:induction false} LinesReadBack(cols: seq<ColMeta>, before: seq<ColMeta>, tail: string)
    requires Ends(tail) && forall c | c in cols :: ColOk(c)
    ensures ParseCols(LinesBefore(cols) + tail, |cols|, before) == Got(before + cols, tail)
    decreases cols
  {
    if cols == [] {
      assert LinesBefore(cols) + tail == tail && before + cols == before;
    } else {
      hide ParseCols, ParseCol, ColText, ColOk, LinesBefore, Ends;
      var c, rest := cols[0], LinesBefore(cols[1..]) + tail;
      LinesEnd(cols[1..], tail);
      LinesReadBack(cols[1..], before + [c], tail);
      LinesSplit(cols, tail);
      BreakSkipped(ColText(c) + rest);
      ColReadsBack(c, rest);
      ColsStep("\n" + (ColText(c) + rest), |cols|, before, c, rest);
      Shifted(before, cols);
      assert ParseCols(LinesBefore(cols) + tail, |cols|, before) == Got(before + cols, tail);
    }
  }

  /** The two ways of breaking lines differ only in where the last break goes. */
  lemma {:induction false} BreaksMove(cols: seq<ColMeta>, tail: string)
    ensures "\n" + (LinesAfter(cols) + tail) == LinesBefore(cols) + ("\n" + tail)
  {
    if cols == [] {
      assert LinesAfter(cols) + tail == tail && LinesBefore(cols) + ("\n" + tail) == "\n" + tail;
    } else {
      var c, after, before := cols[0], LinesAfter(cols[1..]), LinesBefore(cols[1..]);
      BreaksMove(cols[1..], tail);
      Assoc(ColText(c), "\n" + after, tail);
      Assoc("\n", after, tail);
      Assoc("\n", ColText(c) + before, "\n" + tail);
      Assoc(ColText(c), before, "\n" + tail);
    }
  }

  lemma IndexReadsBack(x: IndexMeta, tail: string)
    requires IndexOk(x) && Ends(tail)
    ensures ParseIndex(IndexText(x) + tail) == Got(x, tail)
  {
    hide ReadWord, ReadNumber, Spaced, IntText, IsWord, Ends, LinesBefore;
    var (len, num, lines) := (Spaced(IntText(x.colTotLen)), Spaced(IntText(x.colNum)), LinesBefore(x.cols));
    Assoc(num, lines, tail);
    Assoc(len, num + lines, tail);
    Assoc(x.tabName, len + (num + lines), tail);
    LinesReadBack(x.cols, [], tail);
    LinesEnd(x.cols, tail);
    SpacedNumber(x.colNum, lines + tail);
    SpacedNumber(x.colTotLen, num + (lines + tail));
    WordReadsBack(x.tabName, len + (num + (lines + tail)));
    assert [] + x.cols == x.cols;
    NegativeReadsNone(lines + tail, x.colNum, |x.cols|);
  }

  lemma NegativeReadsNone(s: string, n: int, m: nat)
    requires m == if n < 0 then 0 else n
    ensures ParseCols(s, n, []) == ParseCols(s, m, [])
  {
  }

  lemma IndexesSplit(indexes: seq<IndexMeta>, tail: string)
    requires indexes != []
    ensures IndexesText(indexes) + tail == IndexText(indexes[0]) + ("\n" + (IndexesText(indexes[1..]) + tail))
  {
    Assoc(IndexText(indexes[0]), "\n" + IndexesText(indexes[1..]), tail);
    Assoc("\n", IndexesText(indexes[1..]), tail);
  }

  lemma IndexesStep(s: string, n: int, before: seq<IndexMeta>, x: IndexMeta, rest: string)
    requires n > 0 && ParseIndex(s) == Got(x, rest)
    ensures ParseIndexes(s, n, before) == ParseIndexes(rest, n - 1, before + [x])
  {
  }

  lemma {:induction false} IndexesReadBack(indexes: seq<IndexMeta>, before: seq<IndexMeta>, tail: string)
    requires forall x | x in indexes :: IndexOk(x)
    ensures ParseIndexes("\n" + (IndexesText(indexes) + tail), |indexes|, before) == Got(before + indexes, "\n" + tail)
    decreases indexes
  {
    if indexes == [] {
      assert IndexesText(indexes) + tail == tail && before + indexes == before;
    } else {
      hide ParseIndexes, ParseIndex, IndexText, IndexOk, IndexesText, Ends;
      var x, rest := indexes[0], "\n" + (IndexesText(indexes[1..]) + tail);
      IndexesReadBack(indexes[1..], before + [x], tail);
      IndexesSplit(indexes, tail);
      BreakSkipped(IndexText(x) + rest);
      BreakSkipped(IndexesText(indexes[1..]) + tail);
      IndexReadsBack(x, rest);
      IndexesStep("\n" + (IndexText(x) + rest), |indexes|, before, x, rest);
      Shifted(before, indexes);
      assert ParseIndexes("\n" + (IndexesText(indexes) + tail), |indexes|, before) == Got(before + indexes, "\n" + tail);
    }
  }

  lemma SizeReadsBack(n: nat, tail: string)
    requires n <= SIZE_MAX && Ends(tail)
    ensures ReadSize(NatText(n) + tail) == Got(n, tail) && ReadSize("\n" + (NatText(n) + tail)) == Got(n, tail)
  {
    hide ReadNumber, NatText, SkipSpace;
    NumberReadsBack(n, tail);
    BreakRead(NatText(n) + tail);
  }

  lemma TabSplit(t: TabMeta, tail: string)
    ensures TabText(t) + tail ==
            t.name + ("\n" + (NatText(|t.cols|) + (LinesBefore(t.cols) + ("\n" +
            (NatText(|t.indexes|) + ("\n" + (IndexesText(t.indexes) + tail)))))))
  {
    hide NatText, LinesAfter, LinesBefore, IndexesText;
    var (n, lines, m, rest) := (NatText(|t.cols|), LinesAfter(t.cols), NatText(|t.indexes|), IndexesText(t.indexes));
    Assoc("\n", rest, tail);
    Assoc(m, "\n" + rest, tail);
    Assoc(lines, m + ("\n" + rest), tail);
    Assoc("\n", lines + (m + ("\n" + rest)), tail);
    Assoc(n, "\n" + (lines + (m + ("\n" + rest))), tail);
    Assoc("\n", n + ("\n" + (lines + (m + ("\n" + rest)))), tail);
    Assoc(t.name, "\n" + (n + ("\n" + (lines + (m + ("\n" + rest))))), tail);
    BreaksMove(t.cols, m + ("\n" + (rest + tail)));
  }

  lemma TabReadsBack(t: TabMeta, tail: string)
    requires TabOk(t)
    ensures ParseTab(TabText(t) + tail) == Got(t, "\n" + tail)
  {
    hide ReadWord, ReadSize, NatText, IsWord, Ends, LinesBefore, IndexesText, TabText, ParseCols, ParseIndexes;
    TabSplit(t, tail);
    var s4 := "\n" + (IndexesText(t.indexes) + tail);
    var s3 := "\n" + (NatText(|t.indexes|) + s4);
    var s2 := LinesBefore(t.cols) + s3;
    IndexesReadBack(t.indexes, [], tail);
    BreakSkipped(IndexesText(t.indexes) + tail);
    SizeReadsBack(|t.indexes|, s4);
    BreakSkipped(NatText(|t.indexes|) + s4);
    LinesReadBack(t.cols, [], s3);
    LinesEnd(t.cols, s3);
    SizeReadsBack(|t.cols|, s2);
    BreakSkipped(NatText(|t.cols|) + s2);
    WordReadsBack(t.name, "\n" + (NatText(|t.cols|) + s2));
    assert [] + t.cols == t.cols && [] + t.indexes == t.indexes;
  }

  lemma BreakTwice(s: string, n: int, into: map<string, TabMeta>)
    ensures var p, q := ParseTabs("\n" + ("\n" + s), n, into), ParseTabs("\n" + s, n, into);
            p.Got? == q.Got? && (p.Got? ==> p.value == q.value)
  {
    hide ParseTab;
    BreakSkipped("\n" + s);
  }

  lemma TabsStep(s: string, n: int, into: map<string, TabMeta>, t: TabMeta, rest: string)
    requires n > 0 && ParseTab(s) == Got(t, rest)
    ensures ParseTabs(s, n, into) == ParseTabs(rest, n - 1, into[t.name := t])
  {
  }

  /** Reading the tables under `keys` adds exactly those tables. */
  lemma {:induction false} TabsReadBack(tabs: map<string, TabMeta>, keys: set<string>, into: map<string, TabMeta>)
    requires TabsOk(tabs) && keys <= tabs.Keys
    ensures var p := ParseTabs("\n" + TabsText(tabs, keys), |keys|, into);
            p.Got? && p.value == into + map k | k in keys :: tabs[k]
    decreases keys
  {
    if keys == {} {
      assert into + (map k | k in keys :: tabs[k]) == into;
    } else {
      var k := Least(keys);
      var t, rest := tabs[k], "\n" + TabsText(tabs, keys - {k});
      assert TabsText(tabs, keys) == TabText(t) + rest;
      assert TabOk(t) && t.name == k;
      hide ParseTabs, ParseTab, TabText, TabOk, TabsText, IsLeast, Ends;
      TabsReadBack(tabs, keys - {k}, into[k := t]);
      BreakSkipped(TabText(t) + rest);
      TabReadsBack(t, rest);
      TabsStep("\n" + (TabText(t) + rest), |keys|, into, t, "\n" + rest);
      BreakTwice(TabsText(tabs, keys - {k}), |keys| - 1, into[k := t]);
      AddOne(tabs, keys, k, into);
      assert ParseTabs("\n" + TabsText(tabs, keys), |keys|, into).Got?;
    }
  }

  lemma AddOne(tabs: map<string, TabMeta>, keys: set<string>, k: string, into: map<string, TabMeta>)
    requires keys <= tabs.Keys && k in keys
    ensures |keys - {k}| == |keys| - 1
    ensures into[k := tabs[k]] + (map x | x in keys - {k} :: tabs[x]) == into + (map x | x in keys :: tabs[x])
  {
  }

  /** Read into a catalogue that already holds `into`, a printed catalogue adds its tables to those. */
  lemma ReadsInto(db: DbMeta, into: map<string, TabMeta>)
    requires DbOk(db)
    ensures var p := ParseDb(DbText(db), into);
            p.Got? && p.value == DbMeta(db.name, into + db.tabs)
    ensures ParseDb(DbText(db), into).value == db <==> into.Keys <= db.tabs.Keys
  {
    hide ReadWord, ReadSize, NatText, IsWord, TabsText, ParseTabs, TabsOk, Ends;
    var n, rest := NatText(|db.tabs|), "\n" + TabsText(db.tabs, db.tabs.Keys);
    BreakSkipped(TabsText(db.tabs, db.tabs.Keys));
    BreakRead(n + rest);
    WordReadsBack(db.name, "\n" + (n + rest));
    SizeReadsBack(|db.tabs|, rest);
    TabsReadBack(db.tabs, db.tabs.Keys, into);
    AddAll(db.tabs, into);
  }

  lemma AddAll(tabs: map<string, TabMeta>, into: map<string, TabMeta>)
    ensures |tabs| == |tabs.Keys| && (map k | k in tabs.Keys :: tabs[k]) == tabs
    ensures into + tabs == tabs <==> into.Keys <= tabs.Keys
  {
    assert (into + tabs).Keys == into.Keys + tabs.Keys;
  }

  // ----- Nothing else can be read -----

  lemma WordRead(s: string)
    ensures ReadWord(s).Got? ==> IsWord(ReadWord(s).value)
  {
    WordPrefix(SkipSpace(s));
  }

  lemma WordPrefix(s: string)
    ensures forall i | 0 <= i < WordLength(s) :: !IsSpace(s[i])
  {
    if s != "" && !IsSpace(s[0]) {
      WordPrefix(s[1..]);
    }
  }

  lemma ColRead(s: string)
    ensures ParseCol(s).Got? ==> ColOk(ParseCol(s).value)
  {
    hide ReadNumber, IsWord, SkipSpace, WordLength;
    WordRead(s);
    if ReadWord(s).Got? {
      WordRead(ReadWord(s).rest);
    }
  }

  lemma {:induction false} ColsRead(s: string, n: int, before: seq<ColMeta>)
    requires forall c | c in before :: ColOk(c)
    ensures var p := ParseCols(s, n, before);
            p.Got? ==> |p.value| == |before| + (if n < 0 then 0 else n) && forall c | c in p.value :: ColOk(c)
    decreases n
  {
    hide ParseCol, ColOk;
    ColRead(s);
    if n > 0 && ParseCol(s).Got? {
      ColsRead(ParseCol(s).rest, n - 1, before + [ParseCol(s).value]);
    }
  }

  lemma IndexRead(s: string)
    ensures ParseIndex(s).Got? ==> IndexOk(ParseIndex(s).value)
  {
    hide ReadWord, ReadNumber, IsWord, ParseCols, ColOk;
    WordRead(s);
    if ParseIndex(s).Got? {
      var s2 := ReadInt(ReadWord(s).rest).rest;
      ColsRead(ReadInt(s2).rest, ReadInt(s2).value, []);
    }
  }

  lemma {:induction false} IndexesRead(s: string, n: int, before: seq<IndexMeta>)
    requires forall x | x in before :: IndexOk(x)
    ensures var p := ParseIndexes(s, n, before);
            p.Got? ==> |p.value| == |before| + (if n < 0 then 0 else n) && forall x | x in p.value :: IndexOk(x)
    decreases n
  {
    hide ParseIndex, IndexOk;
    IndexRead(s);
    if n > 0 && ParseIndex(s).Got? {
      IndexesRead(ParseIndex(s).rest, n - 1, before + [ParseIndex(s).value]);
    }
  }

  lemma TabRead(s: string)
    ensures ParseTab(s).Got? ==> TabOk(ParseTab(s).value)
  {
    hide ReadWord, ReadNumber, IsWord, ParseCols, ColOk, ParseIndexes, IndexOk;
    WordRead(s);
    if ParseTab(s).Got? {
      var n := ReadSize(ReadWord(s).rest);
      ColsRead(n.rest, n.value, []);
      var m := ReadSize(ParseCols(n.rest, n.value, []).rest);
      IndexesRead(m.rest, m.value, []);
    }
  }

  lemma {:induction false} TabsRead(s: string, n: int, into: map<string, TabMeta>)
    requires TabsOk(into)
    ensures var p := ParseTabs(s, n, into);
            p.Got? ==> TabsOk(p.value) && |p.value| <= |into| + (if n < 0 then 0 else n)
    decreases n
  {
    hide ParseTab, TabOk;
    TabRead(s);
    if n > 0 && ParseTab(s).Got? {
      var t := ParseTab(s).value;
      TabsRead(ParseTab(s).rest, n - 1, into[t.name := t]);
    }
  }

  lemma DbRead(s: string)
    ensures ParseDb(s, map[]).Got? ==> DbOk(ParseDb(s, map[]).value)
  {
    hide IsWord, TabOk, ReadWord, ReadNumber, ParseTabs;
    WordRead(s);
    if ParseDb(s, map[]).Got? {
      var n := ReadSize(ReadWord(s).rest);
      TabsRead(n.rest, n.value, map[]);
    }
  }

  /**
   Printing a catalogue and reading the text into an empty one gives it back exactly when every name is one word, every
   index counts its columns rightly (a negative count stands for none), sizes and integers fit their types, and every
   table is stored under its own name.
   */
  lemma ReadsBackIff(db: DbMeta)
    ensures var p := ParseDb(DbText(db), map[]);
            (p.Got? && p.value == db) <==> DbOk(db)
  {
    hide DbText, ParseDb, DbOk;
    DbRead(DbText(db));
    if DbOk(db) {
      ReadsInto(db, map[]);
    }
  }

  // ----- The format, on small catalogues -----

  /** A column is its table, name, type code, length, offset and index flag, in this order on one line. */
  lemma ColumnForm()
    ensures ColText(ColMeta("t", "a", TypeString, 4, 5, true)) == "t a 2 4 5 1"
    ensures TypeCode(TypeInt) == 0 && TypeCode(TypeFloat) == 1 && BoolText(false) == "0"
  {
  }

  lemma NumberForm(d: nat)
    requires d < 10
    ensures IntText(d) == NatText(d) == [('0' as int + d) as char]
    ensures IntText(-123) == "-123"
  {
    assert NatText(12) == NatText(1) + "2";
    assert NatText(123) == NatText(12) + "3";
  }

  /** An index has its columns on lines of their own behind its own line. */
  lemma IndexForm(name: string, len: int, a: ColMeta, b: ColMeta)
    ensures IndexText(IndexMeta(name, len, 2, [a, b])) == name + " " + IntText(len) + " 2\n" + ColText(a) + "\n" + ColText(b)
  {
    hide ColText, IntText;
    assert [a, b][1..] == [b] && [b][1..] == [];
    assert LinesBefore([b]) == "\n" + ColText(b);
    assert IntText(2) == "2" by { NumberForm(2); }
  }

  /** A table is its name, the number of its columns, these, the number of its indexes, and these. */
  lemma TableForm(name: string, a: ColMeta, b: ColMeta, x: IndexMeta)
    ensures TabText(TabMeta(name, [a, b], [x])) ==
            name + ("\n" + ("2" + ("\n" + (ColText(a) + "\n" + ColText(b) + "\n" + ("1" + ("\n" + (IndexText(x) + "\n")))))))
  {
    NumberForm(1);
    NumberForm(2);
    LinesForm(a, b);
    hide ColText, IndexText, NatText, LinesAfter;
    assert [x][1..] == [];
    assert IndexesText([x]) == IndexText(x) + "\n";
  }

  lemma LinesForm(a: ColMeta, b: ColMeta)
    ensures LinesAfter([a, b]) == ColText(a) + "\n" + ColText(b) + "\n"
  {
    hide ColText;
    assert [a, b][1..] == [b] && [b][1..] == [];
    assert LinesAfter([b]) == ColText(b) + "\n";
  }

  /** A catalogue is its name, the number of its tables, and the tables in the order of their names. */
  lemma CatalogueForm(name: string, s: TabMeta, t: TabMeta)
    ensures DbText(DbMeta(name, map["s" := s, "t" := t])) == name + ("\n" + ("2" + ("\n" + (TabText(s) + ("\n" + (TabText(t) + "\n"))))))
  {
    NumberForm(2);
    var tabs := map["s" := s, "t" := t];
    TablesInOrder(tabs);
    hide TabText, NatText, TabsText;
    assert tabs.Keys == {"s", "t"} && |{"s", "t"}| == 2;
  }

  lemma TablesInOrder(tabs: map<string, TabMeta>)
    requires tabs.Keys == {"s", "t"}
    ensures TabsText(tabs, {"s", "t"}) == TabText(tabs["s"]) + ("\n" + (TabText(tabs["t"]) + "\n"))
  {
    hide TabText;
    assert !Below("t", "s");
    assert Least({"s", "t"}) == "s" && {"s", "t"} - {"s"} == {"t"};
    assert Least({"t"}) == "t" && {"t"} - {"t"} == {};
    assert TabsText(tabs, {"t"}) == TabText(tabs["t"]) + "\n";
  }

  // ----- Catalogues that do not read back -----

  /** A name of two words is cut, and an index that counts more columns than it has swallows what follows. */
  lemma NotReadBack(db: DbMeta)
    requires db.name == "my db" || exists k, x :: k in db.tabs && x in db.tabs[k].indexes && |x.cols| < x.colNum
    ensures var p := ParseDb(DbText(db), map[]); !(p.Got? && p.value == db)
  {
    ReadsBackIff(db);
    assert "my db"[2] == ' ';
  }
}
