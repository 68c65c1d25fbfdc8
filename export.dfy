/**
 * Sheet names for the spreadsheet export.
 *
 * Each category's rows go to a sheet named after the category name, with
 * spaces turned into underscores and cut to the 31 characters a sheet name
 * may have.
 */
module Export {
  import opened Segmentation
  import opened Summary

  /** Longest sheet name the spreadsheet format accepts. */
  const MaxSheetName: nat := 31

  /** The name with every space replaced by an underscore. */
  function ReplaceSpaces(s: string): (r: string)
    ensures |r| == |s|
    ensures forall k :: 0 <= k < |s| ==> r[k] == if s[k] == ' ' then '_' else s[k]
    ensures ' ' !in r
  {
    if s == [] then []
    else ReplaceSpaces(s[..|s| - 1]) + [if s[|s| - 1] == ' ' then '_' else s[|s| - 1]]
  }

  /** The sheet name derived from a category name. */
  function SheetName(name: string): (r: string)
    ensures |r| == if |name| <= MaxSheetName then |name| else MaxSheetName
    ensures ' ' !in r
    ensures r == ReplaceSpaces(name)[..|r|]
    ensures forall k :: 0 <= k < |r| ==> r[k] == if name[k] == ' ' then '_' else name[k]
  {
    var t := ReplaceSpaces(name);
    if |t| <= MaxSheetName then t else t[..MaxSheetName]
  }

  /** Deriving the sheet name again from a sheet name changes nothing. */
  lemma SheetNameIdempotent(name: string)
    ensures SheetName(SheetName(name)) == SheetName(name)
  {
    var r := SheetName(name);
    var r' := SheetName(r);
    assert |r'| == |r|;
    forall k | 0 <= k < |r|
      ensures r'[k] == r[k]
    {
      assert r[k] != ' ';
    }
  }

  /** The sheet name of each category. */
  function CategorySheet(c: Category): string {
    match c
    case Under30 => "<30_min"
    case From30To60 => "30-60_min"
    case From60To120 => "60-120_min"
    case From120To180 => "120-180_min"
    case Over180 => ">180_min"
  }

  /** The sheet name of a label is the label with its space replaced. */
  lemma SheetOfCategory(c: Category)
    ensures SheetName(Label(c)) == CategorySheet(c)
  {
    var r := SheetName(Label(c));
    assert |r| == |CategorySheet(c)|;
    forall k | 0 <= k < |r|
      ensures r[k] == CategorySheet(c)[k]
    {
    }
  }

  /**
   * The sheet names of the five categories are pairwise different, and none
   * of them is the name of the sheet holding the whole event table.
   */
  lemma CategorySheetsDistinct(c1: Category, c2: Category)
    ensures c1 != c2 ==> SheetName(Label(c1)) != SheetName(Label(c2))
    ensures SheetName(Label(c1)) != "Eventos"
  {
    SheetOfCategory(c1);
    SheetOfCategory(c2);
  }

  // ---------------------------------------------------------------------
  // The workbook
  // ---------------------------------------------------------------------

  /** One sheet of the exported workbook. */
  datatype Sheet = Sheet(name: string, rows: seq<EventSummary>)

  /** Name of the sheet holding the whole event table. */
  const TableSheet: string := "Eventos"

  /** Code-point lexicographic order on strings, the order in which group keys are sorted. */
  predicate LexLess(a: string, b: string) {
    if a == [] then b != []
    else b != [] && (a[0] < b[0] || (a[0] == b[0] && LexLess(a[1..], b[1..])))
  }

  /** The categories in the sorted order of their labels. */
  const SheetOrder: seq<Category> := [From120To180, From30To60, From60To120, Under30, Over180]

  /** A list of categories none of which occurs twice. */
  predicate NoRepeats(cs: seq<Category>) {
    cs == [] || (cs[0] !in cs[1..] && NoRepeats(cs[1..]))
  }

  /** No category occurs twice in `SheetOrder`. */
  lemma SheetOrderNoRepeats()
    ensures NoRepeats(SheetOrder)
  {
  }

  /** `SheetOrder` is sorted by label, the order in which the groups come out. */
  lemma SheetOrderSorted()
    ensures forall i, j :: 0 <= i < j < |SheetOrder| ==> LexLess(Label(SheetOrder[i]), Label(SheetOrder[j]))
  {
  }

  /** Positions, in increasing order, of the table rows in category `c`. */
  function CategoryPositions(table: seq<EventSummary>, c: Category): (ps: seq<nat>)
    ensures |ps| == CountOf(table, c)
    ensures forall k :: 0 <= k < |ps| ==> ps[k] < |table| && table[ps[k]].category == c
    ensures StrictlyIncreasing(ps)
  {
    if table == [] then []
    else
      var ps := CategoryPositions(table[..|table| - 1], c);
      if table[|table| - 1].category == c then ps + [|table| - 1] else ps
  }

  /** A row's position is among the category's positions exactly when the row is in that category. */
  lemma {:induction false} CategoryPositionsMembers(table: seq<EventSummary>, c: Category, p: nat)
    ensures p in CategoryPositions(table, c) <==> p < |table| && table[p].category == c
  {
    if table != [] {
      var init, n := table[..|table| - 1], |table| - 1;
      CategoryPositionsMembers(init, c, p);
      var tail: seq<nat> := if table[n].category == c then [n] else [];
      assert CategoryPositions(table, c) == CategoryPositions(init, c) + tail;
      assert p in CategoryPositions(table, c) <==> p in CategoryPositions(init, c) || p in tail;
      if p < n {
        assert table[p] == init[p];
      }
    }
  }

  /** Rows read off the positions of `c` include every table row in `c`. */
  lemma PositionsCover(table: seq<EventSummary>, c: Category, rows: seq<EventSummary>)
    requires |rows| == |CategoryPositions(table, c)|
    requires forall k :: 0 <= k < |rows| ==> rows[k] == table[CategoryPositions(table, c)[k]]
    ensures forall r :: r in table && r.category == c ==> r in rows
  {
    var ps := CategoryPositions(table, c);
    forall r | r in table && r.category == c
      ensures r in rows
    {
      var p :| 0 <= p < |table| && table[p] == r;
      CategoryPositionsMembers(table, c, p);
      var k :| 0 <= k < |ps| && ps[k] == p;
      assert rows[k] == r;
    }
  }

  /**
   * The rows of the table in category `c`: the rows at the category's
   * positions, so every row of `c` once, in table order.
   */
  function CategoryRows(table: seq<EventSummary>, c: Category): (rows: seq<EventSummary>)
    ensures |rows| == CountOf(table, c) == |CategoryPositions(table, c)|
    ensures forall k :: 0 <= k < |rows| ==> rows[k] == table[CategoryPositions(table, c)[k]]
    ensures forall k :: 0 <= k < |rows| ==> rows[k].category == c
    ensures forall r :: r in rows <==> r in table && r.category == c
  {
    var ps := CategoryPositions(table, c);
    var rows := seq(|ps|, k requires 0 <= k < |ps| => table[ps[k]]);
    PositionsCover(table, c, rows);
    rows
  }

  /** The sheet for the rows of category `c`. */
  function SheetFor(table: seq<EventSummary>, c: Category): (s: Sheet)
    ensures ' ' !in s.name && |s.name| <= MaxSheetName
    ensures |s.rows| == CountOf(table, c)
    ensures forall r :: r in s.rows <==> r in table && r.category == c
  {
    Sheet(SheetName(Label(c)), CategoryRows(table, c))
  }

  /** One sheet per category of `cs` that has rows, in the order of `cs`. */
  function Groups(table: seq<EventSummary>, cs: seq<Category>): (gs: seq<Sheet>)
    ensures |gs| <= |cs|
    ensures forall k :: 0 <= k < |gs| ==> |gs[k].rows| > 0
  {
    if cs == [] then []
    else
      var rest := Groups(table, cs[1..]);
      if CountOf(table, cs[0]) > 0 then [SheetFor(table, cs[0])] + rest else rest
  }

  /** The exported workbook: the whole table, then one sheet per category present. */
  function Workbook(table: seq<EventSummary>): (w: seq<Sheet>)
    ensures 1 <= |w| <= 1 + |SheetOrder|
    ensures w[0].name == TableSheet && w[0].rows == table
    ensures forall k :: 1 <= k < |w| ==> |w[k].rows| > 0
  {
    [Sheet(TableSheet, table)] + Groups(table, SheetOrder)
  }

  /** A category has a sheet among the groups exactly when it is listed and some row is in it. */
  lemma {:induction false} GroupsHold(table: seq<EventSummary>, cs: seq<Category>, c: Category)
    ensures SheetFor(table, c) in Groups(table, cs) <==> c in cs && CountOf(table, c) > 0
  {
    if cs != [] {
      GroupsHold(table, cs[1..], c);
      var head := if CountOf(table, cs[0]) > 0 then [SheetFor(table, cs[0])] else [];
      assert Groups(table, cs) == head + Groups(table, cs[1..]);
      assert c in cs <==> c == cs[0] || c in cs[1..];
      if SheetFor(table, c) in head {
        assert SheetName(Label(c)) == SheetName(Label(cs[0]));
        CategorySheetsDistinct(c, cs[0]);
      }
    }
  }

  /** Every group sheet is the sheet of a listed category that has rows. */
  lemma {:induction false} GroupsFrom(table: seq<EventSummary>, cs: seq<Category>, g: Sheet)
    requires g in Groups(table, cs)
    ensures exists c :: c in cs && CountOf(table, c) > 0 && g == SheetFor(table, c)
  {
    var head := if CountOf(table, cs[0]) > 0 then [SheetFor(table, cs[0])] else [];
    assert Groups(table, cs) == head + Groups(table, cs[1..]);
    if g in head {
      assert cs[0] in cs;
    } else {
      GroupsFrom(table, cs[1..], g);
      var c :| c in cs[1..] && CountOf(table, c) > 0 && g == SheetFor(table, c);
      assert c in cs;
    }
  }

  /** No two sheets share a name. */
  predicate DistinctNames(w: seq<Sheet>) {
    forall i, j :: 0 <= i < j < |w| ==> w[i].name != w[j].name
  }

  /** Every sheet name fits the limit. */
  predicate NamesFit(w: seq<Sheet>) {
    forall k :: 0 <= k < |w| ==> |w[k].name| <= MaxSheetName
  }

  /** Putting a sheet with a new name in front keeps the names pairwise different. */
  lemma PrependName(first: Sheet, gs: seq<Sheet>)
    requires DistinctNames(gs)
    requires forall g :: g in gs ==> g.name != first.name
    ensures DistinctNames([first] + gs)
  {
    var w := [first] + gs;
    forall i, j | 0 <= i < j < |w|
      ensures w[i].name != w[j].name
    {
      assert w[j] == gs[j - 1];
      if i > 0 {
        assert w[i] == gs[i - 1];
      }
    }
  }

  /** Sheets made from categories listed without repetition have pairwise different names. */
  lemma {:induction false} GroupNamesDistinct(table: seq<EventSummary>, cs: seq<Category>)
    requires NoRepeats(cs)
    ensures DistinctNames(Groups(table, cs))
  {
    if cs != [] {
      var rest := Groups(table, cs[1..]);
      GroupNamesDistinct(table, cs[1..]);
      if CountOf(table, cs[0]) > 0 {
        var first := SheetFor(table, cs[0]);
        forall g | g in rest
          ensures g.name != first.name
        {
          GroupsFrom(table, cs[1..], g);
          var c :| c in cs[1..] && CountOf(table, c) > 0 && g == SheetFor(table, c);
          CategorySheetsDistinct(cs[0], c);
        }
        PrependName(first, rest);
      }
    }
  }

  /** The categories of group sheets, in order: each sheet's rows share one category. */
  function GroupKeys(gs: seq<Sheet>): (ks: seq<Category>)
    requires forall k :: 0 <= k < |gs| ==> |gs[k].rows| > 0
    ensures |ks| == |gs|
    ensures forall k :: 0 <= k < |gs| ==> ks[k] == gs[k].rows[0].category
  {
    seq(|gs|, k requires 0 <= k < |gs| => gs[k].rows[0].category)
  }

  /** The label of `x` sorts before the label of `y`. */
  ghost predicate LabelBefore(x: Category, y: Category) {
    LexLess(Label(x), Label(y))
  }

  /** `cs` is in strictly increasing order of its labels. */
  ghost predicate LabelSorted(cs: seq<Category>) {
    forall i, j :: 0 <= i < j < |cs| ==> LabelBefore(cs[i], cs[j])
  }

  /** Dropping the head of a label-sorted list leaves it sorted, and the head precedes the rest. */
  lemma SortedTail(cs: seq<Category>)
    requires cs != [] && LabelSorted(cs)
    ensures LabelSorted(cs[1..])
    ensures forall x :: x in cs[1..] ==> LabelBefore(cs[0], x) && x in cs
  {
    var tail := cs[1..];
    forall i, j | 0 <= i < j < |tail|
      ensures LabelBefore(tail[i], tail[j])
    {
      assert tail[i] == cs[i + 1] && tail[j] == cs[j + 1];
    }
    forall x | x in tail
      ensures LabelBefore(cs[0], x) && x in cs
    {
      var j :| 0 <= j < |tail| && tail[j] == x;
      assert cs[j + 1] == x;
    }
  }

  /** A category placed before a sorted list of later labels keeps it sorted. */
  lemma SortedCons(c: Category, ks: seq<Category>)
    requires LabelSorted(ks)
    requires forall x :: x in ks ==> LabelBefore(c, x)
    ensures LabelSorted([c] + ks)
  {
    var all := [c] + ks;
    forall i, j | 0 <= i < j < |all|
      ensures LabelBefore(all[i], all[j])
    {
      assert all[j] == ks[j - 1];
      if i > 0 {
        assert all[i] == ks[i - 1];
      }
    }
  }

  /** The categories of a sheet put in front of others. */
  lemma KeysCons(first: Sheet, rest: seq<Sheet>)
    requires |first.rows| > 0
    requires forall k :: 0 <= k < |rest| ==> |rest[k].rows| > 0
    ensures forall k :: 0 <= k < |[first] + rest| ==> |([first] + rest)[k].rows| > 0
    ensures GroupKeys([first] + rest) == [first.rows[0].category] + GroupKeys(rest)
  {
    var gs := [first] + rest;
    forall k | 0 <= k < |gs|
      ensures |gs[k].rows| > 0
    {
      if k > 0 {
        assert gs[k] == rest[k - 1];
      }
    }
    assert GroupKeys(gs) == [first.rows[0].category] + GroupKeys(rest);
  }

  /** The sheet of a category with rows holds rows of that category. */
  lemma SheetForCategory(table: seq<EventSummary>, c: Category)
    requires CountOf(table, c) > 0
    ensures SheetFor(table, c).rows[0].category == c
  {
    var s := SheetFor(table, c);
    assert s.rows[0] in s.rows;
  }

  /**
   * Group sheets come out in the order of `cs`: when `cs` is in increasing
   * label order, so are the categories of the group sheets.
   */
  lemma {:induction false} GroupsInOrder(table: seq<EventSummary>, cs: seq<Category>)
    requires LabelSorted(cs)
    ensures forall x :: x in GroupKeys(Groups(table, cs)) ==> x in cs
    ensures LabelSorted(GroupKeys(Groups(table, cs)))
  {
    if cs != [] {
      SortedTail(cs);
      GroupsInOrder(table, cs[1..]);
      var rest := Groups(table, cs[1..]);
      if CountOf(table, cs[0]) > 0 {
        var first := SheetFor(table, cs[0]);
        SheetForCategory(table, cs[0]);
        KeysCons(first, rest);
        SortedCons(cs[0], GroupKeys(rest));
        assert Groups(table, cs) == [first] + rest;
      } else {
        assert Groups(table, cs) == rest;
      }
    }
  }

  /** The group sheets of the workbook come in the sorted order of their category labels. */
  lemma WorkbookInKeyOrder(table: seq<EventSummary>)
    ensures LabelSorted(GroupKeys(Workbook(table)[1..]))
  {
    SheetOrderSorted();
    GroupsInOrder(table, SheetOrder);
    assert Workbook(table)[1..] == Groups(table, SheetOrder);
  }

  /**
   * After the whole table, each category with rows, and only those, gets a
   * sheet holding exactly its rows.
   */
  lemma WorkbookSheets(table: seq<EventSummary>)
    ensures Workbook(table)[0] == Sheet(TableSheet, table)
    ensures forall c :: SheetFor(table, c) in Workbook(table)[1..] <==> c in CategoryCounts(table)
    ensures forall g :: g in Workbook(table)[1..] ==> exists c :: c in CategoryCounts(table) && g == SheetFor(table, c)
  {
    var gs := Groups(table, SheetOrder);
    assert Workbook(table)[1..] == gs;
    forall c
      ensures SheetFor(table, c) in gs <==> c in CategoryCounts(table)
    {
      GroupsHold(table, SheetOrder, c);
    }
    forall g | g in gs
      ensures exists c :: c in CategoryCounts(table) && g == SheetFor(table, c)
    {
      GroupsFrom(table, SheetOrder, g);
    }
  }

  /** A category sheet is never named like the table sheet and fits the name limit. */
  lemma GroupNameFits(table: seq<EventSummary>, cs: seq<Category>, g: Sheet)
    requires g in Groups(table, cs)
    ensures g.name != TableSheet && |g.name| <= MaxSheetName
  {
    GroupsFrom(table, cs, g);
    var c :| c in cs && CountOf(table, c) > 0 && g == SheetFor(table, c);
    CategorySheetsDistinct(c, c);
  }

  /**
   * The table sheet followed by the sheets of categories listed without
   * repetition: names pairwise different.
   */
  lemma GroupedNamesDistinct(table: seq<EventSummary>, cs: seq<Category>)
    requires NoRepeats(cs)
    ensures DistinctNames([Sheet(TableSheet, table)] + Groups(table, cs))
  {
    var gs := Groups(table, cs);
    GroupNamesDistinct(table, cs);
    forall g | g in gs
      ensures g.name != TableSheet
    {
      GroupNameFits(table, cs, g);
    }
    PrependName(Sheet(TableSheet, table), gs);
  }

  /** The table sheet followed by category sheets: every name at most 31 characters long. */
  lemma GroupedNamesFit(table: seq<EventSummary>, cs: seq<Category>)
    ensures NamesFit([Sheet(TableSheet, table)] + Groups(table, cs))
  {
    var gs := Groups(table, cs);
    var w := [Sheet(TableSheet, table)] + gs;
    forall k | 1 <= k < |w|
      ensures |w[k].name| <= MaxSheetName
    {
      assert w[k] == gs[k - 1];
      GroupNameFits(table, cs, gs[k - 1]);
    }
  }

  /** Sheet names in the workbook are pairwise different and at most 31 characters long. */
  lemma WorkbookNames(table: seq<EventSummary>)
    ensures DistinctNames(Workbook(table))
    ensures NamesFit(Workbook(table))
  {
    SheetOrderNoRepeats();
    GroupedNamesDistinct(table, SheetOrder);
    GroupedNamesFit(table, SheetOrder);
  }
}
