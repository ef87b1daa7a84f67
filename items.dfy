/** The crate root (src/lib.rs): the `Item` a dump is organised by, its derived
    ordering, the choice of what to dump (`get_dump_range`) and the list of
    suggestions printed when the choice cannot be made (`suggest_name`). */
module Items {
  import opened Strings
  import SortedMap

  /** One function-like unit of a dump. `len` is the number of lines it spans. */
  datatype Item = Item(name: string, hashed: string, index: nat, len: nat)

  /** `Range<usize>`: the half-open interval `start..end`. */
  datatype Range = Range(start: nat, end: nat)

  /** `Ord for String`: lexicographic. Comparing scalar values orders strings
      exactly as comparing their UTF-8 bytes does. */
  predicate StrLess(a: string, b: string) {
    if a == [] then b != []
    else b != [] && (a[0] < b[0] || (a[0] == b[0] && StrLess(a[1..], b[1..])))
  }

  /** The derived `Ord for Item`: by `name`, then `hashed`, then `index`, then `len`. */
  predicate ItemLess(a: Item, b: Item) {
    StrLess(a.name, b.name) ||
    (a.name == b.name &&
      (StrLess(a.hashed, b.hashed) ||
        (a.hashed == b.hashed &&
          (a.index < b.index || (a.index == b.index && a.len < b.len)))))
  }

  lemma {:induction false} StrLessIrreflexive(a: string)
    ensures !StrLess(a, a)
  {
    if a != [] { StrLessIrreflexive(a[1..]); }
  }

  lemma {:induction false} StrLessTransitive(a: string, b: string, c: string)
    requires StrLess(a, b) && StrLess(b, c)
    ensures StrLess(a, c)
  {
    if a != [] && a[0] == b[0] && b[0] == c[0] {
      StrLessTransitive(a[1..], b[1..], c[1..]);
    }
  }

  lemma {:induction false} StrLessTotal(a: string, b: string)
    requires a != b
    ensures StrLess(a, b) || StrLess(b, a)
  {
    if a != [] && b != [] && a[0] == b[0] {
      assert a == [a[0]] + a[1..] && b == [b[0]] + b[1..];
      StrLessTotal(a[1..], b[1..]);
    }
  }

  /** String order is a strict total order, so a `BTreeMap` keyed by strings
      enumerates each key once, in this order. */
  lemma StrLessIsStrictTotalOrder()
    ensures SortedMap.StrictTotalOrder(StrLess)
  {
    forall a ensures !StrLess(a, a) { StrLessIrreflexive(a); }
    forall a, b, c | StrLess(a, b) && StrLess(b, c) ensures StrLess(a, c) {
      StrLessTransitive(a, b, c);
    }
    forall a, b | a != b ensures StrLess(a, b) || StrLess(b, a) { StrLessTotal(a, b); }
  }

  /** The derived item order is a strict total order: it is the enumeration
      order shown to the user, written to the finder and used by the server. */
  lemma ItemLessIsStrictTotalOrder()
    ensures SortedMap.StrictTotalOrder(ItemLess)
  {
    StrLessIsStrictTotalOrder();
    forall a, b, c | ItemLess(a, b) && ItemLess(b, c) ensures ItemLess(a, c) {
      if StrLess(a.name, b.name) && StrLess(b.name, c.name) {
        StrLessTransitive(a.name, b.name, c.name);
      } else if a.name == b.name && b.name == c.name &&
                StrLess(a.hashed, b.hashed) && StrLess(b.hashed, c.hashed) {
        StrLessTransitive(a.hashed, b.hashed, c.hashed);
      }
    }
    forall a: Item ensures !ItemLess(a, a) {
      StrLessIrreflexive(a.name);
      StrLessIrreflexive(a.hashed);
    }
    forall a: Item, b: Item | a != b ensures ItemLess(a, b) || ItemLess(b, a) {
      if a.name != b.name { StrLessTotal(a.name, b.name); }
      else if a.hashed != b.hashed { StrLessTotal(a.hashed, b.hashed); }
    }
  }

  /** `BTreeMap<Item, Range<usize>>`, in key order. */
  type ItemMap = seq<(Item, Range)>

  predicate IsItemMap(m: ItemMap) {
    SortedMap.Sorted(m, ItemLess)
  }

  /** What the user asked to dump (`ToDump`). */
  datatype Goal =
    | Everything
    | ByIndex(value: nat)
    | Function(pattern: string, nth: Option<nat>)
    | Interactive
    | Unspecified

  /** One printed suggestion: the sequence number of the group's first item,
      the group's name and the lengths of its items. */
  datatype SuggestRow = SuggestRow(ix: nat, key: string, lens: seq<nat>)

  /** Everything `suggest_name` prints before exiting with status 1. */
  datatype Suggestion = Suggestion(header: seq<string>, rows: seq<SuggestRow>)

  /** The outcome of `get_dump_range`. Every outcome but `Selected` and
      `WholeFile` ends the run with exit status 1 after printing its message. */
  datatype Selection =
    | Selected(range: Range)
    | WholeFile
    | IndexTooLarge(value: nat, actual: nat)
    | NthTooLarge(value: nat, matching: nat)
    | NoMatches(pattern: string)
    | Suggest(suggestion: Suggestion)

  function SelectionMessage(s: Selection): seq<string> {
    match s
    case Selected(_) => []
    case WholeFile => []
    case IndexTooLarge(value, actual) =>
      ["You asked to display item #" + NatToString(value) + " (zero based), but there's only "
       + NatToString(actual) + " items"]
    case NthTooLarge(value, matching) =>
      ["You asked to display item #" + NatToString(value) + " (zero based), but there's only "
       + NatToString(matching) + " matching items"]
    case NoMatches(pattern) => ["Can't find any items matching " + DebugStr(pattern)]
    case Suggest(sg) => sg.header
  }

  /** The grouping key of `suggest_name`. */
  function GroupKey(item: Item, full: bool): string {
    if full then item.hashed else item.name
  }

  /** The `BTreeMap<&String, Vec<usize>>` that `suggest_name` folds its items
      into: for each key, the `len`s of the items with that key. */
  function Groups(items: seq<Item>, full: bool): seq<(string, seq<nat>)> {
    if items == [] then []
    else
      var g := Groups(items[..|items| - 1], full);
      var it := items[|items| - 1];
      var k := GroupKey(it, full);
      SortedMap.Insert(g, k, SortedMap.Lookup(g, k).GetOr([]) + [it.len], StrLess)
  }

  /** The printed rows: each group's sequence number is `ix` plus the number
      of items in the groups printed before it. */
  function Rows(groups: seq<(string, seq<nat>)>, ix: nat): seq<SuggestRow> {
    if groups == [] then []
    else [SuggestRow(ix, groups[0].0, groups[0].1)] + Rows(groups[1..], ix + |groups[0].1|)
  }

  function SuggestHeader(search: string, noGroups: bool): seq<string> {
    if noGroups then
      [if search == [] then "This target defines no functions (or cargo-show-asm can't find them)"
       else "No matching functions, try relaxing your search request",
       "You can pass --everything to see the demangled contents of a file"]
    else ["Try one of those by name or a sequence number"]
  }

  /** What `suggest_name` prints. */
  function Suggestions(search: string, full: bool, items: seq<Item>): Suggestion {
    var groups := Groups(items, full);
    Suggestion(SuggestHeader(search, groups == []), Rows(groups, 0))
  }

  function SumLens(groups: seq<(string, seq<nat>)>): nat {
    if groups == [] then 0 else |groups[0].1| + SumLens(groups[1..])
  }

  /** `suggest_name`: folds the items into groups, then prints one row per
      group in key order with a running sequence number. */
  method SuggestName(search: string, full: bool, items: seq<Item>) returns (s: Suggestion)
    ensures s == Suggestions(search, full, items)
  {
    var names := GroupItems(items, full);
    var header := SuggestHeader(search, names == []);
    var rows := NumberRows(names);
    s := Suggestion(header, rows);
  }

  /** The grouping loop of `suggest_name`. */
  method GroupItems(items: seq<Item>, full: bool) returns (names: seq<(string, seq<nat>)>)
    ensures names == Groups(items, full)
  {
    names := [];
    var i := 0;
    while i < |items|
      invariant i <= |items|
      invariant names == Groups(items[..i], full)
    {
      assert items[..i + 1][..i] == items[..i];
      var key := if full then items[i].hashed else items[i].name;
      var lens := SortedMap.Lookup(names, key).GetOr([]);
      names := SortedMap.Insert(names, key, lens + [items[i].len], StrLess);
      i := i + 1;
    }
    assert items[..i] == items;
  }

  /** The printing loop of `suggest_name`, with its running sequence number. */
  method NumberRows(names: seq<(string, seq<nat>)>) returns (rows: seq<SuggestRow>)
    ensures rows == Rows(names, 0)
  {
    rows := [];
    var ix: nat := 0;
    var j := 0;
    while j < |names|
      invariant j <= |names|
      invariant rows + Rows(names[j..], ix) == Rows(names, 0)
    {
      var row := SuggestRow(ix, names[j].0, names[j].1);
      var rest := Rows(names[j + 1..], ix + |names[j].1|);
      assert names[j..][1..] == names[j + 1..];
      assert Rows(names[j..], ix) == [row] + rest;
      assert (rows + [row]) + rest == rows + ([row] + rest);
      rows := rows + [row];
      ix := ix + |names[j].1|;
      j := j + 1;
    }
  }

  /** Row `i` shows group `i`, numbered by the count of items in the groups before it. */
  lemma {:induction false} RowsIndex(groups: seq<(string, seq<nat>)>, ix: nat, i: nat)
    requires i < |groups|
    ensures |Rows(groups, ix)| == |groups|
    ensures Rows(groups, ix)[i] == SuggestRow(ix + SumLens(groups[..i]), groups[i].0, groups[i].1)
  {
    RowsLength(groups, ix);
    if i > 0 {
      RowsIndex(groups[1..], ix + |groups[0].1|, i - 1);
      assert groups[..i] == [groups[0]] + groups[1..][..i - 1];
    } else {
      assert groups[..0] == [];
    }
  }

  lemma {:induction false} RowsLength(groups: seq<(string, seq<nat>)>, ix: nat)
    ensures |Rows(groups, ix)| == |groups|
  {
    if groups != [] { RowsLength(groups[1..], ix + |groups[0].1|); }
  }

  /** Inserting `v` under `k` changes the item total by the difference of lengths. */
  lemma {:induction false} SumLensInsert(m: seq<(string, seq<nat>)>, k: string, v: seq<nat>)
    requires SortedMap.StrictTotalOrder(StrLess) && SortedMap.Sorted(m, StrLess)
    ensures SumLens(SortedMap.Insert(m, k, v, StrLess))
            == SumLens(m) - |SortedMap.Lookup(m, k).GetOr([])| + |v|
    ensures |SortedMap.Lookup(m, k).GetOr([])| <= SumLens(m)
  {
    if m == [] {
    } else if m[0].0 == k {
      assert SortedMap.Insert(m, k, v, StrLess)[1..] == m[1..];
    } else if StrLess(k, m[0].0) {
      SortedMap.InsertSpec(m, k, v, StrLess);
      assert k !in SortedMap.Keys(m);
      assert SortedMap.Insert(m, k, v, StrLess)[1..] == m;
    } else {
      var t := m[1..];
      SortedMap.SortedTail(m, StrLess);
      SumLensInsert(t, k, v);
      assert SortedMap.Insert(m, k, v, StrLess)[1..] == SortedMap.Insert(t, k, v, StrLess);
    }
  }

  /** Groups come out strictly in key order. */
  lemma {:induction false} GroupsSorted(items: seq<Item>, full: bool)
    ensures SortedMap.Sorted(Groups(items, full), StrLess)
  {
    if items != [] {
      StrLessIsStrictTotalOrder();
      var g := Groups(items[..|items| - 1], full);
      var k := GroupKey(items[|items| - 1], full);
      GroupsSorted(items[..|items| - 1], full);
      SortedMap.InsertSpec(g, k, SortedMap.Lookup(g, k).GetOr([]) + [items[|items| - 1].len], StrLess);
    }
  }

  /** Every item lands in exactly one group: the groups hold as many lengths as there are items. */
  lemma {:induction false} GroupsCount(items: seq<Item>, full: bool)
    ensures SumLens(Groups(items, full)) == |items|
  {
    if items != [] {
      StrLessIsStrictTotalOrder();
      var g := Groups(items[..|items| - 1], full);
      var k := GroupKey(items[|items| - 1], full);
      GroupsCount(items[..|items| - 1], full);
      GroupsSorted(items[..|items| - 1], full);
      SumLensInsert(g, k, SortedMap.Lookup(g, k).GetOr([]) + [items[|items| - 1].len]);
    }
  }

  /** The lengths of the items whose key is `k`, in iteration order. */
  function LensOf(items: seq<Item>, k: string, full: bool): seq<nat> {
    if items == [] then []
    else LensOf(items[..|items| - 1], k, full)
         + (if GroupKey(items[|items| - 1], full) == k then [items[|items| - 1].len] else [])
  }

  /** The group of key `k` holds exactly the lengths of the items with key `k`,
      in iteration order, and there is a group for every key some item has. */
  lemma {:induction false} GroupsContents(items: seq<Item>, full: bool, k: string)
    ensures SortedMap.Lookup(Groups(items, full), k)
            == if LensOf(items, k, full) == [] then None else Some(LensOf(items, k, full))
  {
    if items != [] {
      var init := items[..|items| - 1];
      var last := items[|items| - 1];
      var g := Groups(init, full);
      var key := GroupKey(last, full);
      var v := SortedMap.Lookup(g, key).GetOr([]) + [last.len];
      assert Groups(items, full) == SortedMap.Insert(g, key, v, StrLess);
      assert LensOf(items, k, full) == LensOf(init, k, full) + (if key == k then [last.len] else []);
      GroupsContents(init, full, k);
      GroupsSorted(init, full);
      StrLessIsStrictTotalOrder();
      SortedMap.InsertSpec(g, key, v, StrLess);
      if key == k {
        assert SortedMap.Lookup(g, k).GetOr([]) == LensOf(init, k, full);
        assert LensOf(items, k, full) == v;
      } else {
        assert LensOf(items, k, full) == LensOf(init, k, full);
      }
    }
  }

  /** Every printed row is numbered by the count of items in the groups before it,
      and the rows account for every item once. */
  lemma SuggestionRows(search: string, full: bool, items: seq<Item>, i: nat)
    requires i < |Groups(items, full)|
    ensures |Suggestions(search, full, items).rows| == |Groups(items, full)|
    ensures Suggestions(search, full, items).rows[i].ix == SumLens(Groups(items, full)[..i])
    ensures SumLens(Groups(items, full)) == |items|
  {
    RowsIndex(Groups(items, full), 0, i);
    GroupsCount(items, full);
  }

  /** The entries whose item name contains `pattern`, in key order. */
  function Matching(items: ItemMap, pattern: string): (r: ItemMap)
    ensures |r| <= |items|
  {
    SortedMap.Filter(items, (e: (Item, Range)) => Contains(e.0.name, pattern))
  }

  /** `Matching` keeps exactly the entries whose name contains the pattern, in key order. */
  lemma MatchingSpec(items: ItemMap, pattern: string)
    ensures forall e :: e in Matching(items, pattern) <==> e in items && Contains(e.0.name, pattern)
    ensures IsItemMap(items) ==> IsItemMap(Matching(items, pattern))
  {
    var p := (e: (Item, Range)) => Contains(e.0.name, pattern);
    SortedMap.FilterMembers(items, p);
    if IsItemMap(items) { SortedMap.FilterSorted(items, p, ItemLess); }
  }

  /** `get_dump_range`. `Interactive` is handled by the callers before this
      is reached; the function panics on it when there is not exactly one item. */
  function GetDumpRange(goal: Goal, fullName: bool, items: ItemMap): (r: Selection)
    requires |items| == 1 || !goal.Interactive?
    ensures r.Selected? ==> exists i :: 0 <= i < |items| && items[i].1 == r.range
    ensures r.Selected? && goal.Function? && |items| != 1 ==>
      exists i :: 0 <= i < |items| && items[i].1 == r.range && Contains(items[i].0.name, goal.pattern)
    ensures r.WholeFile? <==> goal.Everything? && |items| != 1
    ensures r.Suggest? ==> |items| != 1 && (goal.Unspecified? || (goal.Function? && goal.nth.None?))
  {
    if |items| == 1 then Selected(items[0].1)
    else
      match goal
      case Everything => WholeFile
      case ByIndex(value) =>
        if value < |items| then Selected(items[value].1) else IndexTooLarge(value, |items|)
      case Function(pattern, nth) =>
        var filtered := Matching(items, pattern);
        MatchingSpec(items, pattern);
        if nth.None? && |filtered| == 1 then
          assert filtered[0] in items;
          Selected(filtered[0].1)
        else if nth.Some? && nth.value < |filtered| then
          assert filtered[nth.value] in items;
          Selected(filtered[nth.value].1)
        else if nth.Some? then NthTooLarge(nth.value, |filtered|)
        else if filtered == [] then NoMatches(pattern)
        else Suggest(Suggestions(pattern, fullName, Keys(filtered)))
      case Unspecified => Suggest(Suggestions([], fullName, Keys(items)))
  }

  /** The keys of a map, in key order (`into_keys().collect()`). */
  function Keys(m: ItemMap): (r: seq<Item>)
    ensures |r| == |m| && forall i :: 0 <= i < |m| ==> r[i] == m[i].0
  {
    seq(|m|, i requires 0 <= i < |m| => m[i].0)
  }

  /** With exactly one item there is never anything to ask: whatever the goal,
      that item's range is dumped. */
  lemma SingleItemSelected(goal: Goal, fullName: bool, items: ItemMap)
    requires |items| == 1
    ensures GetDumpRange(goal, fullName, items) == Selected(items[0].1)
  {
  }

  /** Selection by index picks the `value`-th range in key order, or fails
      naming how many items there are. */
  lemma ByIndexSelection(value: nat, fullName: bool, items: ItemMap)
    requires |items| != 1
    ensures value < |items| ==> GetDumpRange(ByIndex(value), fullName, items) == Selected(items[value].1)
    ensures value >= |items| ==> GetDumpRange(ByIndex(value), fullName, items) == IndexTooLarge(value, |items|)
  {
  }

  /** Selection by name: a single match is taken without `nth`; with `nth`
      the `nth` match in key order is taken when there is one; otherwise the
      run ends with a message or with suggestions drawn from the matches only. */
  lemma FunctionSelection(pattern: string, nth: Option<nat>, fullName: bool, items: ItemMap)
    requires |items| != 1
    ensures var filtered := Matching(items, pattern);
      var r := GetDumpRange(Function(pattern, nth), fullName, items);
      && (nth.None? && |filtered| == 1 ==> r == Selected(filtered[0].1))
      && (nth.Some? && nth.value < |filtered| ==> r == Selected(filtered[nth.value].1))
      && (nth.Some? && nth.value >= |filtered| ==> r == NthTooLarge(nth.value, |filtered|))
      && (nth.None? && filtered == [] ==> r == NoMatches(pattern))
      && (nth.None? && |filtered| > 1 ==> r == Suggest(Suggestions(pattern, fullName, Keys(filtered))))
  {
  }

  /** Without a goal the run always ends with the suggestion list of all items. */
  lemma UnspecifiedSuggests(fullName: bool, items: ItemMap)
    requires |items| != 1
    ensures GetDumpRange(Unspecified, fullName, items) == Suggest(Suggestions([], fullName, Keys(items)))
  {
  }
}
