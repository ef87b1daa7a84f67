/** The MIR dump (src/mir.rs): a text listing where a function starts at an
    unindented header line, possibly preceded by a block of `//` comments,
    and ends at a line holding only `}`. */
module Mir {
  import opened Strings
  import opened Items
  import SortedMap

  // ---------------------------------------------------------------------
  // Item names

  /** The suffixes stripped from a header line, in the order they are tried. */
  const SUFFIXES: seq<string> := [" {", " =", " -> ()"]

  predicate HasSuffix(s: string) {
    exists i :: 0 <= i < |SUFFIXES| && EndsWith(s, SUFFIXES[i])
  }

  /** The first of `SUFFIXES[k..]` that `s` ends with: the inner `for` loop. */
  function FirstSuffix(s: string, k: nat): (r: Option<nat>)
    requires k <= |SUFFIXES|
    ensures r.Some? ==>
      k <= r.value < |SUFFIXES| && EndsWith(s, SUFFIXES[r.value]) && |SUFFIXES[r.value]| >= 2 &&
      forall j :: k <= j < r.value ==> !EndsWith(s, SUFFIXES[j])
    ensures r.None? ==> forall j :: k <= j < |SUFFIXES| ==> !EndsWith(s, SUFFIXES[j])
    decreases |SUFFIXES| - k
  {
    if k == |SUFFIXES| then None
    else if EndsWith(s, SUFFIXES[k]) then Some(k)
    else FirstSuffix(s, k + 1)
  }

  /** The item name of a header line: the first applicable suffix is stripped,
      again and again, until none applies. */
  function StripName(s: string): string
    decreases |s|
  {
    match FirstSuffix(s, 0)
    case None => s
    case Some(i) => StripName(s[..|s| - |SUFFIXES[i]|])
  }

  /** The name is a prefix of the line and ends with none of the suffixes. */
  lemma {:induction false} StripNameSpec(s: string)
    ensures StartsWith(s, StripName(s))
    ensures !HasSuffix(StripName(s))
    decreases |s|
  {
    match FirstSuffix(s, 0)
    case None =>
    case Some(i) =>
      var t := s[..|s| - |SUFFIXES[i]|];
      assert s == t + SUFFIXES[i];
      StripFirst(s, t, i);
      StripNameSpec(t);
      var n := StripName(t);
      assert s[..|n|] == n by {
        assert s[..|n|] == t[..|n|];
      }
  }

  /** A name that ends with none of the suffixes is its own name. */
  lemma StripNameFixed(s: string)
    requires !HasSuffix(s)
    ensures StripName(s) == s
  {
    assert FirstSuffix(s, 0).None?;
  }

  /** Stripping the first applicable suffix keeps the name. */
  lemma StripFirst(s: string, t: string, i: nat)
    requires i < |SUFFIXES| && EndsWith(s, SUFFIXES[i]) && s == t + SUFFIXES[i]
    requires forall j :: 0 <= j < i ==> !EndsWith(s, SUFFIXES[j])
    ensures StripName(s) == StripName(t)
  {
    FirstSuffixIs(s, 0, i);
    assert t == s[..|s| - |SUFFIXES[i]|];
  }

  lemma {:induction false} FirstSuffixIs(s: string, k: nat, i: nat)
    requires k <= i < |SUFFIXES| && EndsWith(s, SUFFIXES[i])
    requires forall j :: k <= j < i ==> !EndsWith(s, SUFFIXES[j])
    ensures FirstSuffix(s, k) == Some(i)
    decreases i - k
  {
    if k < i {
      FirstSuffixIs(s, k + 1, i);
    }
  }

  /** The labelled `'outer` loop of `find_items` that rewrites `name`. */
  method StripSuffixes(line: string) returns (name: string)
    ensures name == StripName(line)
  {
    name := line;
    label outer: while true
      invariant StripName(name) == StripName(line)
      decreases |name|
    {
      for i := 0 to |SUFFIXES|
        invariant forall j :: 0 <= j < i ==> !EndsWith(name, SUFFIXES[j])
      {
        var rest := StripSuffix(name, SUFFIXES[i]);
        if rest.Some? {
          StripFirst(name, rest.value, i);
          name := rest.value;
          continue outer;
        }
      }
      StripNameFixed(name);
      break;
    }
  }

  // ---------------------------------------------------------------------
  // The scan

  /** A line that may open an item: non-empty, not indented, and neither a
      comment nor a closing brace. */
  predicate IsHeader(line: string) {
    line != [] && !StartsWith(line, " ") && !StartsWith(line, "//") && line != "}"
  }

  /** The scan's state; `closed` logs the recorded entries in scan order. */
  datatype MirState = MirState(
    item: Option<Item>,
    blockStart: Option<nat>,
    res: ItemMap,
    closed: seq<(Item, Range)>)

  const MirInitial: MirState := MirState(None, None, [], [])

  /** One iteration, on line `ix`; an open item's `len` holds its start. */
  function MirStep(lines: seq<string>, st: MirState, ix: nat): (r: MirState)
    requires ix < |lines|
    requires st.item.Some? ==> st.item.value.len <= ix
    requires st.blockStart.Some? ==> st.blockStart.value <= ix
    ensures r.item.Some? ==> r.item.value.len <= ix
    ensures r.blockStart.Some? ==> r.blockStart.value <= ix
  {
    var line := lines[ix];
    if StartsWith(line, "//") then
      if st.blockStart.None? then st.(blockStart := Some(ix)) else st
    else if line == "}" then
      if st.item.Some? then
        var range := Range(st.item.value.len, ix + 1);
        var it := st.item.value.(len := ix + 1 - st.item.value.len);
        st.(item := None, res := SortedMap.Insert(st.res, it, range, ItemLess),
            closed := st.closed + [(it, range)])
      else st
    else if !(StartsWith(line, " ") || line == []) && st.item.None? then
      var start := st.blockStart.GetOr(ix);
      var name := StripName(line);
      st.(blockStart := None, item := Some(Item(name, name, |st.res|, start)))
    else st
  }

  function MirScan(lines: seq<string>, k: nat): (st: MirState)
    requires k <= |lines|
    ensures st.item.Some? ==> st.item.value.len < k
    ensures st.blockStart.Some? ==> st.blockStart.value < k
  {
    if k == 0 then MirInitial else MirStep(lines, MirScan(lines, k - 1), k - 1)
  }

  /** `find_items` of src/mir.rs */
  method MirFindItems(lines: seq<string>) returns (res: ItemMap)
    ensures res == MirScan(lines, |lines|).res
  {
    res := [];
    var currentItem: Option<Item> := None;
    var blockStart: Option<nat> := None;
    ghost var closed: seq<(Item, Range)> := [];
    for ix := 0 to |lines|
      invariant MirScan(lines, ix) == MirState(currentItem, blockStart, res, closed)
    {
      ghost var st := MirScan(lines, ix);
      assert MirScan(lines, ix + 1) == MirStep(lines, st, ix);
      var line := lines[ix];
      if StartsWith(line, "//") {
        if blockStart.None? {
          blockStart := Some(ix);
        }
        assert MirStep(lines, st, ix) == MirState(currentItem, blockStart, res, closed);
      } else if line == "}" {
        if currentItem.Some? {
          var cur := currentItem.value;
          var range := Range(cur.len, ix + 1);
          cur := cur.(len := range.end - range.start);
          res := SortedMap.Insert(res, cur, range, ItemLess);
          closed := closed + [(cur, range)];
          currentItem := None;
        }
        assert MirStep(lines, st, ix) == MirState(currentItem, blockStart, res, closed);
      } else if !(StartsWith(line, " ") || line == []) && currentItem.None? {
        var start := blockStart.GetOr(ix);
        blockStart := None;
        var name := StripSuffixes(line);
        currentItem := Some(Item(name, name, |res|, start));
        assert MirStep(lines, st, ix) == MirState(currentItem, blockStart, res, closed);
      }
    }
  }

  // ---------------------------------------------------------------------
  // The invariant of the scan

  /** A recorded entry: a range of at least two lines inside the first `k`
      lines, starting at a comment or header line and ending at a `}` line,
      with `len` its length and a name that ends with no suffix. */
  ghost predicate EntryOk(lines: seq<string>, e: (Item, Range), k: nat)
    requires k <= |lines|
  {
    e.1.start < e.1.end <= k && e.0.len == e.1.end - e.1.start &&
    (StartsWith(lines[e.1.start], "//") || IsHeader(lines[e.1.start])) &&
    lines[e.1.end - 1] == "}" && !HasSuffix(e.0.name) && e.0.hashed == e.0.name
  }

  ghost predicate MirInv(lines: seq<string>, st: MirState, k: nat)
    requires k <= |lines|
  {
    (st.blockStart.Some? ==> st.blockStart.value < k && StartsWith(lines[st.blockStart.value], "//")) &&
    (st.item.Some? ==>
      var s := st.item.value.len;
      s < k && (StartsWith(lines[s], "//") || IsHeader(lines[s])) &&
      st.item.value.index == |st.closed| && !HasSuffix(st.item.value.name) &&
      st.item.value.hashed == st.item.value.name) &&
    (forall i :: 0 <= i < |st.closed| ==> EntryOk(lines, st.closed[i], k)) &&
    (forall i :: 0 <= i < |st.closed| ==> st.closed[i].0.index == i) &&
    (forall i, j :: 0 <= i < j < |st.closed| ==> st.closed[i].1.end < st.closed[j].1.end) &&
    IsItemMap(st.res) && |st.res| == |st.closed| &&
    (forall e :: e in st.res <==> e in st.closed)
  }

  lemma MirClosePreserves(lines: seq<string>, st: MirState, ix: nat)
    requires ix < |lines| && lines[ix] == "}" && MirInv(lines, st, ix) && st.item.Some?
    ensures MirInv(lines, MirStep(lines, st, ix), ix + 1)
  {
    var r := MirStep(lines, st, ix);
    var it := st.item.value.(len := ix + 1 - st.item.value.len);
    var range := Range(st.item.value.len, ix + 1);
    assert r.closed == st.closed + [(it, range)];
    assert r.res == SortedMap.Insert(st.res, it, range, ItemLess);
    MirInsertFresh(st.res, st.closed, it, range);
    forall i | 0 <= i < |r.closed| ensures EntryOk(lines, r.closed[i], ix + 1) {
      if i < |st.closed| { assert r.closed[i] == st.closed[i]; }
    }
  }

  /** Recording an item whose index no recorded item has keeps the map and
      the log in step. */
  lemma MirInsertFresh(res: ItemMap, closed: seq<(Item, Range)>, it: Item, range: Range)
    requires IsItemMap(res) && |res| == |closed| && (forall e :: e in res <==> e in closed)
    requires forall i :: 0 <= i < |closed| ==> closed[i].0.index == i
    requires it.index == |closed|
    ensures var r := SortedMap.Insert(res, it, range, ItemLess);
      IsItemMap(r) && |r| == |closed| + 1 && (forall e :: e in r <==> e in closed + [(it, range)])
  {
    assert it !in SortedMap.Keys(res) by {
      forall j | 0 <= j < |res| ensures res[j].0 != it {
        assert res[j] in closed;
      }
    }
    ItemLessIsStrictTotalOrder();
    SortedMap.InsertSpec(res, it, range, ItemLess);
    SortedMap.InsertFresh(res, it, range, ItemLess);
  }

  lemma MirStepPreserves(lines: seq<string>, st: MirState, ix: nat)
    requires ix < |lines| && MirInv(lines, st, ix)
    ensures MirInv(lines, MirStep(lines, st, ix), ix + 1)
  {
    var line := lines[ix];
    if StartsWith(line, "//") {
    } else if line == "}" {
      if st.item.Some? { MirClosePreserves(lines, st, ix); }
    } else if !(StartsWith(line, " ") || line == []) && st.item.None? {
      StripNameSpec(line);
    }
  }

  lemma {:induction false} MirScanInvariant(lines: seq<string>, k: nat)
    requires k <= |lines|
    ensures MirInv(lines, MirScan(lines, k), k)
  {
    if k > 0 {
      MirScanInvariant(lines, k - 1);
      assert MirScan(lines, k) == MirStep(lines, MirScan(lines, k - 1), k - 1);
      MirStepPreserves(lines, MirScan(lines, k - 1), k - 1);
    }
  }

  // ---------------------------------------------------------------------
  // What the scan promises

  /** Every recorded range is inside the listing, starts at a comment or a
      header line, ends just after a `}` line and has its length as `len`;
      the name ends with none of the stripped suffixes; the occurrence
      indices are exactly `0 .. |res|`, so no two keys collide. */
  lemma MirFindItemsWellFormed(lines: seq<string>)
    ensures var res := MirScan(lines, |lines|).res;
      IsItemMap(res) &&
      (forall i :: 0 <= i < |res| ==> EntryOk(lines, res[i], |lines|) && res[i].0.index < |res|) &&
      (forall i, j :: 0 <= i < j < |res| ==> res[i].0.index != res[j].0.index)
  {
    var st := MirScan(lines, |lines|);
    MirScanInvariant(lines, |lines|);
    forall i | 0 <= i < |st.res| ensures EntryOk(lines, st.res[i], |lines|) && st.res[i].0.index < |st.res| {
      assert st.res[i] in st.closed;
    }
    forall i, j | 0 <= i < j < |st.res| ensures st.res[i].0.index != st.res[j].0.index {
      ItemLessIsStrictTotalOrder();
      SortedMap.SortedDistinct(st.res, ItemLess, i, j);
      assert st.res[i] in st.closed && st.res[j] in st.closed;
      var p :| 0 <= p < |st.closed| && st.closed[p] == st.res[i];
      var q :| 0 <= q < |st.closed| && st.closed[q] == st.res[j];
    }
  }

  /** In scan order the recorded ranges end strictly later each time and the
      i-th recorded item has occurrence index i. */
  lemma MirScanOrder(lines: seq<string>)
    ensures var st := MirScan(lines, |lines|);
      (forall i, j :: 0 <= i < j < |st.closed| ==> st.closed[i].1.end < st.closed[j].1.end) &&
      (forall i :: 0 <= i < |st.closed| ==> st.closed[i].0.index == i) &&
      (forall e :: e in st.res <==> e in st.closed)
  {
    MirScanInvariant(lines, |lines|);
  }

  /** A pending comment block start is the first `//` line of the run: a
      later comment line leaves it where it is. */
  lemma BlockStartKept(lines: seq<string>, ix: nat)
    requires ix < |lines| && StartsWith(lines[ix], "//")
    ensures var before, after := MirScan(lines, ix), MirScan(lines, ix + 1);
      after.blockStart == (if before.blockStart.Some? then before.blockStart else Some(ix)) &&
      after.item == before.item && after.res == before.res
  {
  }

  /** An item is opened only by a header line while no item is open; it is
      named after the line, numbered by the items recorded so far, and
      starts at the pending comment block, which is consumed, or at the
      header itself. */
  lemma {:induction false} MirOpens(lines: seq<string>, ix: nat)
    requires ix < |lines|
    requires MirScan(lines, ix + 1).item.Some? && MirScan(lines, ix + 1).item != MirScan(lines, ix).item
    ensures var before, after := MirScan(lines, ix), MirScan(lines, ix + 1);
      IsHeader(lines[ix]) && before.item.None? && after.blockStart.None? &&
      after.item.value == Item(StripName(lines[ix]), StripName(lines[ix]),
                               |before.res|, before.blockStart.GetOr(ix))
  {
    assert !StartsWith(lines[ix], "//");
    assert lines[ix] != "}";
  }

  /** A comment block opened inside a function body is taken as the start
      of the next item, so item ranges can overlap, although the scan is a
      single forward pass. */
  lemma MirRangesCanOverlap()
    ensures var lines := ["fn a() {", "// x", "}", "fn b() {", "}"];
      MirScan(lines, |lines|).closed ==
        [(Item("fn a()", "fn a()", 0, 3), Range(0, 3)), (Item("fn b()", "fn b()", 1, 4), Range(1, 5))]
  {
    OverlapStep5();
  }

  const OVERLAP: seq<string> := ["fn a() {", "// x", "}", "fn b() {", "}"]

  lemma OverlapStep1()
    ensures MirScan(OVERLAP, 1) == MirState(Some(Item("fn a()", "fn a()", 0, 0)), None, [], [])
  {
    NoSuffix("fn a()");
    HeaderName("fn a() {", "fn a()");
    assert MirScan(OVERLAP, 1) == MirStep(OVERLAP, MirInitial, 0);
  }

  lemma OverlapStep2()
    ensures MirScan(OVERLAP, 2) == MirState(Some(Item("fn a()", "fn a()", 0, 0)), Some(1), [], [])
  {
    OverlapStep1();
    assert StartsWith(OVERLAP[1], "//");
    assert MirScan(OVERLAP, 2) == MirStep(OVERLAP, MirScan(OVERLAP, 1), 1);
  }

  lemma OverlapStep3()
    ensures var e := (Item("fn a()", "fn a()", 0, 3), Range(0, 3));
      MirScan(OVERLAP, 3) == MirState(None, Some(1), [e], [e])
  {
    OverlapStep2();
    assert !StartsWith(OVERLAP[2], "//");
    assert MirScan(OVERLAP, 3) == MirStep(OVERLAP, MirScan(OVERLAP, 2), 2);
  }

  lemma OverlapStep4()
    ensures var e := (Item("fn a()", "fn a()", 0, 3), Range(0, 3));
      MirScan(OVERLAP, 4) == MirState(Some(Item("fn b()", "fn b()", 1, 1)), None, [e], [e])
  {
    OverlapStep3();
    NoSuffix("fn b()");
    HeaderName("fn b() {", "fn b()");
    assert MirScan(OVERLAP, 4) == MirStep(OVERLAP, MirScan(OVERLAP, 3), 3);
  }

  lemma OverlapStep5()
    ensures MirScan(OVERLAP, 5).closed ==
      [(Item("fn a()", "fn a()", 0, 3), Range(0, 3)), (Item("fn b()", "fn b()", 1, 4), Range(1, 5))]
  {
    OverlapStep4();
    assert !StartsWith(OVERLAP[4], "//");
    assert MirScan(OVERLAP, 5) == MirStep(OVERLAP, MirScan(OVERLAP, 4), 4);
  }

  /** A name whose third-to-last character is not a space carries none of
      the suffixes. */
  lemma NoSuffix(name: string)
    requires |name| >= 3 && name[|name| - 1] == ')' && name[|name| - 3] != ' '
    ensures !HasSuffix(name)
  {
    assert !EndsWith(name, SUFFIXES[0]) && !EndsWith(name, SUFFIXES[1]);
    assert !EndsWith(name, SUFFIXES[2]) by {
      if |name| >= 6 { assert name[|name| - 6..][3] == name[|name| - 3]; }
    }
  }

  /** A header `<name> {` whose name has no suffix is named `<name>`. */
  lemma HeaderName(line: string, name: string)
    requires line == name + " {" && |name| > 0 && name[0] != ' ' && name[0] != '/' && !HasSuffix(name)
    ensures StripName(line) == name && IsHeader(line)
  {
    assert SUFFIXES[0] == " {" && EndsWith(line, SUFFIXES[0]);
    FirstSuffixIs(line, 0, 0);
    assert line[..|line| - 2] == name;
    StripNameFixed(name);
    assert line[0] == name[0];
  }

  // ---------------------------------------------------------------------
  // Rendering

  /** A written line: either as it is, or split at its last `//` so that the
      comment can be coloured. */
  datatype MirLine = Plain(text: string) | Commented(code: string, comment: string)

  function MirLineText(l: MirLine): string {
    match l
    case Plain(t) => t
    case Commented(c, m) => c + m
  }

  function RenderMirLine(line: string): (r: MirLine)
    ensures MirLineText(r) == line
    ensures r.Commented? <==> Contains(line, "//")
    ensures r.Commented? ==>
      StartsWith(r.comment, "//") && forall i: nat :: 0 < i ==> !OccursAt(r.comment, "//", i)
  {
    match RFind(line, "//")
    case Some(ix) =>
      assert line == line[..ix] + line[ix..];
      var r := Commented(line[..ix], line[ix..]);
      assert forall i: nat :: 0 < i ==> !OccursAt(r.comment, "//", i) by {
        forall i: nat | 0 < i ensures !OccursAt(r.comment, "//", i) {
          if i + 2 <= |r.comment| {
            SuffixSlice(line, ix, i, 2);
            assert !OccursAt(line, "//", ix + i);
          }
        }
      }
      r
    case None => Plain(line)
  }

  lemma SuffixSlice(s: string, a: nat, i: nat, n: nat)
    requires a + i + n <= |s|
    ensures s[a..][i..i + n] == s[a + i..a + i + n]
  {
  }

  /** `range.map_or(strings, |r| &strings[r])`; slicing past the end panics. */
  predicate MirRangeFits(strings: seq<string>, range: Option<Range>) {
    range.Some? ==> range.value.start <= range.value.end <= |strings|
  }

  function MirSlice(strings: seq<string>, range: Option<Range>): seq<string>
    requires MirRangeFits(strings, range)
  {
    if range.Some? then strings[range.value.start..range.value.end] else strings
  }

  /** `MirDumpCtx::dump_range_into_writer`: one written line per selected
      line. */
  method MirDumpRangeIntoWriter(strings: seq<string>, range: Option<Range>) returns (out: seq<MirLine>)
    requires MirRangeFits(strings, range)
    ensures |out| == |MirSlice(strings, range)|
    ensures forall i :: 0 <= i < |out| ==> out[i] == RenderMirLine(MirSlice(strings, range)[i])
  {
    var sel := MirSlice(strings, range);
    out := [];
    for i := 0 to |sel|
      invariant |out| == i
      invariant forall j :: 0 <= j < i ==> out[j] == RenderMirLine(sel[j])
    {
      var line := sel[i];
      var l: MirLine;
      match RFind(line, "//") {
        case Some(ix) => l := Commented(line[..ix], line[ix..]);
        case None => l := Plain(line);
      }
      out := out + [l];
    }
  }

  /** Written back to back, the output's parts give the selected lines. */
  lemma MirRenderText(strings: seq<string>, range: Option<Range>, out: seq<MirLine>)
    requires MirRangeFits(strings, range)
    requires |out| == |MirSlice(strings, range)|
    requires forall i :: 0 <= i < |out| ==> out[i] == RenderMirLine(MirSlice(strings, range)[i])
    ensures forall i :: 0 <= i < |out| ==> MirLineText(out[i]) == MirSlice(strings, range)[i]
  {
  }
}
