/** `find_items` of src/asm.rs: one forward scan over the parsed statements
    that cuts the listing into functions. The scan keeps the start of the
    current section, the item opened by the last function label and a counter
    of the items opened under each name; an end-of-function statement closes
    the open item and records it with the range `sec_start..ix`. */
module AsmFindItems {
  import opened Strings
  import opened AsmStatements
  import opened Items
  import SortedMap

  /** The scan's state after some prefix of the statements. `closed` and
      `opens` are logs for the proofs: the items recorded so far, in scan
      order, and the names of the items opened so far, in scan order. */
  datatype ScanState = ScanState(
    secStart: nat,
    item: Option<Item>,
    names: map<string, nat>,
    res: ItemMap,
    closed: seq<(Item, Range)>,
    opens: seq<string>)

  const Initial: ScanState := ScanState(0, None, map[], [], [], [])

  /** The prefix a section name must have for an unknown label to name it. */
  const TEXT_PREFIX: string := ".text."

  /** `names.entry(name).or_insert(0)`, read without inserting. */
  function NameCount(names: map<string, nat>, name: string): nat {
    if name in names then names[name] else 0
  }

  /** How many entries of `s` equal `name`. */
  function CountOf(s: seq<string>, name: string): nat {
    if s == [] then 0
    else CountOf(s[..|s| - 1], name) + (if s[|s| - 1] == name then 1 else 0)
  }

  /** Is the statement at `secStart` a `.text.<s>` section whose `s` starts
      with `id`? (`lines.get(sec_start)` is `None` past the end.) */
  predicate SectionNamesLabel(lines: seq<Statement>, secStart: nat, id: string) {
    secStart < |lines| && lines[secStart].DirectiveStmt? &&
    lines[secStart].directive.SectionStart? &&
    StartsWith(lines[secStart].directive.section, TEXT_PREFIX) &&
    StartsWith(lines[secStart].directive.section[|TEXT_PREFIX|..], id)
  }

  /** A label at `ix` opens an item, replacing any open one; `len` holds the
      label's index until the item is closed. */
  function Open(st: ScanState, name: string, hashed: string, ix: nat): ScanState {
    var n := NameCount(st.names, name);
    st.(item := Some(Item(name, hashed, n, ix)), names := st.names[name := n + 1],
        opens := st.opens + [name])
  }

  /** An end of function at `ix` records the open item over `secStart..ix`. */
  function Close(st: ScanState, ix: nat): ScanState
    requires st.item.Some? && st.item.value.len <= ix
  {
    var it := st.item.value.(len := ix - st.item.value.len);
    var range := Range(st.secStart, ix);
    st.(item := None, res := SortedMap.Insert(st.res, it, range, ItemLess),
        closed := st.closed + [(it, range)])
  }

  /** One iteration of the scan, on the statement at `ix`. */
  function Step(o: Oracles, lines: seq<Statement>, st: ScanState, ix: nat): (r: ScanState)
    requires ix < |lines|
    requires st.item.Some? ==> st.item.value.len <= ix
    ensures r.item.Some? ==> r.item.value.len <= ix
  {
    var line := lines[ix];
    if o.isSectionStart(line) then
      // a repeated section directive inside an open function is ignored
      if st.item.None? then st.(secStart := ix) else st
    else if o.isGlobal(line) && st.secStart + 3 < ix then st.(secStart := ix)
    else if o.isEndOfFn(line) then
      if st.item.Some? then Close(st, ix) else st
    else if line.LabelStmt? then
      match o.demangled(line.lab.id)
      case Some(dem) => Open(st, dem.name, dem.hashed, ix)
      case None =>
        if line.lab.kind == Unknown && SectionNamesLabel(lines, st.secStart, line.lab.id)
        then Open(st, line.lab.id, line.lab.id, ix)
        else st
    else st
  }

  /** The state after the first `k` statements. */
  function Scan(o: Oracles, lines: seq<Statement>, k: nat): (st: ScanState)
    requires k <= |lines|
    ensures st.item.Some? ==> st.item.value.len < k
  {
    if k == 0 then Initial else Step(o, lines, Scan(o, lines, k - 1), k - 1)
  }

  /** What `find_items` returns. */
  function ScanResult(o: Oracles, lines: seq<Statement>): ItemMap {
    Scan(o, lines, |lines|).res
  }

  /** `find_items` */
  method FindItems(o: Oracles, lines: seq<Statement>) returns (res: ItemMap)
    ensures res == ScanResult(o, lines)
  {
    res := [];
    var secStart: nat := 0;
    var item: Option<Item> := None;
    var names: map<string, nat> := map[];
    ghost var closed: seq<(Item, Range)> := [];
    ghost var opens: seq<string> := [];
    for ix := 0 to |lines|
      invariant Scan(o, lines, ix) == ScanState(secStart, item, names, res, closed, opens)
    {
      ghost var st := Scan(o, lines, ix);
      assert Scan(o, lines, ix + 1) == Step(o, lines, st, ix);
      var line := lines[ix];
      if o.isSectionStart(line) {
        if item.None? {
          secStart := ix;
        }
      } else if o.isGlobal(line) && secStart + 3 < ix {
        secStart := ix;
      } else if o.isEndOfFn(line) {
        var range := Range(secStart, ix);
        if item.Some? {
          var it := item.value.(len := ix - item.value.len);
          res := SortedMap.Insert(res, it, range, ItemLess);
          closed := closed + [(it, range)];
          item := None;
        }
      } else if line.LabelStmt? {
        var lab := line.lab;
        match o.demangled(lab.id) {
          case Some(dem) =>
            var n := if dem.name in names then names[dem.name] else 0;
            item := Some(Item(dem.name, dem.hashed, n, ix));
            names := names[dem.name := n + 1];
            opens := opens + [dem.name];
          case None =>
            if lab.kind == Unknown && SectionNamesLabel(lines, secStart, lab.id) {
              var n := if lab.id in names then names[lab.id] else 0;
              item := Some(Item(lab.id, lab.id, n, ix));
              names := names[lab.id := n + 1];
              opens := opens + [lab.id];
            }
        }
      }
    }
  }

  // ---------------------------------------------------------------------
  // The invariant of the scan

  /** Positions: the section start is a visited index (or the initial 0) and
      an open item's label lies before the scan position. */
  ghost predicate PositionsOk(st: ScanState, k: nat) {
    (st.secStart < k || st.secStart == 0) &&
    (st.item.Some? ==> st.item.value.len < k)
  }

  /** Recorded items: non-empty ranges ending before the scan position,
      `1 <= len <= end`, ends strictly increasing and, per name, occurrence
      indices strictly increasing in scan order. */
  ghost predicate ClosedOk(closed: seq<(Item, Range)>, k: nat) {
    (forall i :: 0 <= i < |closed| ==>
      closed[i].1.start < closed[i].1.end < k && 1 <= closed[i].0.len <= closed[i].1.end) &&
    (forall i, j :: 0 <= i < j < |closed| ==> closed[i].1.end < closed[j].1.end) &&
    (forall i, j :: 0 <= i < j < |closed| && closed[i].0.name == closed[j].0.name ==>
      closed[i].0.index < closed[j].0.index)
  }

  /** The counter holds, per name, how many items were opened under it; every
      recorded index is below it and the open item has the newest index. */
  ghost predicate NamesOk(st: ScanState) {
    (forall nm :: NameCount(st.names, nm) == CountOf(st.opens, nm)) &&
    (forall i :: 0 <= i < |st.closed| ==>
      st.closed[i].0.index < NameCount(st.names, st.closed[i].0.name)) &&
    (st.item.Some? ==>
      st.item.value.index + 1 == NameCount(st.names, st.item.value.name) &&
      forall i :: 0 <= i < |st.closed| && st.closed[i].0.name == st.item.value.name ==>
        st.closed[i].0.index < st.item.value.index)
  }

  /** The map holds exactly the recorded entries, one per closing. */
  ghost predicate ResOk(st: ScanState) {
    IsItemMap(st.res) && |st.res| == |st.closed| &&
    forall e :: e in st.res <==> e in st.closed
  }

  ghost predicate Inv(st: ScanState, k: nat) {
    PositionsOk(st, k) && ClosedOk(st.closed, k) && NamesOk(st) && ResOk(st)
  }

  lemma CountOfAppend(s: seq<string>, x: string, nm: string)
    ensures CountOf(s + [x], nm) == CountOf(s, nm) + (if x == nm then 1 else 0)
  {
    assert (s + [x])[..|s|] == s;
  }

  lemma OpenPreserves(st: ScanState, name: string, hashed: string, ix: nat)
    requires Inv(st, ix)
    ensures Inv(Open(st, name, hashed, ix), ix + 1)
    ensures Open(st, name, hashed, ix).item.value.index == CountOf(st.opens, name)
  {
    var r := Open(st, name, hashed, ix);
    forall nm ensures NameCount(r.names, nm) == CountOf(r.opens, nm) {
      CountOfAppend(st.opens, name, nm);
    }
    forall i | 0 <= i < |r.closed| ensures r.closed[i].0.index < NameCount(r.names, r.closed[i].0.name) {
      assert NameCount(st.names, r.closed[i].0.name) <= NameCount(r.names, r.closed[i].0.name);
    }
  }

  lemma ClosePreserves(st: ScanState, ix: nat)
    requires Inv(st, ix) && st.item.Some?
    ensures Inv(Close(st, ix), ix + 1)
  {
    var it := st.item.value.(len := ix - st.item.value.len);
    var range := Range(st.secStart, ix);
    var r := Close(st, ix);
    assert r.closed[|st.closed|] == (it, range);
    assert ClosedOk(r.closed, ix + 1) by {
      forall i, j | 0 <= i < j < |r.closed| && r.closed[i].0.name == r.closed[j].0.name
        ensures r.closed[i].0.index < r.closed[j].0.index
      {
        if j == |st.closed| { assert r.closed[i] == st.closed[i]; }
      }
    }
    assert it !in SortedMap.Keys(st.res) by {
      forall j | 0 <= j < |st.res| ensures st.res[j].0 != it {
        assert st.res[j] in st.closed;
      }
    }
    ItemLessIsStrictTotalOrder();
    SortedMap.InsertSpec(st.res, it, range, ItemLess);
    SortedMap.InsertFresh(st.res, it, range, ItemLess);
  }

  lemma StepPreserves(o: Oracles, lines: seq<Statement>, st: ScanState, ix: nat)
    requires ix < |lines| && Inv(st, ix)
    ensures Inv(Step(o, lines, st, ix), ix + 1)
  {
    var line := lines[ix];
    var r := Step(o, lines, st, ix);
    if o.isSectionStart(line) {
      if st.item.None? {
        assert r == st.(secStart := ix);
        SecStartPreserves(st, ix);
      } else {
        assert r == st;
        KeepPreserves(st, ix);
      }
    } else if o.isGlobal(line) && st.secStart + 3 < ix {
      assert r == st.(secStart := ix);
      SecStartPreserves(st, ix);
    } else if o.isEndOfFn(line) {
      if st.item.Some? {
        assert r == Close(st, ix);
        ClosePreserves(st, ix);
      } else {
        assert r == st;
        KeepPreserves(st, ix);
      }
    } else if line.LabelStmt? {
      match o.demangled(line.lab.id)
      case Some(dem) =>
        assert r == Open(st, dem.name, dem.hashed, ix);
        OpenPreserves(st, dem.name, dem.hashed, ix);
      case None =>
        if line.lab.kind == Unknown && SectionNamesLabel(lines, st.secStart, line.lab.id) {
          assert r == Open(st, line.lab.id, line.lab.id, ix);
          OpenPreserves(st, line.lab.id, line.lab.id, ix);
        } else {
          assert r == st;
          KeepPreserves(st, ix);
        }
    } else {
      assert r == st;
      KeepPreserves(st, ix);
    }
  }

  lemma KeepPreserves(st: ScanState, ix: nat)
    requires Inv(st, ix)
    ensures Inv(st, ix + 1)
  {
  }

  lemma SecStartPreserves(st: ScanState, ix: nat)
    requires Inv(st, ix)
    ensures Inv(st.(secStart := ix), ix + 1)
  {
  }

  /** Every prefix of the scan satisfies the invariant. */
  lemma {:induction false} ScanInvariant(o: Oracles, lines: seq<Statement>, k: nat)
    requires k <= |lines|
    ensures Inv(Scan(o, lines, k), k)
  {
    if k > 0 {
      ScanInvariant(o, lines, k - 1);
      StepPreserves(o, lines, Scan(o, lines, k - 1), k - 1);
    }
  }

  // ---------------------------------------------------------------------
  // What the scan promises

  /** The result is a well-formed map whose every range is a non-empty
      interval inside the listing, whose `len` is at least one line and at
      most the range's end, and no two of whose keys share a name and an
      occurrence index. */
  lemma FindItemsWellFormed(o: Oracles, lines: seq<Statement>)
    ensures IsItemMap(ScanResult(o, lines))
    ensures forall i :: 0 <= i < |ScanResult(o, lines)| ==>
      var e := ScanResult(o, lines)[i];
      e.1.start < e.1.end <= |lines| && 1 <= e.0.len <= e.1.end
    ensures forall i, j :: 0 <= i < j < |ScanResult(o, lines)| ==>
      var a, b := ScanResult(o, lines)[i].0, ScanResult(o, lines)[j].0;
      a.name != b.name || a.index != b.index
  {
    var st := Scan(o, lines, |lines|);
    ScanInvariant(o, lines, |lines|);
    var res := st.res;
    forall i | 0 <= i < |res|
      ensures res[i].1.start < res[i].1.end <= |lines| && 1 <= res[i].0.len <= res[i].1.end
    {
      assert res[i] in st.closed;
    }
    forall i, j | 0 <= i < j < |res|
      ensures res[i].0.name != res[j].0.name || res[i].0.index != res[j].0.index
    {
      ItemLessIsStrictTotalOrder();
      SortedMap.SortedDistinct(res, ItemLess, i, j);
      assert res[i] in st.closed && res[j] in st.closed;
      var p :| 0 <= p < |st.closed| && st.closed[p] == res[i];
      var q :| 0 <= q < |st.closed| && st.closed[q] == res[j];
      assert p != q;
    }
  }

  /** In scan order the recorded ranges end strictly later each time, and the
      map holds exactly the recorded entries, one per closed item. */
  lemma FindItemsScanOrder(o: Oracles, lines: seq<Statement>)
    ensures var st := Scan(o, lines, |lines|);
      (forall i, j :: 0 <= i < j < |st.closed| ==> st.closed[i].1.end < st.closed[j].1.end) &&
      |st.res| == |st.closed| && (forall e :: e in st.res <==> e in st.closed)
  {
    ScanInvariant(o, lines, |lines|);
  }

  /** A section directive moves the section start only while no item is
      open, and never touches the open item; a global symbol far enough past
      the section start moves it and does nothing else, so it never opens an
      item. */
  lemma SectionBoundaries(o: Oracles, lines: seq<Statement>, ix: nat)
    requires ix < |lines|
    ensures var before, after := Scan(o, lines, ix), Scan(o, lines, ix + 1);
      (o.isSectionStart(lines[ix]) ==>
        after == before.(secStart := if before.item.None? then ix else before.secStart)) &&
      (!o.isSectionStart(lines[ix]) && o.isGlobal(lines[ix]) && before.secStart + 3 < ix ==>
        after == before.(secStart := ix))
  {
  }

  /** A label opens an item whose occurrence index counts the items opened
      under the same name before it. */
  lemma OpenIndexCounts(o: Oracles, lines: seq<Statement>, ix: nat)
    requires ix < |lines| && lines[ix].LabelStmt?
    requires !o.isSectionStart(lines[ix]) && !o.isEndOfFn(lines[ix])
    requires !(o.isGlobal(lines[ix]) && Scan(o, lines, ix).secStart + 3 < ix)
    requires o.demangled(lines[ix].lab.id).Some?
    ensures var before, after := Scan(o, lines, ix), Scan(o, lines, ix + 1);
      var dem := o.demangled(lines[ix].lab.id).value;
      after.item == Some(Item(dem.name, dem.hashed, CountOf(before.opens, dem.name), ix))
  {
    ScanInvariant(o, lines, ix);
    var dem := o.demangled(lines[ix].lab.id).value;
    OpenPreserves(Scan(o, lines, ix), dem.name, dem.hashed, ix);
  }

  /** A label the demangler does not recognise opens an item only when it is
      of unknown kind and the statement at the section start is a
      `.text.<s>` section with `s` starting with the label's id; the item is
      then named and hashed by the id, and its occurrence index comes from the
      counter shared with demangled names. Otherwise nothing changes. */
  lemma UnknownLabelOpens(o: Oracles, lines: seq<Statement>, ix: nat)
    requires ix < |lines| && lines[ix].LabelStmt?
    requires !o.isSectionStart(lines[ix]) && !o.isEndOfFn(lines[ix])
    requires !(o.isGlobal(lines[ix]) && Scan(o, lines, ix).secStart + 3 < ix)
    requires o.demangled(lines[ix].lab.id).None?
    ensures var before, after := Scan(o, lines, ix), Scan(o, lines, ix + 1);
      var id := lines[ix].lab.id;
      var opens := lines[ix].lab.kind == Unknown && SectionNamesLabel(lines, before.secStart, id);
      (after.item != before.item <==> opens) &&
      (opens ==> after.item == Some(Item(id, id, CountOf(before.opens, id), ix))) &&
      (!opens ==> after == before)
  {
    var before := Scan(o, lines, ix);
    var id := lines[ix].lab.id;
    assert Scan(o, lines, ix + 1) == Step(o, lines, before, ix);
    if lines[ix].lab.kind == Unknown && SectionNamesLabel(lines, before.secStart, id) {
      assert Scan(o, lines, ix + 1) == Open(before, id, id, ix);
      ScanInvariant(o, lines, ix);
      OpenPreserves(before, id, id, ix);
    }
  }

  /** An end of function closes the open item over `secStart..ix`, with the
      number of lines since its label as `len`; with no open item it records
      nothing. */
  lemma EndOfFunctionRecords(o: Oracles, lines: seq<Statement>, ix: nat)
    requires ix < |lines| && !o.isSectionStart(lines[ix]) && o.isEndOfFn(lines[ix])
    requires !(o.isGlobal(lines[ix]) && Scan(o, lines, ix).secStart + 3 < ix)
    ensures var before, after := Scan(o, lines, ix), Scan(o, lines, ix + 1);
      after.item.None? &&
      (before.item.None? ==> after.res == before.res) &&
      (before.item.Some? ==>
        var it := before.item.value;
        after.closed == before.closed + [(it.(len := ix - it.len), Range(before.secStart, ix))] &&
        SortedMap.Lookup(after.res, it.(len := ix - it.len)) == Some(Range(before.secStart, ix)) &&
        |after.res| == |before.res| + 1)
  {
    var before := Scan(o, lines, ix);
    assert Scan(o, lines, ix + 1) == Step(o, lines, before, ix);
    if before.item.Some? {
      ScanInvariant(o, lines, ix);
      CloseRecords(before, ix);
    }
  }

  lemma CloseRecords(st: ScanState, ix: nat)
    requires Inv(st, ix) && st.item.Some?
    ensures var it := st.item.value.(len := ix - st.item.value.len);
      SortedMap.Lookup(Close(st, ix).res, it) == Some(Range(st.secStart, ix)) &&
      |Close(st, ix).res| == |st.res| + 1
  {
    var it := st.item.value.(len := ix - st.item.value.len);
    ClosePreserves(st, ix);
    ItemLessIsStrictTotalOrder();
    SortedMap.InsertSpec(st.res, it, Range(st.secStart, ix), ItemLess);
    assert it !in SortedMap.Keys(st.res) by {
      forall j | 0 <= j < |st.res| ensures st.res[j].0 != it {
        assert st.res[j] in st.closed;
      }
    }
  }

}
