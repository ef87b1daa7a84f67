/** The assembly renderer of src/asm.rs: `used_labels` and
    `AsmDumpCtx::dump_range_into_writer`. The writer is modelled as the
    sequence of lines written to it, each line a structured `OutLine` whose
    exact text `LineText` gives (terminal colours are not modelled). */
module AsmRender {
  import opened Strings
  import opened Paths
  import opened AsmStatements
  import opened Items

  // ---------------------------------------------------------------------
  // used_labels

  /** The text of a statement that may mention local labels: generic and
      section directives, instruction arguments and unparsed lines. */
  function LabelSource(s: Statement): (r: Option<string>)
    ensures r.None? <==>
      s.LabelStmt? || s.Nothing? || (s.InstructionStmt? && s.args.None?) ||
      (s.DirectiveStmt? && (s.directive.FileDir? || s.directive.LocDir? ||
                            s.directive.SubsectionsViaSym? || s.directive.SetDir?))
  {
    match s
    case LabelStmt(_) => None
    case Nothing => None
    case DirectiveStmt(d) =>
      (match d
       case Generic(text) => Some(text)
       case SectionStart(section) => Some(section)
       case _ => None)
    case InstructionStmt(_, args) => args
    case Dunno(text) => Some(text)
  }

  function SeqToSet(s: seq<string>): set<string> {
    set x | x in s
  }

  /** `used_labels`: every local label mentioned by some statement. */
  function UsedLabels(o: Oracles, stmts: seq<Statement>): set<string> {
    if stmts == [] then {}
    else
      UsedLabels(o, stmts[..|stmts| - 1]) +
      (match LabelSource(stmts[|stmts| - 1])
       case Some(text) => SeqToSet(o.localLabels(text))
       case None => {})
  }

  /** A label is used exactly when one of the statements that may mention
      labels mentions it. */
  lemma {:induction false} UsedLabelsSpec(o: Oracles, stmts: seq<Statement>, x: string)
    ensures x in UsedLabels(o, stmts) <==>
      exists i :: 0 <= i < |stmts| && LabelSource(stmts[i]).Some? &&
                  x in o.localLabels(LabelSource(stmts[i]).value)
  {
    if stmts != [] {
      var init := stmts[..|stmts| - 1];
      UsedLabelsSpec(o, init, x);
      if x in UsedLabels(o, stmts) && x !in UsedLabels(o, init) {
        var i := |stmts| - 1;
        assert LabelSource(stmts[i]).Some? && x in o.localLabels(LabelSource(stmts[i]).value);
      }
      if exists i :: 0 <= i < |stmts| && LabelSource(stmts[i]).Some? &&
                     x in o.localLabels(LabelSource(stmts[i]).value) {
        var i :| 0 <= i < |stmts| && LabelSource(stmts[i]).Some? &&
                 x in o.localLabels(LabelSource(stmts[i]).value);
        if i < |init| { assert init[i] == stmts[i]; }
      }
    }
  }

  // ---------------------------------------------------------------------
  // The renderer

  /** The formatting options the renderer reads. */
  datatype Format = Format(rust: bool, keepLabels: bool, simplify: bool, fullName: bool, verbosity: nat)

  /** A `.file` entry of the source cache: its path, and its lines when the
      file could be read. */
  datatype SourceFile = SourceFile(path: Path, lines: Option<seq<string>>)

  /** The source cache, keyed by `.file` index. */
  type Files = map<nat, SourceFile>

  datatype OutLine =
    | DebugLine(stmt: Statement)
    | Marker(path: Path, loc: Loc)
    | SourceText(text: string)
    | CantLocate
    | Blank
    | Shown(stmt: Statement, alternate: bool)

  const CANT_LOCATE: string := "Can't locate the file, please open a ticket with cargo-show-asm"

  /** The exact text of an output line, without its newline. */
  function LineText(o: Oracles, l: OutLine): string {
    match l
    case DebugLine(s) => o.debug(s)
    case Marker(path, loc) => "\t\t// " + Display(path) + " : " + NatToString(loc.line)
    case SourceText(text) => "\t\t" + text
    case CantLocate => "\t\t// " + CANT_LOCATE
    case Blank => ""
    case Shown(s, alternate) => o.show(s, alternate)
  }

  /** The two panics of the renderer. */
  datatype Panic =
    | UndefinedLocation(loc: Loc)
    | LineOutOfRange(loc: Loc)

  datatype RenderState = RenderState(prevLoc: Loc, emptyLine: bool, out: seq<OutLine>, failure: Option<Panic>)

  const Start: RenderState := RenderState(DefaultLoc, false, [], None)

  predicate IsLocalOrTemp(s: Statement) {
    s.LabelStmt? && (s.lab.kind == Local || s.lab.kind == Temp)
  }

  /** What one statement does: the lines it writes after the optional debug
      line, the new remembered location and blank-line flag, and a panic. */
  datatype Effect = Effect(lines: seq<OutLine>, prevLoc: Loc, emptyLine: bool, failure: Option<Panic>)

  /** A `.loc` directive: dropped unless `rust` is set, its line is not 0 and
      it differs from the location last written; otherwise remembered and
      written as a marker followed by the trimmed source line (or, for a file
      that could not be read, the marker alone after a notice when verbose).
      A file index missing from the cache, or a line past the file's end,
      panics. */
  function LocEffect(files: Files, fmt: Format, prevLoc: Loc, emptyLine: bool, loc: Loc): Effect {
    if !fmt.rust || loc.line == 0 || loc == prevLoc then Effect([], prevLoc, emptyLine, None)
    else if loc.file !in files then Effect([], loc, emptyLine, Some(UndefinedLocation(loc)))
    else
      var f := files[loc.file];
      match f.lines
      case Some(text) =>
        if loc.line > |text| then Effect([], loc, emptyLine, Some(LineOutOfRange(loc)))
        else Effect([Marker(f.path, loc), SourceText(TrimStart(text[loc.line - 1]))], loc, false, None)
      case None =>
        Effect((if fmt.verbosity > 0 then [CantLocate] else []) + [Marker(f.path, loc)], loc, false, None)
  }

  /** A local or temporary label: printed when kept or used; otherwise a
      local label writes one blank line unless the last suppression already
      did, and a temporary label writes nothing. */
  function LabelEffect(fmt: Format, used: set<string>, prevLoc: Loc, emptyLine: bool, line: Statement): Effect
    requires IsLocalOrTemp(line)
  {
    if fmt.keepLabels || line.lab.id in used then Effect([Shown(line, false)], prevLoc, emptyLine, None)
    else if !emptyLine && line.lab.kind != Temp then Effect([Blank], prevLoc, true, None)
    else Effect([], prevLoc, emptyLine, None)
  }

  /** What a statement does after its optional debug line. */
  function KindEffect(files: Files, fmt: Format, used: set<string>, prevLoc: Loc, emptyLine: bool, line: Statement): Effect {
    if line.DirectiveStmt? && line.directive.FileDir? then Effect([], prevLoc, emptyLine, None)
    else if line.DirectiveStmt? && line.directive.LocDir? then
      LocEffect(files, fmt, prevLoc, emptyLine, line.directive.loc)
    else if IsLocalOrTemp(line) then LabelEffect(fmt, used, prevLoc, emptyLine, line)
    else if fmt.simplify && (line.DirectiveStmt? || line.Dunno?) then Effect([], prevLoc, emptyLine, None)
    else Effect([Shown(line, fmt.fullName)], prevLoc, false, None)
  }

  /** With verbosity above 2 every statement is first written in debug form. */
  function DebugOf(fmt: Format, line: Statement): seq<OutLine> {
    if fmt.verbosity > 2 then [DebugLine(line)] else []
  }

  /** Everything one statement does, its debug line included. */
  function StmtEffect(files: Files, fmt: Format, used: set<string>, prevLoc: Loc, emptyLine: bool, line: Statement): Effect {
    var e := KindEffect(files, fmt, used, prevLoc, emptyLine, line);
    e.(lines := DebugOf(fmt, line) + e.lines)
  }

  /** A per-statement effect, as a value. */
  type EffectFn = (Loc, bool, Statement) -> Effect

  function EffectOf(files: Files, fmt: Format, used: set<string>): EffectFn {
    (p: Loc, e: bool, l: Statement) => StmtEffect(files, fmt, used, p, e, l)
  }

  /** Rendering as a left fold of a per-statement effect over the first `k`
      statements; a panic stops all further work. */
  function Fold(eff: EffectFn, stmts: seq<Statement>, k: nat): RenderState
    requires k <= |stmts|
  {
    if k == 0 then Start
    else
      var prev := Fold(eff, stmts, k - 1);
      if prev.failure.Some? then prev
      else
        var e := eff(prev.prevLoc, prev.emptyLine, stmts[k - 1]);
        RenderState(e.prevLoc, e.emptyLine, prev.out + e.lines, e.failure)
  }

  /** The state after rendering the first `k` statements. */
  function Render(files: Files, fmt: Format, used: set<string>, stmts: seq<Statement>, k: nat): RenderState
    requires k <= |stmts|
  {
    Fold(EffectOf(files, fmt, used), stmts, k)
  }

  /** `range.map_or(stmts, |r| &stmts[r])`; a range outside the listing panics. */
  predicate RangeFits(range: Option<Range>, n: nat) {
    range.Some? ==> range.value.start <= range.value.end <= n
  }

  function Slice(stmts: seq<Statement>, range: Option<Range>): seq<Statement>
    requires RangeFits(range, |stmts|)
  {
    if range.Some? then stmts[range.value.start..range.value.end] else stmts
  }

  /** The set `used_labels` is consulted through: empty when labels are kept. */
  function UsedFor(o: Oracles, fmt: Format, stmts: seq<Statement>): set<string> {
    if fmt.keepLabels then {} else UsedLabels(o, stmts)
  }

  /** Everything `dump_range_into_writer` writes, and whether it panics. */
  function DumpRange(o: Oracles, files: Files, fmt: Format, stmts: seq<Statement>, range: Option<Range>): RenderState
    requires RangeFits(range, |stmts|)
  {
    var s := Slice(stmts, range);
    Render(files, fmt, UsedFor(o, fmt, s), s, |s|)
  }

  lemma {:induction false} FailureStays(eff: EffectFn, stmts: seq<Statement>, j: nat, k: nat)
    requires j <= k <= |stmts| && Fold(eff, stmts, j).failure.Some?
    ensures Fold(eff, stmts, k) == Fold(eff, stmts, j)
    decreases k
  {
    if k > j { FailureStays(eff, stmts, j, k - 1); }
  }

  /** One more statement, after no panic, adds its effect. */
  lemma RenderUnfold(files: Files, fmt: Format, used: set<string>, stmts: seq<Statement>, k: nat)
    requires k < |stmts| && Render(files, fmt, used, stmts, k).failure.None?
    ensures var prev := Render(files, fmt, used, stmts, k);
      var e := StmtEffect(files, fmt, used, prev.prevLoc, prev.emptyLine, stmts[k]);
      Render(files, fmt, used, stmts, k + 1) == RenderState(e.prevLoc, e.emptyLine, prev.out + e.lines, e.failure)
  {
  }

  /** The body of the rendering loop for one `.loc` directive: the
      imperative form of `LocEffect`, statement by statement. */
  method WriteLoc(files: Files, fmt: Format, prevLoc: Loc, emptyLine: bool, loc: Loc)
    returns (written: seq<OutLine>, newPrevLoc: Loc, newEmptyLine: bool, failure: Option<Panic>)
    ensures Effect(written, newPrevLoc, newEmptyLine, failure) == LocEffect(files, fmt, prevLoc, emptyLine, loc)
  {
    written, newPrevLoc, newEmptyLine, failure := [], prevLoc, emptyLine, None;
    if !fmt.rust || loc.line == 0 || loc == prevLoc {
      return;
    }
    newPrevLoc := loc;
    if loc.file !in files {
      failure := Some(UndefinedLocation(loc));
      return;
    }
    var f := files[loc.file];
    match f.lines {
      case Some(text) =>
        if loc.line > |text| {
          failure := Some(LineOutOfRange(loc));
          return;
        }
        var rustLine := text[loc.line - 1];
        written := written + [Marker(f.path, loc)];
        written := written + [SourceText(TrimStart(rustLine))];
      case None =>
        if fmt.verbosity > 0 {
          written := written + [CantLocate];
        }
        written := written + [Marker(f.path, loc)];
    }
    newEmptyLine := false;
  }

  /** The body of the rendering loop for one statement, the imperative form
      of `StmtEffect`: the lines written, the new remembered location and
      blank-line flag, and a panic. */
  method WriteStatement(files: Files, fmt: Format, used: set<string>, prevLoc: Loc, emptyLine: bool, line: Statement)
    returns (written: seq<OutLine>, newPrevLoc: Loc, newEmptyLine: bool, failure: Option<Panic>)
    ensures Effect(written, newPrevLoc, newEmptyLine, failure) == StmtEffect(files, fmt, used, prevLoc, emptyLine, line)
  {
    written, newPrevLoc, newEmptyLine, failure := [], prevLoc, emptyLine, None;
    if fmt.verbosity > 2 {
      written := written + [DebugLine(line)];
    }
    if line.DirectiveStmt? && line.directive.FileDir? {
    } else if line.DirectiveStmt? && line.directive.LocDir? {
      var locLines;
      locLines, newPrevLoc, newEmptyLine, failure := WriteLoc(files, fmt, prevLoc, emptyLine, line.directive.loc);
      written := written + locLines;
    } else if IsLocalOrTemp(line) {
      if fmt.keepLabels || line.lab.id in used {
        written := written + [Shown(line, false)];
      } else if !emptyLine && line.lab.kind != Temp {
        written := written + [Blank];
        newEmptyLine := true;
      }
    } else {
      if fmt.simplify && (line.DirectiveStmt? || line.Dunno?) {
        return;
      }
      newEmptyLine := false;
      written := written + [Shown(line, fmt.fullName)];
    }
  }

  /** `AsmDumpCtx::dump_range_into_writer`: the lines written, and the panic
      that cut the rendering short, if any. */
  method DumpRangeIntoWriter(o: Oracles, files: Files, fmt: Format, stmts: seq<Statement>, range: Option<Range>)
    returns (out: seq<OutLine>, failure: Option<Panic>)
    requires RangeFits(range, |stmts|)
    ensures out == DumpRange(o, files, fmt, stmts, range).out
    ensures failure == DumpRange(o, files, fmt, stmts, range).failure
  {
    var s := if range.Some? then stmts[range.value.start..range.value.end] else stmts;
    var used := if fmt.keepLabels then {} else UsedLabels(o, s);
    assert s == Slice(stmts, range) && used == UsedFor(o, fmt, s);
    out, failure := RenderStatements(files, fmt, used, s);
  }

  /** The rendering loop of `dump_range_into_writer`, which stops at the
      first panic. */
  method RenderStatements(files: Files, fmt: Format, used: set<string>, s: seq<Statement>)
    returns (out: seq<OutLine>, failure: Option<Panic>)
    ensures out == Render(files, fmt, used, s, |s|).out
    ensures failure == Render(files, fmt, used, s, |s|).failure
  {
    var prevLoc := DefaultLoc;
    var emptyLine := false;
    out := [];
    failure := None;
    for ix := 0 to |s|
      invariant Render(files, fmt, used, s, ix) == RenderState(prevLoc, emptyLine, out, None)
    {
      RenderUnfold(files, fmt, used, s, ix);
      var written, panic;
      written, prevLoc, emptyLine, panic := WriteStatement(files, fmt, used, prevLoc, emptyLine, s[ix]);
      out := out + written;
      if panic.Some? {
        failure := panic;
        FailureStays(EffectOf(files, fmt, used), s, ix + 1, |s|);
        return;
      }
    }
  }

  // ---------------------------------------------------------------------
  // What the rendering promises

  /** Would the statement be printed as itself? `.file` and `.loc` never are;
      a local or temporary label is printed iff labels are kept or it is
      used; with `simplify`, directives and unparsed lines are not. */
  predicate Printed(fmt: Format, used: set<string>, s: Statement) {
    if s.DirectiveStmt? && (s.directive.FileDir? || s.directive.LocDir?) then false
    else if IsLocalOrTemp(s) then fmt.keepLabels || s.lab.id in used
    else !(fmt.simplify && (s.DirectiveStmt? || s.Dunno?))
  }

  function PrintedFn(fmt: Format, used: set<string>): Statement -> bool {
    (s: Statement) => Printed(fmt, used, s)
  }

  /** The statements of `stmts` that `sel` selects, in order. */
  function Select(sel: Statement -> bool, stmts: seq<Statement>): seq<Statement> {
    if stmts == [] then []
    else Select(sel, stmts[..|stmts| - 1]) + (if sel(stmts[|stmts| - 1]) then [stmts[|stmts| - 1]] else [])
  }

  /** The statements printed as themselves, in output order. */
  function ShownOf(out: seq<OutLine>): seq<Statement> {
    if out == [] then []
    else ShownOf(out[..|out| - 1]) + (if out[|out| - 1].Shown? then [out[|out| - 1].stmt] else [])
  }

  lemma ShownOfAppend(a: seq<OutLine>, b: seq<OutLine>)
    ensures ShownOf(a + b) == ShownOf(a) + ShownOf(b)
    decreases |b|
  {
    if b == [] {
      assert a + b == a;
    } else {
      var b' := b[..|b| - 1];
      ShownOfAppend(a, b');
      assert (a + b)[..|a + b| - 1] == a + b';
    }
  }

  lemma {:induction false} NoShown(out: seq<OutLine>)
    requires forall i :: 0 <= i < |out| ==> !out[i].Shown?
    ensures ShownOf(out) == []
  {
    if out != [] { NoShown(out[..|out| - 1]); }
  }

  lemma {:induction false} FoldPrinted(eff: EffectFn, sel: Statement -> bool, stmts: seq<Statement>, k: nat)
    requires k <= |stmts| && Fold(eff, stmts, k).failure.None?
    requires forall p, e, l :: ShownOf(eff(p, e, l).lines) == if sel(l) then [l] else []
    ensures ShownOf(Fold(eff, stmts, k).out) == Select(sel, stmts[..k])
  {
    if k > 0 {
      var prev := Fold(eff, stmts, k - 1);
      assert prev.failure.None?;
      FoldPrinted(eff, sel, stmts, k - 1);
      var l := stmts[k - 1];
      var e := eff(prev.prevLoc, prev.emptyLine, l);
      var here := if sel(l) then [l] else [];
      assert ShownOf(e.lines) == here;
      assert ShownOf(Fold(eff, stmts, k).out) == ShownOf(prev.out) + here by {
        assert Fold(eff, stmts, k).out == prev.out + e.lines;
        ShownOfAppend(prev.out, e.lines);
      }
      assert Select(sel, stmts[..k]) == Select(sel, stmts[..k - 1]) + here by {
        assert stmts[..k][..k - 1] == stmts[..k - 1];
      }
    }
  }

  lemma NoShownDebug(fmt: Format, line: Statement)
    ensures ShownOf(DebugOf(fmt, line)) == []
  {
    NoShown(DebugOf(fmt, line));
  }

  lemma ShownOne(l: OutLine)
    ensures ShownOf([l]) == if l.Shown? then [l.stmt] else []
  {
    assert [l][..0] == [];
  }

  lemma LocNoShown(files: Files, fmt: Format, prevLoc: Loc, emptyLine: bool, loc: Loc)
    ensures ShownOf(LocEffect(files, fmt, prevLoc, emptyLine, loc).lines) == []
  {
    NoShown(LocEffect(files, fmt, prevLoc, emptyLine, loc).lines);
  }

  lemma LabelPrinted(fmt: Format, used: set<string>, prevLoc: Loc, emptyLine: bool, line: Statement)
    requires IsLocalOrTemp(line)
    ensures ShownOf(LabelEffect(fmt, used, prevLoc, emptyLine, line).lines) ==
      if fmt.keepLabels || line.lab.id in used then [line] else []
  {
    if fmt.keepLabels || line.lab.id in used {
      ShownOne(Shown(line, false));
    } else {
      NoShown(LabelEffect(fmt, used, prevLoc, emptyLine, line).lines);
    }
  }

  lemma KindPrinted(files: Files, fmt: Format, used: set<string>, prevLoc: Loc, emptyLine: bool, line: Statement)
    ensures ShownOf(KindEffect(files, fmt, used, prevLoc, emptyLine, line).lines) ==
      if Printed(fmt, used, line) then [line] else []
  {
    if line.DirectiveStmt? && line.directive.FileDir? {
    } else if line.DirectiveStmt? && line.directive.LocDir? {
      LocNoShown(files, fmt, prevLoc, emptyLine, line.directive.loc);
    } else if IsLocalOrTemp(line) {
      LabelPrinted(fmt, used, prevLoc, emptyLine, line);
    } else if fmt.simplify && (line.DirectiveStmt? || line.Dunno?) {
    } else {
      ShownOne(Shown(line, fmt.fullName));
    }
  }

  /** One statement writes itself exactly when `Printed` selects it. */
  lemma EffectPrinted(files: Files, fmt: Format, used: set<string>, prevLoc: Loc, emptyLine: bool, line: Statement)
    ensures ShownOf(StmtEffect(files, fmt, used, prevLoc, emptyLine, line).lines) ==
      if Printed(fmt, used, line) then [line] else []
  {
    var e := KindEffect(files, fmt, used, prevLoc, emptyLine, line);
    ShownOfAppend(DebugOf(fmt, line), e.lines);
    NoShownDebug(fmt, line);
    KindPrinted(files, fmt, used, prevLoc, emptyLine, line);
  }

  /** Until a panic, the statements printed as themselves are exactly the
      statements `Printed` selects, in the listing's order. */
  lemma RenderPrintsSelected(files: Files, fmt: Format, used: set<string>, stmts: seq<Statement>, k: nat)
    requires k <= |stmts| && Render(files, fmt, used, stmts, k).failure.None?
    ensures ShownOf(Render(files, fmt, used, stmts, k).out) == Select(PrintedFn(fmt, used), stmts[..k])
  {
    var eff := EffectOf(files, fmt, used);
    forall p, e, l ensures ShownOf(eff(p, e, l).lines) == if PrintedFn(fmt, used)(l) then [l] else [] {
      EffectPrinted(files, fmt, used, p, e, l);
    }
    FoldPrinted(eff, PrintedFn(fmt, used), stmts, k);
  }

  predicate NoDoubleBlank(out: seq<OutLine>) {
    forall i :: 0 <= i < |out| - 1 ==> !(out[i].Blank? && out[i + 1].Blank?)
  }

  predicate EndsBlank(out: seq<OutLine>) {
    |out| > 0 && out[|out| - 1].Blank?
  }

  /** A statement writes no two blank lines in a row, starts with one only
      when the flag is clear, sets the flag when it ends with one, and keeps
      the flag when it writes nothing. */
  predicate BlankOk(ef: Effect, emptyLine: bool) {
    NoDoubleBlank(ef.lines) &&
    (|ef.lines| > 0 && ef.lines[0].Blank? ==> !emptyLine) &&
    (EndsBlank(ef.lines) ==> ef.emptyLine) &&
    (ef.lines == [] ==> ef.emptyLine == emptyLine)
  }

  lemma ConcatNoDoubleBlank(a: seq<OutLine>, b: seq<OutLine>)
    requires NoDoubleBlank(a) && NoDoubleBlank(b)
    requires !(EndsBlank(a) && |b| > 0 && b[0].Blank?)
    ensures NoDoubleBlank(a + b)
    ensures EndsBlank(a + b) == if b == [] then EndsBlank(a) else EndsBlank(b)
  {
    var c := a + b;
    forall i | 0 <= i < |c| - 1 ensures !(c[i].Blank? && c[i + 1].Blank?) {
      if i + 1 < |a| {
        assert c[i] == a[i] && c[i + 1] == a[i + 1];
      } else if i >= |a| {
        assert c[i] == b[i - |a|] && c[i + 1] == b[i + 1 - |a|];
      }
    }
    if b == [] { assert c == a; }
  }

  lemma {:induction false} FoldNoDoubleBlank(eff: EffectFn, stmts: seq<Statement>, k: nat)
    requires k <= |stmts|
    requires forall p, e, l :: BlankOk(eff(p, e, l), e)
    ensures NoDoubleBlank(Fold(eff, stmts, k).out)
    ensures EndsBlank(Fold(eff, stmts, k).out) ==> Fold(eff, stmts, k).emptyLine
  {
    if k > 0 {
      var prev := Fold(eff, stmts, k - 1);
      FoldNoDoubleBlank(eff, stmts, k - 1);
      if prev.failure.None? {
        var e := eff(prev.prevLoc, prev.emptyLine, stmts[k - 1]);
        assert BlankOk(e, prev.emptyLine);
        ConcatNoDoubleBlank(prev.out, e.lines);
      }
    }
  }

  lemma EffectBlank(files: Files, fmt: Format, used: set<string>, prevLoc: Loc, emptyLine: bool, line: Statement)
    ensures BlankOk(StmtEffect(files, fmt, used, prevLoc, emptyLine, line), emptyLine)
  {
    var d := DebugOf(fmt, line);
    var e := KindEffect(files, fmt, used, prevLoc, emptyLine, line);
    assert BlankOk(e, emptyLine);
    assert NoDoubleBlank(d) && !EndsBlank(d);
    ConcatNoDoubleBlank(d, e.lines);
    if d != [] { assert (d + e.lines)[0] == d[0]; }
    else { assert d + e.lines == e.lines; }
  }

  /** No two blank lines are ever written one after the other, and the
      blank-line flag is set whenever the last line written is blank. */
  lemma RenderNoDoubleBlank(files: Files, fmt: Format, used: set<string>, stmts: seq<Statement>, k: nat)
    requires k <= |stmts|
    ensures NoDoubleBlank(Render(files, fmt, used, stmts, k).out)
    ensures var st := Render(files, fmt, used, stmts, k); EndsBlank(st.out) ==> st.emptyLine
  {
    var eff := EffectOf(files, fmt, used);
    forall p, e, l ensures BlankOk(eff(p, e, l), e) { EffectBlank(files, fmt, used, p, e, l); }
    FoldNoDoubleBlank(eff, stmts, k);
  }

  /** The locations of the markers written, in order. */
  function MarkerLocs(out: seq<OutLine>): seq<Loc> {
    if out == [] then []
    else MarkerLocs(out[..|out| - 1]) + (if out[|out| - 1].Marker? then [out[|out| - 1].loc] else [])
  }

  lemma MarkerLocsAppend(a: seq<OutLine>, b: seq<OutLine>)
    ensures MarkerLocs(a + b) == MarkerLocs(a) + MarkerLocs(b)
    decreases |b|
  {
    if b == [] {
      assert a + b == a;
    } else {
      var b' := b[..|b| - 1];
      MarkerLocsAppend(a, b');
      assert (a + b)[..|a + b| - 1] == a + b';
    }
  }

  lemma {:induction false} NoMarker(out: seq<OutLine>)
    requires forall i :: 0 <= i < |out| ==> !out[i].Marker?
    ensures MarkerLocs(out) == []
  {
    if out != [] { NoMarker(out[..|out| - 1]); }
  }

  /** A statement writes no marker and (unless it panics) keeps the remembered
      location, or, with `rust`, writes one marker for a new location whose
      line is not 0 and remembers it. */
  predicate MarkersOk(ef: Effect, prevLoc: Loc, rust: bool) {
    (MarkerLocs(ef.lines) == [] && (ef.failure.None? ==> ef.prevLoc == prevLoc)) ||
    (rust && MarkerLocs(ef.lines) == [ef.prevLoc] && ef.prevLoc.line != 0 && ef.prevLoc != prevLoc)
  }

  ghost predicate LocsOk(st: RenderState, rust: bool) {
    var locs := MarkerLocs(st.out);
    (!rust ==> locs == []) &&
    (forall i :: 0 <= i < |locs| ==> locs[i].line != 0) &&
    (forall i :: 0 <= i < |locs| - 1 ==> locs[i] != locs[i + 1]) &&
    (st.failure.None? ==> st.prevLoc == if locs == [] then DefaultLoc else locs[|locs| - 1])
  }

  lemma {:induction false} FoldMarkers(eff: EffectFn, rust: bool, stmts: seq<Statement>, k: nat)
    requires k <= |stmts|
    requires forall p, e, l :: MarkersOk(eff(p, e, l), p, rust)
    ensures LocsOk(Fold(eff, stmts, k), rust)
  {
    if k > 0 {
      var prev := Fold(eff, stmts, k - 1);
      FoldMarkers(eff, rust, stmts, k - 1);
      if prev.failure.None? {
        var e := eff(prev.prevLoc, prev.emptyLine, stmts[k - 1]);
        assert MarkersOk(e, prev.prevLoc, rust);
        assert Fold(eff, stmts, k) == RenderState(e.prevLoc, e.emptyLine, prev.out + e.lines, e.failure);
        LocsStep(prev, e, rust);
      } else {
        assert Fold(eff, stmts, k) == prev;
      }
    }
  }

  /** One statement's markers extend a well-formed marker history. */
  lemma LocsStep(prev: RenderState, e: Effect, rust: bool)
    requires LocsOk(prev, rust) && prev.failure.None? && MarkersOk(e, prev.prevLoc, rust)
    ensures LocsOk(RenderState(e.prevLoc, e.emptyLine, prev.out + e.lines, e.failure), rust)
  {
    MarkerLocsAppend(prev.out, e.lines);
    var locs := MarkerLocs(prev.out);
    if MarkerLocs(e.lines) == [] {
      assert MarkerLocs(prev.out + e.lines) == locs;
    } else {
      assert MarkerLocs(prev.out + e.lines) == locs + [e.prevLoc];
      assert locs != [] ==> locs[|locs| - 1] == prev.prevLoc;
    }
  }

  lemma MarkerLast(a: seq<OutLine>, m: OutLine, b: seq<OutLine>)
    requires m.Marker? && forall i :: 0 <= i < |a| ==> !a[i].Marker?
    requires forall i :: 0 <= i < |b| ==> !b[i].Marker?
    ensures MarkerLocs(a + [m] + b) == [m.loc]
  {
    MarkerLocsAppend(a + [m], b);
    MarkerLocsAppend(a, [m]);
    NoMarker(a);
    NoMarker(b);
    assert [m][..0] == [];
  }

  lemma LocMarkers(files: Files, fmt: Format, prevLoc: Loc, emptyLine: bool, loc: Loc)
    ensures MarkersOk(LocEffect(files, fmt, prevLoc, emptyLine, loc), prevLoc, fmt.rust)
  {
    var e := LocEffect(files, fmt, prevLoc, emptyLine, loc);
    if e.lines != [] {
      var f := files[loc.file];
      if f.lines.Some? {
        var src := SourceText(TrimStart(f.lines.value[loc.line - 1]));
        MarkerLast([], Marker(f.path, loc), [src]);
        assert e.lines == [] + [Marker(f.path, loc)] + [src];
      } else {
        var cant: seq<OutLine> := if fmt.verbosity > 0 then [CantLocate] else [];
        MarkerLast(cant, Marker(f.path, loc), []);
        assert e.lines == cant + [Marker(f.path, loc)] + [];
      }
    }
  }

  lemma KindMarkers(files: Files, fmt: Format, used: set<string>, prevLoc: Loc, emptyLine: bool, line: Statement)
    ensures MarkersOk(KindEffect(files, fmt, used, prevLoc, emptyLine, line), prevLoc, fmt.rust)
  {
    var e := KindEffect(files, fmt, used, prevLoc, emptyLine, line);
    if line.DirectiveStmt? && line.directive.FileDir? {
      assert e.lines == [];
    } else if line.DirectiveStmt? && line.directive.LocDir? {
      LocMarkers(files, fmt, prevLoc, emptyLine, line.directive.loc);
    } else if IsLocalOrTemp(line) {
      assert e == LabelEffect(fmt, used, prevLoc, emptyLine, line);
      NoMarker(e.lines);
    } else if fmt.simplify && (line.DirectiveStmt? || line.Dunno?) {
      assert e.lines == [];
    } else {
      assert e.lines == [Shown(line, fmt.fullName)];
      NoMarker(e.lines);
    }
  }

  lemma EffectMarkers(files: Files, fmt: Format, used: set<string>, prevLoc: Loc, emptyLine: bool, line: Statement)
    ensures MarkersOk(StmtEffect(files, fmt, used, prevLoc, emptyLine, line), prevLoc, fmt.rust)
  {
    var d := DebugOf(fmt, line);
    var e := KindEffect(files, fmt, used, prevLoc, emptyLine, line);
    KindMarkers(files, fmt, used, prevLoc, emptyLine, line);
    NoMarker(d);
    MarkerLocsAppend(d, e.lines);
    assert MarkerLocs(d + e.lines) == MarkerLocs(e.lines);
  }

  /** Location markers are written only with `rust`, never for line 0, and
      never twice in a row for the same location; until a panic the
      remembered location is the last one written. */
  lemma RenderMarkers(files: Files, fmt: Format, used: set<string>, stmts: seq<Statement>, k: nat)
    requires k <= |stmts|
    ensures LocsOk(Render(files, fmt, used, stmts, k), fmt.rust)
  {
    var eff := EffectOf(files, fmt, used);
    forall p, e, l ensures MarkersOk(eff(p, e, l), p, fmt.rust) { EffectMarkers(files, fmt, used, p, e, l); }
    FoldMarkers(eff, fmt.rust, stmts, k);
  }

  /** Every source line written follows the marker of its location and is
      that line of the cached file with its leading whitespace removed; every
      marker names the cached path of a known file and a line other than 0,
      and when that file was read it is followed by its line; the "can't
      locate" notice is written only when verbose, right before the marker of
      a file that could not be read. */
  ghost predicate SourcesOk(files: Files, fmt: Format, out: seq<OutLine>) {
    (forall i :: 0 <= i < |out| && out[i].Marker? ==> MarkerOk(files, out, i)) &&
    (forall i :: 0 <= i < |out| && out[i].SourceText? ==>
      0 < i && out[i - 1].Marker? && files[out[i - 1].loc.file].lines.Some?) &&
    (forall i :: 0 <= i < |out| && out[i].CantLocate? ==>
      fmt.verbosity > 0 && i + 1 < |out| && out[i + 1].Marker? &&
      out[i + 1].loc.file in files && files[out[i + 1].loc.file].lines.None?)
  }

  ghost predicate MarkerOk(files: Files, out: seq<OutLine>, i: nat)
    requires i < |out| && out[i].Marker?
  {
    var loc := out[i].loc;
    loc.file in files && files[loc.file].path == out[i].path && loc.line != 0 &&
    match files[loc.file].lines
    case Some(text) =>
      loc.line <= |text| && i + 1 < |out| && out[i + 1] == SourceText(TrimStart(text[loc.line - 1]))
    case None => true
  }

  lemma ConcatSourcesOk(files: Files, fmt: Format, a: seq<OutLine>, b: seq<OutLine>)
    requires SourcesOk(files, fmt, a) && SourcesOk(files, fmt, b)
    ensures SourcesOk(files, fmt, a + b)
  {
    var c := a + b;
    forall i | 0 <= i < |c| && c[i].Marker? ensures MarkerOk(files, c, i) {
      if i < |a| {
        assert MarkerOk(files, a, i);
        if i + 1 < |a| { assert c[i + 1] == a[i + 1]; }
      } else {
        assert c[i] == b[i - |a|];
        assert MarkerOk(files, b, i - |a|);
        if i + 1 < |c| { assert c[i + 1] == b[i + 1 - |a|]; }
      }
    }
    forall i | 0 <= i < |c| && c[i].SourceText?
      ensures 0 < i && c[i - 1].Marker? && files[c[i - 1].loc.file].lines.Some?
    {
      if i < |a| {
        assert c[i - 1] == a[i - 1];
      } else {
        assert c[i] == b[i - |a|];
        assert c[i - 1] == b[i - 1 - |a|];
      }
    }
    forall i | 0 <= i < |c| && c[i].CantLocate?
      ensures fmt.verbosity > 0 && i + 1 < |c| && c[i + 1].Marker? &&
        c[i + 1].loc.file in files && files[c[i + 1].loc.file].lines.None?
    {
      if i < |a| {
        assert c[i + 1] == a[i + 1];
      } else {
        assert c[i] == b[i - |a|];
        assert c[i + 1] == b[i + 1 - |a|];
      }
    }
  }

  lemma {:induction false} FoldSources(eff: EffectFn, files: Files, fmt: Format, stmts: seq<Statement>, k: nat)
    requires k <= |stmts|
    requires forall p, e, l :: SourcesOk(files, fmt, eff(p, e, l).lines)
    ensures SourcesOk(files, fmt, Fold(eff, stmts, k).out)
  {
    if k > 0 {
      var prev := Fold(eff, stmts, k - 1);
      FoldSources(eff, files, fmt, stmts, k - 1);
      if prev.failure.None? {
        var e := eff(prev.prevLoc, prev.emptyLine, stmts[k - 1]);
        assert SourcesOk(files, fmt, e.lines);
        assert Fold(eff, stmts, k).out == prev.out + e.lines;
        ConcatSourcesOk(files, fmt, prev.out, e.lines);
      } else {
        assert Fold(eff, stmts, k) == prev;
      }
    }
  }

  lemma LocSources(files: Files, fmt: Format, prevLoc: Loc, emptyLine: bool, loc: Loc)
    ensures SourcesOk(files, fmt, LocEffect(files, fmt, prevLoc, emptyLine, loc).lines)
  {
    var e := LocEffect(files, fmt, prevLoc, emptyLine, loc);
    if e.lines != [] {
      var f := files[loc.file];
      if f.lines.Some? {
        assert MarkerOk(files, e.lines, 0);
      } else if fmt.verbosity > 0 {
        assert e.lines == [CantLocate, Marker(f.path, loc)];
        assert MarkerOk(files, e.lines, 1);
      } else {
        assert MarkerOk(files, e.lines, 0);
      }
    }
  }

  lemma EffectSources(files: Files, fmt: Format, used: set<string>, prevLoc: Loc, emptyLine: bool, line: Statement)
    ensures SourcesOk(files, fmt, StmtEffect(files, fmt, used, prevLoc, emptyLine, line).lines)
  {
    var d := DebugOf(fmt, line);
    var e := KindEffect(files, fmt, used, prevLoc, emptyLine, line);
    assert SourcesOk(files, fmt, d);
    if line.DirectiveStmt? && line.directive.LocDir? {
      LocSources(files, fmt, prevLoc, emptyLine, line.directive.loc);
    } else {
      assert forall i :: 0 <= i < |e.lines| ==> e.lines[i].Shown? || e.lines[i].Blank?;
    }
    ConcatSourcesOk(files, fmt, d, e.lines);
  }

  /** The source lines and markers written are faithful to the cache. */
  lemma RenderSources(files: Files, fmt: Format, used: set<string>, stmts: seq<Statement>, k: nat)
    requires k <= |stmts|
    ensures SourcesOk(files, fmt, Render(files, fmt, used, stmts, k).out)
  {
    var eff := EffectOf(files, fmt, used);
    forall p, e, l ensures SourcesOk(files, fmt, eff(p, e, l).lines) { EffectSources(files, fmt, used, p, e, l); }
    FoldSources(eff, files, fmt, stmts, k);
  }
}
