/** Preparing the input of `llvm-mca` (src/mca.rs, `McaDump::dump_range_into_writer`):
    the selected assembly lines go to the tool without their location
    directives, behind an optional syntax header and in front of a fixed
    trailer; what the tool prints is passed on, standard output first. The
    tool itself is not modelled: its output streams are given. */
module Mca {
  import opened Strings

  const INTEL_HEADER: string := ".intel_syntax"
  const TRAILER: string := ".cfi_endproc"

  /** The prefixes of trimmed lines that are not fed to the tool. */
  const SKIPPED: seq<string> := [".loc", ".file"]

  predicate IsSkipped(line: string) {
    StartsWith(line, ".loc") || StartsWith(line, ".file")
  }

  /** `mca.args(mca_args).args(["--mtriple", t]).args(["--mcpu", c])` */
  function McaArgs(mcaArgs: seq<string>, triple: Option<string>, targetCpu: Option<string>): (r: seq<string>)
    ensures |r| == |mcaArgs| + (if triple.Some? then 2 else 0) + (if targetCpu.Some? then 2 else 0)
    ensures r[..|mcaArgs|] == mcaArgs
    ensures triple.Some? ==> r[|mcaArgs|..|mcaArgs| + 2] == ["--mtriple", triple.value]
    ensures var c := |mcaArgs| + (if triple.Some? then 2 else 0);
      r[c..] == (if targetCpu.Some? then ["--mcpu", targetCpu.value] else [])
  {
    mcaArgs + (if triple.Some? then ["--mtriple", triple.value] else [])
      + (if targetCpu.Some? then ["--mcpu", targetCpu.value] else [])
  }

  /** What one selected line contributes: itself trimmed, unless that
      starts a location directive. */
  function FedLine(line: string): seq<string> {
    var t := Trim(line);
    if IsSkipped(t) then [] else [t]
  }

  /** The trimmed selected lines that reach the tool, in their order. */
  function Fed(lines: seq<string>): seq<string> {
    if lines == [] then [] else Fed(lines[..|lines| - 1]) + FedLine(lines[|lines| - 1])
  }

  /** `range.map_or(lines, |r| &lines[r])`; slicing past the end panics. */
  predicate McaRangeFits(lines: seq<string>, start: nat, end: nat) {
    start <= end <= |lines|
  }

  function McaSelect(lines: seq<string>, range: Option<(nat, nat)>): seq<string>
    requires range.Some? ==> McaRangeFits(lines, range.value.0, range.value.1)
  {
    if range.Some? then lines[range.value.0..range.value.1] else lines
  }

  /** Everything written to the tool's standard input. */
  function McaInput(lines: seq<string>, range: Option<(nat, nat)>, intel: bool): seq<string>
    requires range.Some? ==> McaRangeFits(lines, range.value.0, range.value.1)
  {
    (if intel then [INTEL_HEADER] else []) + Fed(McaSelect(lines, range)) + [TRAILER]
  }

  lemma FedSnoc(s: seq<string>, k: nat)
    requires k < |s|
    ensures Fed(s[..k + 1]) == Fed(s[..k]) + FedLine(s[k])
  {
    assert s[..k + 1][..k] == s[..k];
  }

  /** One turn of the feeding loop keeps the written lines equal to the
      header and the filtered prefix. */
  lemma FedStep(s: seq<string>, k: nat, head: seq<string>, input: seq<string>, skip: bool)
    requires k < |s| && input == head + Fed(s[..k]) && skip == IsSkipped(Trim(s[k]))
    ensures head + Fed(s[..k + 1]) == if skip then input else input + [Trim(s[k])]
  {
    FedSnoc(s, k);
  }

  /** The inner loop over the skipped prefixes. */
  method StartsSkipped(line: string) returns (skip: bool)
    ensures skip == IsSkipped(line)
  {
    for s := 0 to |SKIPPED|
      invariant forall j :: 0 <= j < s ==> !StartsWith(line, SKIPPED[j])
    {
      if StartsWith(line, SKIPPED[s]) {
        return true;
      }
    }
    assert !StartsWith(line, SKIPPED[0]) && !StartsWith(line, SKIPPED[1]);
    return false;
  }

  /** The writing half: header, filtered lines, trailer. */
  method FeedMca(lines: seq<string>, range: Option<(nat, nat)>, intel: bool) returns (input: seq<string>)
    requires range.Some? ==> McaRangeFits(lines, range.value.0, range.value.1)
    ensures input == McaInput(lines, range, intel)
  {
    var sel := McaSelect(lines, range);
    ghost var head := if intel then [INTEL_HEADER] else [];
    input := [];
    if intel {
      input := input + [INTEL_HEADER];
    }
    for k := 0 to |sel|
      invariant input == head + Fed(sel[..k])
    {
      var line := Trim(sel[k]);
      var skip := StartsSkipped(line);
      FedStep(sel, k, head, input, skip);
      if skip {
        continue;
      }
      input := input + [line];
    }
    assert sel[..|sel|] == sel;
    input := input + [TRAILER];
  }

  /** The reading half: the tool's standard output, each line demangled,
      then its standard error as it is. */
  method McaOutput(stdout: seq<string>, stderr: seq<string>, demangle: string -> string)
    returns (out: seq<string>)
    ensures |out| == |stdout| + |stderr|
    ensures forall i :: 0 <= i < |stdout| ==> out[i] == demangle(stdout[i])
    ensures out[|stdout|..] == stderr
  {
    out := [];
    for i := 0 to |stdout|
      invariant |out| == i
      invariant forall j :: 0 <= j < i ==> out[j] == demangle(stdout[j])
    {
      out := out + [demangle(stdout[i])];
    }
    for i := 0 to |stderr|
      invariant |out| == |stdout| + i
      invariant forall j :: 0 <= j < |stdout| ==> out[j] == demangle(stdout[j])
      invariant out[|stdout|..] == stderr[..i]
    {
      out := out + [stderr[i]];
    }
  }

  // ---------------------------------------------------------------------
  // What the input promises

  /** Filtering distributes over concatenation: lines reach the tool in the
      order they were selected. */
  lemma {:induction false} FedAppend(a: seq<string>, b: seq<string>)
    ensures Fed(a + b) == Fed(a) + Fed(b)
    decreases |b|
  {
    if b != [] {
      var b' := b[..|b| - 1];
      assert (a + b)[..|a + b| - 1] == a + b';
      assert (a + b)[|a + b| - 1] == b[|b| - 1];
      FedAppend(a, b');
    } else {
      assert a + b == a;
    }
  }

  /** A fed line is a trimmed selected line that starts with neither `.loc`
      nor `.file`. */
  lemma {:induction false} FedSound(lines: seq<string>)
    ensures forall t :: t in Fed(lines) ==>
      !IsSkipped(t) && exists i :: 0 <= i < |lines| && t == Trim(lines[i])
  {
    if lines != [] {
      var init := lines[..|lines| - 1];
      FedSound(init);
      forall t | t in Fed(lines) ensures !IsSkipped(t) && exists i :: 0 <= i < |lines| && t == Trim(lines[i]) {
        if t in Fed(init) {
          var i :| 0 <= i < |init| && t == Trim(init[i]);
          assert lines[i] == init[i];
        } else {
          assert t == Trim(lines[|lines| - 1]);
        }
      }
    }
  }

  /** Every selected line whose trimmed form starts with neither `.loc` nor
      `.file` is fed. */
  lemma {:induction false} FedComplete(lines: seq<string>, i: nat)
    requires i < |lines| && !IsSkipped(Trim(lines[i]))
    ensures Trim(lines[i]) in Fed(lines)
  {
    var init := lines[..|lines| - 1];
    if i < |init| {
      assert init[i] == lines[i];
      FedComplete(init, i);
    }
  }

  lemma NotSkipped(s: string)
    requires |s| >= 2 && s[1] != 'l' && s[1] != 'f'
    ensures !IsSkipped(s)
  {
  }

  /** The header comes first when requested, the trailer is always last, the
      filtered lines sit in between, and no line fed is a location
      directive. */
  lemma McaInputShape(lines: seq<string>, range: Option<(nat, nat)>, intel: bool)
    requires range.Some? ==> McaRangeFits(lines, range.value.0, range.value.1)
    ensures var input := McaInput(lines, range, intel);
      var h := if intel then 1 else 0;
      |input| == h + |Fed(McaSelect(lines, range))| + 1 &&
      input[|input| - 1] == TRAILER &&
      (intel ==> input[0] == INTEL_HEADER) &&
      input[h..|input| - 1] == Fed(McaSelect(lines, range)) &&
      forall i :: 0 <= i < |input| ==> !IsSkipped(input[i])
  {
    var input := McaInput(lines, range, intel);
    var fed := Fed(McaSelect(lines, range));
    var h := if intel then 1 else 0;
    FedSound(McaSelect(lines, range));
    NotSkipped(TRAILER);
    NotSkipped(INTEL_HEADER);
    forall i | 0 <= i < |input| ensures !IsSkipped(input[i]) {
      if h <= i < h + |fed| {
        assert input[i] == fed[i - h];
        assert fed[i - h] in fed;
      }
    }
  }
}
