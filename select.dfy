/** Interactive selection through an external fuzzy finder (src/select.rs):
    which finder to run and with which arguments, the line format the items
    are offered in, and reading the chosen index back. Spawning the finder
    and scanning the file system are not modelled; which finder executables
    exist in which directory is a given predicate. */
module Select {
  import opened Strings
  import opened Items
  import opened Utf8

  /** Between the index and the name of an offered item. */
  const DELIMITER: string := ": "

  /** Stands for the server address in a custom preview command. */
  const PREVIEW_SERVER: string := "PREVIEWSERVER"

  datatype Finder =
    | Fzf
    | Skim
    | Fzy
    | Custom(command: seq<string>, preview: seq<string>)

  /** `get_executable`; a custom finder's command must not be empty. */
  function GetExecutable(f: Finder): (r: string)
    requires f.Custom? ==> |f.command| > 0
    ensures f.Custom? ==> r == f.command[0]
  {
    match f
    case Fzf => "fzf"
    case Skim => "sk"
    case Fzy => "fzy"
    case Custom(command, _) => command[0]
  }

  /** The built-in finders have distinct executables. */
  lemma BuiltinExecutablesDistinct()
    ensures GetExecutable(Fzf) != GetExecutable(Skim)
    ensures GetExecutable(Fzf) != GetExecutable(Fzy)
    ensures GetExecutable(Skim) != GetExecutable(Fzy)
  {
    assert GetExecutable(Fzf)[0] != GetExecutable(Skim)[0];
    assert |GetExecutable(Skim)| != |GetExecutable(Fzy)|;
    assert GetExecutable(Fzf)[2] != GetExecutable(Fzy)[2];
  }

  /** `has_preview_support`; `ipc` says whether the program was built with
      its server feature. */
  function HasPreviewSupport(f: Finder, ipc: bool): (r: bool)
    ensures r ==> ipc
    ensures r <==> ipc && (f.Fzf? || f.Skim? || (f.Custom? && f.preview != []))
  {
    ipc &&
    match f
    case Fzf => true
    case Skim => true
    case Fzy => false
    case Custom(_, preview) => preview != []
  }

  // ---------------------------------------------------------------------
  // in_path_suggestion

  /** The built-in finders, most preferred first. */
  const PRIORITY: seq<Finder> := [Fzf, Skim, Fzy]

  /** Does directory `dir` hold an executable file named `exe`? */
  type IsFileIn = (string, string) -> bool

  predicate Available(dirs: seq<string>, isFile: IsFileIn, f: Finder)
    requires !f.Custom?
  {
    exists d :: 0 <= d < |dirs| && isFile(dirs[d], GetExecutable(f))
  }

  /** The first of `PRIORITY[from..]` found on the search path. */
  function FirstAvailable(dirs: seq<string>, isFile: IsFileIn, from: nat): Option<Finder>
    requires from <= |PRIORITY|
    decreases |PRIORITY| - from
  {
    if from == |PRIORITY| then None
    else if Available(dirs, isFile, PRIORITY[from]) then Some(PRIORITY[from])
    else FirstAvailable(dirs, isFile, from + 1)
  }

  /** Is finder `PRIORITY[j]` in one of the first `d` directories? */
  predicate FoundBefore(dirs: seq<string>, isFile: IsFileIn, d: nat, j: nat)
    requires d <= |dirs| && j < |PRIORITY|
  {
    exists e :: 0 <= e < d && isFile(dirs[e], GetExecutable(PRIORITY[j]))
  }

  lemma FoundBeforeNext(dirs: seq<string>, isFile: IsFileIn, d: nat, j: nat)
    requires d < |dirs| && j < |PRIORITY|
    ensures FoundBefore(dirs, isFile, d + 1, j) <==>
      FoundBefore(dirs, isFile, d, j) || isFile(dirs[d], GetExecutable(PRIORITY[j]))
  {
    if FoundBefore(dirs, isFile, d + 1, j) && !isFile(dirs[d], GetExecutable(PRIORITY[j])) {
      var e :| 0 <= e < d + 1 && isFile(dirs[e], GetExecutable(PRIORITY[j]));
      assert e < d;
    }
  }

  /** `in_path_suggestion`: `found` flags per finder, set while scanning the
      directories of `PATH` (None when the variable is unset), then the
      first finder found. */
  method InPathSuggestion(path: Option<seq<string>>, isFile: IsFileIn) returns (r: Option<Finder>)
    ensures r == FirstAvailable(path.GetOr([]), isFile, 0)
  {
    var executables := new Finder[3] [Fzf, Skim, Fzy];
    var found := new bool[3] (_ => false);
    var dirs := path.GetOr([]);
    for d := 0 to |dirs|
      invariant executables[..] == PRIORITY
      invariant forall i :: 0 <= i < 3 ==> found[i] == FoundBefore(dirs, isFile, d, i)
    {
      for i := 0 to 3
        invariant executables[..] == PRIORITY
        invariant forall j :: 0 <= j < 3 ==>
          found[j] == (FoundBefore(dirs, isFile, d, j) || (j < i && isFile(dirs[d], GetExecutable(PRIORITY[j]))))
      {
        assert executables[i] == PRIORITY[i];
        if isFile(dirs[d], GetExecutable(executables[i])) {
          found[i] := true;
        }
      }
      forall j | 0 <= j < 3 ensures found[j] == FoundBefore(dirs, isFile, d + 1, j) {
        FoundBeforeNext(dirs, isFile, d, j);
      }
    }
    for i := 0 to 3
      invariant forall j :: 0 <= j < i ==> !found[j]
      invariant FirstAvailable(dirs, isFile, 0) == FirstAvailable(dirs, isFile, i)
    {
      assert found[i] == Available(dirs, isFile, PRIORITY[i]);
      if found[i] {
        return Some(executables[i]);
      }
    }
    return None;
  }

  /** The suggestion is found on the path, and every finder preferred to it
      is not; None means none of them is. */
  lemma {:induction false} SuggestionPriority(dirs: seq<string>, isFile: IsFileIn, from: nat)
    requires from <= |PRIORITY|
    ensures var r := FirstAvailable(dirs, isFile, from);
      (r.None? ==> forall i :: from <= i < |PRIORITY| ==> !Available(dirs, isFile, PRIORITY[i])) &&
      (r.Some? ==>
        exists i :: from <= i < |PRIORITY| && r.value == PRIORITY[i] &&
          Available(dirs, isFile, PRIORITY[i]) &&
          forall j :: from <= j < i ==> !Available(dirs, isFile, PRIORITY[j]))
    decreases |PRIORITY| - from
  {
    if from < |PRIORITY| && !Available(dirs, isFile, PRIORITY[from]) {
      SuggestionPriority(dirs, isFile, from + 1);
    }
  }

  // ---------------------------------------------------------------------
  // The finder's command line

  /** `std::process::Command` as far as its argument list goes. */
  class Command {
    const program: string
    var args: seq<string>

    constructor (program: string)
      ensures this.program == program && args == []
    {
      this.program := program;
      args := [];
    }

    method Arg(a: string)
      modifies this
      ensures args == old(args) + [a]
    {
      args := args + [a];
    }

    method Args(a: seq<string>)
      modifies this
      ensures args == old(args) + a
    {
      args := args + a;
    }
  }

  /** What the arguments given to fzf and skim ask for: no sorting, the list
      reversed, and searching and showing only the name after `": "`. */
  const FZF_ARGS: seq<string> := ["--no-sort", "--tac", "--delimiter", DELIMITER, "--nth", "2", "--with-nth", "2"]

  /** The preview command fzf and skim run: this program as a client of the
      dump server at `address`, for the index in field 1. */
  function PreviewCommand(arg0: string, address: string): string {
    arg0 + " --client --server-name=\"" + address + "\" --select {1}"
  }

  function SubstituteServer(preview: seq<string>, address: string): (r: seq<string>)
    ensures |r| == |preview|
    ensures forall i :: 0 <= i < |r| ==>
      r[i] == (if preview[i] == PREVIEW_SERVER then address else preview[i])
  {
    if preview == [] then []
    else
      var last := preview[|preview| - 1];
      SubstituteServer(preview[..|preview| - 1], address) + [if last == PREVIEW_SERVER then address else last]
  }

  /** The arguments a finder takes before any preview. */
  function BaseArgs(f: Finder): seq<string> {
    match f
    case Fzf => FZF_ARGS
    case Skim => FZF_ARGS
    case Fzy => []
    case Custom(command, _) => if |command| > 1 then command[1..] else []
  }

  /** The preview arguments of a finder that supports a preview. */
  function PreviewArgs(f: Finder, arg0: string, address: string): seq<string> {
    match f
    case Custom(_, preview) => SubstituteServer(preview, address)
    case _ => ["--preview-window", "up:60%:border-horizontal", "--preview", PreviewCommand(arg0, address)]
  }

  /** The arguments `default_command` ends up with. */
  function FinderArgs(f: Finder, ipc: bool, arg0: string, address: string): seq<string> {
    BaseArgs(f) + (if HasPreviewSupport(f, ipc) then PreviewArgs(f, arg0, address) else [])
  }

  /** `add_preview`: never reached for fzy, which has no preview. */
  method AddPreview(cmd: Command, f: Finder, arg0: string, address: string)
    requires !f.Fzy?
    modifies cmd
    ensures cmd.args == old(cmd.args) + PreviewArgs(f, arg0, address)
  {
    if f.Custom? {
      var preview := f.preview;
      for i := 0 to |preview|
        invariant cmd.args == old(cmd.args) + SubstituteServer(preview[..i], address)
      {
        assert preview[..i + 1][..i] == preview[..i];
        if preview[i] == PREVIEW_SERVER {
          cmd.Arg(address);
        } else {
          cmd.Arg(preview[i]);
        }
      }
      assert preview[..|preview|] == preview;
    } else {
      var previewCmd := arg0;
      previewCmd := previewCmd + " --client --server-name=\"";
      previewCmd := previewCmd + address;
      previewCmd := previewCmd + "\" --select {1}";
      cmd.Args(["--preview-window", "up:60%:border-horizontal"]);
      cmd.Arg("--preview");
      cmd.Arg(previewCmd);
    }
  }

  /** `default_command`: the finder's executable with its fixed arguments,
      then the preview arguments when it supports a preview. */
  method DefaultCommand(f: Finder, ipc: bool, arg0: string, address: string) returns (cmd: Command)
    requires f.Custom? ==> |f.command| > 0
    ensures fresh(cmd)
    ensures cmd.program == GetExecutable(f)
    ensures cmd.args == FinderArgs(f, ipc, arg0, address)
  {
    cmd := new Command(GetExecutable(f));
    match f {
      case Fzf =>
        cmd.Arg("--no-sort");
        cmd.Arg("--tac");
        cmd.Args(["--delimiter", DELIMITER]);
        cmd.Args(["--nth", "2"]);
        cmd.Args(["--with-nth", "2"]);
      case Skim =>
        cmd.Arg("--no-sort");
        cmd.Arg("--tac");
        cmd.Args(["--delimiter", DELIMITER]);
        cmd.Args(["--nth", "2"]);
        cmd.Args(["--with-nth", "2"]);
      case Fzy =>
      case Custom(command, _) =>
        if |command| > 1 {
          cmd.Args(command[1..]);
        }
    }
    assert cmd.args == BaseArgs(f);
    if HasPreviewSupport(f, ipc) {
      AddPreview(cmd, f, arg0, address);
    }
  }

  /** Custom finders get their own arguments, then their preview arguments
      in order, with every `PREVIEWSERVER` replaced by the address. */
  lemma CustomArgs(command: seq<string>, preview: seq<string>, ipc: bool, arg0: string, address: string)
    requires |command| > 0
    ensures var args := FinderArgs(Custom(command, preview), ipc, arg0, address);
      args[..|command| - 1] == command[1..] &&
      |args| == |command| - 1 + (if ipc then |preview| else 0) &&
      (ipc ==> forall i :: 0 <= i < |preview| ==>
        args[|command| - 1 + i] == (if preview[i] == PREVIEW_SERVER then address else preview[i]))
  {
  }

  // ---------------------------------------------------------------------
  // The line format shared with the finder

  /** The width of the index column: `ilog10(n) + 1` for `n` items, which
      panics for `n == 0`. */
  function Width(n: nat): nat
    requires n >= 1
  {
    ILog10(n) + 1
  }

  /** One offered line, without its newline. */
  function SerializedLine(index: nat, width: nat, name: string): string {
    PadLeft(NatToString(index), width) + DELIMITER + name
  }

  /** `serialize`: one line per item, in key order. */
  method Serialize(items: ItemMap) returns (out: seq<string>)
    requires |items| >= 1
    ensures |out| == |items|
    ensures forall i :: 0 <= i < |items| ==> out[i] == SerializedLine(i, Width(|items|), items[i].0.name)
  {
    var width := ILog10(|items|) + 1;
    out := [];
    for index := 0 to |items|
      invariant |out| == index
      invariant forall i :: 0 <= i < index ==> out[i] == SerializedLine(i, width, items[i].0.name)
    {
      out := out + [PadLeft(NatToString(index), width) + DELIMITER + items[index].0.name];
    }
  }

  /** Every index fits the column: all lines have the index right-aligned
      in exactly `Width(n)` characters. */
  lemma IndexColumnAligned(n: nat, index: nat)
    requires 1 <= n && index < n
    ensures |PadLeft(NatToString(index), Width(n))| == Width(n)
  {
    ILog10Digits(n);
    DigitsMonotone(index, n);
  }

  datatype DeserializeError = NotUtf8 | NoDelimiter | NotAnIndex

  /** `deserialize`: the number before the first `": "` of the line the
      finder hands back. */
  function Deserialize(buffer: seq<byte>): (r: Result<nat, DeserializeError>)
    ensures r == Err(NotUtf8) <==> Decode(buffer).None?
    ensures r == Err(NoDelimiter) <==>
      Decode(buffer).Some? && SplitOnce(TrimStart(Decode(buffer).value), DELIMITER).None?
    ensures r == Err(NotAnIndex) <==>
      Decode(buffer).Some? && SplitOnce(TrimStart(Decode(buffer).value), DELIMITER).Some? &&
      ParseUsize(SplitOnce(TrimStart(Decode(buffer).value), DELIMITER).value.0).None?
    ensures r.Ok? ==> r.value <= USIZE_MAX
  {
    match Decode(buffer)
    case None => Err(NotUtf8)
    case Some(text) =>
      match SplitOnce(TrimStart(text), DELIMITER)
      case None => Err(NoDelimiter)
      case Some((index, _)) =>
        match ParseUsize(index)
        case None => Err(NotAnIndex)
        case Some(n) => Ok(n)
  }

  /** Reading back any offered line, followed by anything at all, gives its
      index, whatever characters the name holds, `": "` included. */
  lemma DeserializeSerialized(index: nat, width: nat, name: string, rest: string)
    requires index <= USIZE_MAX
    ensures Deserialize(Encode(SerializedLine(index, width, name) + rest)) == Ok(index)
  {
    var digits := NatToString(index);
    var after := name + rest;
    var tail := DELIMITER + after;
    var text := SerializedLine(index, width, name) + rest;
    assert text == PadLeft(digits, width) + tail;
    DecodeEncode(text);
    PaddedTrim(digits, width, tail);
    var trimmed := TrimStart(text);
    assert trimmed == digits + DELIMITER + after;
    DigitsSplit(digits, after);
    assert SplitOnce(trimmed, DELIMITER) == Some((digits, after));
    ParseNatToString(index);
    assert ParseUsize(digits) == Some(index);
  }

  /** Trimming the start of a padded number drops exactly the padding. */
  lemma PaddedTrim(digits: string, width: nat, tail: string)
    requires |digits| >= 1 && AllDigits(digits)
    ensures TrimStart(PadLeft(digits, width) + tail) == digits + tail
  {
    var padded := PadLeft(digits, width);
    var pad := |padded| - |digits|;
    var text := padded + tail;
    assert padded == padded[..pad] + digits;
    assert text[pad] == digits[0];
    LeadingSpaces(text, pad);
    assert text[pad..] == digits + tail;
  }

  /** A number holds no delimiter, so the first one follows it. */
  lemma DigitsSplit(digits: string, after: string)
    requires AllDigits(digits)
    ensures SplitOnce(digits + DELIMITER + after, DELIMITER) == Some((digits, after))
  {
    var line := digits + DELIMITER + after;
    assert OccursAt(line, DELIMITER, |digits|);
    forall i: nat | i < |digits| ensures !OccursAt(line, DELIMITER, i) {
      assert line[i] == digits[i];
      assert line[i..i + 2][0] == line[i];
    }
    assert Find(line, DELIMITER) == Some(|digits|);
    assert line[..|digits|] == digits;
    assert line[|digits| + 2..] == after;
  }

  /** Spaces up to `pad`, then a digit: exactly `pad` characters of leading
      whitespace. */
  lemma LeadingSpaces(text: string, pad: nat)
    requires pad < |text| && IsDigit(text[pad])
    requires forall i :: 0 <= i < pad ==> text[i] == ' '
    ensures LeadingWhitespace(text) == pad
  {
  }
}
