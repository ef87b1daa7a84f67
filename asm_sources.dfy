/** Finding the Rust sources that `.file` directives name (src/asm.rs:
    `locate_sources` and `load_rust_sources`). The file system is a pair of
    oracles: whether a path exists, and the lines of a file that can be read;
    the home directory is a given value. */
module AsmSources {
  import opened Strings
  import opened Paths
  import opened AsmStatements
  import opened AsmRender

  datatype SourceEnv = SourceEnv(
    exists_: Path -> bool,
    /** `std::env::home_dir()` */
    home: Option<Path>,
    /** `read_to_string` split into lines without their endings; None when
        the file cannot be read. */
    read: Path -> Option<seq<string>>)

  /** Outcomes that end the program. */
  datatype Fatal =
    | InstallRustSrc            // the rust-src hint, then exit status 1
    | RegistryMissing(path: Path)
    | NoHomeDir
    | ReadFailed(path: Path)

  datatype Located = Found(path: Path) | NotFound | Failed(reason: Fatal)

  function N(name: string): Component {
    Normal(name)
  }

  /** `sysroot.join("lib/rustlib/src/rust")` */
  function RustSrcRoot(sysroot: Path): Path {
    sysroot + [N("lib"), N("rustlib"), N("src"), N("rust")]
  }

  /** `path.starts_with("/rustc/")` */
  predicate IsRustcPath(p: Path) {
    PathStartsWith(p, [RootDir, N("rustc")])
  }

  /** `path.starts_with("/private/tmp")` with a `library` component. */
  predicate IsMacRustPath(p: Path) {
    PathStartsWith(p, [RootDir, N("private"), N("tmp")]) && N("library") in p
  }

  predicate IsCargoDir(c: Component) {
    c == N("cargo") || c == N(".cargo")
  }

  /** Index of the first `cargo` or `.cargo` component. */
  function CargoPosition(p: Path): (r: Option<nat>)
    ensures r.Some? ==> r.value < |p| && IsCargoDir(p[r.value])
    ensures r.Some? ==> forall i :: 0 <= i < r.value ==> !IsCargoDir(p[i])
    ensures r.None? ==> forall i :: 0 <= i < |p| ==> !IsCargoDir(p[i])
  {
    if p == [] then None
    else if IsCargoDir(p[0]) then Some(0)
    else match CargoPosition(p[1..])
      case Some(i) => Some(i + 1)
      case None => None
  }

  /** The rust-src rewriting both platform branches share: the sysroot's
      source root plus the components after the first `skip`. */
  function RustSrcCandidate(env: SourceEnv, sysroot: Path, path: Path, skip: nat): Located {
    var source := PushAll(RustSrcRoot(sysroot), Skip(path, skip));
    if env.exists_(source) then Found(source) else Failed(InstallRustSrc)
  }

  /** `locate_sources` as written: the registry branch compares the very
      component found as `cargo`/`.cargo` with `registry`. */
  function LocateSourcesAsWritten(env: SourceEnv, sysroot: Path, path: Path): (r: Located)
    ensures env.exists_(path) ==> r == Found(path)
    ensures r.Found? ==> env.exists_(r.path)
    ensures r.Failed? ==>
      r.reason == InstallRustSrc && !env.exists_(path) && (IsRustcPath(path) || IsMacRustPath(path))
    ensures r == NotFound <==> !env.exists_(path) && !IsRustcPath(path) && !IsMacRustPath(path)
  {
    if env.exists_(path) then Found(path)
    else if IsRustcPath(path) then RustSrcCandidate(env, sysroot, path, 3)
    else if IsMacRustPath(path) then RustSrcCandidate(env, sysroot, path, 5)
    else match CargoPosition(path)
      case Some(ix) =>
        if path[ix] == N("registry") then
          match env.home
          case None => Failed(NoHomeDir)
          case Some(home) =>
            var source := PushAll(Push(home, N(".cargo")), Skip(path, ix));
            if env.exists_(source) then Found(source) else Failed(RegistryMissing(path))
        else NotFound
      case None => NotFound
  }

  /** As written, the registry branch can never be taken: whatever exists,
      a path is found only as itself or under the rust-src root, and the
      registry outcomes never happen. */
  lemma RegistryBranchNeverFires(env: SourceEnv, sysroot: Path, path: Path)
    requires WellFormed(path)
    ensures var r := LocateSourcesAsWritten(env, sysroot, path);
      !(r.Failed? && (r.reason.RegistryMissing? || r.reason.NoHomeDir?)) &&
      (r.Found? ==> r.path == path || PathStartsWith(r.path, RustSrcRoot(sysroot)))
  {
    var r := LocateSourcesAsWritten(env, sysroot, path);
    if r.Found? && r.path != path {
      var skip := if IsRustcPath(path) then 3 else 5;
      PushAllRelative(RustSrcRoot(sysroot), Skip(path, skip));
      assert r.path == RustSrcRoot(sysroot) + Skip(path, skip);
      assert r.path[..|RustSrcRoot(sysroot)|] == RustSrcRoot(sysroot);
    }
  }

  /** `locate_sources` as evidently intended: a `cargo`/`.cargo` component
      followed by `registry` names a crate in the local registry, which is
      looked up under `$HOME/.cargo`, starting with that `registry`. */
  function LocateSources(env: SourceEnv, sysroot: Path, path: Path): (r: Located)
    ensures env.exists_(path) ==> r == Found(path)
    ensures r.Found? ==> env.exists_(r.path)
    ensures r == NotFound <==>
      !env.exists_(path) && !IsRustcPath(path) && !IsMacRustPath(path) &&
      (CargoPosition(path).Some? ==>
        var ix := CargoPosition(path).value;
        !(ix + 1 < |path| && path[ix + 1] == N("registry")))
  {
    if env.exists_(path) then Found(path)
    else if IsRustcPath(path) then RustSrcCandidate(env, sysroot, path, 3)
    else if IsMacRustPath(path) then RustSrcCandidate(env, sysroot, path, 5)
    else match CargoPosition(path)
      case Some(ix) =>
        if ix + 1 < |path| && path[ix + 1] == N("registry") then
          match env.home
          case None => Failed(NoHomeDir)
          case Some(home) =>
            var source := PushAll(Push(home, N(".cargo")), Skip(path, ix + 1));
            if env.exists_(source) then Found(source) else Failed(RegistryMissing(path))
        else NotFound
      case None => NotFound
  }

  /** A missing `/rustc/<hash>/...` path is looked up under the sysroot's
      source root with its first three components dropped; when that does
      not exist either, the program stops with the rust-src hint. */
  lemma RustcPathRewritten(env: SourceEnv, sysroot: Path, path: Path)
    requires WellFormed(path) && !env.exists_(path) && IsRustcPath(path)
    ensures var source := RustSrcRoot(sysroot) + Skip(path, 3);
      LocateSources(env, sysroot, path) ==
        if env.exists_(source) then Found(source) else Failed(InstallRustSrc)
  {
    PushAllRelative(RustSrcRoot(sysroot), Skip(path, 3));
  }

  /** The same for a missing macOS `/private/tmp/...` path with a `library`
      component, with its first five components dropped. */
  lemma MacPathRewritten(env: SourceEnv, sysroot: Path, path: Path)
    requires WellFormed(path) && !env.exists_(path) && !IsRustcPath(path) && IsMacRustPath(path)
    ensures var source := RustSrcRoot(sysroot) + Skip(path, 5);
      LocateSources(env, sysroot, path) ==
        if env.exists_(source) then Found(source) else Failed(InstallRustSrc)
  {
    PushAllRelative(RustSrcRoot(sysroot), Skip(path, 5));
  }

  /** A missing registry path `.../cargo/registry/<rest>` is looked up as
      `$HOME/.cargo/registry/<rest>`. */
  lemma RegistryPathRewritten(env: SourceEnv, sysroot: Path, path: Path, home: Path, ix: nat)
    requires WellFormed(path) && !env.exists_(path) && !IsRustcPath(path) && !IsMacRustPath(path)
    requires CargoPosition(path) == Some(ix) && ix + 1 < |path| && path[ix + 1] == N("registry")
    requires env.home == Some(home)
    ensures var source := home + [N(".cargo")] + path[ix + 1..];
      LocateSources(env, sysroot, path) ==
        if env.exists_(source) then Found(source) else Failed(RegistryMissing(path))
  {
    var parts := Skip(path, ix + 1);
    assert parts == path[ix + 1..];
    forall i | 0 <= i < |parts| ensures parts[i] != RootDir {
      assert parts[i] == path[ix + 1 + i];
    }
    assert Push(home, N(".cargo")) == home + [N(".cargo")];
    PushAllRelative(home + [N(".cargo")], parts);
  }

  /** The registry example from the program's own comments: the path as
      written is reported missing although the registry copy exists. */
  lemma RegistryCounterexample()
    ensures var home := [RootDir, N("home"), N("user")];
      var path := [RootDir, N("cargo"), N("registry"), N("src"), N("lib.rs")];
      var copy := home + [N(".cargo"), N("registry"), N("src"), N("lib.rs")];
      var env := SourceEnv((p: Path) => p == copy, Some(home), (p: Path) => None);
      LocateSourcesAsWritten(env, [], path) == NotFound &&
      LocateSources(env, [], path) == Found(copy)
  {
    var home := [RootDir, N("home"), N("user")];
    var path := [RootDir, N("cargo"), N("registry"), N("src"), N("lib.rs")];
    var copy := home + [N(".cargo"), N("registry"), N("src"), N("lib.rs")];
    assert CargoPosition(path) == Some(1) by {
      assert !IsCargoDir(path[0]) && IsCargoDir(path[1]);
      assert path[1..][0] == N("cargo");
    }
    assert !IsRustcPath(path) by { assert path[1] != N("rustc"); }
    assert !IsMacRustPath(path) by { assert path[1] != N("private"); }
    assert Skip(path, 2) == [N("registry"), N("src"), N("lib.rs")];
    PushAllRelative(home + [N(".cargo")], Skip(path, 2));
  }

  // ---------------------------------------------------------------------
  // load_rust_sources

  /** The cache entry for one `.file` directive once the locator has
      answered: the file's lines when it was located, no lines when it was
      not, or the outcome that ends the program. */
  function EntryOf(env: SourceEnv, decl: FileDecl, located: Located): (r: Result<SourceFile, Fatal>)
    ensures r.Ok? ==> r.value.path == decl.path
    ensures r.Ok? && r.value.lines.None? <==> located == NotFound
    ensures located.Found? && env.read(located.path).Some? ==>
      r == Ok(SourceFile(decl.path, env.read(located.path)))
    ensures located.Failed? ==> r == Err(located.reason)
  {
    match located
    case Found(fp) =>
      (match env.read(fp)
       case Some(lines) => Ok(SourceFile(decl.path, Some(lines)))
       case None => Err(ReadFailed(fp)))
    case NotFound => Ok(SourceFile(decl.path, None))
    case Failed(reason) => Err(reason)
  }

  /** The cache entry `load_rust_sources` makes for one `.file` directive,
      with `locate_sources` as written. */
  function LoadEntry(env: SourceEnv, sysroot: Path, decl: FileDecl): Result<SourceFile, Fatal> {
    EntryOf(env, decl, LocateSourcesAsWritten(env, sysroot, decl.path))
  }

  /** The same with `locate_sources` as evidently intended. */
  function LoadEntryIntended(env: SourceEnv, sysroot: Path, decl: FileDecl): Result<SourceFile, Fatal> {
    EntryOf(env, decl, LocateSources(env, sysroot, decl.path))
  }

  /** As written, loading a file ends the program only with the rust-src
      hint or an unreadable file: the registry outcomes never happen. */
  lemma LoadEntryFatal(env: SourceEnv, sysroot: Path, decl: FileDecl)
    ensures LoadEntry(env, sysroot, decl).Err? ==>
      LoadEntry(env, sysroot, decl).error.InstallRustSrc? ||
      LoadEntry(env, sysroot, decl).error.ReadFailed?
  {
  }

  /** A missing registry path whose copy under `$HOME/.cargo` exists is
      cached without lines as written, and read from that copy as intended. */
  lemma LoadEntryRegistry(env: SourceEnv, sysroot: Path, decl: FileDecl, home: Path, ix: nat)
    requires WellFormed(decl.path) && !env.exists_(decl.path)
    requires !IsRustcPath(decl.path) && !IsMacRustPath(decl.path)
    requires CargoPosition(decl.path) == Some(ix) && ix + 1 < |decl.path|
    requires decl.path[ix + 1] == N("registry") && env.home == Some(home)
    requires env.exists_(home + [N(".cargo")] + decl.path[ix + 1..])
    ensures var source := home + [N(".cargo")] + decl.path[ix + 1..];
      LoadEntry(env, sysroot, decl) == Ok(SourceFile(decl.path, None)) &&
      LoadEntryIntended(env, sysroot, decl) ==
        match env.read(source)
        case Some(_) => Ok(SourceFile(decl.path, env.read(source)))
        case None => Err(ReadFailed(source))
  {
    RegistryPathRewritten(env, sysroot, decl.path, home, ix);
  }

  predicate IsFileDecl(s: Statement) {
    s.DirectiveStmt? && s.directive.FileDir?
  }

  /** The cache after the first `k` statements: every `.file` index not yet
      cached gets its entry (`entry(..).or_insert_with(..)`). */
  function LoadFrom(env: SourceEnv, sysroot: Path, stmts: seq<Statement>, files: Files, k: nat): Result<Files, Fatal>
    requires k <= |stmts|
  {
    if k == 0 then Ok(files)
    else match LoadFrom(env, sysroot, stmts, files, k - 1)
      case Err(e) => Err(e)
      case Ok(fs) =>
        var line := stmts[k - 1];
        if IsFileDecl(line) && line.directive.decl.index !in fs then
          match LoadEntry(env, sysroot, line.directive.decl)
          case Ok(entry) => Ok(fs[line.directive.decl.index := entry])
          case Err(e) => Err(e)
        else Ok(fs)
  }

  /** `load_rust_sources`: fills the cache, or stops at the first outcome
      that ends the program. */
  method LoadRustSources(env: SourceEnv, sysroot: Path, stmts: seq<Statement>, files0: Files)
    returns (files: Files, fatal: Option<Fatal>)
    ensures fatal.None? <==> LoadFrom(env, sysroot, stmts, files0, |stmts|).Ok?
    ensures fatal.None? ==> files == LoadFrom(env, sysroot, stmts, files0, |stmts|).value
    ensures fatal.Some? ==> fatal.value == LoadFrom(env, sysroot, stmts, files0, |stmts|).error
    ensures fatal.Some? ==> fatal.value.InstallRustSrc? || fatal.value.ReadFailed?
  {
    files := files0;
    fatal := None;
    for k := 0 to |stmts|
      invariant LoadFrom(env, sysroot, stmts, files0, k) == Ok(files)
    {
      var line := stmts[k];
      if line.DirectiveStmt? && line.directive.FileDir? {
        var f := line.directive.decl;
        if f.index !in files {
          var entry := LoadEntry(env, sysroot, f);
          if entry.Err? {
            fatal := Some(entry.error);
            LoadEntryFatal(env, sysroot, f);
            LoadStopped(env, sysroot, stmts, files0, k + 1, |stmts|);
            return;
          }
          files := files[f.index := entry.value];
        }
      }
    }
  }

  lemma {:induction false} LoadStopped(env: SourceEnv, sysroot: Path, stmts: seq<Statement>, files: Files, j: nat, k: nat)
    requires j <= k <= |stmts| && LoadFrom(env, sysroot, stmts, files, j).Err?
    ensures LoadFrom(env, sysroot, stmts, files, k) == LoadFrom(env, sysroot, stmts, files, j)
    decreases k
  {
    if k > j { LoadStopped(env, sysroot, stmts, files, j, k - 1); }
  }

  /** The first `.file` directive with index `idx` among the first `k`. */
  function FirstDecl(stmts: seq<Statement>, idx: nat, k: nat): (r: Option<FileDecl>)
    requires k <= |stmts|
    ensures r.Some? ==> r.value.index == idx
    ensures r.None? <==> forall i :: 0 <= i < k && IsFileDecl(stmts[i]) ==> stmts[i].directive.decl.index != idx
  {
    if k == 0 then None
    else match FirstDecl(stmts, idx, k - 1)
      case Some(d) => Some(d)
      case None =>
        if IsFileDecl(stmts[k - 1]) && stmts[k - 1].directive.decl.index == idx
        then Some(stmts[k - 1].directive.decl) else None
  }

  /** The first directive wins: the cache keeps what it had, and every other
      index some `.file` directive names is cached from the first directive
      naming it; no other index appears. */
  lemma {:induction false} LoadFirstWins(env: SourceEnv, sysroot: Path, stmts: seq<Statement>, files: Files, k: nat)
    requires k <= |stmts| && LoadFrom(env, sysroot, stmts, files, k).Ok?
    ensures var fs := LoadFrom(env, sysroot, stmts, files, k).value;
      forall idx ::
        (idx in fs <==> idx in files || FirstDecl(stmts, idx, k).Some?) &&
        (idx in files ==> fs[idx] == files[idx]) &&
        (idx !in files && FirstDecl(stmts, idx, k).Some? ==>
          LoadEntry(env, sysroot, FirstDecl(stmts, idx, k).value) == Ok(fs[idx]))
  {
    if k > 0 {
      LoadFirstWins(env, sysroot, stmts, files, k - 1);
    }
  }
}
