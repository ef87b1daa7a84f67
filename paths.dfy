/** `std::path` as far as the source locator needs it: a path is the list of
    its components (`Path::components`), so that prefix tests, `skip(n)` and
    `push` work component by component exactly as they do in Rust. */
module Paths {
  datatype Component = RootDir | Normal(name: string)

  type Path = seq<Component>

  /** `Path::starts_with`: a whole-component prefix test. */
  predicate PathStartsWith(p: Path, prefix: Path) {
    |prefix| <= |p| && p[..|prefix|] == prefix
  }

  /** `components().skip(n)` */
  function Skip(p: Path, n: nat): (r: Path)
    ensures |r| == if n <= |p| then |p| - n else 0
  {
    if n <= |p| then p[n..] else []
  }

  /** `PathBuf::push`: pushing an absolute path replaces what was there. */
  function Push(p: Path, c: Component): Path {
    if c == RootDir then [RootDir] else p + [c]
  }

  /** `for part in parts { p.push(part) }`, and `Path::join`. */
  function PushAll(p: Path, parts: Path): Path
    decreases |parts|
  {
    if parts == [] then p else PushAll(Push(p, parts[0]), parts[1..])
  }

  /** Appending relative components is concatenation. */
  lemma {:induction false} PushAllRelative(p: Path, parts: Path)
    requires forall i :: 0 <= i < |parts| ==> parts[i] != RootDir
    ensures PushAll(p, parts) == p + parts
    decreases |parts|
  {
    if parts != [] {
      PushAllRelative(p + [parts[0]], parts[1..]);
      assert p + [parts[0]] + parts[1..] == p + parts;
    }
  }

  /** A path as `components()` yields it: the root can only come first. */
  predicate WellFormed(p: Path) {
    forall i :: 0 < i < |p| ==> p[i] != RootDir
  }

  /** `Path::display` */
  function Display(p: Path): string {
    if p == [] then []
    else if p[0] == RootDir then "/" + JoinNames(p[1..])
    else JoinNames(p)
  }

  function JoinNames(p: Path): string {
    if p == [] then []
    else
      var first := if p[0].Normal? then p[0].name else "/";
      if |p| == 1 then first else first + "/" + JoinNames(p[1..])
  }
}
