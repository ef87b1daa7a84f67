/** The statements an assembly listing is parsed into (src/asm/statements.rs,
    whose grammar is not part of this model), and the collaborators the rest
    of the assembly pipeline consults without their definitions being shown:
    the statement predicates, the demangler, the local-label scanner and the
    statements' textual forms. Those are carried as function values in
    `Oracles`, so every property below holds whatever they compute. */
module AsmStatements {
  import opened Strings
  import opened Paths

  /** `demangle::LabelKind` */
  datatype LabelKind = Global | Local | Temp | Unknown

  datatype Label = Label(id: string, kind: LabelKind)

  /** A `.loc` directive; `line == 0` means "no source line". */
  datatype Loc = Loc(file: nat, line: nat, column: Option<nat>)

  /** `Loc::default()` */
  const DefaultLoc: Loc := Loc(0, 0, None)

  /** A `.file` directive: the file index and its full path. */
  datatype FileDecl = FileDecl(index: nat, path: Path)

  datatype Directive =
    | FileDir(decl: FileDecl)
    | LocDir(loc: Loc)
    | SectionStart(section: string)
    | SetDir(text: string)
    | SubsectionsViaSym
    | Generic(text: string)

  datatype Statement =
    | LabelStmt(lab: Label)
    | DirectiveStmt(directive: Directive)
    | InstructionStmt(op: string, args: Option<string>)
    | Nothing
    | Dunno(text: string)

  /** `demangle::demangled`: the alternate (`{:#?}`) form is the item name,
      the plain (`{:?}`) form, with the hash, is `hashed`. */
  datatype Demangled = Demangled(name: string, hashed: string)

  datatype Oracles = Oracles(
    isSectionStart: Statement -> bool,
    isGlobal: Statement -> bool,
    isEndOfFn: Statement -> bool,
    demangled: string -> Option<Demangled>,
    /** `demangle::local_labels`: the local-label names mentioned in a text. */
    localLabels: string -> seq<string>,
    /** `Display for Statement`; the flag selects the alternate (`{:#}`) form. */
    show: (Statement, bool) -> string,
    /** `Debug for Statement` */
    debug: Statement -> string)

  predicate IsLocalOrTempLabel(s: Statement) {
    s.LabelStmt? && (s.lab.kind == Local || s.lab.kind == Temp)
  }
}
