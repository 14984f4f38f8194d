/**
 * Diagnostic notes: each note kind declares a category and a severity
 * level; a note records its kind, the subject it is about (usually a
 * header token such as "header-last-modified") and the named values its
 * message templates are filled with. Rendering the templates is not part
 * of this model.
 */
module Notes {

  /** The note categories, in the order the single-resource report lists them. */
  datatype Category = General | Security | Connection | Conneg | Caching | Validation | Range

  datatype Level = Good | Warn | Bad | Info

  /**
   * The note kinds of the Last-Modified validation check and of the
   * Accept-Ranges header; every other kind of the system is `Other`,
   * carrying its own category and level.
   */
  datatype NoteKind =
    | LmSubreqProblem
    | Ims304
    | ImsFull
    | ImsUnknown
    | ImsStatus
    | UnknownRange
    | Other(name: string, otherCategory: Category, otherLevel: Level)
  {
    const category: Category :=
      match this
      case UnknownRange => Range
      case Other(_, c, _) => c
      case _ => Validation

    const level: Level :=
      match this
      case LmSubreqProblem => Bad
      case Ims304 => Good
      case ImsFull => Warn
      case ImsUnknown => Info
      case ImsStatus => Info
      case UnknownRange => Warn
      case Other(_, _, l) => l
  }

  /** A named template value, such as ("problem", <error description>). */
  type Param = (string, string)

  datatype Note = Note(kind: NoteKind, subject: string, params: seq<Param>)
}
