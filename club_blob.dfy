/** The loosely typed leadership values kept in a club's `details` JSON column, shared by
    the club editor (src/components/admin/EditClubDialog.tsx) and the club page
    (src/pages/ClubDetails.tsx). Older rows hold a single name, newer rows a list. */
module ClubBlob {
  /** A stored leadership value: missing (`undefined`/`null`), one string, or an array
      of strings. */
  datatype Raw = Absent | Str(s: string) | StrList(items: seq<string>)

  /** JavaScript truthiness of such a value: a string is truthy when non-empty, an array
      always (even when empty). */
  predicate Truthy(r: Raw) {
    match r
    case Absent => false
    case Str(s) => s != ""
    case StrList(_) => true
  }
}
