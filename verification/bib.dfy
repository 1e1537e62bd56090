/**
 * BibTeX entries as the handlers see them: bibtexparser's dict from field
 * name to field text. A missing field and an empty one are both read as "".
 */
module Bib {
  import opened Text

  /** A BibTeX entry: field name to field text. */
  type Entry = map<string, string>

  /** entry.get(name, "") */
  function Field(e: Entry, name: string): string
  {
    if name in e then e[name] else ""
  }

  /** entry.get(name, fallback): the fallback only when the field is missing. */
  function FieldOr(e: Entry, name: string, fallback: string): string
  {
    if name in e then e[name] else fallback
  }

  /** entry.get("ID", "unknown"), the key a Change names. */
  function EntryKey(e: Entry): string
  {
    FieldOr(e, "ID", "unknown")
  }

  /** Python `a or b` on strings. */
  function OrElse(a: string, b: string): string
  {
    if a != "" then a else b
  }

  /** A field the handlers add for their own bookkeeping (`_source_file`, `_source_category`, ...). */
  predicate Internal(name: string) { StartsWith(name, "_") }

  /** The entry without its internal fields, as written back to a .bib file. */
  function PublicFields(e: Entry): (r: Entry)
    ensures forall k :: k in r <==> k in e && !Internal(k)
    ensures forall k :: k in r ==> r[k] == e[k]
  {
    map k | k in e && !Internal(k) :: e[k]
  }

  /** Dropping internal fields keeps every other field, changes nothing a second time, and leaves a clean entry as it is. */
  lemma PublicFieldsFacts(e: Entry)
    ensures PublicFields(PublicFields(e)) == PublicFields(e)
    ensures (forall k :: k in e ==> !Internal(k)) ==> PublicFields(e) == e
    ensures forall k :: k in e && !Internal(k) ==> Field(PublicFields(e), k) == Field(e, k)
  {
  }
}
