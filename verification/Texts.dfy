/** White space as QString and QByteArray see it. */
module Texts {

  predicate IsSpace(c: char) { c == ' ' || '\t' <= c <= '\r' }

  /** QString::trimmed and QByteArray::trimmed. */
  function Trimmed(s: string): string {
    if s == [] then []
    else if IsSpace(s[0]) then Trimmed(s[1..])
    else if IsSpace(s[|s| - 1]) then Trimmed(s[..|s| - 1])
    else s
  }
}
