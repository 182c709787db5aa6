/**
  The `password` field. Its one rule asks for at least six UTF-16 code units. The
  value is passed on as typed.
*/
module PasswordField {
  import opened Text

  const MinLength := 6
  const TooShortMessage := "A senha precisa de no mínimo 6 caracteres!"

  /** The messages of the failing rules: the length rule counts UTF-16 code units. */
  function PasswordIssues(raw: string): (msgs: seq<string>)
    ensures msgs == [] <==> Utf16Length(raw) >= MinLength
    ensures msgs != [] ==> msgs == [TooShortMessage]
  {
    if Utf16Length(raw) < MinLength then [TooShortMessage] else []
  }

  /** Six characters always pass and two or fewer never do: a character outside
      the Basic Multilingual Plane counts as two units. */
  lemma LengthBounds(raw: string)
    ensures |raw| >= MinLength ==> PasswordIssues(raw) == []
    ensures 2 * |raw| < MinLength ==> PasswordIssues(raw) == [TooShortMessage]
  {
  }

  /** Three astral characters (six code units) pass although they are three characters. */
  lemma AstralExample()
    ensures PasswordIssues("\U{1F600}\U{1F600}\U{1F600}") == []
  {
  }
}
