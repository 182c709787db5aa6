# User form schema

A model of the sign-up form of `form_avanc`: the declarative schema
`createUserFormSchema` that validates and normalises the three form values
`name`, `email` and `password`, the form resolver that turns the schema's issues
into one message per field, and the submit handler that passes the normalised
record to `createUser` only when nothing failed.

- `name` must be non-empty as typed ("O nome é obrigatório!"). On success it is
  trimmed, split at every literal single space, each word gets its first
  character upper-cased (the rest of the word is kept as typed), and the words
  are joined with one space again. Runs of spaces are not collapsed. An empty
  word — a name of white space only, or two spaces in a row — is not skipped: it
  makes `word[0]` `undefined`, and the transform throws a `TypeError`. That exception is not a
  validation message: it escapes validation, no message is shown and
  `createUser` is not called. The model calls this outcome `Fault`.
- `email` must be non-empty ("E-mail obrigatório!") and have the address shape
  ("Formato de email inválido"). On success it is lower-cased. Every rule of a
  field is checked, so an empty address fails both rules; the resolver shows the
  first one.
- `password` must be at least 6 long ("A senha precisa de no mínimo 6
  caracteres!") and is kept as typed. JavaScript's `length` counts UTF-16 code
  units, and the model counts them too.

Modules: `Text` (trim, split, join, case mapping, UTF-16 length), `NameField`,
`EmailField`, `PasswordField`, and `Schema` (the record, the issues, the
resolver's first-message selection and `Validate`).

All messages are the Portuguese literals of `src/App.tsx`.

## Model

| member | source | states |
|---|---|---|
| `Text.TrimWhiteSpaceSet` | src/App.tsx:8 | the white space `trim` removes includes the no-break space, the byte-order mark, the ideographic space and the line separator, and excludes the zero-width space, U+180E and U+0085 |
| `Text.Trim` | src/App.tsx:8 | the result is an infix of the input obtained by dropping only white space at both ends, and it neither starts nor ends with white space |
| `Text.TrimFixed` | src/App.tsx:8 | a string that neither starts nor ends with white space is left unchanged by trimming |
| `Text.TrimEmpty` | src/App.tsx:8 | trimming gives the empty string exactly when the input is white space only |
| `Text.Split` | src/App.tsx:8 | splitting gives at least one piece and no piece contains the separator |
| `Text.Join` | src/App.tsx:10 | the joined string is the pieces' total length plus one separator between each pair of neighbours long, starts with the first piece, and has the separator right after it when there are two pieces or more |
| `Text.JoinSplit` | src/App.tsx:8-10 | joining the pieces of a split with the same separator gives the input back |
| `Text.SplitJoin` | src/App.tsx:8-10 | splitting a join of separator-free pieces gives the pieces back |
| `Text.SplitEmptyPiece` | src/App.tsx:8-9 | a split has an empty piece exactly when the string is empty, starts or ends with the separator, or holds two separators in a row |
| `Text.Upper` | src/App.tsx:9 | the result is never a lower-case letter of Basic Latin or Latin-1 (a–z, à–þ), only those letters are changed, and each is paired with its capital: lower-casing the result gives the letter back |
| `Text.UpperKeepsNonLetters` | src/App.tsx:9 | upper-casing keeps white space and the space exactly, and upper-casing twice is upper-casing once |
| `Text.Lower` | src/App.tsx:17 | the result is never a capital of Basic Latin or Latin-1 (A–Z, À–Þ), only those capitals are changed, and each becomes a small letter |
| `Text.LowerUpper` | src/App.tsx:9 | for the modelled letters, upper-casing the lower-case form of a capital gives the capital back |
| `Text.LowerStr` | src/App.tsx:17 | lower-casing a string keeps its length and lower-cases every character on its own |
| `Text.LowerStrIdempotent` | src/App.tsx:17 | lower-casing an already lower-cased string changes nothing |
| `Text.Utf16Length` | src/App.tsx:18 | the length in code units lies between the number of characters and twice that, is zero only for the empty string, and equals the number of characters exactly when every character lies in the Basic Multilingual Plane |
| `Text.Utf16LengthChar` | src/App.tsx:18 | one character counts one code unit, or two when it lies outside the Basic Multilingual Plane |
| `Text.Utf16LengthConcat` | src/App.tsx:18 | the code-unit length of a concatenation is the sum of the two lengths |
| `NameField.NameIssues` | src/App.tsx:7 | the name fails its rule exactly when the raw string, before trimming, is empty, and then the message is "O nome é obrigatório!" |
| `NameField.CapitaliseWord` | src/App.tsx:9 | a word keeps its length, its first character is upper-cased and every other character is kept |
| `NameField.TransformName` | src/App.tsx:7-11 | the transform throws exactly when some word of the trimmed name is empty; otherwise its result is non-empty and starts with the first word's first character upper-cased |
| `NameField.CapitaliseAll` | src/App.tsx:8-10 | mapping over the words succeeds exactly when no word is empty, and then each word has only its first character upper-cased |
| `NameField.TransformNameSpec` | src/App.tsx:7-11 | the transform throws exactly when the trimmed name is empty or holds two spaces in a row; otherwise it returns the trimmed name with the first character of every word upper-cased |
| `NameField.CapitaliseJoin` | src/App.tsx:8-10 | capitalising word by word and joining with a space equals capitalising the word starts of the joined string |
| `NameField.TransformNameShape` | src/App.tsx:8-10 | on success the output has the trimmed name's length and its spaces at the same positions; the character at each word start is upper-cased; every other character is unchanged |
| `NameField.TransformNameIdempotent` | src/App.tsx:7-11 | transforming the transform's own output gives the same output |
| `NameField.CapitalisedFixpoint` | src/App.tsx:8-10 | a capitalised trimmed name is still trimmed, still has no empty word, and capitalising it again changes nothing |
| `NameField.SingleWord` | src/App.tsx:8-10 | a name without spaces after trimming gets no space added and only its first character upper-cased |
| `NameField.BlankNameThrows` | src/App.tsx:7-9 | a non-empty name of white space only passes the non-empty rule, and then the transform throws |
| `NameField.DoubleSpaceThrows` | src/App.tsx:8-9 | two spaces in a row inside a name make the transform throw although the name passes its rule |
| `NameField.UpperCaseNameKept` | src/App.tsx:9 | "JOHN" stays "JOHN": the rest of a word is not lower-cased |
| `NameField.MixedCaseNameCapitalised` | src/App.tsx:9 | "joHN" becomes "JoHN" |
| `EmailField.EmailIssues` | src/App.tsx:15-16 | the email fails exactly when it lacks the address shape; an empty email reports "E-mail obrigatório!" and then "Formato de email inválido", and a non-empty malformed one reports only the latter |
| `EmailField.ShapeIgnoresCase` | src/App.tsx:16-17 | the address pattern is case-insensitive, so for the modelled Latin-1 case mapping checking the shape before lower-casing is the same as checking it after |
| `EmailField.LoweredEmailStaysValid` | src/App.tsx:16-17 | a lower-cased valid email is still valid, and lower-casing it again changes nothing |
| `EmailField.EmailShapeAt` | src/App.tsx:16 | an address has the email shape exactly when it holds exactly one `@`, with a valid local part before it and a valid dotted domain after it |
| `EmailField.EmailShapeParts` | src/App.tsx:16 | an `@`-free local part and domain joined by `@` form an address exactly when both parts are valid |
| `EmailField.WellFormedExample` | src/App.tsx:16 | "ana@x.com" has the address shape |
| `EmailField.MissingDomainExample` | src/App.tsx:15-16 | "ana@" reports only "Formato de email inválido" |
| `PasswordField.PasswordIssues` | src/App.tsx:18 | the password fails exactly when it is shorter than 6 UTF-16 code units, and then the message is "A senha precisa de no mínimo 6 caracteres!" |
| `PasswordField.LengthBounds` | src/App.tsx:18 | six characters always pass, and a password of at most two characters never does |
| `PasswordField.AstralExample` | src/App.tsx:18 | three characters outside the Basic Multilingual Plane count as six units and pass |
| `Schema.FirstErrors` | src/App.tsx:30 | the resolver's map has an entry for exactly the fields some issue belongs to, and the first issue's field maps to the first issue's message |
| `Schema.FirstErrorsSpec` | src/App.tsx:30 | the resolver's map holds a field exactly when some issue belongs to it, with the message of that field's first issue |
| `Schema.FirstErrorsTag` | src/App.tsx:30 | a field's issues placed before issues of other fields decide that field's entry and leave the other entries unchanged |
| `Schema.Issues` | src/App.tsx:6-19 | the schema reports no issue exactly when no field fails |
| `Schema.IssuesErrors` | src/App.tsx:6-30 | the resolver's map over all the schema's issues holds exactly the failing fields, each with its first failing rule's message |
| `Schema.ThreeFieldErrors` | src/App.tsx:30 | for the message lists of the three fields in declaration order, the resolver's map holds a field exactly when its list is non-empty, with the first message of that list |
| `Schema.ValidateErrors` | src/App.tsx:6-19 | every field is checked: on failure the map holds exactly the failing fields, each with its first failing rule's message |
| `Schema.Validate` | src/App.tsx:6-40 | a fault needs a non-empty name whose transform throws; a failure carries at least one message and only happens when some rule failed; `createUser` is reached only when no rule failed, with the email lower-cased and the password as typed |
| `Schema.ValidateOutcome` | src/App.tsx:6-40 | a submission faults exactly when the name transform throws; otherwise it fails exactly when some field fails; `createUser` receives the capitalised trimmed name, the lower-cased email and the password as typed, and only when no field fails |
| `Schema.ValidateIdempotent` | src/App.tsx:6-19 | submitting the record that `createUser` received succeeds again with the same record |
| `Schema.EmptyFormExample` | src/App.tsx:7-18 | an empty form gets all three messages, and for the email only "E-mail obrigatório!" |
| `Schema.BlankNameExample` | src/App.tsx:7-9 | a white-space-only name faults even when other fields fail |
| `Schema.ShortPasswordExample` | src/App.tsx:6-19 | "maria silva", "M@X.COM", "12345" fails with the password message only |
| `Schema.Succeeds` | src/App.tsx:6-40 | a submission on which every field passes and whose email is already lower-case reaches `createUser` with the capitalised trimmed name and the email and password unchanged |
| `Schema.SuccessExample` | src/App.tsx:6-40 | "ana", "ana@x.com", "123456" reaches `createUser` with the name "Ana" |

## Left out

- The React component (src/App.tsx:23-87): state, `useForm`/`register`, markup and styling. Only the resolver's choice of the first message per field is modelled.
- The rendering of the record with `JSON.stringify` (src/App.tsx:34) is display output and is not modelled.
- The `TypeError` is modelled as the outcome `Fault` without its message or stack. It escapes `handleSubmit` as a rejected promise.
- The inputs always deliver strings, so the type rule of `z.string()` never fails and is not modelled.
- Text.Upper: maps only the letters of Basic Latin and Latin-1 (a–z, à–þ without ÷), as in a locale without special rules. Other characters are kept as they are, whereas `toLocaleUpperCase` also maps ÿ, µ, Greek, Cyrillic and others, and turns ß into "SS", which changes the length. `toLocaleUpperCase` also depends on the runtime's locale, which the model does not take as input: under a Turkish or Azerbaijani locale "i" becomes "İ", so "ivan" becomes "İvan" where the model gives "Ivan", and Lithuanian has rules of its own for dotted letters.
- Text.Lower: maps only A–Z and À–Þ (without ×). `toLowerCase` also maps characters beyond Latin-1, and İ becomes two code units.
- EmailField.ShapeIgnoresCase: holds only for the modelled case mapping. `toLowerCase` maps the KELVIN SIGN U+212A to "k", but the case-insensitive pattern without the `u` flag does not match U+212A, so "\u212A@x.com" fails the format rule at src/App.tsx:16 although its lower-cased form "k@x.com" passes. `Text.Lower` keeps U+212A, so the model cannot show this.
- The native `type="email"` check of the e-mail input (src/App.tsx:57) is not modelled. The form has no `noValidate`, so a browser blocks values such as "ana@" before `handleSubmit` runs, and it strips white space at both ends of the value. The model validates the value as the validation library receives it, so a message such as the one in `EmailField.MissingDomainExample` may never reach a user.
- EmailField.IsEmailShape: the version of the validation library is not fixed by the source. The model uses the case-insensitive pattern `^(?!\.)(?!.*\.\.)([A-Z0-9_'+\-\.]*)[A-Z0-9_+-]@([A-Z0-9][A-Z0-9\-]*\.)+[A-Z]{2,}$`. Other versions use other patterns.
- Strings are sequences of Unicode scalar values. A lone UTF-16 surrogate cannot be represented. `word[0]` on a word that starts with a character outside the Basic Multilingual Plane takes half of it; with the case mapping above, the result is the same.
