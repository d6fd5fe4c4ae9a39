# Email finder: candidate address generation, in Dafny

This project models the core of the email-finder route handler
(`app/api/find-email/route.ts`). Given a first name, a last name and a
company domain, the handler does three things in order:

1. It rejects a request with a missing field.
2. It rejects a domain that fails its domain regular expression.
3. Otherwise it returns one candidate address per entry of a fixed catalog
   of twelve naming conventions, in catalog order. Each candidate carries
   the entry's description and confidence tier.

The model has six modules:

- `Text` (`text.dfy`): the string primitives the handler relies on.
  - ASCII character classes.
  - `toLowerCase` and `toUpperCase` over ASCII.
  - `charAt(0)` (`Initial`).
  - `String.prototype.replace` with a string pattern (`ReplaceFirst`). It
    replaces only the first occurrence and inserts the replacement verbatim.
- `Template` (`template.dfy`): the five placeholder tokens, and templates
  described as layouts (literal pieces and placeholder holes).
  - `Spell` gives the text a layout is written as.
  - `Render` is the reference meaning of a layout: every hole is replaced by
    its value.
  - `ReplaceTokenFillsHoles` is the bridge between the two. It shows that
    one single-occurrence `replace` of a token fills that token's hole. This
    holds because literals contain no `{` and no token is a prefix of
    another; in particular `{first}` does not match inside `{firstInitial}`.
- `Catalog` (`catalog.dfy`): the twelve `emailPatterns` entries, copied
  exactly. Each template is shown to be a local-part layout followed by
  `@{domain}`.
- `Generator` (`generator.dfy`): `generateEmail`. It lowercases the names,
  takes their initials, and applies the five replacements in the code's
  order. The chain is one instance of `Template.ReplaceEach`, the
  replacement of a list of tokens in turn. For names without `{`, the
  result is proved equal to the rendered layout.
- `DomainSyntax` (`domain.dfy`): the domain check
  `^[a-zA-Z0-9][a-zA-Z0-9-]{0,61}[a-zA-Z0-9]?\.[a-zA-Z]{2,}$`, in three
  forms proved equivalent:
  - the regex read structurally (`MatchesDomainRegex`);
  - "one label of 1 to 63 label characters, one dot, two or more letters"
    (`LabelDotSuffix`);
  - an executable left-to-right scanner (`Accepts`), which is what the
    handler model runs.
- `FindEmail` (`find_email.dfy`): the decision logic of `POST` as the pure
  function `Handle`. It returns `MissingField`, `InvalidDomain` or
  `Found(results)`.

The handler is deterministic: `Handle` is a function of its three strings
and has no state. Calling it twice with the same request gives the same
response.

## Model

| member | source | states |
|---|---|---|
| Text.LowerOfUpper | email-finder-agent/app/api/find-email/route.ts:25-26 | After lowercasing, the case a name was typed in no longer matters: lowercasing the uppercased string equals lowercasing the original. |
| Text.ToLower | email-finder-agent/app/api/find-email/route.ts:25-26 | `toLowerCase` keeps the length, agrees with the name character by character up to case, and leaves no uppercase letter. `LowerIsDetermined` shows these facts fix every character of the result. |
| Text.InitialOfLower | email-finder-agent/app/api/find-email/route.ts:25-28 | The initial taken from the lowercased name is the lowercased initial of the name as typed. An empty name has the empty initial. |
| Text.ReplaceFirstAtLeftmost | email-finder-agent/app/api/find-email/route.ts:31-35 | When the pattern first occurs at index i, `replace` returns the text before i, then the replacement, then the text after that occurrence. Later occurrences are left untouched. |
| Text.ReplaceFirstWithoutOccurrence | email-finder-agent/app/api/find-email/route.ts:31-35 | When the pattern does not occur, `replace` returns its input unchanged. |
| Text.ReplaceFirstSkips | email-finder-agent/app/api/find-email/route.ts:31-35 | A prefix in which the pattern starts nowhere is copied as is, and the replacement acts on what follows. |
| Template.TokensPrefixFree | email-finder-agent/app/api/find-email/route.ts:31-35 | No placeholder token is a prefix of another token followed by any text. So `{first}` is never found at the start of `{firstInitial}`, and `{last}` never at the start of `{lastInitial}`. |
| Template.ReplaceTokenFillsHoles | email-finder-agent/app/api/find-email/route.ts:30-35 | For a layout with brace-free literals and distinct placeholders, one `replace` of a token on the spelled template gives the spelling of the layout with that token's hole filled. |
| Template.ReplaceEachFillsHoles | email-finder-agent/app/api/find-email/route.ts:30-35 | For a layout with brace-free literals and distinct placeholders, a chain of `replace` calls (one per token, in a given order) on the spelled template spells the layout with each of those holes filled. This holds as long as no value inserted before the last step contains `{`. |
| Template.FillEachAt | email-finder-agent/app/api/find-email/route.ts:30-35 | Filling a list of placeholders in turn keeps the layout's length. A hole whose placeholder is in the list becomes a literal holding its value, and every other piece is kept. |
| Template.FillEachRenders | email-finder-agent/app/api/find-email/route.ts:30-35 | When every hole of a layout is among the placeholders filled, the spelled result is the reference rendering. |
| Catalog.CatalogLayout | email-finder-agent/app/api/find-email/route.ts:9-22 | Every one of the twelve templates is its local-part layout followed by `@{domain}`. The layout uses each placeholder at most once, never `{domain}`, and has no `{` or `@` in its literals. So the template's only `@` is the one before the domain. |
| Catalog.SpellHasNoAt | email-finder-agent/app/api/find-email/route.ts:9-22 | The spelled text of a local-part layout contains no `@`. |
| Generator.GenerateRendersLayout | email-finder-agent/app/api/find-email/route.ts:24-38 | For names without `{` and a well-formed layout, `generateEmail` equals the layout rendered with the lowercased names, their first letters and the domain. |
| Generator.CatalogEmail | email-finder-agent/app/api/find-email/route.ts:9-38 | For names without `{`, catalog entry i generates its local part, rendered from the lowercased names and initials, followed by `@` and the domain exactly as given. |
| Generator.GenerateIgnoresCase | email-finder-agent/app/api/find-email/route.ts:24-28 | Uppercasing the names does not change any generated address. |
| Generator.JohnDoeAtAcme | email-finder-agent/app/api/find-email/route.ts:9-38 | John / Doe / acme.com generates `john.doe@acme.com`, `jdoe@acme.com` and `doejohn@acme.com` for the dot, initial-plus-last and reversed entries. |
| Generator.TokenInNameSurvives | email-finder-agent/app/api/find-email/route.ts:30-35 | A name that contains a token is rewritten by a later replacement. First name `{last}`, last name `Doe` and `acme.com` give `doe.{last}@acme.com` for the dotted entry, because the inserted `{last}` is replaced and the template's own `{last}` is not. |
| Generator.RepeatedPlaceholderSurvives | email-finder-agent/app/api/find-email/route.ts:30-35 | Replacement is single-occurrence: the template `{first}.{first}@{domain}` (not in the catalog) would yield `ann.{first}@x.io` for Ann / Lee / x.io, with the second placeholder kept literally. |
| DomainSyntax.RegexIsLabelDotSuffix | email-finder-agent/app/api/find-email/route.ts:53 | A string matches the regex exactly when it is one label, then one dot, then at least two ASCII letters. The label has 1 to 63 characters from `[A-Za-z0-9-]`, starts alphanumeric, and also ends alphanumeric when it has exactly 63 characters. |
| DomainSyntax.ScanTracksExpected | email-finder-agent/app/api/find-email/route.ts:53-54 | After every prefix, the scanner's state is the one the label-dot-suffix reading owes that prefix. |
| DomainSyntax.AcceptsIsLabelDotSuffix | email-finder-agent/app/api/find-email/route.ts:53-54 | The scanner accepts exactly the label-dot-suffix strings. |
| DomainSyntax.ScannerMatchesRegex | email-finder-agent/app/api/find-email/route.ts:53-54 | The executable scanner accepts a string if and only if the regex matches it. |
| DomainSyntax.AcceptedDomainShape | email-finder-agent/app/api/find-email/route.ts:53-54 | An accepted domain has exactly one dot. Every other character is a letter, digit or hyphen, so it contains no `{`, `}` or `$`. |
| DomainSyntax.AcceptedExamples | email-finder-agent/app/api/find-email/route.ts:53 | `acme.com` is accepted, and so is `a-.com`: a label shorter than 63 characters may end with a hyphen. |
| DomainSyntax.RejectsNoDot | email-finder-agent/app/api/find-email/route.ts:53 | `acme` is rejected: there is no dot. |
| DomainSyntax.RejectsTwoDots | email-finder-agent/app/api/find-email/route.ts:53 | `mail.acme.com` is rejected: a subdomain is not admitted. |
| DomainSyntax.RejectsLeadingHyphen | email-finder-agent/app/api/find-email/route.ts:53 | `-acme.com` is rejected: a label starting with a hyphen is not admitted. |
| DomainSyntax.RejectsShortSuffix | email-finder-agent/app/api/find-email/route.ts:53 | `acme.c` is rejected: the suffix needs at least two letters. |
| DomainSyntax.LongestLabel | email-finder-agent/app/api/find-email/route.ts:53 | A 63-character label followed by `.com` is accepted if and only if its last character is alphanumeric. |
| DomainSyntax.LabelTooLong | email-finder-agent/app/api/find-email/route.ts:53 | A 64-character label followed by `.com` is always rejected. |
| FindEmail.Handle | email-finder-agent/app/api/find-email/route.ts:45-66 | `MissingField` exactly when some field is empty, checked before the domain. `InvalidDomain` exactly when every field is present and the regex rejects the domain. Otherwise twelve results, where result i carries entry i's generated address, description and confidence. |
| FindEmail.ErrorMessage | email-finder-agent/app/api/find-email/route.ts:45-58 | The two error responses carry different texts: `firstName, lastName, and domain are required` for a missing field and `Invalid domain format` for a bad domain. |
| FindEmail.HandleEmails | email-finder-agent/app/api/find-email/route.ts:62-66 | In a successful response with names without `{`, result i is entry i's rendered local part, `@`, and the requested domain verbatim. |
| FindEmail.HandleIgnoresCase | email-finder-agent/app/api/find-email/route.ts:45-66 | The whole response is the same whether the names are sent uppercased or not. |
| FindEmail.SingleLetterSurnameCollides | email-finder-agent/app/api/find-email/route.ts:62-66 | Results are not deduplicated. With a one-letter surname, the no-separator entry and the first-plus-last-initial entry give the same address, and both are listed under their own descriptions. |
| FindEmail.JaneSmithAtExampleOrg | email-finder-agent/app/api/find-email/route.ts:45-66 | Jane / Smith / example.org succeeds with twelve results. The first is `jane.smith@example.org` (Standard, high) and the fifth is `jsmith@example.org` (First initial + last, high). |

## Left out

- The frontend page (`app/page.tsx`) and all rendering. Only the route handler is modelled.
- JSON body parsing, `NextResponse`, and the HTTP status codes (400 for both errors, 200 for results). `Handle` returns which of the three outcomes applies, and `ErrorMessage` returns the error text.
- The `catch` path with status 500 (`Internal server error`): it is reached only through a malformed request body or a runtime failure, which the model has no way to express.
- FindEmail.Handle: the fields are strings. JavaScript truthiness of non-string values (numbers, `null`, objects) is not modelled; a missing field is an empty string.
- Text.ToLower: covers ASCII letters only. Unicode case mapping (for example `İ` or `ß`) is not modelled.
- Text.Initial: a string is a sequence of characters. JavaScript's `charAt(0)` returns one UTF-16 code unit, which for a name starting with a character outside the Basic Multilingual Plane is half a surrogate pair; that is not modelled.
- Text.ReplaceFirst: the replacement text is inserted verbatim. JavaScript would interpret `$&`, `` $` ``, `$'` and `$$` inside a replacement string. Names containing `$` can therefore differ from the model. The domain cannot contain `$` after validation (`AcceptedDomainShape`).
- Generator.GenerateRendersLayout: stated for names without `{`. A name containing a placeholder token can be rewritten by a later replacement, and the general statement does not hold then (`TokenInNameSurvives`). Plain `GenerateEmail` covers every input.
- A replacement of every occurrence of each token would be the more robust design. The code replaces only the first occurrence, and the model follows the code (`RepeatedPlaceholderSurvives`). For names without `{`, no catalog template repeats a placeholder (`CatalogLayout`), and every placeholder is filled by the first-occurrence chain (`GenerateRendersLayout`). A name that contains a token is where the two designs part (`TokenInNameSurvives`).
