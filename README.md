# CRM adapter, modelled in Dafny

This project models `src/crmAdapter.ts`, a small case-intake adapter. It
covers four parts of the adapter:

- **Text rules.** `isEmail` checks an address against a fixed pattern.
  `normalizePhone` canonicalises a phone number. `redactPII` replaces
  word-bounded nine-digit runs with `[REDACTED-SSN]`, then runs of sixteen
  or more digits with `[REDACTED-CARD]`.
- **Case construction.** `buildCrmCase` runs four validations in a fixed
  order and builds the stored record.
- **The case store.** `createCase` appends to the store. `listCases`
  filters it by status and category, then cuts out one page.
- **The token cache.** `getAuthToken` keeps a single cached token.
  `__resetStore` clears both the store and the token.

The modules are laid out as follows:

- `Wrappers` holds the `Option` and `Result` types.
- `Text` holds the ECMAScript character classes `\s`, `\d` and `\w`, plus
  `trim` and ASCII `toLowerCase`.
- `Email` runs the address pattern as a finite automaton. It is proved to
  accept exactly the strings the pattern describes.
- `Phone` models `normalizePhone`.
- `Redaction` models each global `replace` as the left-to-right scan that
  JavaScript performs. It is proved equal to a token view that rewrites
  whole runs of word characters. The guarantees of `redactPII` are proved on
  that view: nothing redactable is left, the function is idempotent, and
  text is kept in order.
- `Cases` models the validations and `buildCrmCase`.
- `Listing` models `listCases` over a given store.
- `TokenCache` models the cache policy.
- `Adapter` is the module state (`_cases` and `_token`) as one object,
  `CrmAdapter`. Its methods update it in place.

Where a prose description of the adapter and the code differ, the model
follows the code:

- `normalizePhone("")` gives `undefined`.
- The length limit of 120 applies to the untrimmed subject.
- An empty `veteranId` is not checked, and it is copied through as given.

## Model

| member | source | states |
|---|---|---|
| Text.IsSpace | src/crmAdapter.ts:29 | definition of the class `\s` (and of what `trim` strips): the ECMAScript WhiteSpace and LineTerminator code points; used by `Email.IsEmailMeansShape` and `Text.Trim` |
| Text.IsDigit | src/crmAdapter.ts:44-45 | definition of the class `\d`: the ASCII digits only; promises proved in `Phone.Digits` and `Redaction.DigitsFrom` |
| Text.IsWordChar | src/crmAdapter.ts:44-45 | definition of the class `\w`, which decides where `\b` lies; promises proved in `Redaction.MatchLengthIsTheMatch` |
| Text.Trim | src/crmAdapter.ts:49 | the result is the input with exactly its leading and trailing whitespace cut; it starts and ends with a non-space character; it is empty exactly when the input is all whitespace |
| Text.TrimmedIsFixed | src/crmAdapter.ts:61 | a string that begins and ends with a non-space character is its own trim |
| Text.TrimIdempotent | src/crmAdapter.ts:61 | trimming twice is trimming once |
| Text.ToLower | src/crmAdapter.ts:63 | definition of `toLowerCase` restricted to ASCII; promises proved in `Text.ToLowerLowers`, `Text.LowerCharFacts` and `Email.IsEmailToLower` |
| Text.ToLowerLowers | src/crmAdapter.ts:63 | a lower-cased string has no upper-case letter, and lower-casing it again changes nothing |
| Text.LowerCharFacts | src/crmAdapter.ts:63 | lower-casing a character never changes whether it is whitespace, '@' or '.' |
| Email.IsEmail | src/crmAdapter.ts:28-30 | definition of `isEmail`: the pattern's automaton run from its start state ends accepting; promises proved in `Email.IsEmailMeansShape`, `Email.IsEmailHasOneAt` and `Email.IsEmailToLower` |
| Email.RunTopLevel | src/crmAdapter.ts:29 | from the accepting state, the matcher accepts exactly the strings made only of `[^\s@]` characters |
| Email.RunDomain | src/crmAdapter.ts:29 | after the first domain character, the matcher accepts exactly the `[^\s@]` strings with a '.' that something follows |
| Email.RunAfterAt | src/crmAdapter.ts:29 | after the '@', the matcher accepts exactly a `[^\s@]` domain with a '.' that is neither first nor last |
| Email.RunLocal | src/crmAdapter.ts:29 | inside the local part, the matcher accepts exactly the strings that split at an '@' into `[^\s@]` characters and a valid domain |
| Email.IsEmailMeansShape | src/crmAdapter.ts:28-30 | `isEmail` holds exactly when the address has a non-empty `[^\s@]` local part, one '@', and a `[^\s@]` domain in which a '.' is neither first nor last |
| Email.IsEmailHasOneAt | src/crmAdapter.ts:28-30 | an accepted address has no whitespace and exactly one '@', which is not its first character |
| Email.IsEmailToLower | src/crmAdapter.ts:51 | checking the raw email or the lower-cased email gives the same answer |
| Phone.Digits | src/crmAdapter.ts:34 | removing non-digits leaves only digits and never lengthens the string |
| Phone.DigitsAppend | src/crmAdapter.ts:34 | the digits of a concatenation are the digits of the parts, in order |
| Phone.DigitsOfDigits | src/crmAdapter.ts:34 | a string of digits is its own digit string |
| Phone.FormatTen | src/crmAdapter.ts:35-37 | definition of the `AAA-BBB-CCCC` template of both canonical branches; promises proved in `Phone.FormatTenKeepsDigits` |
| Phone.FormatTenKeepsDigits | src/crmAdapter.ts:35 | the `AAA-BBB-CCCC` layout has twelve characters, dashes at positions 3 and 7, and exactly the ten given digits |
| Phone.CanonicalByDigits | src/crmAdapter.ts:35-37 | two canonical numbers with the same digits are equal |
| Phone.NormalizePhone | src/crmAdapter.ts:32-40 | definition of `normalizePhone`; promises proved in `Phone.NormalizePhoneSpec` and `Phone.NormalizePhoneIdempotent` |
| Phone.NormalizePhoneSpec | src/crmAdapter.ts:32-40 | absent or empty input gives nothing; ten digits, or eleven digits starting with 1, give the canonical layout of the last ten; any other input comes back unchanged |
| Phone.NormalizePhoneIdempotent | src/crmAdapter.ts:32-40 | normalising a normalised number changes nothing |
| Redaction.DigitsFrom | src/crmAdapter.ts:44-45 | the digit run counted at an index is all digits and is followed by a non-digit or by the end |
| Redaction.MatchLength | src/crmAdapter.ts:44-45 | definition of one attempt of `\b\d{9}\b` or `\b\d{16,}\b` at an index, giving the match's length or 0; promises proved in `Redaction.MatchLengthIsTheMatch` |
| Redaction.ReplaceFrom | src/crmAdapter.ts:44-45 | definition of the global `replace` scan from an index: on a match emit the placeholder and resume after it, otherwise copy one character; promises proved in `Redaction.ReplaceIsRuns` and `Redaction.ReplaceFromWithoutMatch` |
| Redaction.Replace | src/crmAdapter.ts:44-45 | definition of one `replace` call with the rule's global pattern, the scan from index 0; promises proved in `Redaction.ReplaceIsRuns` |
| Redaction.RedactPII | src/crmAdapter.ts:42-46 | definition of `redactPII`, the SSN replace and then the card replace; promises proved in `Redaction.RedactPIIAsRuns`, `Redaction.RedactPIIIsPIIFree`, `Redaction.RedactPIIIdempotent`, `Redaction.RedactPIIKeepsCleanText` and `Redaction.RedactPIIAppend` |
| Redaction.MatchLengthIsTheMatch | src/crmAdapter.ts:44-45 | a rule's pattern matches at an index with exactly one length, the one the scan uses, so backtracking finds nothing else |
| Redaction.ReplaceIsRuns | src/crmAdapter.ts:44-45 | one global replace equals rewriting each maximal word run that is all digits and of the rule's length, keeping everything else |
| Redaction.RedactRunsAppend | src/crmAdapter.ts:43-45 | the token view of two texts joined at a seam that cuts no word run is the token view of each part, concatenated |
| Redaction.RedactRunsWithoutDigits | src/crmAdapter.ts:43-45 | the token view leaves text without digits unchanged |
| Redaction.RedactRunsOneRun | src/crmAdapter.ts:43-45 | the token view of a single word run rewrites it as a whole |
| Redaction.PlaceholderShape | src/crmAdapter.ts:44-45 | a placeholder has no digit and ends with a non-word character |
| Redaction.TwoPassesAreOne | src/crmAdapter.ts:43-45 | the card pass after the SSN pass equals one pass that tries the SSN rule and then the card rule on each run |
| Redaction.RedactPIIAsRuns | src/crmAdapter.ts:42-46 | `redactPII` turns each nine-digit word run into the SSN placeholder and each word run of sixteen or more digits into the card placeholder, and keeps the rest in order |
| Redaction.NoMatchAppend | src/crmAdapter.ts:44-45 | across a seam that cuts no word run, a pattern matches in the whole exactly where it matches in a part |
| Redaction.NoMatchInKeptRun | src/crmAdapter.ts:44-45 | a word run that the rule leaves alone contains no match of the rule |
| Redaction.RedactRunsLeavesNoMatch | src/crmAdapter.ts:43-45 | neither pattern matches anywhere in the output of the token view |
| Redaction.PIIFreeIsNoMatch | src/crmAdapter.ts:44-45 | no word-bounded match of either pattern exists exactly when the scan finds none |
| Redaction.RedactPIIIsPIIFree | src/crmAdapter.ts:42-46 | the output of `redactPII` has no word-bounded run of exactly nine digits and none of sixteen or more |
| Redaction.ReplaceFromWithoutMatch | src/crmAdapter.ts:44-45 | a replace finds nothing to do in text where its pattern never matches |
| Redaction.RedactPIIKeepsCleanText | src/crmAdapter.ts:42-46 | text with nothing to redact comes back unchanged |
| Redaction.RedactPIIIdempotent | src/crmAdapter.ts:42-46 | redacting twice is redacting once |
| Redaction.RedactPIIAppend | src/crmAdapter.ts:42-46 | text split at a seam that cuts no word run is redacted piece by piece |
| Cases.CategoryNamed | src/crmAdapter.ts:54-55 | gives the category with that exact name, or nothing when no category has it |
| Cases.ResolveCategory | src/crmAdapter.ts:54-57 | a requested name that is one of the four categories is kept; an absent or unknown name gives "General" |
| Cases.ResolveCategoryRoundTrip | src/crmAdapter.ts:54-57 | requesting a category by its own name gives that category |
| Cases.IsVeteranId | src/crmAdapter.ts:52 | definition of the test `/^\d{9}$/`: exactly nine ASCII digits |
| Cases.VeteranIdAccepted | src/crmAdapter.ts:52 | definition of the veteran id rule: an absent or empty id is not checked, any other must be nine digits; promises proved in `Cases.Validate` and `Cases.BuiltCaseIsWellFormed` |
| Cases.Violates | src/crmAdapter.ts:49-52 | definition of each of the four rules on its own; promises proved in `Cases.Validate` and `Cases.BuildCrmCase` |
| Cases.Validate | src/crmAdapter.ts:49-52 | no error exactly when no rule is broken; otherwise the error is a broken rule, and the first broken one in check order |
| Cases.BuildCrmCase | src/crmAdapter.ts:48-71 | fails exactly when a rule is broken, with the first broken rule; on success it sets every field: trimmed subject, lower-cased email, redacted description, normalised phone, resolved category, status "New", the given veteran id, timestamp and id |
| Cases.BuiltCaseIsWellFormed | src/crmAdapter.ts:49-69 | a built case has a non-empty trimmed subject of at most 120 characters, a valid lower-case email, a description with nothing to redact, status "New", an accepted veteran id and no empty phone |
| Cases.AppendWellFormed | src/crmAdapter.ts:77 | appending a well-formed case keeps every stored case well formed |
| Listing.Select | src/crmAdapter.ts:93-95 | the selection holds exactly the stored cases that pass every given filter, and is no longer than the store |
| Listing.WithStatus | src/crmAdapter.ts:94 | the status filter keeps exactly the cases with that status |
| Listing.WithCategory | src/crmAdapter.ts:95 | the category filter keeps exactly the cases with that category |
| Listing.WithCategoryOfStatus | src/crmAdapter.ts:94-95 | filtering by status and then by category equals selecting by both |
| Listing.WithCategoryAppend | src/crmAdapter.ts:95 | the category filter of a concatenation is the filter of each part, in order |
| Listing.WithStatusIsSelect | src/crmAdapter.ts:94 | the status filter alone equals selecting by status |
| Listing.WithCategoryIsSelect | src/crmAdapter.ts:95 | the category filter alone equals selecting by category |
| Listing.SelectNoFilter | src/crmAdapter.ts:93 | with no filters, the selection is the whole store in order |
| Listing.SelectIgnoresPaging | src/crmAdapter.ts:89 | which cases are selected does not depend on the page parameters |
| Listing.Filtered | src/crmAdapter.ts:93-95 | definition of the two filter steps of `listCases`, each applied only when its parameter is given; promises proved in `Listing.FilteredIsSelect` |
| Listing.FilteredIsSelect | src/crmAdapter.ts:93-95 | the two filter steps together keep exactly the selection, in store order |
| Listing.SelectAppend | src/crmAdapter.ts:94-95 | a case added at the end of the store shows up at the end of the selection if it passes the filters, and not at all otherwise |
| Listing.Slice | src/crmAdapter.ts:98 | definition of `Array.prototype.slice` for non-negative arguments; promises proved in `Listing.PageOfSlice` and `Listing.ListCases` |
| Listing.PageOfSlice | src/crmAdapter.ts:97-98 | a page holds at most `pageSize` items; it is empty once its start is at or past the end, and otherwise it is the run of the selection from that start |
| Listing.ListCases | src/crmAdapter.ts:88-101 | `pageSize` is max(1, requested or 20) and `page` is max(1, requested or 1); `total` counts the selection before slicing; `items` holds at most `pageSize` cases and is the selection's run from `(page-1)*pageSize`, empty once that start reaches `total`; every item is a stored case that passes the filters |
| Listing.DivideIntoPages | src/crmAdapter.ts:97 | index k lies on page k / pageSize + 1, at offset k mod pageSize |
| Listing.PageItem | src/crmAdapter.ts:97-98 | item j of a page is the selected case at the page's start plus j |
| Listing.PageOfIndex | src/crmAdapter.ts:88-101 | the pages tile the selection: the k-th selected case is item k mod pageSize of page k / pageSize + 1 |
| TokenCache.FetchToken | src/crmAdapter.ts:105-113 | a cached token that is live, `expiresAt >= now`, is handed out unchanged; otherwise a new `tok_` token expiring at now + 60000 is; the token handed out is live at `now` |
| TokenCache.ReuseUntilExpiry | src/crmAdapter.ts:107-108 | asking again at any time up to the handed-out token's expiry, the boundary included, gives the same token |
| TokenCache.FreshTokenLifetime | src/crmAdapter.ts:107-111 | a fresh token is still served 60000 ms later, and it is replaced 1 ms after that |
| TokenCache.ExpiredIsReplaced | src/crmAdapter.ts:110-111 | once the cached token has expired, the token handed out is a new one, `tok_` with the new suffix, and it expires 60000 ms after the request |
| Adapter.CrmAdapter.constructor | src/crmAdapter.ts:73 | the adapter starts with no cases and no token |
| Adapter.CrmAdapter.CreateCase | src/crmAdapter.ts:75-79 | returns what `buildCrmCase` returns; on success the store becomes the old store plus that case; on failure the store is unchanged; the token is untouched; every stored case stays well formed |
| Adapter.CrmAdapter.ListCases | src/crmAdapter.ts:88-101 | `total` is at most the store size; every listed case is stored, passes the filters and is well formed |
| Adapter.CrmAdapter.GetAuthToken | src/crmAdapter.ts:105-113 | a live cached token is kept and its value returned; otherwise the slot gets a new token expiring at now + 60000, and its value is returned; the store is untouched |
| Adapter.CrmAdapter.ResetStore | src/crmAdapter.ts:115 | the store is emptied and the token cleared |
| Adapter.CreatedCaseIsListed | src/crmAdapter.ts:75-101 | a new case that passes a query's filters is listed at the end of that query's selection, and the query's total grows by one |

## Left out

- `Math.random` suffixes of case ids and token values are parameters (`randomPart`). The code does not guarantee that they are unique, so the model claims no uniqueness.
- `Date` and `toISOString` are left out. The creation timestamp is an opaque string parameter (`createdAt`), and the current time of `getAuthToken` is an integer parameter (`now`).
- The `async`/`Promise` wrapper of `getAuthToken` is dropped, because its logic is synchronous. `Adapter.CrmAdapter.GetAuthToken` is a plain method.
- Thrown errors are a `Failure` result, which carries one of four errors. Each error's `Message()` is the thrown message.
- Text.ToLower: lower-cases only the ASCII letters A-Z; non-ASCII case mappings of `toLowerCase` are not modelled.
- Text.IsSpace: the whitespace set is the ECMAScript WhiteSpace and LineTerminator code points. A character outside the basic multilingual plane is one Dafny character, not the UTF-16 surrogate pair JavaScript sees. This matters only for lengths, as the next line says.
- Cases.Validate: string lengths count Dafny characters rather than UTF-16 code units, so a subject containing surrogate pairs is not modelled.
- Cases.Validate: the subject test is stated as "the subject is all whitespace". By the contract of `Text.Trim`, this is the same as "the trimmed subject is empty". An empty subject is also all whitespace, which covers the `!input.subject` test.
- Listing.ListParams: `page` and `pageSize` are optional integers. Non-integer, `NaN` and infinite numbers are not modelled, and neither is floating-point rounding of `(page - 1) * pageSize` for very large values.
- TokenCache.FetchToken: `now + 60000` is exact integer arithmetic, not floating point.
- The module-level `_cases` array and `_token` slot are fields of one `Adapter.CrmAdapter` object. Several adapters can therefore exist side by side, where the source has a single global store.
- Adapter.CrmAdapter: in the source, `createCase` returns the very object it pushes onto `_cases` (src/crmAdapter.ts:76-78), and `listCases` returns items of the shallow copy `_cases.slice()` (src/crmAdapter.ts:93, src/crmAdapter.ts:98), so callers hold the stored objects themselves. A caller that assigns to a field of a returned case, for example `status` or `email`, changes the store, and the filters of later `listCases` calls see the new value. The model treats cases as immutable values, so this sharing is not modelled. The invariant that every stored case is well formed (`Valid`, with status "New" among its parts) holds in the source only as long as callers do not mutate returned cases.
- No operation of the adapter changes a case's status after creation, so no status transitions are modelled. Changes made through shared objects are covered by the previous line.
