# request-parser in Dafny

A model of the request-decoding functions of `request-parser`
(`index.mjs`), with proofs of what they promise:

- `parsePathParams` matches a path against a template with typed
  placeholders (`:`, `w:`, `d:`, `b:`, `*:`). It gives a parameter map,
  `null`, an "Unsupported template flag" error, or the URIError of the
  percent-decoder.
- `parseValue` coerces one decoded text to a string, boolean, null,
  integer, float or JSON value.
- `parseFormData` and `parseQueryParams` decode `key=value&...` texts.
- `splitAuthToken` splits the token of a `Bearer` authorization header.
- `parseRequestBody` chooses how a request body is decoded from its
  Content-Type.

The two loops of the source, in `parsePathParams` and `parseFormData`, are
methods with `for` loops over the split segments and a map variable. Each is
proved equal to a specification function: `PathParamsOf` and
`FormDataOf`. Both specifications first turn every segment into an outcome
that does not depend on the map built so far (`Outcome` and `Entry`). They
then run those outcomes left to right (`RunFrom` and `FillFrom`). The
properties are proved about these functions: which keys a result has, that
the last write to a key wins, and that the first failing segment decides.
The other functions are Dafny functions whose postconditions state their
branches.

Modules:

| file | module | what |
|---|---|---|
| wrappers.dfy | Wrappers | `Option` (`undefined`, a failing decode) |
| uri.dfy | Uri | the percent-decoder, as a parameter |
| text.dfy | Text | `indexOf`, `includes`, `startsWith`, `endsWith`, `split`, `join` |
| decimal.dfy | Decimal | `\d` digit strings and their base-10 value |
| values.dfy | Values | `parseValue` |
| path_params.dfy | PathParams | `parsePathParams` |
| forms.dfy | Forms | `parseFormData`, `parseQueryParams` |
| body.dfy | Body | `parseRequestBody` |
| auth.dfy | Auth | `splitAuthToken` |

Where the comments or the tests of the repository and the code differ, the
model follows the code:

- `*:` accepts the empty segment. The check at index.mjs:86 can never fail,
  because a segment of `split("/")` holds no `/`.
- A `b64:` flag is not one of the five flags. The matcher raises the
  unsupported-flag error for it, although tests/parse-path-params.test.mjs:64-73
  expects base64 decoding.
- `parseRequestBody` does not throw for an empty or unsupported
  Content-Type string, although its comment at index.mjs:118 says it does.
  It returns the body bytes unchanged (index.mjs:140), and so does the model.

## Model

| member | source | states |
|---|---|---|
| Text.IndexOfFirst | index.mjs:40 | `indexOf` gives the first index where the separator occurs, and -1 exactly when it occurs nowhere |
| Text.Split | index.mjs:24-27 | `split` on a non-empty separator gives at least one piece, and two or more exactly when the separator occurs; joining the pieces with the separator gives the text back; no piece holds the separator; the first piece ends at the first occurrence |
| Text.SplitCount | index.mjs:24-29 | splitting on a character gives one piece more than the character's occurrences |
| Text.SplitFirst | index.mjs:156 | a text split at the first occurrence of a character gives the piece before it, then the pieces of the rest |
| Text.SplitAbsent | index.mjs:156 | a text without the separator character splits into itself alone |
| Text.SplitPiecesLack | index.mjs:24-27 | a character absent from a text is absent from every piece of its split |
| Text.IncludesChar | index.mjs:86 | `includes` of a one-character string is membership of that character |
| Text.SplitJoin | index.mjs:230 | splitting a join on a character absent from the parts gives the parts back |
| Text.Chars | index.mjs:230 | `split("")` gives one piece per character: piece `i` is the `i`-th character, and the pieces join back to the text |
| Decimal.NatToDigits | index.mjs:67-69 | the decimal text of a natural number is a `\d+` string whose base-10 value is that number, and it starts with `0` only for zero |
| Values.ParseValue | index.mjs:174-205 | `""` stays the empty string; exactly `true`/`false` give booleans and exactly `null` gives null; exactly the `^[-+]?\d+$` texts give their integer; exactly the `^[-+]?\d*\.\d+$` texts give a float; a JSON value only comes from bracketed text; a string result is the text itself, and comes exactly from `""` or a text no earlier test claims |
| Values.DecimalHasDot | index.mjs:190-196 | a decimal text has a dot and an integer text has none, so the two patterns never overlap |
| Values.NumberStart | index.mjs:191-195 | an integer or decimal text starts with a sign, a digit or a dot |
| Values.KeywordsAreNotNumbers | index.mjs:175-193 | `""`, `true`, `false` and `null` match neither number pattern |
| Values.IntToText | index.mjs:190-191 | the text of an integer matches `^[-+]?\d+$` and reads back as that integer; it has a `-` exactly for a negative number, never a `+`, and no leading zero |
| Values.ParseValueText | index.mjs:174-205 | a value written back as text is coerced to the same value |
| Values.ParseValueCanonical | index.mjs:174-205 | every result of `parseValue` is one that its text round trip keeps |
| PathParams.SegmentShape | index.mjs:40-50 | a segment is literal exactly when it has no `:`; otherwise the flag runs up to and including the first `:` and the key is the rest |
| PathParams.CaptureOutcome | index.mjs:52-95 | a capture never passes without storing, stores only under its own key, and raises the unsupported-flag error exactly for a flag outside the five |
| PathParams.MatchCapture | index.mjs:52-95 | the `switch` on the flag returns the parameters with the capture added, `null`, the flag error or the URIError, as the segment's outcome says |
| PathParams.ParsePathParams | index.mjs:19-99 | the loop returns what `PathParamsOf` says: the run of the segment outcomes from the empty map, or `null` when the segment counts differ |
| PathParams.SegmentCountMismatch | index.mjs:29-31 | a path and a template with different numbers of `/` give `null`, whatever the segments |
| PathParams.LiteralTemplate | index.mjs:41-43 | a template without `:` gives the empty map exactly when the path equals it, and `null` otherwise |
| PathParams.OneSegment | index.mjs:33-98 | a one-segment template against a one-segment path gives that segment's outcome applied to the empty map |
| PathParams.FlagAndKey | index.mjs:46-50 | a segment made of a flag ending in its only `:` and a key reads as that flag and that key |
| PathParams.KnownFlagShape | index.mjs:52-85 | each of the five flags ends in its only `:` and holds no `/` |
| PathParams.PlainFlag | index.mjs:53-59 | `:` accepts exactly the non-empty strings over `[A-Za-z0-9_-]` and stores them unchanged |
| PathParams.WordFlag | index.mjs:60-66 | `w:` accepts exactly the non-empty strings over `[A-Za-z0-9_]`, refuses any `-`, and stores them unchanged |
| PathParams.DigitFlag | index.mjs:67-73 | `d:` accepts exactly the non-empty digit strings and stores their base-10 value; the decimal text of any `n` stores `n` |
| PathParams.BoolFlag | index.mjs:74-84 | `b:` accepts only `true` and `false` and stores the boolean |
| PathParams.AnyFlag | index.mjs:85-91 | `*:` never gives `null`: it stores the percent-decoded segment, the empty one included, or raises the URIError |
| PathParams.UnknownFlag | index.mjs:92-94 | a flag outside the five raises the error naming it |
| PathParams.RunKeys | index.mjs:33-98 | a run that goes through adds exactly the keys its outcomes store into |
| PathParams.RunKeeps | index.mjs:33-98 | a key no later outcome stores into keeps its value |
| PathParams.RunLastWrite | index.mjs:33-98 | a key holds the value of the last outcome that stores into it |
| PathParams.RunFirstStop | index.mjs:33-98 | the first outcome that stops the run is its result, whatever the parameters |
| PathParams.RunMatchedIffPass | index.mjs:33-98 | a run gives a map exactly when none of its outcomes stops it |
| PathParams.PassAt | index.mjs:33-98 | every outcome in a range that goes through goes through |
| PathParams.OutcomeKeys | index.mjs:40-55 | a segment that goes through without storing has no capture key; one that stores does so under its template key |
| PathParams.BoundKeysFrom | index.mjs:33-98 | when every segment goes through, the keys stored are the template's capture keys |
| PathParams.NoKeyNoBind | index.mjs:33-98 | segments whose template has no key `k` store nothing under `k` |
| PathParams.MatchedKeys | index.mjs:33-98 | on a match the result's keys are exactly the template's capture keys; literal segments add none |
| PathParams.LastWriteWins | index.mjs:52-95 | on a match a key holds the value stored by its last capturing segment: a later duplicate key overwrites an earlier one |
| PathParams.FirstFailureDecides | index.mjs:33-95 | when the segments before `j` go through and segment `j` fails, the call ends as segment `j` does, whatever follows |
| PathParams.MatchedIffAllPass | index.mjs:33-98 | with equal segment counts, the path matches exactly when every segment goes through |
| Forms.ParseFormData | index.mjs:151-165 | the loop returns what `FormDataOf` says: the run of the chunk entries from the empty form |
| Forms.ParseQueryParams | index.mjs:106-110 | `null` exactly when the text holds no `=`, and otherwise the parsed form |
| Forms.KeyOnly | index.mjs:156 | a chunk without `=` is all key and has no value |
| Forms.KeyAndValue | index.mjs:156 | only the first two `=`-pieces count: `a=b` and `a=b=c...` read as key `a` and value `b` |
| Forms.EmptyValue | index.mjs:159 | a missing value and an empty value both give the empty string |
| Forms.EmptyKey | index.mjs:157 | a chunk with an empty raw key is skipped |
| Forms.FillShift | index.mjs:155-162 | dropping the first entry shifts the run by one |
| Forms.FillCons | index.mjs:155-162 | a run over one entry then others applies that entry, then the others |
| Forms.EntriesCons | index.mjs:155 | the entries of one chunk followed by others are its entry followed by theirs |
| Forms.FillKeys | index.mjs:155-162 | a run that gives a form adds exactly the keys its entries assign |
| Forms.FillFails | index.mjs:155-162 | a run gives a form exactly when no entry fails, and the URIError otherwise |
| Forms.FillKeeps | index.mjs:155-162 | a key no later entry assigns keeps its value |
| Forms.FillLastWrite | index.mjs:155-162 | a key holds the value of the last entry that assigns it |
| Forms.FieldKeysOfChunks | index.mjs:155-160 | when every chunk decodes, the keys assigned are the decoded non-empty raw keys |
| Forms.FormKeys | index.mjs:151-165 | the keys of a parsed form are exactly the decoded non-empty raw keys |
| Forms.FormFails | index.mjs:157-159 | the URIError comes exactly when some chunk with a non-empty raw key fails to decode, in its key or its value |
| Forms.FormLastWrite | index.mjs:160 | a key holds the value of its last chunk |
| Forms.FirstChunk | index.mjs:155-162 | the first chunk is read on its own, and the rest goes on from the form it leaves |
| Forms.OmitEmptyKey | index.mjs:157 | `=value&rest` parses as `rest` |
| Body.ParseRequestBody | index.mjs:121-141 | an empty body gives `undefined`; otherwise JSON for `application/json`, the form for `application/x-www-form-urlencoded`, decoded text for `text`, and the raw bytes for anything else, tested in that order |
| Body.PrefixesExclusive | index.mjs:124-136 | no Content-Type starts with two of the three prefixes |
| Body.BranchByPrefix | index.mjs:123-140 | a non-empty body's kind depends on its Content-Type prefix alone, whatever the order of the tests |
| Auth.SplitAuthToken | index.mjs:216-236 | `[]` without the `Bearer ` prefix, for an empty token, or when the separator is absent; with a non-empty separator in the token, the token's `split` exactly when it has `partsCount` pieces and `[]` otherwise; with the empty separator, the whole token for one part, its characters for as many parts as characters, and `[]` otherwise; any result joins with the separator to the token, and no part holds a non-empty separator |
| Auth.SplitToken | index.mjs:221-235 | the same, for the text after `Bearer `: `[]` for an empty token or an absent separator; otherwise the `split` pieces when there are `partsCount` of them (the whole token for the empty separator and one part, its characters for the empty separator and `|token|` parts), and `[]` otherwise |
| Auth.BearerToken | index.mjs:217-221 | the token of `Bearer ` + `t` is `t` |
| Auth.OnePartNeedsEmptySeparator | index.mjs:222-233 | asking for one part with a non-empty separator always gives `[]` |
| Auth.WholeToken | index.mjs:226-228 | the empty separator with one part gives the whole token |
| Auth.TokenChars | index.mjs:230-235 | the empty separator with as many parts as characters gives the characters |
| Auth.SplitJoinedToken | index.mjs:230-235 | parts joined on a one-character separator they lack come back unchanged |
| Auth.PartCount | index.mjs:230-233 | with a one-character separator in the token, a result comes back exactly when `partsCount` is one more than the separator count |

## Left out

- Percent-decoding (`decodeURIComponent`, index.mjs:87, 158-159) is not modelled. It is the `Decoder` parameter; `None` stands for its URIError.
- UTF-8 decoding (`TextDecoder`, index.mjs:126, 132, 137) is not modelled. It is the `Utf8` parameter of `Body.ParseRequestBody`.
- `JSON.parse` (index.mjs:127, 201) is not modelled. A JSON result carries the text it would parse. The SyntaxError it throws on bad JSON is therefore not modelled either.
- `parseFloat` (index.mjs:196) is not modelled, because it is floating point. A float result carries its text.
- JavaScript numbers are not modelled. Integers are unbounded, so `parseInt` on long digit strings keeps every digit, and `-0` is `0`.
- JavaScript objects become maps. The model keeps no key insertion order and gives `__proto__` no special meaning.
- `split("")` is modelled over characters, not UTF-16 code units.
- A `Buffer` body is a sequence of bytes.
- Body.ParseRequestBody: a missing (non-string) Content-Type is not modelled, because the Content-Type parameter is a `string`. On it, with a non-empty body, the source throws a TypeError at index.mjs:124.
- Parts of the repository outside `index.mjs` (its tests and type declarations) are not part of this model.
