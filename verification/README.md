# digabi node-packages, modelled in Dafny

This project models the pure logic of the utility packages of the Finnish
Matriculation Examination Board (YTL, "digabi") and proves properties of it.
Every operation is a pure function over immutable values. The clock, random
draws, HMAC-SHA1, the file system and the database are parameters.

The modules, one per source file or closely related group of files:

- `Wrappers`: `Option` and `Result`.
- `Text`: JavaScript string operations on `seq<char>`. It covers `trim`,
  `split`, `join`, `indexOf`, `padStart`, ASCII case mapping and decimal
  rendering.
- `Base32`: the RFC 4648 (section 6) base32 codec of the 2fa package. It has
  no `=` padding, and its two bit-window loops are written as methods with
  loop invariants.
- `Totp`: the TOTP engine of the 2fa package.
  - `get` uses the RFC 6238 (section 4) time step and the RFC 4226
    (section 5.3) dynamic truncation.
  - `check` accepts the current and the previous code.
  - `genKey` is modelled too.
- `Ssn`: the personal identity code validator (`isSsnValid`) and `isFakeYtlSsn`.
- `Email`: `isValidEmail`, with the regular expression as a grammar.
- `Hetu`: the test-data generator of identity codes and its uniqueness memo.
- `Json`: a JSON value tree whose objects are ordered field lists.
- `ExamTypes`: the parts of the exam content that the transforms read.
- `Validator`: the autograding validation rules, as boolean predicates.
- `Autograding`: `removeCorrectAnswersAndScores` and the two autograding generators.
- `Zip`: `createZipName`.
- `Examination`: `examCopyFileNameToS3Path` and `getCurrentExaminationPeriod`.
- `Camel`: `stringToCamel` and `objectPropertiesToCamel`.
- `Migration`: migration file naming, date parsing, the pending-file
  selection and sort, the environment guard, and the lock and apply loop.
- `Suomifi`: `getNames` and `getId` of the Suomi.fi profile.
- `AnswerImages`: `containsInvalidImgTags` and its image-source scanner.
- `Passphrase`: word filtering and passphrase building.
- `Express`: the error-to-response and log-level decisions, proxy error
  classification, `ensureQueryParameters` and the two responders.

`check` answers only `BAD_KEY` or `BAD_TOTP` on a refusal and keeps no record
of used codes. Its doc comment leaves resistance to code reuse to the caller,
and the model does the same.

Strings are sequences of Unicode code points, while JavaScript counts UTF-16
code units. The two agree on every character of the Basic Multilingual
Plane. Where a source operation counts or matches code units, the model
bounds the character explicitly or lists the gap under "## Left out". In the
pattern `"/math.svg\?latex`, the unescaped `.` matches one code unit that is
not a line terminator, so a character outside the Basic Multilingual Plane
does not match it.

## Model

| member | source | states |
|---|---|---|
| Base32.AlphaChar | packages/2fa/src/base32.ts:2 | every 5-bit value stands for a character of the alphabet `A`–`Z2`–`7` |
| Base32.AlphabetChars | packages/2fa/src/base32.ts:2 | the computed alphabet is the source's `ALPHA` string, position by position |
| Base32.AlphabetIndexOf | packages/2fa/src/base32.ts:41-42 | `ALPHA.indexOf(c)` is the 5-bit value of an alphabet character, and -1 (None) for any other character |
| Base32.ToBase32 | packages/2fa/src/base32.ts:8-26 | the encoder loop emits the reference bit-group encoding of the buffer: `ceil(8n/5)` alphabet characters |
| Base32.RunEncoderEncodes | packages/2fa/src/base32.ts:13-21 | the state the encoder loop reaches over all bytes, finished by the last character, is the reference encoding |
| Base32.FinalChar | packages/2fa/src/base32.ts:23 | the 1 to 4 bits left in the window leave as one last character, filled with zero bits |
| Base32.EncodeShape | packages/2fa/src/base32.ts:13-23 | every emitted character is in the alphabet, there are `ceil(8n/5)` of them, and no `=` is emitted |
| Base32.ToBuffer | packages/2fa/src/base32.ts:33-54 | the decoder loop returns null exactly for text outside the alphabet, and otherwise the reference decoding of `floor(5m/8)` bytes |
| Base32.DecodeStep | packages/2fa/src/base32.ts:44-50 | one character entering the window keeps the invariant: the bytes written decode the bits read so far, and the window holds the rest |
| Base32.RunDecoderDecodes | packages/2fa/src/base32.ts:40-53 | after the whole text, the bytes written are the decoding of all its bits |
| Base32.DecodeFailsIff | packages/2fa/src/base32.ts:40-42 | decoding fails exactly when some character is outside the alphabet, so lower case, `=`, `0`, `1`, `8` and `9` are refused |
| Base32.DecodeLength | packages/2fa/src/base32.ts:34 | a successful decode yields `floor(5m/8)` bytes, the size of the buffer the source allocates |
| Base32.EmptyCases | packages/2fa/src/base32.ts:13-40 | the empty buffer encodes to "" and "" decodes to the empty buffer |
| Base32.DecodeDropsTrailingBits | packages/2fa/src/base32.ts:44-53 | bits after the last whole byte are dropped whether or not they are zero |
| Base32.TrailingBitsExample | packages/2fa/src/base32.ts:44-53 | `AB` decodes like `AA`, though its trailing bit is one |
| Base32.CharsOfEncoding | packages/2fa/src/base32.ts:8-26 | re-reading the encoding's characters gives the buffer's bits followed only by zero fill bits |
| Base32.DecodeOfBytes | packages/2fa/src/base32.ts:33-54 | decoding the bit stream of a byte buffer gives the buffer back |
| Base32.RoundTrip | packages/2fa/src/base32.ts:8-54 | `toBuffer(toBase32(b)) == b` for every byte buffer |
| Totp.Counter | packages/2fa/src/index.ts:32 | the counter is `delta + t / 30000` with division truncated toward zero, reduced to 64 bits |
| Totp.CounterMessage | packages/2fa/src/index.ts:30-33 | the 8-byte HMAC message reads back, big-endian, as the counter |
| Totp.BigEndianRoundTrip | packages/2fa/src/index.ts:32 | a number below 256^n written on n big-endian bytes reads back as itself |
| Totp.Offset | packages/2fa/src/index.ts:36 | the offset is the low nibble of the last digest byte, so the four bytes read lie inside the 20-byte digest |
| Totp.TruncateReads | packages/2fa/src/index.ts:37-41 | the truncated value is the big-endian value of the four bytes at the offset with the top bit cleared, so below 2^31 |
| Totp.Code | packages/2fa/src/index.ts:43 | the code is exactly six decimal digits that read back as the value mod 1,000,000 |
| Totp.Get | packages/2fa/src/index.ts:25-44 | `get` is six digits that read back as the truncated HMAC of the key and the counter message, mod 1,000,000 |
| Totp.SamePeriod | packages/2fa/src/index.ts:32 | clock readings in the same 30-second step give the same code |
| Totp.StepOfTime | packages/2fa/src/index.ts:32 | after the epoch, step n is exactly the milliseconds `[30000n, 30000(n+1))` |
| Totp.StepAroundEpoch | packages/2fa/src/index.ts:32 | truncating division makes every reading strictly between -30000 and 30000 step 0 |
| Totp.PreviousStep | packages/2fa/src/index.ts:32 | the code for delta -1 is the code 30 seconds earlier |
| Totp.Check | packages/2fa/src/index.ts:73-84 | the result is BAD_KEY exactly when the key does not decode |
| Totp.CheckBadKey | packages/2fa/src/index.ts:74-76 | `check` returns BAD_KEY exactly when the key is not base32 |
| Totp.CheckOk | packages/2fa/src/index.ts:78-83 | with a decodable key, the candidate is accepted exactly when it is the current or the previous code, and is BAD_TOTP otherwise |
| Totp.CheckRejectsMalformed | packages/2fa/src/index.ts:78-83 | a candidate that is not six digits can never be accepted |
| Totp.AcceptedForTwoSteps | packages/2fa/__tests__/totp.test.ts:29-45 | a code made at any time t, before the epoch too, is accepted at t and at t + 30000 |
| Totp.NextStep | packages/2fa/src/index.ts:32 | 30 seconds later the step is the next one, except inside the double-width step around the epoch, where it stays 0 |
| Totp.GenKey | packages/2fa/src/index.ts:87-91 | the key is 32 alphabet characters that decode to the 20 random bytes |
| Totp.GenKeyChecks | packages/2fa/src/index.ts:87-91 | a fresh key decodes, and `check` accepts it together with its own current code |
| Ssn.IsSsnValid | packages/validation/src/index.ts:36-68 | `isSsnValid`: the trimmed code must match the pattern, and is then decided by the fake prefix, the optional age rules and the checksum; its properties are the Ssn rows below |
| Ssn.IsFakeYtlSsn | packages/validation/src/index.ts:70-74 | `isFakeYtlSsn`: the unanchored pattern ending at the end of the string; `FakeIffSuffix` states what it accepts |
| Ssn.MatchSsn | packages/validation/src/index.ts:38-40 | the pattern matches exactly the strings of the 11-character shape, and the groups are the shape's parts |
| Ssn.CheckCharTable | packages/validation/src/index.ts:2-34 | the computed check characters are the table: 0–9 then A–Y without G, I, O and Q |
| Ssn.ShapeRequired | packages/validation/src/index.ts:38-41 | a string whose trimmed form lacks the shape is rejected, whatever the flags |
| Ssn.FakeIndividualAccepted | packages/validation/src/index.ts:43-45 | an individual part starting with `U` is accepted with no checksum and no age rule |
| Ssn.ChecksumDecides | packages/validation/src/index.ts:66-67 | without age rules, a well-shaped numeric code is valid exactly when its upper-cased check character is the table entry at DDMMYYNNN mod 31 |
| Ssn.AcceptedByChecksum | packages/validation/src/index.ts:47-67 | shape, numeric part, right check character and an allowed sign and year suffice for acceptance |
| Ssn.YearIrrelevantWithoutAgeRules | packages/validation/src/index.ts:51-56 | without the age flag the verdict does not depend on the current year |
| Ssn.AgeRules | packages/validation/src/index.ts:56-64 | with the flag: `010101-0101` passes, `+` fails, `-` with an earlier year fails, `A`–`F` with a later year fails, and the rest goes to the checksum |
| Ssn.AgeRulesOnlyReject | packages/validation/src/index.ts:56-64 | the age rules never accept a code the checksum rejects, except the special code |
| Ssn.CaseInsensitive | packages/validation/src/index.ts:48-49 | codes differing only in the case of the century sign and check character get the same verdict |
| Ssn.FakeIffSuffix | packages/validation/src/index.ts:70-74 | `isFakeYtlSsn` holds exactly when the last 11 characters are 6 digits, `AU` or `-U`, 2 digits and a word character |
| Ssn.FakeUnanchored | packages/validation/src/index.ts:71 | any prefix may stand before a fake code |
| Ssn.FakeIsValid | packages/validation/src/index.ts:43-45 | an 11-character fake code of the validator's shape is accepted by `isSsnValid` |
| Email.IsValidEmail | packages/validation/src/index.ts:76-81 | `isValidEmail`: at most 254 characters, and either empty or matching the address pattern; the Email rows below state what that accepts |
| Email.LocalPartIff | packages/validation/src/index.ts:78 | the local-part group matches exactly non-empty runs of local characters and dots with no dot first, last or doubled |
| Email.DomainHeadIff | packages/validation/src/index.ts:78 | the domain head matches exactly text that starts with a letter or digit, ends with one, and has every dot followed by one |
| Email.DomainTailIff | packages/validation/src/index.ts:78 | the top-level part is a letter followed by letters, digits and single hyphens, ending with a letter or digit |
| Email.EmptyIsValid | packages/validation/src/index.ts:80 | the empty string is valid |
| Email.TooLongIsInvalid | packages/validation/src/index.ts:80 | a string of more than 254 characters is invalid |
| Email.ValidEmailShape | packages/validation/src/index.ts:76-81 | a valid address has exactly one `@`, a well-formed local part before it, and only ASCII characters |
| Email.LocalPartBeforeAt | packages/validation/src/index.ts:78 | in a valid address whatever precedes any `@` is the whole local part |
| Email.NotLocalBeforeAt | packages/validation/src/index.ts:78 | text before an `@` that is not a local part makes the address invalid |
| Email.ShortAddressIsValid | packages/validation/__tests__/validation.test.ts:136-162 | `a@a.com` is valid |
| Email.DoubleDotRejected | packages/validation/__tests__/validation.test.ts:136-162 | a doubled dot in the local part is rejected |
| Email.LeadingDotRejected | packages/validation/__tests__/validation.test.ts:136-162 | a leading dot is rejected |
| Email.DoubleAtRejected | packages/validation/__tests__/validation.test.ts:136-162 | two `@` are rejected |
| Hetu.RandomInt | packages/testing/src/test-data/ssn.ts:1-6 | a draw from `[0,1)` scaled into `[lo, hi)` stays in that range |
| Hetu.PadFits | packages/testing/src/test-data/ssn.ts:9 | `pad` of a number that fits is its zero-padded rendering, and reads back as the number |
| Hetu.DoCreateRandomHetu | packages/testing/src/test-data/ssn.ts:45-53 | the generated code has 11 characters; `RandomHetuIsValid` states that it is valid |
| Hetu.DrawsInRange | packages/testing/src/test-data/ssn.ts:45-50 | the four draws give a year below 100, a day 1–31, a month 1–12 and an individual number 2–899 |
| Hetu.GeneratedFields | packages/testing/src/test-data/ssn.ts:45-52 | the code's fields read back as day, month, year and individual number, the sign is `A` exactly for an earlier year and `-` otherwise, and the last character is the mod-31 table entry |
| Hetu.GeneratedIsValid | packages/testing/src/test-data/ssn.ts:8-53 | every generated code passes `isSsnValid`, with or without the age rules, in the year it was made |
| Hetu.RandomHetuIsValid | packages/testing/__tests__/test-data-ssn.test.ts:7-11 | whatever the random draws, the generated code is valid |
| Hetu.CreateRandomHetu | packages/testing/src/test-data/ssn.ts:55-66 | None exactly when every candidate was handed out already; otherwise the result is the first candidate not yet handed out, every earlier one was, and the memo gains exactly it |
| Hetu.CreateManyDistinct | packages/testing/src/test-data/ssn.ts:55-66 | no code is handed out twice, nor one already in the memo |
| ExamTypes.TypeTag | packages/json-exam-utils/src/exam-types.ts:79-90 | each question carries exactly one of the type tags, and the tag identifies its kind |
| ExamTypes.AllQuestions | packages/json-exam-utils/src/autograding/exam-autograding.ts:65 | the flattened list holds exactly the questions of the sections |
| ExamTypes.AllQuestionsAppend | packages/json-exam-utils/src/autograding/exam-autograding.ts:79 | flattening keeps section order |
| Validator.IsPositiveInteger | packages/json-exam-utils/src/autograding/autograding-validator.ts:9 | `isPositiveInteger`: a present number that is a whole number from 0 up |
| Validator.IsValidUuid | packages/json-exam-utils/src/autograding/autograding-validator.ts:10 | `isValidUuid`: a present value whose string form has the uuid pattern |
| Validator.IsTrimmedText | packages/json-exam-utils/src/autograding/autograding-validator.ts:11 | `isTrimmedText`: an absent value, or one whose string form neither starts nor ends with a blank |
| Validator.ValidAutograding | packages/json-exam-utils/src/autograding/autograding-validator.ts:69 | `validateAutograding` finds no error: the data is an array whose every entry passes `choiceRules` |
| Validator.ValidProductiveAutograding | packages/json-exam-utils/src/autograding/autograding-validator.ts:72 | `validateProductiveAutograding` finds no error: the data is an array whose every entry passes `productiveRules` |
| Validator.IntegersAccepted | packages/json-exam-utils/src/autograding/autograding-validator.ts:9 | an integer passes `isPositiveInteger` exactly when it is at least 0 |
| Validator.NonIntegersRejected | packages/json-exam-utils/src/autograding/autograding-validator.ts:9 | a fractional number, or anything that is not a number, fails |
| Validator.UuidShapeIff | packages/json-exam-utils/src/autograding/autograding-validator.ts:10 | the uuid pattern is 36 characters with dashes at the four group boundaries and word characters elsewhere |
| Validator.TrimmedTextIff | packages/json-exam-utils/src/autograding/autograding-validator.ts:11 | text passes `isTrimmedText` exactly when trimming leaves it unchanged |
| Validator.OptionScoreIgnored | packages/json-exam-utils/src/autograding/autograding-validator.ts:23-26 | under the `maxScore` rule, adding a `score` of any value to an option does not change its verdict |
| Validator.MaxScoreZeroNeedsNoScores | packages/json-exam-utils/src/autograding/autograding-validator.ts:16-31 | an entry whose `maxScore` is 0 is judged by the `maxScore` rule, so it passes with valid id, choices and options that carry no score |
| Validator.ScoreNeededWithoutMaxScore | packages/json-exam-utils/src/autograding/autograding-validator.ts:32-47 | without a `maxScore` key, one option whose `score` is not a number makes the entry fail |
| Validator.ExtraPropertyAccepted | packages/json-exam-utils/src/autograding/autograding-validator.ts:13-49 | a property the entry rule does not list does not change the verdict |
| Validator.ExtraAnswerPropertyAccepted | packages/json-exam-utils/src/autograding/autograding-validator.ts:57-62 | a property the answer rule does not list does not change the verdict |
| Validator.MissingIdFails | packages/json-exam-utils/src/autograding/autograding-validator.ts:56 | a productive question without an id fails |
| Validator.UntrimmedAnswerFails | packages/json-exam-utils/src/autograding/autograding-validator.ts:60 | an answer text with a leading or trailing blank fails |
| Autograding.RemoveCorrectAnswersAndScores | packages/json-exam-utils/src/autograding/exam-autograding.ts:92-115 | arrays keep their length, objects keep their other keys in order, and primitives are unchanged |
| Autograding.StripLookup | packages/json-exam-utils/src/autograding/exam-autograding.ts:99-108 | after stripping, `correct` and `score` read undefined, `correctAnswers` reads `[]` if present, and every other key reads its own value stripped |
| Autograding.NoAnswerKeyLeft | packages/json-exam-utils/src/autograding/exam-autograding.ts:99-101 | no `correct` or `score` key is left at any depth |
| Autograding.FixedIffClean | packages/json-exam-utils/src/autograding/exam-autograding.ts:92-115 | the trees stripping leaves alone are exactly those with no answer keys and only empty `correctAnswers` |
| Autograding.StripIdempotent | packages/json-exam-utils/src/autograding/exam-autograding.ts:92-115 | stripping twice is stripping once |
| Autograding.MaxScoreChoiceGroupJson | packages/json-exam-utils/src/autograding/exam-autograding.ts:17-21 | the entry holds maxScore, id, and choices whose options carry id and `correct` |
| Autograding.CustomScoreChoiceGroupJson | packages/json-exam-utils/src/autograding/exam-autograding.ts:23-28 | the entry has no maxScore, and its options carry id, `correct` and score |
| Autograding.MultiChoiceGapJson | packages/json-exam-utils/src/autograding/exam-autograding.ts:30-38 | the entry holds id, maxScore, and one choice per gap of the content |
| Autograding.GapsAppend | packages/json-exam-utils/src/autograding/exam-autograding.ts:33-34 | text items add no choice and each gap adds one, in order |
| Autograding.MultiChoiceCorrectAnswers | packages/json-exam-utils/src/autograding/exam-autograding.ts:40-54 | an entry exists exactly for choice groups and multichoicegaps, and it has a maxScore exactly for a gap question or a truthy maxScore |
| Autograding.EntriesOfChoiceQuestions | packages/json-exam-utils/src/autograding/exam-autograding.ts:80 | mapping then dropping `undefined` gives one entry per choice question, in question order |
| Autograding.EntriesAppend | packages/json-exam-utils/src/autograding/exam-autograding.ts:79-80 | entries follow question order across sections |
| Autograding.GenerateAutogradingJson | packages/json-exam-utils/src/autograding/exam-autograding.ts:78-90 | a success is a validated list with one entry per choice question |
| Autograding.AutogradingSucceedsIff | packages/json-exam-utils/src/autograding/exam-autograding.ts:78-90 | the generator succeeds exactly when every choice question is sound: integral non-negative ids and scores, and boolean `correct` |
| Autograding.TextCorrectAnswersJson | packages/json-exam-utils/src/autograding/exam-autograding.ts:12-15 | each accepted answer becomes `{text, score}` with the question's maxScore |
| Autograding.ProductiveCorrectAnswers | packages/json-exam-utils/src/autograding/exam-autograding.ts:56-62 | an entry exists exactly for text and subtext questions with a `correctAnswers` list, even an empty one |
| Autograding.GenerateProductiveAutogradingJson | packages/json-exam-utils/src/autograding/exam-autograding.ts:64-76 | a success carries the given examUuid and passes the productive rules |
| Autograding.ProductiveSucceedsIff | packages/json-exam-utils/src/autograding/exam-autograding.ts:64-76 | the generator succeeds exactly when the uuid has the 8-4-4-4-12 shape and every productive question is sound |
| Zip.Sanitize | packages/zip-utils/src/create-zip.ts:51 | the result holds only `[A-Za-z0-9._-]` and single underscores |
| Zip.RunBecomesOneUnderscore | packages/zip-utils/src/create-zip.ts:51 | each maximal run of characters outside `[a-zA-Z0-9.-]`, `_` included, becomes exactly one `_` in its place, the text on either side sanitised on its own |
| Zip.KeptThenRest | packages/zip-utils/src/create-zip.ts:51 | text ending in a kept character is sanitised independently of what follows |
| Zip.RunToUnderscore | packages/zip-utils/src/create-zip.ts:51 | a run at the start of the text, followed by a kept character or the end, becomes one `_` |
| Zip.JunkAbsorbed | packages/zip-utils/src/create-zip.ts:51 | inside a replaced run, further replaced characters add nothing |
| Zip.SanitizeKeepsNameChars | packages/zip-utils/src/create-zip.ts:51 | every kept character survives, in order, and none is added |
| Zip.SanitizeFixedIff | packages/zip-utils/src/create-zip.ts:51 | the sanitiser leaves a string alone exactly when it already has the sanitised shape |
| Zip.SanitizeIdempotent | packages/zip-utils/src/create-zip.ts:51 | sanitising twice is sanitising once |
| Zip.ZipSuffix | packages/zip-utils/src/create-zip.ts:50 | an absent or empty suffix becomes `meb`, and any other is kept |
| Zip.ZipStem | packages/zip-utils/src/create-zip.ts:3-51 | the stem is at most 72 sanitised characters holding a prefix of the kept characters of prefix and name, all of them when `prefix_name` fits |
| Zip.CreateZipName | packages/zip-utils/src/create-zip.ts:49-52 | `createZipName`: the stem, a dot and the suffix; `CreateZipNameShape` states the shape |
| Zip.CreateZipNameShape | packages/zip-utils/src/create-zip.ts:49-52 | the name is a stem of at most 72 characters with no doubled underscore, a dot and the suffix |
| Zip.CleanNameKept | packages/zip-utils/__tests__/zip-utils.test.ts:105-111 | a clean `prefix_name` that fits is used as it is, giving `exported_mathexam.meb` and `.zip` |
| Examination.ExamCopyFileNameToS3Path | packages/examination-utils/src/exam-paper-copy.ts:1-10 | the path ends with the file name, and a name without a dot is returned unchanged |
| Examination.ExtensionAfterLastDot | packages/examination-utils/src/exam-paper-copy.ts:7 | `split('.').pop()` is the text after the last dot |
| Examination.S3PathShape | packages/examination-utils/src/exam-paper-copy.ts:6-9 | the path reads back as the first five characters, the lower-cased extension and the name with its case kept |
| Examination.S3PathExtension | packages/examination-utils/src/exam-paper-copy.ts:7 | the extension segment holds no dot and no upper-case letter |
| Examination.GetCurrentExaminationPeriod | packages/examination-utils/src/examination-period.ts:1-7 | the period ends in `K` exactly for months 1–7 and in `S` exactly for months 8–12 |
| Examination.PeriodReadsBack | packages/examination-utils/src/examination-period.ts:6 | the period is the decimal year, reading back as the year, followed by exactly one letter |
| Examination.PeriodExamples | packages/examination-utils/__tests__/examination-period.test.ts:13-27 | January 2012 gives `2012K` and August 2012 gives `2012S` |
| Camel.CapitalizeFirstLetter | packages/database/src/object-properties-to-camel.ts:8-10 | only the first character changes, to upper case |
| Camel.StringToCamel | packages/database/src/object-properties-to-camel.ts:12-15 | `stringToCamel`: split at `_`, every part but the first capitalised, joined; `StringToCamelChars` states the result character by character |
| Camel.StringToCamelChars | packages/database/src/object-properties-to-camel.ts:12-15 | the conversion drops every `_` and upper-cases the character after each one |
| Camel.CamelShape | packages/database/src/object-properties-to-camel.ts:12-15 | a converted key has no `_`, and a key without `_` is unchanged |
| Camel.CamelTwoWords | packages/database/src/object-properties-to-camel.ts:12-15 | `a_b` becomes `a` followed by `b` capitalised |
| Camel.CamelIdempotent | packages/database/src/object-properties-to-camel.ts:12-15 | converting a converted key changes nothing |
| Camel.ObjectPropertiesToCamel | packages/database/src/object-properties-to-camel.ts:17-27 | `objectPropertiesToCamel`: every key renamed in `for…in` order; `ObjectPropertiesToCamelResult` states the resulting map |
| Camel.ObjectPropertiesToCamelResult | packages/database/src/object-properties-to-camel.ts:17-27 | the keys are exactly the converted keys, each holding the original value of the last key renamed onto it |
| Camel.ObjectKeysHaveNoUnderscore | packages/database/src/object-properties-to-camel.ts:17-27 | no key of the result holds `_` |
| Camel.ObjectPropertiesToCamelDistinct | packages/database/src/object-properties-to-camel.ts:1-6 | when converted keys do not collide, every value moves unchanged to its converted key |
| Migration.TimestampPart | packages/database-utils/src/create-migration-path.ts:11-13 | the stamp is `YYYYMMDD-HHMMSS`, each field reading back as the UTC field |
| Migration.RemoveSpaces | packages/database-utils/src/create-migration-path.ts:4 | no whitespace is left, and text without whitespace is unchanged |
| Migration.CollapseSlashes | packages/database-utils/src/create-migration-path.ts:16 | no two slashes are left side by side |
| Migration.GenerateMigrationPath | packages/database-utils/src/create-migration-path.ts:3-17 | an empty name or one with `/` is refused with the source's messages, and otherwise the path has no double slash and ends with `stamp-name.sql` |
| Migration.GeneratedPathParses | packages/database-utils/src/create-migration-path.ts:15-16 | for a year from 1 to 9999, the generated file name is accepted by the runner and parses back to the calendar fields it was written from |
| Migration.GeneratedNameParses | packages/database-utils/src/create-migration-path.ts:11-16 | for a year from 1 to 9999, `stamp-name.sql` parses back to the calendar fields of the stamp |
| Migration.YearZeroNameRefused | packages/database-utils/src/migration-runner.ts:8-14 | a name generated in the year 0 is refused by the parser, which does not accept the year 0000 |
| Migration.ParseDateFromMigrationFilePath | packages/database-utils/src/migration-runner.ts:6-16 | parsing succeeds exactly for names of the pattern whose date exists in a year from 1 on, and fails with the source's message otherwise |
| Migration.UpperCaseSqlFails | packages/database-utils/src/migration-runner.ts:8 | a name ending in `.SQL` never parses |
| Migration.UpperCaseSqlIsSqlName | packages/database-utils/src/migration-runner.ts:49 | a `.SQL` name passes the file filter |
| Migration.SortBy | packages/database-utils/src/migration-runner.ts:52 | the sort yields a permutation ordered by date |
| Migration.InsertStable | packages/database-utils/src/migration-runner.ts:52 | an inserted element goes after every element of its key already there |
| Migration.SortByStable | packages/database-utils/src/migration-runner.ts:52 | the sort is stable: for every key, the elements with that key keep their order, so names of the same date run in directory order |
| Migration.GetUnappliedMigrationFiles | packages/database-utils/src/migration-runner.ts:32-54 | a missing directory gives nothing; otherwise the pending names sorted by date, or a failure exactly when some pending name does not parse |
| Migration.UnappliedError | packages/database-utils/src/migration-runner.ts:51 | the error is that of the first pending name that does not parse |
| Migration.PendingAreExactlyUnapplied | packages/database-utils/src/migration-runner.ts:47-50 | the pending names are exactly the `.sql` entries not yet applied |
| Migration.ApplyMigrations | packages/database-utils/src/migration-runner.ts:156-166 | the recorded files are a prefix of the list, ending just before the first failing file, or all of them |
| Migration.RunMigrationsInTransaction | packages/database-utils/src/migration-runner.ts:134-150 | a lock not taken or busy with 55P03 ends quietly, and any other lock error is thrown |
| Migration.LockedRunRecords | packages/database-utils/src/migration-runner.ts:151-166 | with the lock, the recorded files are the pending ones in date order up to the first failure, none applied before, and the failure is not thrown |
| Migration.Migrate | packages/database-utils/src/migration-runner.ts:96-104 | an environment the guard refuses fails with `Cannot migrate to given environment` |
| Migration.UnknownDatabaseRefused | packages/database-utils/src/migration-runner.ts:96-97 | a url naming none of the databases is refused |
| Migration.AwsNeedsStack | packages/database-utils/src/migration-runner.ts:97 | an `aws` url is refused unless `YTL_AWS_STACK` is set |
| Suomifi.GetNames | packages/passport-utils/src/suomifi-profile.ts:24-48 | no field is ever empty, the display name is the common name or `-`, both given names are used when present, and all are `-` when nothing is |
| Suomifi.CommonNameSplitsAtFirstSpace | packages/passport-utils/src/suomifi-profile.ts:35-40 | from the common name, the last name is the text before the first space and the first name the text after it, each `-` when empty |
| Suomifi.CommonNameRebuilt | packages/passport-utils/src/suomifi-profile.ts:35-40 | last name, a space and first name give the common name back |
| Suomifi.GetId | packages/passport-utils/src/suomifi-profile.ts:50-60 | the national number, else the electronic one, else `-`, with empty values counted as absent |
| AnswerImages.MatchAt | packages/answer-utils/src/index.ts:25 | a match starts at `img` in any case, and its capture holds no `<` or `>` and ends where the match ends |
| AnswerImages.Sources | packages/answer-utils/src/index.ts:24-30 | no captured source holds `<` or `>` |
| AnswerImages.NoImgNoSources | packages/answer-utils/src/index.ts:24-30 | text without `img` has no image source |
| AnswerImages.SingleImgTag | packages/answer-utils/src/index.ts:25 | `<img src="url">` yields exactly the quoted url as its one source |
| AnswerImages.InvalidSources | packages/answer-utils/src/index.ts:32 | the filter keeps exactly the sources that are neither screenshots nor formulas |
| AnswerImages.ContainsInvalidImgTags | packages/answer-utils/src/index.ts:23-46 | the content is rejected exactly when some image source is neither a screenshot nor a formula |
| AnswerImages.SomeInvalid | packages/answer-utils/src/index.ts:32-37 | the filtered list is non-empty exactly when some source is neither a screenshot nor a formula |
| AnswerImages.SingleImgTagVerdict | packages/answer-utils/__tests__/answer-utils.test.ts:24-60 | a single tag is rejected exactly when its quoted url is not valid |
| AnswerImages.QuotedScreenshot | packages/answer-utils/src/index.ts:13 | a quoted url is a screenshot exactly when it is `/screenshot/` followed by a UUID, in either case |
| AnswerImages.QuotedMath | packages/answer-utils/src/index.ts:14 | a quoted url is a formula exactly when it starts with `/math`, one UTF-16 code unit that ends no line, and `svg?latex` |
| AnswerImages.AstralCharIsNotDot | packages/answer-utils/src/index.ts:14 | a character outside the Basic Multilingual Plane after `/math` is not a formula, since it takes two code units |
| Passphrase.FilterWordList | packages/passphrase-generator/src/index.ts:9-11 | a word is kept exactly when it is in the list and has 5 to 8 characters |
| Passphrase.FilterAppend | packages/passphrase-generator/src/index.ts:9-11 | filtering keeps list order |
| Passphrase.FilterIdempotent | packages/passphrase-generator/src/index.ts:9-11 | filtering twice is filtering once |
| Passphrase.GetRandomElement | packages/passphrase-generator/src/index.ts:21-29 | an empty list gives `undefined`, and otherwise a word of the list |
| Passphrase.Picks | packages/passphrase-generator/src/index.ts:13-17 | there is one pick per draw, the word at the drawn index |
| Passphrase.BuildPassphrase | packages/passphrase-generator/src/index.ts:13-19 | zero words give the empty passphrase |
| Passphrase.PassphraseSplitsIntoDraws | packages/passphrase-generator/__tests__/passphrase-generator.test.ts:8-20 | with space-free words, the passphrase splits into exactly `numWords` parts, the words drawn, each a 5-to-8-character word of the list |
| Passphrase.GeneratePassphrase | packages/passphrase-generator/src/index.ts:4-7 | `generatePassphraseAsync`: filter the list, then build `numWords` picks from it; `PassphraseSplitsIntoDraws` states the result |
| Passphrase.DefaultHasFourWords | packages/passphrase-generator/src/index.ts:4-7 | by default the passphrase has four words |
| Express.ResponseStatus | packages/express/src/index.ts:24-25 | the status is `err.status` when truthy, and 500 otherwise |
| Express.SafeLogLevel | packages/express/src/index.ts:58-65 | an error is a warning exactly when its status is truthy and below 500 |
| Express.DevResponse | packages/express/src/index.ts:26-29 | development shows the message and every defined field except `renderedToEndUser` |
| Express.ProdResponse | packages/express/src/index.ts:46-51 | production shows the message only when meant for the end user, and no field but `errorType` |
| Express.HandleError | packages/express/src/index.ts:16-66 | development answers through the first handler; in production a body-parser error is only warned about; nothing is sent once headers are out |
| Express.StatusSameInBothModes | packages/express/src/index.ts:24-47 | both modes answer with the same status |
| Express.ProdHidesMessage | packages/express/src/index.ts:49 | production sends an empty message for an error not meant for the end user |
| Express.AppError | packages/express/src/index.ts:330-338 | an AppError keeps its message and has exactly the fields `name` and `status`, holding the given status |
| Express.DataError | packages/express/src/index.ts:341-354 | a DataError carries its status, is meant for the end user, and has `errorType` as an own field even when undefined |
| Express.PlainErrorResponses | packages/express/__tests__/express.test.ts:70-94 | a plain error gives 500, is logged as an error, and shows its message only in development |
| Express.AppErrorResponses | packages/express/__tests__/express.test.ts:70-94 | an AppError below 500 keeps its status and is a warning; production hides its message |
| Express.DataErrorResponses | packages/express/__tests__/express.test.ts:116-141 | a default DataError gives 400, a warning, and the message in both modes |
| Express.ProxyClassification | packages/express/src/index.ts:199-210 | ECONNRESET gives a 400 notice, ECONNABORTED and ERR_STREAM_PREMATURE_CLOSE give a 400 warning, and anything else a 500 error |
| Express.ProxyError | packages/express/src/index.ts:212-225 | the error carries exactly url, method, status and code, its status is the classification's, and it is never taken for a body-parser error |
| Express.ProxyFailureHandled | packages/express/src/index.ts:199-225 | a user-caused proxy failure reaches production as a 400 warning with an empty message, and any other as a logged 500 |
| Express.EnsureQueryParameters | packages/express/src/index.ts:309-314 | the request passes exactly when every required parameter is present, and gets 404 otherwise |
| Express.EnsureQueryParametersMonotone | packages/express/src/index.ts:309-314 | requiring more parameters never lets more requests through |
| Express.RespondWith204Or400 | packages/express/src/index.ts:115-121 | non-empty data gives 204 and empty data 400 |
| Express.RespondWithJsonOr404 | packages/express/src/index.ts:123-128 | non-empty data is sent as JSON, and empty data gets 404 |
| Express.RespondersAgree | packages/express/src/index.ts:115-128 | the two responders agree on what counts as no data |

## Left out

- HMAC-SHA1 is a function-typed parameter returning a 20-byte digest. The known-answer vectors need real SHA-1. Rejection of old or future codes holds only probabilistically for a real HMAC, so it is not stated.
- The clock (`Date.now`, the current year and month), `Math.random`, `crypto.randomInt` and `crypto.randomBytes` are parameters.
- `getUrl` (otpauth URL and QR code) is not modelled. It relies on URL encoding and a QR library.
- The doc comment on `get` mentions a null return that the code never produces. The model follows the code.
- Hetu.CreateRandomHetu: the source retries forever on a repeated code. The model takes the candidate stream as a parameter and returns None when it runs out.
- Validator: the error tree that partial.lenses validation builds is not modelled, only whether it is empty.
- JSON numbers are reals, so NaN and infinities do not arise.
- Case mapping (`toUpperCase` and `toLowerCase`, and the regular expressions' `i` flag) is modelled for ASCII letters only. Other characters are left as they are.
- Examination.ExamCopyFileNameToS3Path: a `null` or `undefined` file name, which the source passes through, is outside the string type.
- Migration.CollapseSlashes models only the part of `path.normalize` that collapses runs of slashes; `.` and `..` segments are not resolved.
- Migration.TimestampPart requires a year from 0 to 9999, the range where `toISOString` writes four digits.
- Migration: date-fns parsing is a calendar-validity predicate, and the local time zone plays no part.
- Migration.GeneratedPathParses: the name is written from UTC fields and parsed as local time, so the parsed moment differs from the generated one by the zone offset; the model compares calendar fields only.
- Passphrase.FilterWordList: `w.length` counts UTF-16 code units and the model counts characters, so a word with characters outside the Basic Multilingual Plane may be kept by one and dropped by the other.
- Examination.ExamCopyFileNameToS3Path: `substring(0, 5)` takes five UTF-16 code units and the model takes five characters, so a name with characters outside the Basic Multilingual Plane among its first five gets a different prefix.
- Examination.S3PathShape: states the prefix as the first five characters, for the same reason.
- Migration: `fs.stat` errors other than a missing directory are not modelled.
- Migration: errors while creating the `schemaversion` table, transaction rollback and all logging are not modelled.
- Camel: `for…in` order is a parameter. When two keys convert to the same key, the result is stated for the last one renamed onto it.
- Passphrase: a non-integer `numWords` is not modelled, since it is a natural number here.
- Express: `status` is a number when present. A non-number status is not modelled.
- Express: the non-enumerable `message` and `stack` fields are left out of the field map, as `JSON.stringify` leaves them out.
- Express: the content-type header of `respondWith204`, the proxy streaming, TLS checks, CSV and JSON senders, multer, basic auth and the other route helpers are not part of this model.
- AnswerImages: `sanitizeAnswerContent` wraps sanitize-html and is not modelled. The logger warning in `containsInvalidImgTags` is also left out.
- Test examples that need real SHA-1 or JSON fixture files are not restated. Where a general lemma covers an example, the example is not proved separately.
