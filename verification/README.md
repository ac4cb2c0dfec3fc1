# Verified model of the UCAN 1.0 authorization core

This project models the part of the UCAN library that decides whether an invocation is authorised, and proves that it
decides what it is meant to decide. It has three linked parts.

**The policy language.** `Glob` is the wildcard matcher of `like`; `JsonStrings`, `Filters` and `Selectors` are the
selector parser and printer, and `SelectorGrammar` is the language they read; `Select` is the evaluator with its
optional segments; `Numbers` and `Predicates` evaluate predicates; `PredicateWire` and `IpldModel` are their wire form.
Strings are sequences of UTF-16 code units, as in JavaScript, so lone surrogates are included. Numbers are exact: a
double is NaN, an infinity or a real, and an integer is unbounded.

**Chains and payloads.** `Commands`, `Tokens`, `Chain`, `PayloadWire`, `DelegationWire` and `InvocationWire` are
commands, the two payloads, the check that walks a proof chain from root to leaf, and the payload codecs, which read the
entries of a map in whatever order they come.

**Verification and revocation.** `Envelopes`, `TokenWire`, `Revocations`, `Verification`, `Interleavings` and `SoloRuns`
are `verifyInvocation` with its replay and revocation stores. `Verification` is one call on its own. `Interleavings` is
a state machine of any number of calls: a run is any sequence of atomic steps, in which everything outside code can reach
(the callers' invocations and options, the CIDs handed to stores, the delegations returned) may be replaced at any
moment, foreign stores answer anything, and revocations are inserted at any point between two steps. That no call is
affected is a property of its steps: each reads what others can reach once, in the step where the code does. A shared
store's answer is fixed when its `lookup` is called and read when the call resumes. `SoloRuns` shows that the state
machine, left to one call, computes what that call returns on its own.

The loops, cursors and stores of the library are methods and classes here, each proved equal to a function of its
inputs; the results about that function are lemmas. What each operation answers is also stated without the helpers it is
made of: on positions, entries and points of the number line, with every name, tag and operator spelled as a literal.
Every lemma carries `{:induction false}`, so its proof is the one written in its body.

Foreign code is a parameter. `Envelopes.Primitives` stands for DAG-CBOR encoding and decoding, hashing to CIDs and
signature verification; `PayloadWire.TextCodec` for DID strings and lower-casing. One law is assumed about all of it,
where it is stated: an invocation's decoder refuses bytes that its result does not encode to (`DecodingIsCanonical`).
`TokenWire` builds `encode` and `decode` from DAG-CBOR as the library does and proves that law.

## Where a promise fails, and exactly when

- A selector that starts with an optional identifier field, `.foo?`, is accepted but prints as `..foo?`, which is
  rejected (`Selectors.OptionalIdentifierIsLost`). A nested optional is collapsed when reparsed. These are the only
  changes (`Selectors.ReparseCollapses`), for integers up to 2^53-1; beyond that a literal may round and an index may
  not read back (`Selectors.UnsafeLiteralRounds`, `Selectors.UnsafeIndexIsLost`).
- Collapsing a nested optional changes what a selector evaluates to exactly when the first miss on the given data is
  forgiven by it and a required filter then runs into the null it left (`Select.CollapseAgrees`).
- `objectsToMaps` turns an ES `Map` into an empty one, so a map in an equality literal comes back empty, and a
  plain-object literal comes back as a map, or empty when it is nested. An integer held as a JavaScript number comes
  back as a float. `PredicateWire.Redecodes` says what every predicate comes back as; `PredicateWire.PredicateRoundTrip`
  is the if-and-only-if.
- `MapRevocationStore.insert` validates the live object but stores its bytes. A revocation whose expiration
  or issuing time is past 2^53-1 passes, and every later lookup of its target throws
  (`TokenWire.LateRevocationPoisons`), so calls that need it fail closed (`Interleavings.UnreadableRecordBlocks`). For a
  properly sealed revocation by principals whose DIDs read back, the records stay authentic exactly when neither time is
  (`TokenWire.InsertAuthenticWhenInTime`); `Revocations.InsertAuthenticExactly` is the condition for any other.
- An empty `or` and an `any` over an empty collection are true, so De Morgan's laws fail on exactly the empty lists and
  the empty collections.
- `>` and `<=` are both false when an operand is NaN, and complementary otherwise.

Where comments in the source and its code differ, the model follows the code: `ipldToPredicate` reads only the
string-selector triple form, not tagged tuples; inside a literal, `ipldEquals` equates a number and a bigint only up to
2^53-1, while the top level of an `==` predicate does so for whole floats of any size and raises an error for the rest;
`numberCompare` compares exactly rather than by the bounds of doubles.

## Model

| member | source | states |
|---|---|---|
| `Glob.Glob` | `packages/ucan/src/delegation/policy/predicate.ts:157-241` | The matcher returns true exactly when the pattern, read as literals and wildcards, matches the whole input, and exactly when some text for each wildcard turns the pattern into the input; so it never needs to backtrack |
| `Glob.MatchesIffExpansion` | `packages/ucan/src/delegation/policy/predicate.ts:152-157` | The recursive meaning of a pattern agrees with the declarative one: matched exactly when each unescaped `*` can be replaced by some string so that the rest equals the input |
| `Glob.TokensSpelled` | `packages/ucan/src/delegation/policy/predicate.ts:160-201` | A pattern is read unit by unit: `*` is a wildcard, `\*` a literal star, any other unit itself |
| `Glob.SplitPattern` | `packages/ucan/src/delegation/policy/predicate.ts:160-201` | The escape-aware split yields the literal fragments between the wildcards of the pattern, and its two flags are set only where the outermost fragment is empty |
| `Glob.PlaceMiddles` | `packages/ucan/src/delegation/policy/predicate.ts:227-240` | Greedy leftmost placement succeeds exactly when some placement of the middle fragments, in order and without overlap, fits the window |
| `Glob.LeftmostDecides` | `packages/ucan/src/delegation/policy/predicate.ts:227-238` | Placing a fragment at its leftmost occurrence loses nothing: the rest can be placed after it if it can be placed at all |
| `Glob.TailIffPlaceable` | `packages/ucan/src/delegation/policy/predicate.ts:217-238` | Anchoring the last fragment at the very end of the input is complete: any match can be moved there |
| `Glob.AnchorsAndMiddleDecide` | `packages/ucan/src/delegation/policy/predicate.ts:209-240` | The two anchor tests, the window test and the placement of the middle fragments together decide the match, with wildcards at either end |
| `JsonStrings.WriteJsonString` | `packages/ucan/src/delegation/policy/selector/filter.ts:81-102` | Code point by code point, the writer produces the quoted escape of every unit of the string, surrogate pairs and lone surrogates untouched |
| `JsonStrings.EscapeSpelled` | `packages/ucan/src/delegation/policy/selector/filter.ts:81-102` | Each unit is written as its short escape, as `\u00` and two upper-case digits if it is another control, or as itself |
| `JsonStrings.SimpleEscapeSpelled` | `packages/ucan/src/delegation/policy/selector/filter.ts:217-225` | The one-letter escapes are exactly the eight of section 7 of RFC 8259, with their meanings |
| `JsonStrings.HexValueSpelled` | `packages/ucan/src/delegation/policy/selector/filter.ts:197-201` | A hexadecimal digit is one of sixteen characters in either case, and its value is its place |
| `Text.SurrogateBits` | `packages/ucan/src/delegation/policy/selector/filter.ts:227-234` | High and low surrogates are told by their leading bits |
| `JsonStrings.DecodeEscape` | `packages/ucan/src/delegation/policy/selector/filter.ts:215-244` | The escape cases compute the units an escape stands for, or the same error |
| `JsonStrings.DecodeJsonStringLiteral` | `packages/ucan/src/delegation/policy/selector/filter.ts:206-252` | The decoder loop computes the chunk-by-chunk reading of the literal, or the same error |
| `JsonStrings.Hex4Loop` | `packages/ucan/src/delegation/policy/selector/filter.ts:193-204` | The four-digit loop reads the hexadecimal number the digits denote, and fails exactly on too few characters or on a character that is no digit |
| `JsonStrings.JsonStringRoundTrip` | `packages/ucan/src/delegation/policy/selector/filter.ts:81-102` | For every UTF-16 string and every suffix, decoding what was written gives the string back and stops exactly after the closing quote (section 7 of RFC 8259) |
| `JsonStrings.DecodeWritten` | `packages/ucan/src/delegation/policy/selector/filter.ts:206-252` | The same at any position inside a longer input |
| `JsonStrings.DecodesExactlyLiterals` | `packages/ucan/src/delegation/policy/selector/filter.ts:206-252` | The decoder accepts exactly the literals made of raw units other than quote and backslash, one-letter escapes, `\u` escapes of non-surrogates and `\u` surrogate pairs, and returns what they denote and where they end |
| `Filters.ParseAdvances` | `packages/ucan/src/delegation/policy/selector/filter.ts:279-361` | Every filter parser that succeeds moves strictly forward, stays within the input, and yields no nested optional |
| `Filters.ClassesSpelled` | `packages/ucan/src/delegation/policy/selector/filter.ts:256-259` | The character classes of the selector parser are the ASCII letters, the decimal digits, and both with the underscore |
| `Filters.UlpSpelled` | `packages/ucan/src/delegation/policy/selector/filter.ts:271` | Doubles are 1 apart below 2^53, and from there on a power of two of which 2^52 to 2^53 fit below the number |
| `Filters.ToDoubleSpelled` | `packages/ucan/src/delegation/policy/selector/filter.ts:271` | Each step of the integer reader rounds to the nearest double, and to the even one of two that are as near |
| `Filters.ParseOptSignedIntLoop` | `packages/ucan/src/delegation/policy/selector/filter.ts:263-275` | The digit loop, with the rounding of each step to a double, computes the reading the next two rows describe |
| `Filters.IntegerDenotes` | `packages/ucan/src/delegation/policy/selector/filter.ts:263-275` | An optional minus and a maximal run of digits is read as its signed decimal value whatever zeros lead it: exactly up to 2^53-1, and below 2^54 exactly when the value is even or below 2^53 |
| `Filters.DigitsReadNearest` | `packages/ucan/src/delegation/policy/selector/filter.ts:263-275` | Below 2^54 the digits are read as the double nearest to their value, however many steps read them |
| `Filters.OtherwiseNoInteger` | `packages/ucan/src/delegation/policy/selector/filter.ts:263-269` | A minus without a digit is refused, and without minus or digit no integer is read |
| `Filters.ScanWhileLoop` | `packages/ucan/src/delegation/policy/selector/filter.ts:312-325` | The character scanners stop at the first character that fails the test, or at the end |
| `Selectors.ParseManyLoop` | `packages/ucan/src/delegation/policy/selector/filter.ts:363-373` | The loop reads filters until none parses; it terminates because each read advances |
| `Selectors.ParseSelector` | `packages/ucan/src/delegation/policy/selector/filter.ts:40-76` | Every accepted selector string yields filters with no nested optional |
| `Selectors.ParseSelectorLoop` | `packages/ucan/src/delegation/policy/selector/filter.ts:40-76` | The whole selector parser: same first-filter rule, same stripped `?`, same errors |
| `Selectors.SelectorTextLoop` | `packages/ucan/src/delegation/policy/selector/select.ts:140-153` | The printer loop writes the lead dot, when the first filter needs one, and then every filter in order |
| `Selectors.FilterTextSpelled` | `packages/ucan/src/delegation/policy/selector/filter.ts:117-132` | The text of each filter, character by character: a field is dotted exactly when its key is an identifier |
| `Selectors.IntTextSpelled` | `packages/ucan/src/delegation/policy/selector/filter.ts:118-123` | An integer is written as an optional minus and its decimal digits without leading zeros |
| `Selectors.IdentifierSpelled` | `packages/ucan/src/delegation/policy/selector/filter.ts:104-115` | An identifier is letters, digits and underscores, not starting with a digit |
| `SelectorGrammar.ParsesExactly` | `packages/ucan/src/delegation/policy/selector/filter.ts:40-76` | The language of selectors: a string is accepted exactly when it is a dot, any number of question marks that do nothing, and parts, or parts that start with a dotted field; each part is an index, slice, `[]`, quoted or dotted field with any number of question marks, and the result is what they denote |
| `SelectorGrammar.FilterParsesExactly` | `packages/ucan/src/delegation/policy/selector/filter.ts:31-36` | A single filter is accepted exactly when its text is one part of that language |
| `SelectorGrammar.FilterRefused` | `packages/ucan/src/delegation/policy/selector/filter.ts:31-36` | Otherwise the error names what is left after the part in front, or the whole input if there is none |
| `Selectors.FilterRoundTrip` | `packages/ucan/src/delegation/policy/selector/filter.ts:25-31` | A single printed filter parses to itself with its optionals collapsed, so to itself exactly when it holds no nested optional |
| `Selectors.IndexLiteralDenotes` | `packages/ucan/src/delegation/policy/selector/filter.ts:279-285` | An index literal with any digits is accepted, and below 2^54 denotes its decimal value exactly when that is even or below 2^53 |
| `Selectors.UnsafeLiteralRounds` | `packages/ucan/src/delegation/policy/selector/filter.ts:263-275` | The literal `[9007199254740993]` is accepted and denotes 2^53 |
| `Selectors.UnsafeIndexIsLost` | `packages/ucan/src/delegation/policy/selector/filter.ts:117-132` | From 2^54 on rounding step by step is not rounding once: the index 2^54+12 is a double, yet its printed form reads back as 2^54+16 |
| `Selectors.FiltersTextParses` | `packages/ucan/src/delegation/policy/selector/filter.ts:363-373` | Adjacent printed filters never merge: reading them back splits the text exactly where the printer moved on, whatever optionals they hold |
| `Selectors.ReparseCollapses` | `packages/ucan/src/delegation/policy/selector/select.ts:140-157` | What printing then parsing gives, for every list: the same filters with nested optionals collapsed, or an error exactly when an optional identifier field comes first |
| `Selectors.SelectorRoundTrip` | `packages/ucan/src/delegation/policy/selector/select.ts:140-157` | With safe integers, printing then parsing is the identity exactly on the lists with no nested optional and no optional identifier field in first place |
| `Selectors.ReparseIsStable` | `packages/ucan/src/delegation/policy/selector/filter.ts:40-132` | Whatever the parser accepts reads back unchanged after printing, exactly when it does not start with an optional identifier field |
| `Selectors.OptionalIdentifierIsLost` | `packages/ucan/src/delegation/policy/selector/filter.ts:388-395` | For every identifier k, `.k?` is accepted, prints with two leading dots, and that is rejected |
| `Selectors.PrintsBackUnchanged` | `packages/ucan/src/delegation/policy/selector/filter.ts:40-132` | The accepted strings that print back unchanged are exactly those the printer writes for lists that read back |
| `Selectors.QuotedKeyIsRewritten` | `packages/ucan/src/delegation/policy/selector/filter.ts:117-132` | For every key, `.["key"]` denotes that field, and it is printed back unchanged exactly when the key is no identifier |
| `Selectors.CompareIsPrefixOrder` | `packages/ucan/src/delegation/policy/selector/select.ts:159-165` | The comparison of selectors is the prefix order on their filter lists |
| `Selectors.IsRelated` | `packages/ucan/src/delegation/policy/selector/index.ts:36-42` | Two selectors are related exactly when one is a prefix of the other, that is when they compare |
| `Select.GetLoop` | `packages/ucan/src/delegation/policy/selector/select.ts:85-130` | The stateful evaluator refines the first-failure meaning, projection and error prefix included; once a miss was forgiven the current value is null |
| `Select.IndexGives` | `packages/ucan/src/delegation/policy/selector/select.ts:176-196` | On a list or bytes an index gives the element at the one position it points at, from the start or the end, and is out of bounds if there is none |
| `Select.FieldGives` | `packages/ucan/src/delegation/policy/selector/select.ts:197-203` | On a map a field gives the value of the entry with that key, and is not found exactly when there is none |
| `Select.SliceGives` | `packages/ucan/src/delegation/policy/selector/select.ts:204-214` | On a list or bytes a slice gives, in order, exactly what is at the positions its bounds keep |
| `Select.SliceIsUnique` | `packages/ucan/src/delegation/policy/selector/select.ts:64-72` | What a slice keeps fixes it: there is only one such sequence |
| `Select.OtherFilters` | `packages/ucan/src/delegation/policy/selector/select.ts:195-219` | `[]` gives a list itself and the values of a map in order; every filter names its error on any other kind of value |
| `Select.SegmentMeans` | `packages/ucan/src/delegation/policy/selector/select.ts:98-121` | A segment does what its filter does, and an optional is forgiven where its filter fails |
| `Select.VerdictIsFirstMiss` | `packages/ucan/src/delegation/policy/selector/select.ts:93-123` | Along the values walked, the first segment that does not hit decides: none gives the plain value, an optional one null, a required one its own error |
| `Select.WhateverFollows` | `packages/ucan/src/delegation/policy/selector/select.ts:90-123` | After a first failure no segment that follows can change the focus or the error |
| `Select.NestedOptionalDiffers` | `packages/ucan/src/delegation/policy/selector/select.ts:93-122` | For every nested optional and every tail, it evaluates like a single one exactly unless it misses and a required filter, past any nested optionals, comes next |
| `Select.CollapseAgrees` | `packages/ucan/src/delegation/policy/selector/select.ts:93-122` | For whole lists: collapsing every nested optional keeps the value, or the reason and place of the error, exactly unless the first miss is forgiven by a nested optional and resurfaces |
| `Select.CollapseIsSafe` | `packages/ucan/src/delegation/policy/selector/select.ts:93-122` | What the selector alone tells: if no nested optional has a required filter next, past any nested optionals, collapsing keeps the outcome on every value |
| `Select.ReparseEvaluatesTheSame` | `packages/ucan/src/delegation/policy/selector/select.ts:85-157` | So a selector that was printed and parsed again evaluates the same exactly then |
| `Select.IndexCountsFromEitherEnd` | `packages/ucan/src/delegation/policy/selector/select.ts:176-195` | An index denotes the element that many places from the start, or from the end when negative, and no other |
| `Select.SliceKeeps` | `packages/ucan/src/delegation/policy/selector/select.ts:64-72` | A slice keeps exactly the positions at or after its start and before its end, each counted from the end when negative |
| `Predicates.GreaterComplementsLessOrEqual` | `packages/ucan/src/delegation/policy/predicate.ts:70-90` | `>` and `<=` are complementary, errors included, exactly when neither operand is NaN |
| `Predicates.ConnectivesAnswer` | `packages/ucan/src/delegation/policy/predicate.ts:97-106` | `and` is true exactly when every part is, and otherwise answers as the first part that is not, errors included; `or` is true without parts, false exactly when all are, and otherwise answers as the first that is not; `not` flips |
| `Predicates.QuantifiersAnswer` | `packages/ucan/src/delegation/policy/predicate.ts:108-117` | `all` and `any` do the same over the elements of the selected list or the values of the selected map, and fail on anything else |
| `Predicates.ComparisonsAnswer` | `packages/ucan/src/delegation/policy/predicate.ts:70-90` | The four comparisons are those of the extended real line between the selected and the given number, and all false with NaN |
| `Predicates.EqualAnswers` | `packages/ucan/src/delegation/policy/predicate.ts:46-68` | `==` compares a number with a bigint as numbers, and fails if the number is not whole; any other two values as `ipldEquals` does |
| `Predicates.LikeAnswers` | `packages/ucan/src/delegation/policy/predicate.ts:92-95` | `like` holds of a selected string exactly when the pattern expands to it, and fails on any other value |
| `Predicates.DeMorganLists` | `packages/ucan/src/delegation/policy/predicate.ts:97-106` | Negating `and` gives `or` of the negations, and the dual, with the same error under short-circuiting, exactly for non-empty lists |
| `Predicates.DeMorganQuantifiers` | `packages/ucan/src/delegation/policy/predicate.ts:108-117` | Negating `all` gives `any` of the negation, and the dual, exactly when the selected collection is not an empty one |
| `Predicates.NnfPreservesMeaning` | `packages/ucan/src/delegation/policy/predicate.ts:44-119` | Negation normal form evaluates to the same verdict or raises the same error on the same data, at any depth, when no quantifier under a negation selects an empty collection |
| `Predicates.NnfIsNnf` | `packages/ucan/src/delegation/policy/predicate.ts:97-117` | The normal form has no negation above a connective or a quantifier |
| `Numbers.NumberCompareIsExact` | `packages/ucan/src/number.ts:19-53` | The comparison is the order of the extended reals for every mix of floats and unbounded integers, and undefined exactly on NaN |
| `Numbers.NumberCompareAntisymmetric` | `packages/ucan/src/number.ts:19-53` | Swapping the operands flips the result |
| `Numbers.NumberCompareTransitive` | `packages/ucan/src/number.ts:19-53` | The order is transitive across the two kinds |
| `PredicateWire.PredicateRoundTrip` | `packages/ucan/src/delegation/policy/predicate.ts:252-377` | Decoding an encoded predicate gives it back exactly when its selectors read back, its equality literals hold no plain object and no non-empty map, and its integers are in parsed form; `!=` is not-equal at any depth |
| `PredicateWire.PredicateRoundTripAt` | `packages/ucan/src/delegation/policy/predicate.ts:299-318` | The same when the encoded form was already normalised any number of times, as happens under connectives and quantifiers |
| `PredicateWire.Redecodes` | `packages/ucan/src/delegation/policy/predicate.ts:252-377` | What encoding then decoding gives, for every predicate: an error exactly when some selector does not read, and otherwise the predicate with optionals collapsed, numbers in parsed form, and each literal normalised once more for every level it is nested at |
| `PredicateWire.DecodesExactly` | `packages/ucan/src/delegation/policy/predicate.ts:299-377` | A value decodes to a predicate exactly when it spells it: operator, selector text and operand, or connective and what it connects, with plain objects taken as maps at every level |
| `PredicateWire.RefusedFor` | `packages/ucan/src/delegation/policy/predicate.ts:299-377` | Why a value is refused before any part of it is decoded: its shape, its tag, its selector, or the kind of its operand |
| `PredicateWire.EncodesExactly` | `packages/ucan/src/delegation/policy/predicate.ts:252-286` | What is written for each predicate, with the operators spelled out |
| `PredicateWire.PolicyRoundTrip` | `packages/ucan/src/delegation/policy/predicate.ts:252-377` | The same for a policy list |
| `PredicateWire.MapLiteralComesBackEmpty` | `packages/ucan/src/delegation/policy/predicate.ts:299-330` | An equality literal that is a map comes back as the empty map |
| `PredicateWire.MapInListComesBackEmpty` | `packages/ucan/src/delegation/policy/predicate.ts:299-330` | So does a map that is an item of a list literal, at its place |
| `PredicateWire.IntegerComesBackAsFloat` | `packages/ucan/src/delegation/policy/predicate.ts:284-286` | In every comparison an integer held as a JavaScript number comes back as the float of the same value |
| `PredicateWire.ObjectLiteralBecomesMap` | `packages/ucan/src/delegation/policy/predicate.ts:299-330` | A plain-object literal comes back as a map at the top level |
| `PredicateWire.ObjectLiteralLostWhenNested` | `packages/ucan/src/delegation/policy/predicate.ts:299-318` | One level deeper, in a connective or under a negation, it comes back empty |
| `Predicates.EqualAgreesWithOrder` | `packages/ucan/src/delegation/policy/predicate.ts:57-67` | Between a float and an integer, `==` is equality in the numeric order, whichever side holds which, and an error exactly on a float that is not whole |
| `IpldModel.IpldEqualsLoop` | `packages/ucan/src/ipld.ts:55-100` | The recursive comparison, with its loop over one map's entries, computes value equality |
| `IpldModel.IpldEqualsMeans` | `packages/ucan/src/ipld.ts:55-100` | Equal are the same scalars except NaN, a number and a bigint that tie within 2^53-1, lists item by item, and maps with the same keys and equal values; nothing of different kinds |
| `IpldModel.LookupExact` | `packages/ucan/src/ipld.ts:89-95` | Looking a key up in a map gives the value of its entry |
| `IpldModel.IpldEqualsSymmetric` | `packages/ucan/src/ipld.ts:55-100` | Although only the first map is walked, the comparison is symmetric |
| `IpldModel.IpldEqualsReflexive` | `packages/ucan/src/ipld.ts:55-100` | A value equals a copy of itself exactly when it holds no NaN and no plain object |
| `IpldModel.IpldEqualsTransitive` | `packages/ucan/src/ipld.ts:55-100` | It is transitive, across numbers and bigints and down through lists and maps |
| `IpldModel.ObjectsToMapsLoop` | `packages/ucan/src/ipld.ts:178-193` | The recursive conversion fills its fresh container with the converted entries; an ES Map comes out empty |
| `IpldModel.ObjectsToMapsFixpoint` | `packages/ucan/src/ipld.ts:178-193` | Normalising leaves a value alone exactly when it holds no plain object and no non-empty map |
| `IpldModel.NormalisedFixpoint` | `packages/ucan/src/ipld.ts:178-193` | The same for any positive number of normalisations |
| `Commands.PrintParse` | `packages/ucan/src/command.ts:51-106` | Printing then parsing is the identity exactly on commands whose segments are non-empty, hold no slash, and whose text is lower-case |
| `Commands.ParsePrint` | `packages/ucan/src/command.ts:51-106` | Every accepted string prints back unchanged and has well-formed segments |
| `Commands.ParseRefuses` | `packages/ucan/src/command.ts:51-81` | A text is a command unless it lacks the leading slash, ends in one, changes in lower case, or holds two in a row, in that order of errors |
| `Commands.StartsWithLoop` | `packages/ucan/src/command.ts:86-96` | The indexed loop decides the prefix order on segments |
| `Commands.StartsWithIsPartialOrder` | `packages/ucan/src/command.ts:86-96` | The prefix test is reflexive, antisymmetric and transitive |
| `Commands.StartsWithOnPaths` | `packages/ucan/src/command.ts:86-106` | On printed paths: it holds exactly for the root, for equal paths, or when the longer path begins with the shorter and a slash |
| `Chain.SyntacticChecks` | `packages/ucan/src/invocation/index.ts:251-303` | The loop, with its expected issuer and previous link, returns the first failing check in order, and passes exactly the well-linked chains |
| `Chain.AcceptedIffWellLinked` | `packages/ucan/src/invocation/index.ts:251-303` | A chain is accepted exactly when the root names its subject, every subject allows the payload's, principals link from subject to invoker, each command extends every earlier one and is extended by the invoked one, and every policy evaluates to true; the empty chain only for the subject itself |
| `Chain.RejectedAtFirstBadLink` | `packages/ucan/src/invocation/index.ts:257-294` | A rejected chain is rejected at its first link that does not hold, for the first check that link fails |
| `Chain.CheckPolicyLoop` | `packages/ucan/src/invocation/index.ts:277-290` | A policy stops at its first predicate that errs or is false |
| `Chain.TimeBoundChecks` | `packages/ucan/src/invocation/index.ts:235-249` | The time checks pass exactly when every bound holds once the leeway is forgiven either way |
| `Chain.TimeChecksExact` | `packages/ucan/src/invocation/index.ts:220-249` | The clamped and range-checked instants give exactly that, and fail when the shifted instant exceeds 2^53-1 |
| `Chain.CheckResolvedExact` | `packages/ucan/src/invocation/index.ts:208-218` | Time bounds and chain together |
| `Chain.Attenuation` | `packages/ucan/src/invocation/index.ts:208-303` | Whatever a chain authorises, each of its prefixes authorises at the same instant and leeway when invoked by the principal it ends at |
| `Chain.DelegateGrantsNoMore` | `packages/ucan/src/invocation/index.ts:251-303` | Dropping the last delegation leaves its issuer with the same authority |
| `Chain.NarrowerCommandAuthorised` | `packages/ucan/src/invocation/index.ts:270-275` | A chain that authorises a command authorises every command below it |
| `DelegationWire.DecodeLoop` | `packages/ucan/src/delegation/index.ts:67-199` | One pass filling locals computes the field table of the entries, with the same duplicate, unknown, malformed and missing field errors |
| `DelegationWire.DelegationRoundTrip` | `packages/ucan/src/delegation/index.ts:45-199` | In whatever order the entries are visited, decoding gives the payload back, with the presence of `meta` recorded, exactly when it is carriable: its DIDs and command read back, its policy is canonical, its timestamps are at most 2^53-1 |
| `DelegationWire.DecodesExactly` | `packages/ucan/src/delegation/index.ts:67-199` | Decoding gives a payload exactly when the map says it, each field under its own spelled-out name, in any order, and with no other name |
| `DelegationWire.EncodesExactly` | `packages/ucan/src/delegation/index.ts:45-65` | What is written under each name, null and left-out fields included |
| `DelegationWire.EncodesNoOther` | `packages/ucan/src/delegation/index.ts:45-65` | ... and that no other name is |
| `DelegationWire.RefusedFor` | `packages/ucan/src/delegation/index.ts:165-185` | A map whose fields can all be read is refused only for the first required field it lacks |
| `DelegationWire.UnreadableNamed` | `packages/ucan/src/delegation/index.ts:84-163` | The error of a field that cannot be read names that field |
| `DelegationWire.EncodeIsAMap` | `packages/ucan/src/delegation/index.ts:45-65` | No field is written twice |
| `InvocationWire.DecodeLoop` | `packages/ucan/src/invocation/index.ts:63-177` | One pass filling locals computes the field table of the entries, skipping unknown fields, and refuses an audience that repeats the subject |
| `InvocationWire.InvocationRoundTrip` | `packages/ucan/src/invocation/index.ts:37-177` | In whatever order the entries are visited, decoding gives the payload back, with an omitted audience restored from the subject, exactly when it is carriable: its DIDs and command read back and its timestamps are at most 2^53-1 |
| `InvocationWire.DecodesExactly` | `packages/ucan/src/invocation/index.ts:63-177` | Decoding gives a payload exactly when the map says it, each field under its own spelled-out name, in any order, with any other names beside them, and an audience only if it differs from the subject |
| `InvocationWire.EncodesExactly` | `packages/ucan/src/invocation/index.ts:37-61` | What is written under each name, null and left-out fields included |
| `InvocationWire.EncodesNoOther` | `packages/ucan/src/invocation/index.ts:37-61` | ... and that no other name is |
| `InvocationWire.RefusedFor` | `packages/ucan/src/invocation/index.ts:148-159` | A map whose fields can all be read is refused for the first required field it lacks or for repeating the subject as its audience, and for no other reason |
| `InvocationWire.UnreadableNamed` | `packages/ucan/src/invocation/index.ts:80-145` | The error of a field that cannot be read names that field |
| `InvocationWire.LateTimestampRefused` | `packages/ucan/src/invocation/index.ts:125-133` | A timestamp past 2^53-1 makes the decoder refuse the payload, in whatever order the entries are visited |
| `InvocationWire.EncodeIsAMap` | `packages/ucan/src/invocation/index.ts:37-61` | No field is written twice |
| `PayloadWire.OrderDoesNotMatter` | `packages/ucan/src/invocation/index.ts:80-146` | The visiting order of a map changes neither whether its fields can be collected nor what is collected |
| `PayloadWire.CollectExact` | `packages/ucan/src/invocation/index.ts:80-146` | The fields of a map are collected exactly when each can be read; otherwise the error is that of the first that cannot |
| `PayloadWire.NamesSpelled` | `packages/ucan/src/invocation/index.ts:82-143` | The names of the fields as they are on the wire |
| `Envelopes.BytesEqual` | `packages/ucan/src/ipld.ts:105-111` | The loop decides equality of byte strings |
| `TokenWire.FieldsLoop` | `packages/ucan/src/envelope/index.ts:67-92` | The loop over an envelope reads its entries as the next row says |
| `TokenWire.FieldsExact` | `packages/ucan/src/envelope/index.ts:67-92` | Accepted are exactly a bytes header and a payload, each once, in one of the two orders and with nothing beside them |
| `TokenWire.EnvelopeExact` | `packages/ucan/src/envelope/index.ts:43-103` | A value opens to an invocation exactly when it is a signature and those two fields, the header is a varsig the signature fits, and the payload decodes |
| `TokenWire.EnvelopeWritten` | `packages/ucan/src/envelope/index.ts:15-40` | What is written is such an envelope |
| `TokenWire.DecodeExact` | `packages/ucan/src/invocation/index.ts:405-420` | Bytes decode to an invocation exactly when they are those of one of its envelopes, as it encodes, with a header for DAG-CBOR |
| `TokenWire.CodecIsCanonical` | `packages/ucan/src/invocation/index.ts:405-420` | `decode` as the library builds it satisfies the law the verification results assume: it refuses bytes its result does not encode to |
| `TokenWire.ReadsBackExactly` | `packages/ucan/src/invocation/index.ts:397-420` | An invocation that DAG-CBOR carries reads back from its own bytes exactly when its seal is proper and its payload carriable |
| `TokenWire.LateRevocationPoisons` | `packages/ucan/src/revocation/index.ts:88-108` | A revocation that passes validation and whose expiration or issuing time is past 2^53-1 is stored, is no authentic record, and makes every later lookup of its target throw |
| `TokenWire.InsertAuthenticWhenInTime` | `packages/ucan/src/revocation/index.ts:88-108` | Inserting a properly sealed invocation, by principals whose DIDs read back, keeps the records authentic exactly when it is refused or both its times are at most 2^53-1 |
| `Revocations.MapRevocationStore.Insert` | `packages/ucan/src/revocation/index.ts:88-100` | An invalid revocation is refused with its fault and changes nothing; a valid one is appended unless its bytes are already there; records only grow, are never kept twice, and stay authentic exactly as the next rows say |
| `Revocations.FaultExact` | `packages/ucan/src/revocation/index.ts:65-78` | A revocation is valid exactly when it is signed, its command is `/ucan/revoke` and its `revoke` argument links to the target; otherwise the fault is the first of these it misses |
| `Revocations.InsertExact` | `packages/ucan/src/revocation/index.ts:88-100` | The records afterwards: the bytes of a valid revocation are added after the records of its key, unless they are among them |
| `Revocations.MapRevocationStore.LookupRecords` | `packages/ucan/src/revocation/index.ts:102-108` | Lookup decodes every stored record afresh, and fails if one does not decode |
| `Revocations.AnswerIsTheRecords` | `packages/ucan/src/revocation/index.ts:102-108` | Lookup fails exactly when some record does not decode, and otherwise answers one object per record, in order, each encoding to the stored bytes |
| `Revocations.InsertKeepsDuplicateFree` | `packages/ucan/src/revocation/index.ts:88-100` | Whatever is inserted, no record is kept twice |
| `Revocations.InsertAuthenticExactly` | `packages/ucan/src/revocation/index.ts:88-100` | After an insert every record is still an authentic revocation of its key exactly when the object is refused, or the bytes stored for it decode to such a revocation |
| `Revocations.UnreadablePoisons` | `packages/ucan/src/revocation/index.ts:88-108` | If they do not decode, every later lookup of that CID throws |
| `Revocations.CheckRevocations` | `packages/ucan/src/revocation/index.ts:192-223` | The nested loops compute the first effective revocation, link by link and record by record |
| `Revocations.RejectedIffStored` | `packages/ucan/src/revocation/index.ts:139-224` | Against what the store holds: a chain of authenticated proofs passes exactly when every record of its proofs decodes and no proof i has a stored authentic revocation whose issuer issued one of the proofs 0 to i; with authentic records it is rejected as revoked exactly when one has |
| `Revocations.RejectedIffRevoked` | `packages/ucan/src/revocation/index.ts:192-223` | The same for whatever a foreign store answers: it passes exactly when no lookup throws and no answer holds an effective revocation |
| `Revocations.ErrorNamesFirstRevoked` | `packages/ucan/src/revocation/index.ts:192-223` | The error names the first link that is revoked, and the issuer of an authentic revocation of it with authority over it |
| `Revocations.ExtensionsStayRevoked` | `packages/ucan/src/revocation/index.ts:192-223` | Revoking a chain revokes every extension of it, with the same error |
| `Revocations.AuthorityOnAcceptedChain` | `packages/ucan/src/revocation/index.ts:182-193` | On an accepted chain the principals with authority over link i are exactly the subject and the audiences of the links before i |
| `Verification.MapReplayStore.Claim` | `packages/ucan/src/invocation/verify.ts:52-64` | A claim is accepted exactly when the CID was not there, and leaves it there |
| `Verification.VerifyProofs` | `packages/ucan/src/invocation/verify.ts:151-182` | The loop detaches, checks and pushes each proof, with the same errors in the same order |
| `Verification.ProofsExact` | `packages/ucan/src/invocation/verify.ts:158-182` | It accepts exactly the detached list that matches the requested CIDs in order and number, each decoded from the item returned for it and signed |
| `Verification.VerifyInvocation` | `packages/ucan/src/invocation/verify.ts:90-204` | The whole call, run on its own: it returns the outcome its inputs determine, claims the CID only when every check passed, and is refused exactly when the CID was claimed before |
| `Verification.OutcomeExact` | `packages/ucan/src/invocation/verify.ts:101-203` | Every check passes, and with this invocation, exactly when it was decoded from the captured bytes, is signed, names the captured executor, has matching signed proofs that pass the time and chain checks, and no link is revoked |
| `Verification.CallerInstantDecides` | `packages/ucan/src/invocation/verify.ts:109-186` | A call with the instant t gives what a call without one gives at clock t, whatever the clock says |
| `Interleavings.AtMostOneSuccess` | `packages/ucan/src/invocation/verify.ts:52-64` | In every interleaving of any number of calls, with any answers, two successful calls on the shared replay store never share an invocation CID, and the seen set is exactly the CIDs of the calls that passed their claim |
| `Interleavings.StepKeepsSeen` | `packages/ucan/src/invocation/verify.ts:52-64` | Each atomic step of any call, store or caller keeps that invariant |
| `Interleavings.InterleavingRefinesCall` | `packages/ucan/src/invocation/verify.ts:90-204` | Whatever is interleaved with it, a call ends as it would on its own with the answers it was given, or is refused because its CID was already claimed, on the shared store by another call |
| `Interleavings.RefusalIsGenuine` | `packages/ucan/src/invocation/verify.ts:52-64` | In every run, a call that the shared replay store refused has the CID of another call that passed its claim; so nothing but a call that passed every check ever blocks a CID |
| `Interleavings.ForeignClaim` | `packages/ucan/src/invocation/verify.ts:199` | A claim on a foreign replay store goes as that store answers: on, or to a replay error |
| `Interleavings.ForeignStoreDecides` | `packages/ucan/src/invocation/verify.ts:199` | In every run, a call on a foreign replay store goes past its claim only if that store accepted it |
| `Interleavings.StartReaches` | `packages/ucan/src/invocation/verify.ts:101-149` | A started call captured the object and the options as they were, authenticated the one against the other, and handed out its proof CIDs |
| `Interleavings.MutateReaches` | `packages/ucan/src/invocation/verify.ts:101-123` | Between any two steps outside code may replace every object, option, handed CID and returned proof, and it can change nothing else |
| `Interleavings.InsertReaches` | `packages/ucan/src/revocation/index.ts:88-100` | An insertion during a run adds the bytes of a valid revocation after the records of its key, once, and changes nothing else |
| `Interleavings.SuccessIsAuthentic` | `packages/ucan/src/invocation/verify.ts:101-203` | Whatever is done between awaits to the invocation, the options, the handed CIDs or the returned proofs, a successful call returns what the object encoded to at the start, with every check established against the options captured then |
| `SoloRuns.CallAloneEndsAsOutcome` | `packages/ucan/src/invocation/verify.ts:90-204` | The other direction: from its start a call can always run to its end by its own steps, and ends, replay store included, exactly as `Verification.VerifyInvocation` says |
| `Interleavings.RecordsOnlyGrow` | `packages/ucan/src/revocation/index.ts:80-109` | Over every run the revocation records are only appended to and none is kept twice |
| `Interleavings.RecordsAuthenticExactly` | `packages/ucan/src/revocation/index.ts:88-100` | Over every run they stay authentic exactly when no event inserts an object that passes but whose bytes do not decode to an authentic revocation |
| `Interleavings.UnreadableRecordBlocks` | `packages/ucan/src/invocation/verify.ts:188-199` | If bytes that do not decode are stored under a requested proof CID when a call using the shared store starts, that call never claims and never returns |
| `Interleavings.PresentRevocationBlocks` | `packages/ucan/src/invocation/verify.ts:188-199` | An authorised revocation in the shared store when a call using it starts makes it impossible for that call to claim or return |
| `Interleavings.OnceRevokedStaysRevoked` | `packages/ucan/src/invocation/verify.ts:188-199` | Once a chain was rejected as revoked, no later call with it or with an extension of it succeeds, unless the CIDs of the two calls' own proofs collide |

## Left out

- Cryptography, DAG-CBOR and DAG-JSON bytes, CID construction, base58 and DID validation are foreign code: parameters with the laws named above.
- Varsig headers and codecs: the header of a token is opaque bytes, read by foreign functions. The envelope of a delegation is read as an invocation's is, with the other tag, and only the invocation's is modelled.
- TokenWire.ReadsBackExactly: it is about invocations whose values DAG-CBOR brings back as they are; one that it changes, such as a bigint small enough for a number, is not covered.
- TokenWire.LateRevocationPoisons: the same restriction.
- TokenWire.InsertAuthenticWhenInTime: the same restriction, and principals whose DIDs read back; `Revocations.InsertAuthenticExactly` has neither.
- Select.CollapseIsSafe: one direction only, since the filters before a nested optional may keep any value from reaching it; `Select.CollapseAgrees` is exact for each value.
- Filters.DigitsReadNearest: from 2^54 on the result of rounding at every step is computed but not characterised.
- Containers, builders, `collection.ts` tagging, `promise.ts`, nonces, delegation stores and error classes: copying and tagging only. Error message text is not modelled; a selector error keeps the list of filters rather than their printed form.
- `filterToIpld`, `ipldToFilter`, `filterIsIn`: one-to-one tagging and an unused comparison.
- `check`, `checkWithRevocations` and the store-reading path of `checkRevocations`: the same checks on unauthenticated proofs.
- Selectors.SelectorRoundTrip: indices beyond 2^53-1 are outside the statement, because how JavaScript prints such doubles is not modelled; literals of 2^1024 and more, which become infinite, are read as large integers.
- Selectors.FilterRoundTrip: the same restriction to integers within 2^53-1.
- Selectors.FiltersTextParses: the same restriction.
- Selectors.ReparseCollapses: the same restriction.
- Selectors.ReparseIsStable: the same restriction.
- Select.ReparseEvaluatesTheSame: the same restriction.
- PredicateWire.PredicateRoundTripAt: the same restriction on selectors.
- PredicateWire.Redecodes: the same restriction on selectors.
- PredicateWire.PredicateRoundTrip: the same restriction on selectors; negative zero is identified with zero.
- PredicateWire.PolicyRoundTrip: the same restriction on selectors.
- DelegationWire.DelegationRoundTrip: the same restriction on the selectors of the policy.
- Predicates.NnfPreservesMeaning: one direction only; that every normal form with an empty negated quantifier changes a verdict is not claimed, since an outer `or` may hide it.
- DelegationWire.DecodesExactly: for entries with each key once, as an ES Map has them, so the duplicate-field errors are only in `DelegationWire.DecodeLoop`.
- InvocationWire.DecodesExactly: the same.
- SelectorGrammar.ParsesExactly: an index or bound denotes what `Filters.DigitsReadNearest` and `Filters.ToDoubleSpelled` say of its digits.
- Commands.PrintParse: `toLowerCase` is an arbitrary function, so what is lower-case is whatever it leaves unchanged.
- Object identity: `ipldEquals` returns true on a shared reference even if it holds NaN; the model compares values.
- A fractional or NaN `leewaySeconds`, which makes the conversion to an integer throw, and timestamps as doubles: leeway and timestamps are integers.
- Interleavings.AtMostOneSuccess: claims made on the shared store by code other than `verifyInvocation` are not part of a run.
- Selectors.PrintsBackUnchanged: the same restriction.
- Interleavings.OnceRevokedStaysRevoked: it speaks of calls that start after the rejection, since an earlier call may already have been told of an older store.
- Liveness: a call whose foreign store never answers stays where it is.
