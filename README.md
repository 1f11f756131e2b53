# InvalidEmailDetector: feature extraction and training events, verified in Dafny

InvalidEmailDetector decides whether an email address looks invalid. It uses a
maximum-entropy classifier. The classifier does not read the address itself. It
reads a *context*, which is an ordered list of feature tokens computed from the
address:

- For the local part (the text before the first `@`):
  - the number of characters and the number of distinct characters (`nb=`, `nbdiff=`);
  - the percentage of distinct characters, in steps of five (`perDistChar=`);
  - five flags: vowels, digits, `.`, `_`, `-` (`hVow=True`, ...);
  - the repetition counts of repeated 2-grams and 3-grams (`ngram2=`, `ngram3=`),
    present only when some n-gram repeats.
- For the domain (the text after the last `@`):
  - whether the host name has a vowel (`hnHVow=`);
  - whether the top-level label is a generic, a country-code or an unreferenced
    TLD (`oTld`, `cTld`, `uTld`).

Training data reaches the trainer through two event readers. Each turns examples
into training events: an outcome (`"INV"` or `"OK"`) together with the address's
context.

- The in-memory reader walks a list of (address, is-invalid) pairs with a cursor.
- The line reader reads lines of a training file. It takes the address from the
  first tab-separated field. It labels the line invalid exactly when the last
  field is `"1"`.

The project has five modules, one per file:

- `Strings` (`strings.dfy`) models the .NET string operations the extractor
  relies on:
  - `String.Split` on a character, which keeps empty pieces;
  - `String.Split` on a string, a leftmost non-overlapping scan;
  - `String.Join`, decimal rendering, and the set of distinct characters.
- `ContextGenerator` (`context_generator.dfy`) holds the features as a datatype
  and the specification function `Features`.
  - The imperative extractor `GetContext` builds the token list step by step. It
    has a dictionary loop for the n-grams.
  - `GetContext` is proved to compute exactly the rendering of `Features`.
  - Properties of the features are proved about `Features`.
- `TrainingEvents` (`training_events.dfy`) holds the example and event types,
  the context-generator type and the event functions both readers are proved
  against.
- `InMemoryEvents` (`data_event_reader.dfy`) models the in-memory reader as a
  class with a cursor.
- `LineEventReader` (`event_reader.dfy`) models the line reader: a cursor over lines,
  then the event reader on top of it.

Modelling decisions:

- Exceptions become a `Result`.
  - The only exception the extractor can raise is the division by zero in the
    percentage, when the local part is empty. It becomes `Err(DivideByZero)`.
  - In the in-memory reader, `GetContext` is called before the cursor moves.
    A failure therefore leaves the cursor where it was.
  - In the line reader, the line has already been consumed when the failure
    happens.
- The readers hold their context generator as a function value of type
  `Generator`, since the source holds an `IContextGenerator<string>`.
  - The default generator is `DefaultContext`, the rendering of `Features`.
  - `GetContext` is proved to compute it.
- The dictionary of n-gram counts is a `map` together with the sequence of its
  keys in insertion order.
- Integers are unbounded.

## Model

| member | source | states |
|---|---|---|
| Strings.Split | InvalidEmailDetector/src/InvalidEmailDetectionContextGenerator.cs:41 | splitting on a character gives at least one piece, and no piece contains the separator |
| Strings.JoinSplit | InvalidEmailDetector/src/InvalidEmailDetectionContextGenerator.cs:41 | joining the pieces with the separator gives back the string |
| Strings.SplitFirst | InvalidEmailDetector/src/InvalidEmailDetectionContextGenerator.cs:42 | the first piece is the longest prefix without the separator; the next character is the separator; a string without the separator is its own only piece |
| Strings.SplitLast | InvalidEmailDetector/src/InvalidEmailDetectionContextGenerator.cs:43 | the last piece is the longest suffix without the separator, preceded by the separator when shorter than the string |
| Strings.JoinSnoc | InvalidEmailDetector/src/InvalidEmailDetectionContextGenerator.cs:99 | joining two or more pieces puts the separator right before the last piece |
| Strings.SplitPrefix | InvalidEmailDetector/src/InvalidEmailDetectionEventReader.cs:33 | a separator-free prefix followed by the separator splits off as the first piece |
| Strings.SplitJoin | InvalidEmailDetector/src/InvalidEmailDetectionEventReader.cs:33 | splitting a join of separator-free pieces gives back the pieces |
| Strings.SplitOn | InvalidEmailDetector/src/InvalidEmailDetectionContextGenerator.cs:83 | splitting on a string gives at least one piece |
| Strings.SplitOnCount | InvalidEmailDetector/src/InvalidEmailDetectionContextGenerator.cs:83 | the piece count minus one is the number of leftmost non-overlapping matches |
| Strings.SplitOnJoin | InvalidEmailDetector/src/InvalidEmailDetectionContextGenerator.cs:83 | joining the pieces with the separator gives back the string |
| Strings.SplitOnFirst | InvalidEmailDetector/src/InvalidEmailDetectionContextGenerator.cs:83 | the first piece is a prefix of the string |
| Strings.SplitOnPieces | InvalidEmailDetector/src/InvalidEmailDetectionContextGenerator.cs:83 | no piece contains the separator |
| Strings.ConsClean | InvalidEmailDetector/src/InvalidEmailDetectionContextGenerator.cs:83 | a piece that starts where no match begins and continues with a match-free piece has no match |
| Strings.OccurrencesPositive | InvalidEmailDetector/src/InvalidEmailDetectionContextGenerator.cs:80-83 | a substring of the string is matched at least once, so every scanned n-gram counts at least once |
| Strings.OccurrenceIndex | InvalidEmailDetector/src/InvalidEmailDetectionContextGenerator.cs:83 | a string matched at least once occurs at the returned position |
| Strings.OccurrencesBound | InvalidEmailDetector/src/InvalidEmailDetectionContextGenerator.cs:83 | matches do not overlap: their count times the separator length is at most the string length |
| Strings.OverlappingMatches | InvalidEmailDetector/src/InvalidEmailDetectionContextGenerator.cs:83 | "aa" counts once in "aaa" and twice in "aaaa": overlapping occurrences are not counted |
| Strings.Decimal | InvalidEmailDetector/src/InvalidEmailDetectionContextGenerator.cs:50 | the rendering of a count is non-empty and starts with '0' only for zero |
| Strings.DecimalDigits | InvalidEmailDetector/src/InvalidEmailDetectionContextGenerator.cs:50 | the rendering holds decimal digits only |
| Strings.DecimalRoundTrip | InvalidEmailDetector/src/InvalidEmailDetectionContextGenerator.cs:50 | reading the rendering back gives the number |
| Strings.CharSet | InvalidEmailDetector/src/InvalidEmailDetectionContextGenerator.cs:52 | the distinct characters are exactly the characters of the string |
| Strings.CharSetBounds | InvalidEmailDetector/src/InvalidEmailDetectionContextGenerator.cs:52 | a non-empty string has between one and its length distinct characters |
| Strings.CharSetAllDistinct | InvalidEmailDetector/src/InvalidEmailDetectionContextGenerator.cs:52 | the distinct count equals the length exactly when no character repeats |
| Strings.DistinctTail | InvalidEmailDetector/src/InvalidEmailDetectionContextGenerator.cs:52 | a first character absent from the rest leaves distinctness to the rest |
| ContextGenerator.GetContext | InvalidEmailDetector/src/InvalidEmailDetectionContextGenerator.cs:37-119 | the extractor returns the rendering of the address's features, and fails with a division by zero exactly when `Features` does |
| ContextGenerator.LocalPartSummary | InvalidEmailDetector/src/InvalidEmailDetectionContextGenerator.cs:48-72 | the eight tokens appended are the rendering of the eight local-part features |
| ContextGenerator.LocalPartContext | InvalidEmailDetector/src/InvalidEmailDetectionContextGenerator.cs:48-96 | the summary followed by the n-gram tokens for sizes 2 and 3 |
| ContextGenerator.RepetitionsOfRepeatedNgrams | InvalidEmailDetector/src/InvalidEmailDetectionContextGenerator.cs:77-91 | the dictionary loop's total is the sum of the split counts of the distinct repeated n-grams |
| ContextGenerator.NgramStep | InvalidEmailDetector/src/InvalidEmailDetectionContextGenerator.cs:92-95 | an `ngram<n>` feature is appended exactly when the total is positive |
| ContextGenerator.DomainContext | InvalidEmailDetector/src/InvalidEmailDetectionContextGenerator.cs:98-116 | the last two tokens are the rendering of the domain's features |
| ContextGenerator.RenderAllSnoc | InvalidEmailDetector/src/InvalidEmailDetectionContextGenerator.cs:50 | appending one feature appends its token |
| ContextGenerator.RenderAllPair | InvalidEmailDetector/src/InvalidEmailDetectionContextGenerator.cs:101-115 | two features render to their two tokens |
| ContextGenerator.RenderAllAppend | InvalidEmailDetector/src/InvalidEmailDetectionContextGenerator.cs:98-118 | rendering distributes over concatenation |
| ContextGenerator.RenderAllSpec | InvalidEmailDetector/src/InvalidEmailDetectionContextGenerator.cs:118 | one token per feature, the k-th token rendering the k-th feature |
| ContextGenerator.SumValuesAgree | InvalidEmailDetector/src/InvalidEmailDetectionContextGenerator.cs:91 | summing the dictionary's values equals summing the split counts of its keys |
| ContextGenerator.RepeatedNgramsUpToSound | InvalidEmailDetector/src/InvalidEmailDetectionContextGenerator.cs:78-88 | every key added so far is an n-gram matched more than once |
| ContextGenerator.RepeatedNgramsUpToComplete | InvalidEmailDetector/src/InvalidEmailDetectionContextGenerator.cs:78-88 | every n-gram scanned so far that is matched more than once is a key |
| ContextGenerator.RepeatedNgramsUpToDistinct | InvalidEmailDetector/src/InvalidEmailDetectionContextGenerator.cs:81 | no key is added twice |
| ContextGenerator.RepeatedNgramsSound | InvalidEmailDetector/src/InvalidEmailDetectionContextGenerator.cs:77-89 | every key of the full scan is an n-gram matched more than once |
| ContextGenerator.RepeatedNgramsComplete | InvalidEmailDetector/src/InvalidEmailDetectionContextGenerator.cs:77-89 | every n-gram of the local part matched more than once is a key |
| ContextGenerator.RepeatedNgramsDistinct | InvalidEmailDetector/src/InvalidEmailDetectionContextGenerator.cs:77-89 | the keys are distinct |
| ContextGenerator.SumSplitCountsLower | InvalidEmailDetector/src/InvalidEmailDetectionContextGenerator.cs:84-91 | keys with counts above one sum to at least twice their number |
| ContextGenerator.NgramRepetitionsBounds | InvalidEmailDetector/src/InvalidEmailDetectionContextGenerator.cs:91 | the total is at least twice the number of repeated n-grams, and zero when there are none |
| ContextGenerator.RepeatedNgramsNonEmpty | InvalidEmailDetector/src/InvalidEmailDetectionContextGenerator.cs:75-91 | some key exists exactly when some n-gram of the local part is matched more than once |
| ContextGenerator.NgramFeatureSpec | InvalidEmailDetector/src/InvalidEmailDetectionContextGenerator.cs:75-96 | at most one `ngram<n>` feature; present exactly when some n-gram repeats; its value is the total, at least two; absent for a local part shorter than n |
| ContextGenerator.OriginalTldLengths | InvalidEmailDetector/src/InvalidEmailDetectionContextGenerator.cs:17 | every generic TLD has three letters |
| ContextGenerator.CountryTldLengths | InvalidEmailDetector/src/InvalidEmailDetectionContextGenerator.cs:18-33 | every country-code TLD has two letters |
| ContextGenerator.TldListsDisjoint | InvalidEmailDetector/src/InvalidEmailDetectionContextGenerator.cs:17-33 | no generic TLD is also a country-code TLD |
| ContextGenerator.ClassifyTldSpec | InvalidEmailDetector/src/InvalidEmailDetectionContextGenerator.cs:104-116 | `oTld` exactly for a generic TLD, `cTld` exactly for a country code, `uTld` exactly for anything in neither list |
| ContextGenerator.CountryTldExamples | InvalidEmailDetector/src/InvalidEmailDetectionContextGenerator.cs:20-31 | "uk" and "ss" are country codes |
| ContextGenerator.GenericTldExample | InvalidEmailDetector/src/InvalidEmailDetectionContextGenerator.cs:104-107 | "com" is generic |
| ContextGenerator.UnreferencedTldExample | InvalidEmailDetector/src/InvalidEmailDetectionContextGenerator.cs:112-116 | "qsd" is unreferenced |
| ContextGenerator.CaseSensitiveTldExample | InvalidEmailDetector/src/InvalidEmailDetectionContextGenerator.cs:104-116 | the lookup is case-sensitive: "COM" is unreferenced |
| ContextGenerator.LocalPartSpec | InvalidEmailDetector/src/InvalidEmailDetectionContextGenerator.cs:41-42 | the local part is the longest prefix without '@', followed by '@' when shorter than the address |
| ContextGenerator.DomainSpec | InvalidEmailDetector/src/InvalidEmailDetectionContextGenerator.cs:41-43 | the domain is the longest suffix without '@', preceded by '@' when shorter than the address |
| ContextGenerator.FeaturesFailure | InvalidEmailDetector/src/InvalidEmailDetectionContextGenerator.cs:49-55 | extraction fails exactly when the address is empty or starts with '@' |
| ContextGenerator.HostNameAndTopLabel | InvalidEmailDetector/src/InvalidEmailDetectionContextGenerator.cs:99-104 | the top label has no dot; a dotless domain is its own top label with an empty, vowel-less host name; otherwise host name, dot and top label rebuild the domain |
| ContextGenerator.PercentBucketRange | InvalidEmailDetector/src/InvalidEmailDetectionContextGenerator.cs:55 | the percentage is a multiple of five, at most 100, the largest such step not above the exact ratio, and 100 exactly when all characters differ |
| ContextGenerator.CountFeatures | InvalidEmailDetector/src/InvalidEmailDetectionContextGenerator.cs:49-56 | `nb` is the length; `nbdiff` lies between one and the length, equal to it exactly when no character repeats; the percentage is a multiple of five, at most 100, and 100 exactly then |
| ContextGenerator.HasVowelByCharSet | InvalidEmailDetector/src/InvalidEmailDetectionContextGenerator.cs:59 | the vowel flag holds exactly when a vowel is among the distinct characters |
| ContextGenerator.HasDigitByCharSet | InvalidEmailDetector/src/InvalidEmailDetectionContextGenerator.cs:62 | the digit flag holds exactly when a digit is among the distinct characters |
| ContextGenerator.FlagsDependOnCharacterSet | InvalidEmailDetector/src/InvalidEmailDetectionContextGenerator.cs:58-72 | local parts with the same characters get the same five flags |
| ContextGenerator.RankedAppend | InvalidEmailDetector/src/InvalidEmailDetectionContextGenerator.cs:49-116 | joining two ordered blocks of features, the first ranked below the second, keeps them ordered |
| ContextGenerator.SummaryRanked | InvalidEmailDetector/src/InvalidEmailDetectionContextGenerator.cs:48-72 | the eight summary features come in the source's order |
| ContextGenerator.NgramRanked | InvalidEmailDetector/src/InvalidEmailDetectionContextGenerator.cs:75-96 | the `ngram2` feature is ranked before `ngram3` |
| ContextGenerator.LayoutOfParts | InvalidEmailDetector/src/InvalidEmailDetectionContextGenerator.cs:49-116 | the summary, optional n-gram features and domain features form 10 to 12 features in order, the host-name flag second to last and the TLD feature last |
| ContextGenerator.FeatureLayout | InvalidEmailDetector/src/InvalidEmailDetectionContextGenerator.cs:49-116 | an address's features number 10 to 12, are in order, start with the eight summary features and end with the host-name flag and the TLD feature |
| ContextGenerator.ContextTokens | InvalidEmailDetector/src/InvalidEmailDetectionContextGenerator.cs:37-118 | a context has 10 to 12 tokens; exactly one of them is `oTld`, `cTld` or `uTld`, and it is the last |
| ContextGenerator.TldTokenLast | InvalidEmailDetector/src/InvalidEmailDetectionContextGenerator.cs:104-118 | a feature list whose only TLD feature is the last renders to tokens whose only TLD token is the last |
| ContextGenerator.NonTldToken | InvalidEmailDetector/src/InvalidEmailDetectionContextGenerator.cs:49-102 | no feature other than the TLD renders to `oTld`, `cTld` or `uTld` |
| TrainingEvents.OutcomeLabel | InvalidEmailDetector/src/InvalidEmailDetectionDataEventReader.cs:27 | the outcome is "INV" exactly for an invalid example and "OK" exactly for a valid one |
| TrainingEvents.DefaultEventSpec | InvalidEmailDetector/src/InvalidEmailDetectionDataEventReader.cs:27-30 | with the extractor's context an event exists exactly when the address is non-empty and does not start with '@'; it carries the outcome and 10 to 12 tokens ending with the TLD token |
| TrainingEvents.MapWithSpec | InvalidEmailDetector/src/InvalidEmailDetectionDataEventReader.cs:23-35 | reading each example in turn gives one result per example, in order |
| TrainingEvents.MapWithAppend | InvalidEmailDetector/src/InvalidEmailDetectionDataEventReader.cs:23-35 | the results of two runs of examples are the results of each run |
| TrainingEvents.MapWithSliceSnoc | InvalidEmailDetector/src/InvalidEmailDetectionDataEventReader.cs:32 | reading one more example adds its event |
| TrainingEvents.CollectSpec | InvalidEmailDetector/src/InvalidEmailDetectionDataEventReader.cs:23-40 | the events are collected exactly when every read succeeds, one event per read, in order |
| TrainingEvents.CollectFailurePersists | InvalidEmailDetector/src/InvalidEmailDetectionDataEventReader.cs:30 | once a read fails, later reads do not change the failure |
| TrainingEvents.MapWithStops | InvalidEmailDetector/src/InvalidEmailDetectionDataEventReader.cs:30 | a failure among the first reads is the failure of the whole run |
| TrainingEvents.DrainStep | InvalidEmailDetector/src/InvalidEmailDetectionDataEventReader.cs:23-35 | one more read either extends the values collected so far or is the failure of the whole run |
| TrainingEvents.ExampleEventsStep | InvalidEmailDetector/src/InvalidEmailDetectionDataEventReader.cs:23-35 | reading one more example extends the events on success; a failure is the failure of all remaining examples |
| TrainingEvents.ExampleEventsSpec | InvalidEmailDetector/src/InvalidEmailDetectionDataEventReader.cs:23-40 | the examples give events exactly when no address is empty or starts with '@'; then one event per example, in order, with that address's context and outcome "INV" exactly for an invalid example |
| TrainingEvents.EmptyLocalPartExample | InvalidEmailDetector/src/InvalidEmailDetectionDataEventReader.cs:30 | "@example.com" gives no event under either label, and a list holding it after a good address gives none |
| InMemoryEvents.DataEventReader.constructor | InvalidEmailDetector/src/InvalidEmailDetectionDataEventReader.cs:16-21 | the reader holds the examples, its cursor is at the first one, and it uses the extractor's context |
| InMemoryEvents.DataEventReader.ReadNextEvent | InvalidEmailDetector/src/InvalidEmailDetectionDataEventReader.cs:23-35 | the event of the example at the cursor; the cursor moves one forward on success and stays put on failure |
| InMemoryEvents.DataEventReader.HasNext | InvalidEmailDetector/src/InvalidEmailDetectionDataEventReader.cs:37-40 | true exactly when the cursor is before the end |
| InMemoryEvents.ReadAllEvents | InvalidEmailDetector/src/InvalidEmailDetectionDataEventReader.cs:23-40 | reading until `HasNext` is false gives the events of the remaining examples, or the first failure; on success the cursor is at the end, on failure it stays on the failing example, after examples that all gave events |
| InMemoryEvents.CollectTrainingEvents | InvalidEmailDetector/src/MaximumEntropyInvalidEmailDetector.cs:128-135 | a fresh reader over the examples yields exactly their events |
| LineEventReader.LineReader.constructor | InvalidEmailDetector/src/MaximumEntropyInvalidEmailDetector.cs:111 | the line reader starts before the first line |
| LineEventReader.LineReader.HasNext | InvalidEmailDetector/src/InvalidEmailDetectionEventReader.cs:44 | true exactly when a line is left |
| LineEventReader.LineReader.NextToken | InvalidEmailDetector/src/InvalidEmailDetectionEventReader.cs:31 | returns the line at the cursor and moves past it |
| LineEventReader.EventReader.constructor | InvalidEmailDetector/src/InvalidEmailDetectionEventReader.cs:19-20 | the event reader wraps the line reader and uses the extractor's context |
| LineEventReader.EventReader.WithGenerator | InvalidEmailDetector/src/InvalidEmailDetectionEventReader.cs:22-27 | the event reader wraps the line reader and uses the given generator |
| LineEventReader.EventReader.ReadNextEvent | InvalidEmailDetector/src/InvalidEmailDetectionEventReader.cs:29-40 | consumes one line and returns its event: first field as address, outcome "INV" exactly when the last field is "1" |
| LineEventReader.EventReader.HasNext | InvalidEmailDetector/src/InvalidEmailDetectionEventReader.cs:42-45 | true exactly when the line reader has a line left |
| LineEventReader.ReadAllLineEvents | InvalidEmailDetector/src/InvalidEmailDetectionEventReader.cs:29-45 | reading until `HasNext` is false gives the events of the remaining lines, or the first failure; on success every line is consumed, on failure the reader is just past the failing line, after lines that all gave events |
| LineEventReader.ReadStep | InvalidEmailDetector/src/InvalidEmailDetectionEventReader.cs:29-40 | one read consumes one line; its event extends the events read so far, or its failure ends the reading just past that line, with the failure of all remaining lines as the result |
| LineEventReader.ReadTrainingFile | InvalidEmailDetector/src/MaximumEntropyInvalidEmailDetector.cs:109-115 | a fresh reader over a file's lines yields exactly the events of those lines |
| LineEventReader.LineEventsStep | InvalidEmailDetector/src/InvalidEmailDetectionEventReader.cs:29-40 | reading one more line extends the events on success; a failure is the failure of all remaining lines, and the lines before it all gave events |
| LineEventReader.EmailFieldSpec | InvalidEmailDetector/src/InvalidEmailDetectionEventReader.cs:33-36 | the address is the line's longest tab-free prefix |
| LineEventReader.FlagFieldSpec | InvalidEmailDetector/src/InvalidEmailDetectionEventReader.cs:33-34 | the flag field is the line's longest tab-free suffix |
| LineEventReader.LineFields | InvalidEmailDetector/src/InvalidEmailDetectionEventReader.cs:33-36 | for tab-free fields the address is the first field and the line is invalid exactly when the last field is "1"; middle fields are ignored |
| LineEventReader.LineWithoutTab | InvalidEmailDetector/src/InvalidEmailDetectionEventReader.cs:33-36 | a tab-free line is both address and flag |
| LineEventReader.SingleFieldExample | InvalidEmailDetector/src/InvalidEmailDetectionEventReader.cs:33-36 | the line "1" is an invalid example with address "1" |
| LineEventReader.TrailingSpaceExample | InvalidEmailDetector/src/InvalidEmailDetectionEventReader.cs:34 | a flag "1 " with trailing space marks a valid example |
| LineEventReader.MiddleFieldExamples | InvalidEmailDetector/src/InvalidEmailDetectionEventReader.cs:33-36 | only the last field decides the flag |
| LineEventReader.FormatLineRoundTrip | InvalidEmailDetector/src/InvalidEmailDetectionEventReader.cs:31-37 | the line the reader expects (address, tab, 1 or 0) parses back to the address and flag and gives the in-memory reader's event |
| LineEventReader.SpaceSeparatedLineExample | InvalidEmailDetector/src/MaximumEntropyInvalidEmailDetector.cs:77-81 | a line written as the training comment shows it, with two spaces before the flag, is one field: the whole line is the address and the example is labelled "OK" even with flag 1 |
| LineEventReader.FormatLinesEvents | InvalidEmailDetector/src/InvalidEmailDetectionEventReader.cs:29-40 | a file of examples with tab-free addresses gives the same events as the in-memory reader over those examples |
| LineEventReader.LineEventsSpec | InvalidEmailDetector/src/InvalidEmailDetectionEventReader.cs:29-45 | the lines give events exactly when every line does; then one event per line, in order, with the first field's context and outcome "INV" exactly when the last field is "1" |

## Left out

- The maximum-entropy classifier in MaximumEntropyInvalidEmailDetector.cs is not modelled:
  - model loading and evaluation;
  - the 0.5 fallback probability;
  - the GIS trainer, which is external library code.
- Samples/Program.cs is not part of this model.
- Opening files is left out. So is `StreamReader`.
- The plain-text line reader belongs to an external library. `LineReader` models it as a cursor over an already-split sequence of lines. Line-break handling is not modelled.
- The trainer's consumption of a reader is external code. `ReadAllEvents` and `ReadAllLineEvents` model it as reading until `HasNext` is false, stopping at the first failure.
- Null strings and null lines are not modelled. Nor is the `NullReferenceException` they would raise.
- `HasDigit` treats only the ASCII digits '0' to '9' as digits. The regular expression `\d` also matches other Unicode decimal digits.
- Strings are modelled as sequences of UTF-16 code units, one `char` each. A Dafny `char` is a Unicode scalar value and cannot be a surrogate, so addresses holding characters outside the Basic Multilingual Plane (an emoji, say, which .NET counts as two characters in `nb` and `nbdiff`) are outside the model. Culture-sensitive comparison and regular-expression engine details are not modelled either.
- `PercentBucket` uses unbounded integers. The source computes the divisor `5 * nbOfCharacters` in 32-bit arithmetic, which overflows for local parts longer than 429,496,729 characters (at 858,993,459 characters it wraps to -1, giving a negative `perDistChar`); the model gives 0 for those lengths. `nbdiff * 100` cannot overflow, since `nbdiff` is at most 65,536.
- `GetContext` checks for a zero divisor before it splits the domain and builds any token. The source appends two tokens (`nb=` and `nbdiff=`) before the division throws. The exception discards that list, so the observable result is the same.
- `ContextGenerator.FlagsDependOnCharacterSet` states that the five flags agree. It leaves out that `nbdiff` also agrees.
- `InMemoryEvents.DataEventReader.ReadNextEvent` requires a cursor before the end. The source would throw an out-of-range exception there.
- `LineEventReader.EventReader.ReadNextEvent` requires a line to be left. What the external line reader returns past the end is not visible.
- The readers call their generator as a function value. They do not call the `GetContext` method, which is proved to compute the default generator `DefaultContext`.
- A generator other than the default may fail. Its failure is modelled as `Err(GeneratorFailure)`, with the same cursor behaviour as a division by zero; which exception it throws is not modelled.
- The comments on `TrainModel` show the training file with two spaces between address and flag, but the reader splits on a tab. A file written as shown gives one field per line and labels every example "OK"; `SpaceSeparatedLineExample` states this for the commented line. The model follows the code.
- The in-memory reader's `ToList()` copy is modelled as an immutable sequence. Aliasing with the caller's collection does not arise.
