# Personal language twin: a verified model of the style-profile engine

The personal language twin learns a user's writing style from samples and
measures how far generated text drifts from it. This project models the
computational core of that engine in Dafny and proves properties of it.

- **Chunker** models how a writing sample is prepared for embedding:
  - `cleanText` collapses every whitespace run to one space and trims the ends.
  - `chunkText` finds the sentence units matched by `/[^.!?]+[.!?]+/g` and
    packs them greedily: a unit joins the buffer while the buffer stays within
    `maxLength` characters. Otherwise the buffer is emitted trimmed and the unit
    starts a new buffer. A unit longer than `maxLength` that arrives after a
    non-empty buffer is emitted whole later, so a chunk can exceed `maxLength`.
  - `splitByLength` cuts a unit that is too long into fixed-size slices, when
    it arrives with an empty buffer.
- **Centroid** models `calculateAverageEmbedding`. A user's style vector is
  the element-wise mean of the embeddings of their samples.
- **Metrics** models `analyzeTextMetrics`. It computes:
  - the average sentence length;
  - the number of distinct words;
  - a positive-tone percentage;
  - a formality level on a 0–10 scale;
  - the top five common phrases.
- **Phrases** models `findCommonPhrases`. It counts every two- and
  three-word window inside each sentence unit and keeps the phrases counted
  more than once. They are ordered by count with a stable sort and
  capitalised.
- **Drift** models `calculateCosineSimilarity` and what the drift handler
  does with the score. The score goes into three drift tiers, with bounds
  0.85 and 0.75, and into a rounded similarity percentage.
- **EnvFile** models the `.env.local` reader of the migration script. It:
  - splits the file on `\n`;
  - skips blank lines and lines starting with `#`;
  - cuts every other line at its first `=`;
  - trims the key and the value;
  - lets a later line overwrite an earlier one.
- **Text** holds the string primitives the others share:
  - character classes;
  - `trim`;
  - `split` and `join` on one character;
  - the maximal runs of a character class, which is what a global regular
    expression match of `c+` returns.

Each loop of the source is a `method` with the same loop. Its postcondition
ties its result to a specification function. The lemmas state what the
source promises about that function.

## Model

| member | source | states |
|---|---|---|
| Chunker.CleanText | personal-language-twin/app/api/process-sample/route.ts:98-104 | The cleaned text is normalised. Its ends are not whitespace. Any whitespace left is a single plain space. |
| Chunker.CleanTextIsJoinedWords | personal-language-twin/app/api/process-sample/route.ts:98-104 | Cleaning keeps the whitespace-delimited words, and the cleaned text is exactly those words joined by single spaces. |
| Chunker.CleanTextIdempotent | personal-language-twin/app/api/process-sample/route.ts:98-104 | Cleaning an already cleaned text changes nothing. |
| Chunker.CleanTextKeepsVisible | personal-language-twin/app/api/process-sample/route.ts:98-104 | Cleaning keeps every non-whitespace character, in order. |
| Chunker.ScanCoverage | personal-language-twin/app/api/process-sample/route.ts:108 | The matches of `/[^.!?]+[.!?]+/g`, concatenated, are exactly the text from after the leading bare terminators to the end of the last terminator run. |
| Chunker.NoSentenceIff | personal-language-twin/app/api/process-sample/route.ts:108 | The regex has no match, so the whole text becomes the one unit, exactly when no terminator follows the first non-terminator. |
| Chunker.SplitByLength | personal-language-twin/app/api/process-sample/route.ts:135-143 | A text that fits comes back as the single piece `[text]`. Otherwise the pieces concatenate back to the text, none is longer than `maxLength`, and all but the last have exactly `maxLength` characters. |
| Chunker.ChunkText | personal-language-twin/app/api/process-sample/route.ts:107-132 | The loop computes the greedy packing `Chunks`. Empty text gives no chunk. When every unit fits, every chunk fits. The chunks keep the visible text of the units, in order. |
| Chunker.SampleChunks | personal-language-twin/app/api/process-sample/route.ts:25-27 | Chunking the cleaned sample at 512 gives no chunk when the raw sample has no visible character. |
| Chunker.ChunkLengths | personal-language-twin/app/api/process-sample/route.ts:113-121 | Every chunk fits in `maxLength` unless it is the trim of one unit that is itself longer than `maxLength`. |
| Chunker.ChunksWithinLimit | personal-language-twin/app/api/process-sample/route.ts:113-129 | If no sentence unit is longer than `maxLength`, no chunk is. |
| Chunker.ChunksKeepOrder | personal-language-twin/app/api/process-sample/route.ts:112-131 | The visible characters of the chunks are those of the sentence units, in order. Only whitespace at chunk ends is lost. |
| Chunker.ChunksAreGroups | personal-language-twin/app/api/process-sample/route.ts:107-132 | The sentence units are partitioned, in order, into consecutive groups. Each group is one chunk: a run of units packed into the buffer and emitted trimmed (dropped when empty), or one oversized unit cut into slices. A buffered group is a single unit or fits within `maxLength`, and the unit after it would not have fit. A group is sliced exactly when its unit is longer than `maxLength` and the buffer before it is empty; an oversized unit after a non-empty buffer is a buffered group of its own, emitted whole. |
| Chunker.NoSliceAfterBuffer | personal-language-twin/app/api/process-sample/route.ts:113-120 | For a fitting non-empty unit followed by an oversized one, slicing the second unit is not a greedy grouping; keeping it whole as its own buffered group is. |
| Chunker.PackUnits | personal-language-twin/app/api/process-sample/route.ts:111-124 | The `for` loop over the units computes the packing `Pack`: the chunks pushed so far and the buffer left at the end. |
| Chunker.EmptyTextHasNoChunks | personal-language-twin/app/api/process-sample/route.ts:108-131 | Empty text yields no chunk, not one empty chunk. |
| Chunker.OversizedUnitAfterBuffer | personal-language-twin/app/api/process-sample/route.ts:113-116 | `"A. Bcd."` at limit 3 gives `["A.", "Bcd."]`. The second chunk is longer than the limit, because a long unit that follows a non-empty buffer is never split. |
| Chunker.OversizedUnitSplit | personal-language-twin/app/api/process-sample/route.ts:117-120 | `"Bcd."` at limit 3, with an empty buffer, is cut into `["Bcd", "."]`. |
| Chunker.TrailingTextDropped | personal-language-twin/app/api/process-sample/route.ts:108 | `"A. bc"` gives the single chunk `"A."`: text after the last terminator belongs to no unit. |
| Centroid.CalculateAverageEmbedding | personal-language-twin/app/api/process-sample/route.ts:177-194 | The two loops compute the mean vector `Average`. It is `[]` for no vectors and otherwise has the first vector's dimension. |
| Centroid.AverageOfCopies | personal-language-twin/app/api/process-sample/route.ts:177-194 | Averaging copies of one vector gives that vector back. |
| Centroid.AverageWithinColumn | personal-language-twin/app/api/process-sample/route.ts:183-191 | Each mean component lies between the least and the greatest value of its column. |
| Centroid.AverageExample | personal-language-twin/app/api/process-sample/route.ts:177-194 | `[[1, 2], [3, 4]]` averages to `[2, 3]`. |
| Metrics.AnalyzeTextMetrics | personal-language-twin/app/api/process-sample/route.ts:197-248 | The counting loops compute the metrics `MetricsOf`: the sentence and word counts, the positive count and the formality score, with the top five phrases. |
| Metrics.Round | personal-language-twin/app/api/process-sample/route.ts:205 | `Math.round(n / d)` is the integer within one half of the quotient, with halves rounded up. |
| Metrics.FormalityLevel | personal-language-twin/app/api/process-sample/route.ts:236 | The level lies in [0, 10]. It is 5 for a zero score, above 5 for a positive score and below 5 for a negative one. |
| Metrics.FormalityScoreCounts | personal-language-twin/app/api/process-sample/route.ts:229-233 | The formality score is the number of formal markers among the words minus the number of informal ones. |
| Metrics.YallNeverCounts | personal-language-twin/app/api/process-sample/route.ts:227 | No `\w` word is `y'all`, so the formality score is the same as with the nine other informal markers only. |
| Metrics.UniqueWordsBound | personal-language-twin/app/api/process-sample/route.ts:208-209 | There are never more distinct words than `\w` words. |
| Metrics.EmptyTextMetrics | personal-language-twin/app/api/process-sample/route.ts:197-248 | Empty text has every numeric metric 0, except formality, which is 5, and no phrases. |
| Metrics.TwoPositivesInOneWord | personal-language-twin/app/api/process-sample/route.ts:202-223 | `"love/love"` has a positive tone of 200, because the two word counts tokenise differently. |
| MetricsExample.SampleMetrics | personal-language-twin/app/api/process-sample/route.ts:197-248 | The sample "I love this. I love this a lot. This is great." (three sentence units) gives average sentence length 4, 7 distinct words, positive tone 27, formality 5 and the phrases "I love", "I love this", "Love this". |
| MetricsExample.SampleTextMetrics | personal-language-twin/app/api/process-sample/route.ts:197-248 | The same result stated on the text "I love this. I love this a lot. This is great." itself. |
| MetricsExample.FreshTail | personal-language-twin/app/api/process-sample/route.ts:251-273 | Phrases each counted for the first time leave the repeated entries unchanged. |
| MetricsExample.SortEqualCounts | personal-language-twin/app/api/process-sample/route.ts:273 | When every entry has the same count, the stable sort returns the entries unchanged. |
| Metrics.OneToken | personal-language-twin/app/api/process-sample/route.ts:202 | A non-empty text without whitespace is one whitespace-delimited word. |
| Phrases.FindCommonPhrases | personal-language-twin/app/api/process-sample/route.ts:251-275 | The nested loops and the filter-sort-map chain compute `CommonPhrases`: the capitalised labels of the ranked entries. |
| Phrases.CountWindows | personal-language-twin/app/api/process-sample/route.ts:259-267 | The inner loop extends the count table by every pair and triple of one sentence's words, in counting order. |
| Phrases.CountPhrase | personal-language-twin/app/api/process-sample/route.ts:261-265 | The update of `phraseCounts[p]` records one occurrence. A new key goes at the end of the key order. |
| Phrases.TallyMeaning | personal-language-twin/app/api/process-sample/route.ts:253-268 | The table built by counting holds each phrase's true number of occurrences. Its keys are the distinct phrases in first-seen order. |
| Phrases.OccurrencesWithinUnits | personal-language-twin/app/api/process-sample/route.ts:255-267 | Every counted phrase is two or three consecutive words of a single sentence unit. Windows never cross units. |
| Phrases.RankedOf | personal-language-twin/app/api/process-sample/route.ts:270-273 | Every kept entry carries its phrase's true count, which is at least 2. |
| Phrases.RankedAreRepeated | personal-language-twin/app/api/process-sample/route.ts:271-272 | Every returned phrase occurs at least twice, and its count is its true number of occurrences. |
| Phrases.RepeatedAreRanked | personal-language-twin/app/api/process-sample/route.ts:271-272 | Every phrase that occurs at least twice is returned. |
| Phrases.SortByCountCorrect | personal-language-twin/app/api/process-sample/route.ts:273 | The sort orders by count, highest first, and is a permutation. It keeps entries of equal count in their original order, so it is stable. |
| Phrases.RankedOrder | personal-language-twin/app/api/process-sample/route.ts:271-273 | Counts never increase down the ranking. Phrases of equal count keep first-seen order. |
| Drift.CalculateCosineSimilarity | personal-language-twin/app/api/drift-detect/route.ts:73-96 | The loop computes `Cosine`. It fails with the length message on a length mismatch. It returns 0 when a magnitude is 0, and the dot product over the product of the magnitudes otherwise. |
| Drift.ScoreIffSameLength | personal-language-twin/app/api/drift-detect/route.ts:74-76 | A score exists if and only if the lengths agree. Otherwise the error is the source's message. |
| Drift.ZeroMagnitude | personal-language-twin/app/api/drift-detect/route.ts:84-89 | A magnitude is 0 exactly for the zero vector. |
| Drift.ZeroVectorScoresZero | personal-language-twin/app/api/drift-detect/route.ts:88-93 | If either vector is all zeros, two empty vectors included, the score is 0, with no division. |
| Drift.NonZeroScore | personal-language-twin/app/api/drift-detect/route.ts:88-95 | For two non-zero vectors both magnitudes are positive and the score is the quotient. |
| Drift.Symmetric | personal-language-twin/app/api/drift-detect/route.ts:73-96 | The similarity is symmetric in its two arguments. |
| Drift.Sign | personal-language-twin/app/api/drift-detect/route.ts:95 | The sign of the score is the sign of the dot product. |
| Drift.ScoreBounds | personal-language-twin/app/api/drift-detect/route.ts:73-96 | Every score lies in [-1, 1], by Cauchy–Schwarz. |
| Drift.Examples | personal-language-twin/app/api/drift-detect/route.ts:73-96 | Parallel, orthogonal and opposite unit vectors score 1, 0 and -1. A zero vector scores 0. |
| Drift.LevelOf | personal-language-twin/app/api/drift-detect/route.ts:51-58 | The tier is low if and only if the score is at least 0.85, medium if and only if the score is in [0.75, 0.85), and high if and only if the score is below 0.75. |
| Drift.LevelMonotone | personal-language-twin/app/api/drift-detect/route.ts:51-58 | A higher score never gives a worse tier. |
| Drift.Percentage | personal-language-twin/app/api/drift-detect/route.ts:64 | `Math.round(score * 100)` is within one half of `score · 100`, with halves rounded up. |
| Drift.DetectDrift | personal-language-twin/app/api/drift-detect/route.ts:45-65 | A report exists if and only if the lengths agree, and its score is the similarity. A length mismatch yields the length error. |
| Drift.PercentageBounds | personal-language-twin/app/api/drift-detect/route.ts:60-65 | For equal-length vectors the similarity percentage lies in [-100, 100]. |
| EnvFile.ParseEnv | personal-language-twin/scripts/migrate.js:18-25 | The loop over the lines computes `EnvOf`, the in-order fold of each line's entry. |
| EnvFile.LineEntryMeaning | personal-language-twin/scripts/migrate.js:19-22 | A line sets a variable if and only if it is a setting line and has a non-empty text before its first `=`. The key is that text trimmed. The value is everything after the first `=`, trimmed, or empty when there is no `=`. |
| EnvFile.DefinedKeys | personal-language-twin/scripts/migrate.js:18-25 | A key is defined if and only if some line sets it and it is not `__proto__`. |
| EnvFile.LastLineWins | personal-language-twin/scripts/migrate.js:18-25 | A defined key holds the value of the last line that sets it. |
| EnvFile.SkippedLines | personal-language-twin/scripts/migrate.js:19 | Lines that set nothing leave the variables unchanged. |
| EnvFile.ValueKeepsEquals | personal-language-twin/scripts/migrate.js:20-22 | `A = b=c ` sets `A` to `b=c`: the value keeps its later `=`. |
| EnvFile.EmptyKeySkipped | personal-language-twin/scripts/migrate.js:20-21 | `=x` has an empty key and is skipped. |
| EnvFile.BlankKeyStored | personal-language-twin/scripts/migrate.js:20-22 | ` =x` has a blank but non-empty key and is stored under `""`. |
| EnvFile.CarriageReturnTrimmed | personal-language-twin/scripts/migrate.js:18-22 | A `\r` left by CRLF line endings is trimmed off the value. |
| EnvFile.KeyWithoutValue | personal-language-twin/scripts/migrate.js:20-22 | A setting line without `=` is its trimmed text with the empty value. |
| EnvFile.IndentedHashIsSetting | personal-language-twin/scripts/migrate.js:19 | `  # x` is not a comment, because only a `#` in the first column is. |
| EnvFile.CommentSkipped | personal-language-twin/scripts/migrate.js:19 | A line whose first character is `#` sets nothing. |
| EnvFile.LaterLineOverwrites | personal-language-twin/scripts/migrate.js:18-25 | The lines `A=1`, `# A=0`, `A=2`, `B = 3` give exactly `{A: 2, B: 3}`. |
| Text.JoinSplit | personal-language-twin/scripts/migrate.js:20-22 | Splitting on a separator and joining back restores the text, and no part contains the separator. |
| Text.RunsCoverClass | personal-language-twin/app/api/process-sample/route.ts:202-208 | The maximal runs of a class, concatenated, are exactly the characters of that class in order. |

## Left out

- The HTTP handlers are not modelled. Neither are the Supabase reads and writes, the embedding-service calls, the profile initialisation and updates, or the promise concurrency: they are I/O.
- The rest of the migration script is not part of this model: file checks, client set-up and SQL.
- `page.tsx` and the other API routes are not part of this model.
- Numbers are exact reals and integers, not IEEE doubles. Rounding error, `NaN` and `Infinity` are not modelled.
- `Math.round` is `floor(x + 1/2)` in exact arithmetic.
- Strings are sequences of characters, not UTF-16 code units. Character classes, `trim`, `toLowerCase` and `toUpperCase` are modelled on ASCII only.
- Drift.CalculateCosineSimilarity: `Math.sqrt` is a function parameter. The properties hold for any function that returns the non-negative square root.
- Centroid.CalculateAverageEmbedding: requires every embedding to be at least as long as the first. A shorter one makes the JavaScript sum `NaN`, which is not modelled.
- Drift.DetectDrift: the thrown length error is returned as a `Failure`. The handler's `catch` turning it into a 500 response is I/O and is not modelled.
- Phrases.FindCommonPhrases: the inner loop and the count update are the methods `CountWindows` and `CountPhrase`. The object `phraseCounts` is a key-order sequence and a `map`. This is faithful because every key contains a space, so none is integer-like and none is inherited.
- Chunker.SplitByLength and Chunker.ChunkText: require `maxLength >= 1`. With 0 the loop of `splitByLength` never ends, and the handler passes 512.
- Metrics.AnalyzeTextMetrics: `negativeCount` is computed as in the source, but the source never uses it, so no property is stated about it.

## Notes on the code

- A chunk can be longer than `maxLength`. When a unit does not fit and the
  buffer holds text, the buffer is emitted and the unit becomes the new buffer
  whole (`route.ts:113-116`). `splitByLength` is only reached when the buffer
  is empty (`route.ts:117-120`). This is `Chunker.ChunksAreGroups`,
  `Chunker.ChunkLengths` and `Chunker.OversizedUnitAfterBuffer`.
- The handler passes 512 with the comment `// 512 tokens per chunk`
  (`route.ts:27`), but every comparison is on string length, so the model
  counts characters.
- The positive-tone percentage has no cap. Positive words are `\w` runs, while
  the word count counts whitespace-delimited words. This is
  `Metrics.TwoPositivesInOneWord`.
- `splitByLength` advances by `maxLength` (`route.ts:139`), so with 0 its
  loop never ends. The handler always passes 512.
- A `.env.local` line with the key `__proto__` is not stored. Assigning a
  string through the object literal's prototype setter is ignored. This is
  `EnvFile.DefinedKeys`.
