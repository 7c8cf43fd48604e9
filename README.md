# Daily sentiment aggregation, modelled in Dafny

This project models the two daily aggregation jobs of a Korean news-sentiment
repository. It covers `calculate_daily_sentiment_ratios_exclude_sunday` in
`conversion_positive.py` and `calculate_daily_negative_ratios` in
`conversion_negative.py`. Each job starts from a loaded table of classified
headlines: a timestamp, a confidence, a sentiment label (1 positive, 0
otherwise) and a possibly missing title. The job then does the following:

1. It relabels every record whose confidence is at or below a threshold to
   label 0. The threshold is 0.75 in the positive job and 0.7 in the negative
   job. The relabelling rewrites the table in place.
2. It gives every record a day.
   - The negative job uses the timestamp's own date.
   - The positive job reads the timestamp as Seoul time and converts it to
     US-Eastern time. It falls back to the unconverted time when the
     conversion raises.
3. It visits the days in ascending order. The positive job skips every day
   whose weekday is Sunday.
4. For each remaining day it builds one row:
   - the date as `YYYY-MM-DD`;
   - the confidence-weighted share, in percent, of the job's label (1 or 0);
   - the day's top word;
   - the strongest title that contains it.

   The top word is found like this:
   - the day's titles are joined with spaces, with a missing title read as
     "nan";
   - everything except Hangul syllables and whitespace is stripped;
   - the text is split into tokens;
   - stopwords and one-letter tokens are dropped;
   - the most common token wins, and on a tie the token met first wins.

   The strongest title is the title, among those containing the top word,
   with the highest confidence. On a tie the first row wins.
5. It sorts the rows by their date text and writes them. The positive job
   writes the same file twice.

Both jobs are one generic pipeline, `DailyPipeline`. A `Profile` gives the
threshold, the reported label, the bucketing, Sunday exclusion and the
stopword set. `Conversion` holds the two instances:
- `PositiveProfile` with threshold 0.75, label 1, Eastern day, Sundays
  dropped, and the 280-entry stopword set of `conversion_positive.py:19-68`;
- `NegativeProfile` with threshold 0.7, label 0, native day, nothing
  dropped, and the 35-entry set of `conversion_negative.py:16-22`.

The imperative parts are methods over an `array<Record>` standing for the
data frame:
- the in-place relabel;
- the added day column;
- the loop that appends to `results`.

Each method is proved against a specification function. The expression-level
parts are functions with lemmas: the ratio, the token pipeline, the counter,
the arg-max and the title choice.

Modules:
- `Wrappers`: `Option` and `Result`.
- `Text`: the character classes and the regular-expression strip. Also
  `str.split()`, lexicographic string order, joining and substring search.
- `Calendar`: dates, leap years, Python's `weekday()` and the previous day.
  Also the `%Y-%m-%d` text, its parser, and the proofs that the text is
  injective and orders like the dates.
- `Sentiment`: records, relabelling, the weights, `Percent` and `Ratio`, and
  the strongest title.
- `Keywords`: stopword filtering, `Counter` as a first-occurrence-ordered
  tally, `most_common(1)` and the top word.
- `Stopwords`: the two stopword sets, as written in the two files.
- `DailyPipeline`: bucketing, `groupby`, the results loop, sorting and the
  whole run.
- `Conversion`: the Seoul-to-Eastern conversion, the two profiles, the two
  entry points and what each job writes.
- `Scenarios`: small tables worked through the whole run.

### Where the code and its own comments differ

The model follows the code in each case below.

- The positive job relabels at `confidence <= 0.75`
  (`conversion_positive.py:107`). Its docstring and the comment above that
  line say 0.7 (`conversion_positive.py:10`, `conversion_positive.py:106`).
- Both docstrings call the relabelled records neutral
  (`conversion_positive.py:10`, `conversion_negative.py:8`). They get label 0,
  and the negative job counts label 0 (`conversion_negative.py:48`,
  `conversion_negative.py:59`). So in that job low-confidence records count as
  negative. A day whose records are all at or below 0.7 reports 100
  (`Conversion.NegativeRatioCountsLowConfidence`,
  `Scenarios.ScenarioLowPairNegative`).
- The comment at `conversion_negative.py:68` says that tokens of length 1 or
  more are kept. The code keeps tokens longer than 1.
- The positive docstring lists the output columns `strongest_title` and
  `top_word_with_top_word` (`conversion_positive.py:13`). The code writes
  `date`, the ratio, `top_word` and `strongest_title_with_top_word`.
- A table that yields no row produces no output file. This happens for a
  header-only table, and in the positive job for a table whose every record
  falls on an Eastern Sunday. `sort_values(by='date')` on the empty results
  frame raises, because there is no `date` column. The model returns
  `Err(NoDateColumn)`.
- A day whose total confidence is not positive reports 0, whatever its
  labels.

## Model

| member | source | states |
|---|---|---|
| Sentiment.RelabelInPlace | conversion_positive.py:107 | rewrites the table in place so that it equals the relabelled table: records at or below the threshold carry label 0, all else unchanged (the same statement at 0.7 is conversion_negative.py:48) |
| Sentiment.RelabeledSpec | conversion_negative.py:48 | relabelling keeps the length; record i gets label 0 exactly when its confidence is at or below the threshold, otherwise keeps its label; time, confidence and title never change |
| Sentiment.RelabelIdempotent | conversion_positive.py:107 | relabelling an already relabelled table changes nothing |
| Sentiment.RelabeledTotalWeight | conversion_positive.py:121 | relabelling leaves a group's total confidence unchanged |
| Sentiment.RelabeledPolarityWeight | conversion_negative.py:59 | after relabelling, the weight of a label is the weight of records with that label above the threshold, plus, for label 0, the whole weight of the records at or below it |
| Sentiment.PolarityWeightBounds | conversion_positive.py:121-122 | with non-negative confidences the label's weight lies between 0 and the total weight |
| Sentiment.AllLowWeight | conversion_negative.py:58-59 | when every record is at or below the threshold, the low-confidence weight is the total weight and no weight is confident label 0 |
| Sentiment.Percent | conversion_positive.py:123 | 0 when the total is not positive; otherwise the percentage times the total is 100 times the part, it lies in [0, 100] for 0 <= part <= total, and it is 0 exactly when the part is 0 and 100 exactly when the part is the total |
| Sentiment.Ratio | conversion_negative.py:58-60 | the day's ratio is 0 when the total weight is not positive, otherwise the label's share of the weight in percent; with non-negative confidences it lies in [0, 100], is 0 exactly when the total or the label's weight is 0, and is 100 exactly when all weight carries the label |
| Sentiment.RelabeledRatio | conversion_positive.py:107-123 | the ratio of a relabelled group is the percentage of its total held by confident records of the label, plus low-confidence records when the label is 0; in [0, 100] for non-negative confidences |
| Sentiment.StrongestIndex | conversion_positive.py:140-142 | no index exactly when no title contains the word (missing titles never match); otherwise the record of maximal confidence among matching records, earlier matches having strictly smaller confidence |
| Sentiment.StrongestTitle | conversion_negative.py:80-88 | empty exactly when the top word is empty or no title contains it; otherwise the title of a record of maximal confidence among those whose title contains it, first on ties |
| Text.Clean | conversion_positive.py:128 | every character left is a Hangul syllable or whitespace, and the text never grows; with `Text.CleanDrops`, `Text.CleanAppend` and `Text.CleanKeeps` this determines the result on every text |
| Text.CleanDrops | conversion_negative.py:65 | a character that is neither a Hangul syllable nor whitespace is deleted, not replaced |
| Text.CleanAppend | conversion_negative.py:65 | stripping works character by character: it distributes over concatenation |
| Text.CleanKeeps | conversion_positive.py:128 | a text of Hangul syllables and whitespace only is left as it is |
| Text.SplitSound | conversion_positive.py:129 | every token of `split()` is non-empty and holds no whitespace, and the tokens concatenated give the text with its whitespace removed |
| Text.SplitToken | conversion_negative.py:66 | a whitespace-free word followed by whitespace or the end is split off as the first token |
| Text.Split | conversion_positive.py:129 | `split()`: every token is non-empty and holds no whitespace (with `Text.SplitSound`, `Text.SplitWord` and `Text.SplitAtSpace`) |
| Text.SplitWord | conversion_positive.py:129 | a non-empty text without whitespace is a single token: `split()` never cuts a word |
| Text.SplitAtSpace | conversion_negative.py:66 | a whitespace character separates: the tokens around it are the tokens of each side, in order; with `Text.SplitWord` this determines `split()` on every text |
| Text.JoinTokens | conversion_positive.py:127-129 | cleaning and splitting parts joined with a space gives each part's own tokens in order, so no word spans two parts |
| Text.Contains | conversion_positive.py:140 | `str.contains` as substring search: a text contains only words no longer than itself, and one of equal length exactly when the two are equal (with `Text.ContainsInside`) |
| Text.ContainsInside | conversion_negative.py:81 | any text built around a word contains it |
| Text.CleanTokensAreSyllables | conversion_positive.py:128-129 | every token of the stripped text is a non-empty run of Hangul syllables |
| Text.TokensComeFromText | conversion_positive.py:129 | every character of a token occurs in the text it was split from |
| Text.StrLessIrreflexive | conversion_positive.py:160 | no string sorts before itself |
| Text.StrLessAsymmetric | conversion_positive.py:160 | the string order used by the sort is asymmetric |
| Text.StrLessTransitive | conversion_negative.py:101 | the string order used by the sort is transitive |
| Text.StrLessTotal | conversion_negative.py:101 | any two different strings are ordered one way or the other |
| Text.StrLessConcat | conversion_positive.py:160 | strings with equal-length prefixes compare by the prefixes first, then by the rest |
| Calendar.PrevDay | conversion_positive.py:97 | the previous calendar day is a real date, lies before the day, and no date lies strictly between them |
| Calendar.WeekdayOfPrevDay | conversion_positive.py:117 | the previous day's `weekday()` is one less, modulo 7 |
| Calendar.PadValue | conversion_positive.py:150 | a zero-padded field reads back as the number it was written from |
| Calendar.PadOrder | conversion_negative.py:91 | two zero-padded fields of one width compare as strings exactly as their numbers compare |
| Calendar.Weekday | conversion_positive.py:117 | Python's `weekday()`, always in 0..6; it steps back by one from day to previous day (`Calendar.WeekdayOfPrevDay`) and numbers Monday 0 and Sunday 6 (`Scenarios.Weekdays`) |
| Calendar.DateString | conversion_positive.py:150 | `strftime('%Y-%m-%d')`: ten characters, read back by the parser (`Calendar.DateStringRoundTrip`), distinct for distinct dates (`Calendar.DateStringInjective`) and ordered as the dates (`Calendar.DateStringOrder`) |
| Calendar.DateStringRoundTrip | conversion_positive.py:150 | parsing the `%Y-%m-%d` text of a date gives the date back |
| Calendar.DateStringInjective | conversion_negative.py:91 | two dates have the same text exactly when they are the same date |
| Calendar.DateStringOrder | conversion_positive.py:150-160 | one date's text sorts before another's exactly when the date comes first in the calendar |
| Keywords.Filtered | conversion_positive.py:130 | the list comprehension: never longer than its input, every survivor occurs in the input and is kept (not a stopword, longer than one letter); `Keywords.FilteredCount` gives each token's exact count |
| Keywords.TitleText | conversion_positive.py:127 | `astype(str)` of a title: a present title is its own text, and a missing one ("nan") cleans away to nothing |
| Keywords.JoinedTitles | conversion_negative.py:64 | `' '.join(...)` of the day's titles; its contract is `Keywords.JoinedTitlesTokens` |
| Keywords.JoinedTitlesTokens | conversion_positive.py:127-129 | the day's tokens are the titles' own tokens in row order: the joining space never glues words of two titles, and a missing title contributes no token |
| Keywords.FilteredAppend | conversion_positive.py:130 | the comprehension keeps the tokens' order: filtering a concatenation is filtering each part and concatenating the results |
| Keywords.FilteredSingle | conversion_positive.py:130 | a single token is kept exactly when it is not a stopword and longer than one letter |
| Keywords.FilteredCount | conversion_positive.py:130 | after filtering, a token occurs as often as before if it is kept (not a stopword, longer than one letter) and not at all otherwise |
| Keywords.CountPositive | conversion_negative.py:72 | a token has a positive count exactly when it occurs |
| Keywords.CountAppend | conversion_positive.py:131 | counts add up over concatenation |
| Keywords.BumpNew | conversion_positive.py:131 | counting a token not yet in the counter appends it with count 1 |
| Keywords.BumpSeen | conversion_positive.py:131 | counting a token already in the counter adds 1 to its entry and leaves every other entry and the order alone |
| Keywords.Tally | conversion_negative.py:72 | `Counter(filtered_words)` as an insertion-ordered list of entries; its contract is `Keywords.TallyCorrect` |
| Keywords.TallyCorrect | conversion_negative.py:72 | the counter holds each distinct token once, with its number of occurrences, in order of first occurrence |
| Keywords.MaxEntry | conversion_positive.py:134 | picks an entry of largest count, every earlier entry having a strictly smaller count |
| Keywords.MostCommon | conversion_positive.py:133-136 | nothing exactly for no tokens; otherwise a token that occurs, whose count no token exceeds, and every token met before its first occurrence has a strictly smaller count |
| Keywords.MostCommonUnique | conversion_negative.py:74-75 | any token with the largest count whose earlier tokens all count less is the one `most_common(1)` returns, so the tie-break fully determines the result |
| Keywords.TopWord | conversion_negative.py:64-77 | empty exactly when no token survives; otherwise a surviving token of at least two Hangul syllables, not a stopword, of maximal count, first met among those of maximal count |
| Keywords.CandidatesShape | conversion_positive.py:127-130 | every counted token has at least two characters, all Hangul syllables, and is not a stopword |
| Keywords.OnlyMatchableStopwordsMatter | conversion_positive.py:130 | for Hangul-only tokens, stopwords with jamo, digits, Latin letters or spaces, and one-letter stopwords, remove nothing |
| Keywords.CandidatesIgnoreUnmatchableStopwords | conversion_positive.py:19-68 | a day's counted tokens are the same whether filtered with the whole stopword set or with its Hangul-only entries of two or more syllables |
| DailyPipeline.BucketDay | conversion_positive.py:94-104 | the day a record is grouped under is a real date for a real timestamp under a converter that keeps times real; it is the converted (US/Eastern) timestamp's date when the conversion succeeds, and the timestamp's own date when there is no conversion or it failed |
| DailyPipeline.BucketDays | conversion_negative.py:45 | one real day per record |
| DailyPipeline.BucketColumn | conversion_positive.py:103-104 | the day column built row by row is the bucket day of every record, in table order |
| DailyPipeline.InsertDay | conversion_positive.py:110 | inserting a day into strictly ascending keys keeps them strictly ascending and adds exactly that day |
| DailyPipeline.GroupDays | conversion_negative.py:51 | the group keys are strictly ascending and are exactly the days that occur |
| DailyPipeline.GroupMembers | conversion_positive.py:115 | a day's group holds exactly the records bucketed under that day |
| DailyPipeline.GroupAppend | conversion_positive.py:115 | a group keeps the table's row order: the group of a table split in two is the first part's group followed by the second part's |
| DailyPipeline.GroupSingle | conversion_positive.py:115 | a single record is its own group exactly when it is bucketed under that day, and otherwise contributes nothing |
| DailyPipeline.GroupOfRelabeled | conversion_positive.py:107-110 | grouping the relabelled table gives the relabelled groups |
| DailyPipeline.GroupsPartition | conversion_negative.py:51-56 | the group sizes over all keys add up to the number of records |
| DailyPipeline.EmittedDays | conversion_positive.py:116-118 | a day is visited and kept exactly when it is a key and is not an excluded Sunday |
| DailyPipeline.DayRow | conversion_positive.py:120-154 | one day's row built from its relabelled group; its contract is `DailyPipeline.DayRowSpec` |
| DailyPipeline.DayRowSpec | conversion_negative.py:57-95 | a day's row: its date text parses back to the day, its ratio lies in [0, 100] for non-negative confidences, its top word is empty exactly when no token survives, and a non-empty strongest title is the title of a strongest record mentioning the top word |
| DailyPipeline.Results | conversion_positive.py:113-154 | the `results` list after the loop has visited some keys; its contract is `DailyPipeline.ResultsFollowEmittedDays` |
| DailyPipeline.ResultsFollowEmittedDays | conversion_positive.py:115-154 | the loop appends exactly one row per kept day, in visiting order, each computed from that day's group |
| DailyPipeline.EmittedDaysAscending | conversion_negative.py:56 | the kept days stay strictly ascending |
| DailyPipeline.InsertRowPerm | conversion_positive.py:160 | inserting a row adds exactly that row |
| DailyPipeline.InsertRowSorted | conversion_positive.py:160 | inserting a row into date-sorted rows keeps them sorted |
| DailyPipeline.Emit | conversion_positive.py:157-160 | building and sorting the frame: fails (the missing `date` column) exactly when there are no rows, otherwise the rows sorted by date text, a permutation of the results |
| DailyPipeline.SortByDateSpec | conversion_negative.py:101 | the sorted rows are ordered by date text and are a permutation of the rows |
| DailyPipeline.SortByDateKeepsSorted | conversion_positive.py:160 | rows already strictly ordered by date are left as they are |
| DailyPipeline.CollectResults | conversion_positive.py:103-154 | leaves the relabelled table in the array and returns the `results` list of the run's specification |
| DailyPipeline.KeptDaysSpec | conversion_positive.py:110-118 | a day gets a row exactly when some record is bucketed under it and it is not excluded |
| DailyPipeline.DailyRowsSpec | conversion_negative.py:97-101 | the run fails exactly when no day is kept; otherwise it writes one row per kept day, strictly ascending by date, each the row of that day's relabelled group |
| DailyPipeline.WrittenRatios | conversion_positive.py:120-123 | each written ratio is the ratio, for the profile's label, of the relabelled group of that row's kept day |
| DailyPipeline.RowDates | conversion_positive.py:150-160 | the written rows carry the texts of the kept days, in order and with no date twice |
| Conversion.SeoulToEasternAt | conversion_positive.py:94-101 | the Eastern time lies 13 or 14 hours (daylight or standard) behind the Seoul time, on the same day or on the previous day, the previous day exactly when the Seoul clock reads earlier than the lag; it fails only for a time that is not real or that falls before the first day |
| Conversion.SeoulToEasternKeepsValid | conversion_positive.py:103 | the conversion turns real times into real times |
| Conversion.EasternWeekday | conversion_positive.py:104 | the Eastern day has the Seoul day's weekday, or the weekday before when the Seoul clock reads earlier than the lag |
| Conversion.SeoulMondayMorningIsDropped | conversion_positive.py:116-118 | a Seoul Monday before 13:00 is an Eastern Sunday under either offset, so the positive job drops it |
| Conversion.PositiveProfile | conversion_positive.py:94-122 | the positive job's configuration: relabel at 0.75 (line 107), report label 1 (line 122), group by the US/Eastern day of the Seoul-localised time (lines 94-104, 110), drop Sundays (line 117), and filter with the positive stopword set |
| Conversion.NegativeProfile | conversion_negative.py:45-59 | the negative job's configuration: relabel at 0.7 (line 48), report label 0 (line 59), group by the timestamp's own date (lines 45, 51), drop no day, and filter with the negative stopword set |
| Stopwords.PositiveStopwords | conversion_positive.py:19-68 | the positive job's stopword set, entry for entry |
| Stopwords.NegativeStopwords | conversion_negative.py:16-22 | the negative job's stopword set, entry for entry |
| Conversion.CalculateDailySentimentRatiosExcludeSunday | conversion_positive.py:7-181 | relabels the table at 0.75 in place, and writes the run's rows twice, both times the same, or stops before writing when no row exists |
| Conversion.CalculateDailyNegativeRatios | conversion_negative.py:5-108 | relabels the table at 0.7 in place and writes the run's rows, or stops before writing when no row exists |
| Conversion.PositiveRowsSkipSundays | conversion_positive.py:115-160 | no written date is a Sunday, and the Eastern day of every record not on a Sunday is written, no date twice |
| Conversion.PositiveRatioIsConfidentShare | conversion_positive.py:121-123 | every ratio the positive job writes, read against that row's kept day, is the percentage of the day's confidence held by its records labelled 1 as loaded with confidence above 0.75, in [0, 100] for non-negative confidences |
| Conversion.PositiveGroupRatio | conversion_positive.py:121-123 | the same for one day's group: the ratio of the relabelled group for label 1 is the confident label-1 share of the group as loaded |
| Conversion.NegativeRowsPerDate | conversion_negative.py:45-101 | the negative job writes exactly when the table has a record, and then its dates are exactly the records' dates |
| Conversion.NegativeRatioCountsLowConfidence | conversion_negative.py:48-60 | every ratio the negative job writes, read against that row's kept day, is the percentage of the day's confidence held by its confident label-0 records plus every record at or below 0.7, so a day of only such records with positive total reports 100 |
| Conversion.NegativeGroupRatio | conversion_negative.py:48-60 | the same for one day's group: the ratio of the relabelled group for label 0 counts the confident label-0 records and every low-confidence record |
| Scenarios.Weekdays | conversion_positive.py:117 | `weekday()` numbers Monday 0 and Sunday 6 (2024-01-01 Monday, 2024-01-07 Sunday) |
| Scenarios.OneDayRun | conversion_positive.py:110-160 | a table whose records all fall on one day yields that day's row alone, or nothing when the day is excluded |
| Scenarios.MissingTitlesHaveNoTopWord | conversion_negative.py:64-77 | a day whose titles are all missing has no top word: each reads "nan", which stripping removes, and the joining spaces add no token |
| Scenarios.GoodNewsTopWord | conversion_positive.py:131-134 | three tokens seen once each: the first one is the top word |
| Scenarios.ScenarioGoodNewsNegative | conversion_negative.py:56-101 | one confident positive title: the negative job writes ratio 0, the first token, and the title |
| Scenarios.ScenarioLowPairNegative | conversion_negative.py:48-61 | two low-confidence positive records: the negative job writes ratio 100 |
| Scenarios.ScenarioLowPairPositive | conversion_positive.py:94-160 | the same two Seoul-morning records land on the previous Eastern day, where the positive job writes ratio 0 |
| Scenarios.ScenarioLoneSundayPositive | conversion_positive.py:116-160 | a table whose only record falls on an Eastern Sunday makes the positive job stop before writing |
| Scenarios.StrippedTopWord | conversion_negative.py:65-75 | stripping a Latin letter glues `좋은A소식` into the single token `좋은소식`, which becomes the top word |
| Scenarios.StrippedStrongest | conversion_negative.py:81-86 | that top word occurs in no raw title, so no strongest title is written |
| Scenarios.ScenarioEmptyTable | conversion_negative.py:98-101 | with no records there are no rows, so the run stops before writing |

## Left out

- Reading the CSV file and its three error returns are not modelled (`conversion_positive.py:70-81`, `conversion_negative.py:24-35`). The model starts from the loaded table.
- Parsing `date_time` with `pd.to_datetime` and its error return are not modelled (`conversion_positive.py:83-88`, `conversion_negative.py:37-42`). A timestamp is a date plus a minute of the day. Seconds are dropped because they never change the day.
- Records with a missing timestamp cannot be represented. A blank `date_time` cell becomes NaT rather than raising, and `groupby` drops NA keys (`conversion_negative.py:51`, `conversion_positive.py:110`). So the source leaves such a record out of every day: its weight, label and title count nowhere. A `Timestamp` in the model is always present, and `DailyPipeline.GroupsPartition` places every record in some day.
- The pytz time-zone database is not modelled. The positive job's converter is a parameter of the bucketing. `Conversion.SeoulToEasternAt` is the fixed-offset instance, and whether daylight time is in force is itself a parameter.
- Conversion.SeoulToEasternAt: it does not model the exact instants at which US-Eastern daylight time starts and ends, because those come from the time-zone database.
- Conversion.SeoulToEasternAt: it takes Seoul to be UTC+9 throughout, so its 13- and 14-hour lags describe 1988 onward. The time-zone database gives Seoul other offsets before that, such as +8:30 in 1954-61 and daylight time in 1987-88, and those years are not modelled.
- Pandas may refuse the `.dt` accessor on a column that mixes converted and fallback timestamps (`conversion_positive.py:104`). The model takes the fallback on its own terms and groups such a record under its unconverted date.
- Floating point is not modelled. Confidences are exact reals, so the order of summation does not matter.
- Sentiment.Ratio: the result is the exact percentage. The rounding `round(…, 2)` at `conversion_positive.py:124` and `conversion_negative.py:61` is not applied.
- NaN confidences, and their effect on `sum()` and `idxmax()`, are not modelled.
- Titles other than strings or missing are not modelled. For example, a number read from the CSV would be turned into text by `astype(str)`.
- The `case=False` flag of `str.contains` is not modelled. The top word is Hangul-only, so case folding changes nothing, and the search is plain substring search.
- The regular-expression engine is not modelled. `\s` and `str.split()` are both taken as Python's whitespace set, `Text.IsSpace`.
- Sorting uses an insertion sort in place of pandas' `sort_values`. The dates are distinct (`Conversion.NegativeRowsPerDate`, `DailyPipeline.RowDates`), so whether the sort is stable does not matter.
- Writing the output file is not modelled: `to_csv`, its `utf-8-sig` encoding, the column names and the caught write errors (`conversion_positive.py:163-167`, `conversion_positive.py:177-181`, `conversion_negative.py:104-108`). A run's result is the list of rows each write puts in the file.
- The `print` diagnostics are not modelled.
- Dates are years 1 to 9999, as Python's `date` allows. The narrower range of pandas timestamps is not modelled.
- `app.py` is not part of this model. It is the web endpoint and a market-data download.
