# BotShield feature pipeline — a Dafny model

BotShield prepares per-user features for Twitter bot detection on the
TwiBot-22 data in two batch stages.

**Feature extraction** (`src/etl.py`) does the following:

- It reads the selected user ids and the user dump.
- For every selected user it computes a profile completeness score (0–5)
  and a follower/following ratio.
- It streams the tweet file line by line. The stream is a JSON array with
  one element per line. Every tweet of a selected author is kept as a row
  of the intermediate table, which is persisted before anything else is
  computed.
- It groups those rows by user: total likes, total replies, mean text
  length and the observed tweet count.
- It left-joins the aggregates onto the profile rows, so a user without
  tweets gets zeros.
- Tweets per day are the observed count over the account age in whole
  days. The age is measured up to the latest tweet of the dataset and
  clipped below at one day.

**Augmentation** (`src/augment_features.py`) does the following:

- It normalizes the `id` column of the split and label tables. Every `u`
  is removed and the rest is read as an integer, or becomes null.
- It left-joins both tables onto the feature table and fills the gaps
  with `"unknown"`.
- It writes the merged table and one subset per split name: `train`,
  `val` and `test`.

## Modules

- `values.dfy` (`Values`) holds the shared types:
  - `Field` is a JSON key read: absent, null or a value. This is what
    separates `d.get(k)` from `d[k]`.
  - `Option` and `Result`.
  - `Fault` is the exceptions that abort a run.
  - `Prepend` combines a loop's rows with the rest of the run.
- `profiles.dfy` (`Profiles`) is the profile loop: the score, the ratio,
  and the rows in dump order.
- `tweet_stream.dfy` (`TweetStream`) covers `parse_line`, with Python's
  `str.strip` whitespace set, and the tweet loop that builds the
  intermediate table.
- `aggregation.dfy` (`Aggregation`) covers the group-by, the reference
  date, the left join with fill, the account age and the rate.
- `feature_extraction.dfy` (`FeatureExtraction`) is the whole first stage,
  including where it can fail relative to the checkpoint.
- `normalize_id.dfy` (`KeyNormalization`) is `normalize_id`.
- `augmentation.dfy` (`Augmentation`) covers the two joins, the fill, the
  partition loop and the whole second stage.

### Conventions

- Each loop in the source is a `method` with a `while` or `for` loop,
  proved equal to a recursive specification function. The properties are
  proved as lemmas about that function.
- An exception that ends a run is an `Err(Fault)`, not a precondition.
- `json.loads` is a function parameter `decode`; its `None` means a
  decoding error.
- Timestamps are whole seconds.
- A pandas NaN or NaT is `None`.
- Real-number results are stated by multiplication:
  - `MeanOver(mean, group)` means mean × size = sum of lengths.
  - `IsRate(rate, count, days)` means rate × days = count.

## Model

| member | source | states |
|---|---|---|
| Profiles.CompletenessScore | src/etl.py:40-58 | The score lies in [0, 5]. It is 5 exactly when `verified` is literally true, the description is non-null and non-empty, and the image URL and location are non-null. |
| Profiles.DescriptionContribution | src/etl.py:45-50 | An empty description adds exactly 1 point and a non-empty one 2 points over an absent one. A null description adds nothing. |
| Profiles.ProfileOf | src/etl.py:30-79 | An unselected readable id gives no row. An absent or unreadable id is a fault, and so is a selected user whose ratio fails. Otherwise the row carries the id, `CompletenessScore`, the ratio and the raw creation time. |
| Profiles.ProfileRows | src/etl.py:27-79 | The profile loop's result: the first fault, or the rows, at most one per user. `ProfileRowsOk`, `ProfileRowsAreSelectedUsers` and `ProfileRowsSelected` state the rest. |
| Profiles.FollowerFollowingRatio | src/etl.py:61-68 | An absent count reads as 0. If following > 0 the ratio is followers/following, otherwise 0.0. It fails exactly when a null following count is compared, or a null followers count is divided. |
| Profiles.ScoreProfile | src/etl.py:40-58 | The score built by one `+=` per satisfied condition equals `CompletenessScore`. |
| Profiles.ProcessProfiles | src/etl.py:27-79 | The loop yields exactly `ProfileRows`: the first fault, or one row per selected user in dump order. |
| Profiles.ProfileRowsOk | src/etl.py:27-68 | The profile loop succeeds iff every user id is readable and every selected user's counts can be compared and divided. |
| Profiles.ProfileRowsAreSelectedUsers | src/etl.py:27-79 | On success, row k is the row of the k-th selected user of the dump, and there is one row per such user. |
| Profiles.ProfileRowsSelected | src/etl.py:31 | Every profile row's id is selected, and its score lies in [0, 5]. |
| Profiles.SelectedUserHasRow | src/etl.py:31-79 | Every user of the dump whose id is selected has a profile row. |
| TweetStream.Strip | src/etl.py:91 | The stripped line is no longer than the input, and neither starts nor ends with whitespace. |
| TweetStream.StripPadded | src/etl.py:91 | Stripping removes exactly the whitespace around a trimmed text. |
| TweetStream.DropComma | src/etl.py:93-94 | The result is the text, or the text minus one trailing comma, and a comma-ended text loses exactly one character. |
| TweetStream.CleanLine | src/etl.py:91-94 | The cleaned line is the stripped line, or the stripped line minus one trailing comma. |
| TweetStream.DropCommaBracket | src/etl.py:93-97 | A text cleans to `[` iff it is `[` or `[,`, and to `]` iff it is `]` or `],`. |
| TweetStream.ParseLinePadded | src/etl.py:90-101 | Padded `[`, `]`, `[,` and `],` lines are skipped. Any other line is decoded after exactly one trailing comma is dropped. |
| TweetStream.ParseLine | src/etl.py:90-101 | Any value returned is the decoder's result on the cleaned line. `ParseLinePadded` states which lines are skipped. |
| TweetStream.LineStep | src/etl.py:106-111 | An undecodable line, a bracket line and JSON null contribute nothing. A decoded value that is not an object is exactly the `NotAnObject` fault. A row comes only from a decoded object, and its author is selected. |
| TweetStream.MatchedRows | src/etl.py:104-131 | The tweet loop's result: the first fault, or the rows, at most one per line. `MatchedRowsAreSelectedTweets` and `MatchedRowsSelected` state which rows. |
| TweetStream.TweetRowOf | src/etl.py:110-129 | An unselected author gives no row. A selected one gives a row iff `id`, `text` and `created_at` are present. The row carries those values, with a null kept as null, and the counts default to 0 when absent or null. A missing or unreadable `author_id` is a fault. |
| TweetStream.MatchTweets | src/etl.py:103-131 | The loop yields exactly `MatchedRows`, and on success `tweet_count` equals the number of rows. |
| TweetStream.MatchedRowsAppend | src/etl.py:104-131 | Rows come out in stream order: the rows of two concatenated streams are the rows of the first followed by those of the second, and a fault in the first wins. |
| TweetStream.MatchedRowsAreSelectedTweets | src/etl.py:105-131 | On success there is exactly one row per decoded tweet object of a selected author, in stream order. |
| TweetStream.MatchedRowsSelected | src/etl.py:111 | Every intermediate row's author is selected. |
| Aggregation.TextLength | src/etl.py:160 | A row's text length is the length of its text, or 0 for a null text. |
| Aggregation.HasTweetId | src/etl.py:167 | A row adds 1 to pandas' `count` iff its tweet id is non-null, and 0 otherwise. |
| Aggregation.RowsOf | src/etl.py:163 | A user's group holds exactly the rows with that user id. |
| Aggregation.ActivityOf | src/etl.py:160-168 | A group's mean text length times its size equals its total text length, with a null text counted as length 0. |
| Aggregation.ActivityByUser | src/etl.py:163-175 | There is one aggregate per user id that occurs in the table. It is the sums, mean length and non-null id count of that user's own rows. |
| Aggregation.ActivityTotals | src/etl.py:163-175 | Over all groups, the counts, likes and replies add up to the whole table's non-null id count, likes and replies. With no null tweet id the counts add up to the number of rows. |
| Aggregation.LatestTimestamp | src/etl.py:146-151 | The reference date is the latest non-null tweet time: attained by some row and at least every row's time. It is NaT iff every time is null. |
| Aggregation.JoinActivity | src/etl.py:179-188 | There is one row per profile row, in order, carrying its id, score, ratio and creation time. It has the user's aggregates, or zeros when the user has none. |
| Aggregation.JoinedActivityOfOwnRows | src/etl.py:163-179 | A user is in the aggregate table iff it has rows, and its entry is the aggregate of exactly those rows. |
| Aggregation.AccountAgeDays | src/etl.py:196-202 | The age is NaN iff a time is missing. Otherwise it is at least 1 and equals the whole days between the two times, rounded down, unless that is below 1. |
| Aggregation.TweetsPerDay | src/etl.py:204 | The rate is NaN iff the age is. Otherwise rate × age equals the count, and a zero count gives 0. |
| Aggregation.FinalRow | src/etl.py:196-218 | The output columns are carried from the joined row. The rate is non-NaN iff both times exist, and then it is the observed count over an age of at least 1. |
| Aggregation.FeatureTable | src/etl.py:179-218 | The final table has one row per profile row. |
| Aggregation.JoinedRow | src/etl.py:179-188 | Joined row i holds the totals, id count and mean length of that user's own tweet rows, all zero when there are none. |
| Aggregation.FeatureTableRow | src/etl.py:160-218 | Final row i is profile row i with its own rows' likes, replies and mean length, zeros without tweets, and the rate of its own non-null id count over its clipped age. |
| FeatureExtraction.Extract | src/etl.py:12-234 | The run crashes before the checkpoint iff a loop faults. After the checkpoint it stops iff no tweet matched or no profile row exists. Otherwise there is one feature row per profile row, and the checkpoint holds the matched rows. |
| FeatureExtraction.RunExtraction | src/etl.py:12-234 | The stage's control flow yields exactly `Extract`. |
| FeatureExtraction.FeaturesFollowProfiles | src/etl.py:179-218 | Feature row i is profile row i of a selected user, with its score in [0, 5] and its ratio. No user is dropped for lacking tweets. |
| FeatureExtraction.SelectedUsersHaveFeatures | src/etl.py:27-179 | Every selected user of the dump appears in the final table. |
| FeatureExtraction.FeaturesAggregateOwnTweets | src/etl.py:160-188 | Each user's likes, replies and mean length come from their own checkpointed tweets, and are zero, with a zero rate, when they have none. |
| FeatureExtraction.RateIsObservedCountOverAge | src/etl.py:196-204 | The rate is the user's non-null tweet id count over an age of at least one day. It is NaN iff the age is. |
| KeyNormalization.RemoveU | src/augment_features.py:19 | The result contains no `u` and is no longer than the key. |
| KeyNormalization.RemoveUKeepsPlainKey | src/augment_features.py:19 | A key without `u` is left unchanged. |
| KeyNormalization.RemoveUAppend | src/augment_features.py:19 | Removing `u`s distributes over concatenation. |
| KeyNormalization.ParseInteger | src/augment_features.py:21 | A string parses to an integer iff it is an optional sign followed by decimal digits. |
| KeyNormalization.ParseIntegerValue | src/augment_features.py:21 | Every integer literal parses to the value of its digits: unchanged without a sign or after `+`, negated after `-`. |
| KeyNormalization.ParsePositive | src/augment_features.py:21 | A `+` before a non-empty digit string leaves its value unchanged. |
| KeyNormalization.NormalizeId | src/augment_features.py:14-22 | A key becomes non-null iff what remains after removing every `u` is an integer literal. |
| KeyNormalization.DecimalStringValue | src/augment_features.py:21 | The decimal rendering of n reads back as n. |
| KeyNormalization.NormalizePrefixedId | src/augment_features.py:14-22 | `u` followed by the digits of n normalizes to n. |
| KeyNormalization.NormalizeUDigits | src/augment_features.py:14-22 | `u` followed by any non-empty digit string, leading zeros included, normalizes to the value of those digits. |
| KeyNormalization.NormalizeUSignDigits | src/augment_features.py:14-22 | `u-` followed by a non-empty digit string normalizes to the negated value of those digits. |
| KeyNormalization.NormalizeUPlusDigits | src/augment_features.py:14-22 | `u+` followed by a non-empty digit string normalizes to the value of those digits. |
| KeyNormalization.NormalizePrefixedNegativeId | src/augment_features.py:14-22 | `u-` followed by the digits of n normalizes to -n. |
| KeyNormalization.NormalizeIdIgnoresEveryU | src/augment_features.py:19 | A `u` anywhere in a key, not only a leading one, makes no difference. |
| KeyNormalization.NormalizeTable | src/augment_features.py:33-46 | The table keeps its rows and value cells. Each key is non-null iff its `u`-free text is an integer literal. |
| Augmentation.FillUnknown | src/augment_features.py:60-61 | A non-null cell is kept, and a null cell becomes `"unknown"`. |
| Augmentation.Fill | src/augment_features.py:60-61 | Filling keeps the rows in order and replaces only null split or label cells. |
| Augmentation.UniqueKeysMatchOnce | src/augment_features.py:54-57 | With unique keys, a user matches at most one entry. |
| Augmentation.LoadedTable | src/augment_features.py:33-49 | An absent file gives an empty table. A present one keeps its rows and value cells, with each key replaced by `NormalizeId` of its `id`. |
| Augmentation.JoinSplit | src/augment_features.py:54 | The joined table has at least as many rows as the feature table. `JoinSplitKeepsEveryRow` states that every feature row appears. With duplicate keys it repeats a row once per match, and no contract states that count. |
| Augmentation.JoinSplitKeepsEveryRow | src/augment_features.py:54 | The left join drops no feature row: each one appears in at least one joined row, whether or not its user has an entry. |
| Augmentation.JoinSplitProvenance | src/augment_features.py:54 | Every joined row is a feature row. Its split is null, or the value of an entry keyed by that row's user. |
| Augmentation.JoinLabel | src/augment_features.py:57 | The joined table has at least as many rows as its input. `JoinLabelKeepsEveryRow` states that every input row appears. With duplicate keys it repeats a row once per match, and no contract states that count. |
| Augmentation.JoinLabelKeepsEveryRow | src/augment_features.py:57 | The left join drops no row: each input row, split cell included, appears in at least one joined row. |
| Augmentation.JoinLabelProvenance | src/augment_features.py:57 | Every joined row extends an input row, keeping its split. Its label is null, or the value of an entry keyed by that row's user. |
| Augmentation.Augment | src/augment_features.py:54-61 | The augmented table has at least as many rows as the feature table, every feature row appears in it, and every row comes from a feature row. Each split and label is `"unknown"` or the value of an entry keyed by that user in the loaded table. |
| Augmentation.FilledJoinsKeepEveryRow | src/augment_features.py:54-61 | After both joins and the fill, every feature row still appears. |
| Augmentation.FilledJoinsProvenance | src/augment_features.py:54-61 | After both joins and the fill, every row comes from a feature row, and its split and label are `"unknown"` or the value of an entry keyed by that user. |
| Augmentation.JoinSplitUnique | src/augment_features.py:54 | With unique split keys, the join gives each feature row exactly one row, in order, holding its entry's split or null. |
| Augmentation.JoinLabelUnique | src/augment_features.py:57 | With unique label keys, the join gives each row exactly one row, in order, keeping its split and adding its label or null. |
| Augmentation.OneRowPerFeatureRow | src/augment_features.py:33-61 | With unique keys, the augmented table has one row per feature row, in order. Each row's split and label are the user's entries, or `"unknown"`. |
| Augmentation.RowsWithSplit | src/augment_features.py:75 | A subset holds exactly the merged rows with that split name. |
| Augmentation.Partition | src/augment_features.py:71-77 | The loop yields one subset per name in `train`, `val`, `test` order. Each subset is the rows with that split. |
| Augmentation.RowsWithSplitAppend | src/augment_features.py:75 | Subsets keep the merged table's order. |
| Augmentation.SubsetsDisjoint | src/augment_features.py:71-77 | No row lies in two subsets. |
| Augmentation.SubsetSizes | src/augment_features.py:71-77 | The three subset sizes add up to the number of rows whose split is one of the three names. |
| Augmentation.AugmentStage | src/augment_features.py:24-79 | Nothing is produced iff the feature file is absent. Otherwise there are three subsets. |
| Augmentation.RunAugmentation | src/augment_features.py:24-79 | The stage's control flow yields exactly `AugmentStage`. |
| Augmentation.SplitFileAbsent | src/augment_features.py:38-60 | Without a split file every split is `"unknown"`, and all three subsets are empty. |

## Left out

- File I/O, the CSV round trip between stages, and every `print`. Each stage takes its inputs as values and returns its tables.
- Loading the selected ids (src/etl.py:13-17) is not modelled: `selected` is given as a set of integers, and `int(uid)` failing on an element is not represented.
- JSON decoding is a parameter `decode`. The model does not fix which strings decode to which values.
- Date parsing and time zones are not modelled. Times are given as whole seconds, and only a JSON null or absent `created_at` is NaT (`None`). `pd.to_datetime` raises on a string it cannot parse: at src/etl.py:146 for tweet times and at src/etl.py:196 for user times. Both points come after the intermediate table is written at src/etl.py:139. The model has no such failure, so it does not capture a run that stops there.
- The `datetime.now` fallback of src/etl.py:153 is not modelled. It cannot be reached: an empty tweet table already fails at src/etl.py:146, because the `created_at` column does not exist. The model treats that as `NoMatchedTweets`, raised after the intermediate table is written.
- An empty profile table is not modelled beyond its failure: it fails at the merge on src/etl.py:179 for lack of a `user_id` column. The model treats that as `NoProfileRows`.
- Floating point is modelled as exact reals. The mean and the rate are stated by multiplication (`MeanOver`, `IsRate`).
- pandas dtypes are not modelled: `Int64`, float upcasting of counts and integer precision.
- `pd.to_numeric` is modelled on integer literals only. Floats, exponents, surrounding whitespace and other forms it accepts are not.
- A null `public_metrics` object, which would make `.get` raise, is not modelled: metrics are absent, null or integer per key.
- Non-integer count values are not modelled.
- A description that is not a string, for which `len` could mean something else, is not modelled.
- Conversions of user and author ids are abstract: `int(...)` either succeeds with a value or fails, which is modelled as a null field. The model does not say which strings `int` accepts.
- `KeyNormalization.NormalizeTable`: `normalize_id` rewrites the frame's column in place and returns it. The model returns a new table, because the caller only uses the result.
- The order of the group-by output is not modelled. The aggregates are a map, and the left join keeps the profile order.
- `Augmentation.OneRowPerFeatureRow`: it is proved only for split and label tables with unique normalized keys. With duplicate keys, `JoinSplit` and `JoinLabel` still model the pandas row multiplication (one row per match), but no lemma states the counts.
- Tweet and text values are carried as given: tweet ids as integers and texts as strings. Only their nullness and text length are used.

## Code over documented intent

One place where the code and the
intended scoring rule differ is modelled as the code behaves: a JSON
`null` description scores 0. The code tests `is not None`, so an explicit
null counts as absent, while an empty string still earns the
"description exists" point (see `Profiles.DescriptionContribution`).
