/** The tweet-based features of the feature extraction stage (src/etl.py):
    the group-by over the intermediate table, the reference date, the left
    join with the profile rows, and the account age and tweet rate. */
module Aggregation {
  import opened Values
  import opened Profiles
  import opened TweetStream

  /** The per-user aggregates of the group-by, after renaming. */
  datatype Activity = Activity(likes: int, replies: int, meanTextLength: real, count: int)

  /** A profile row left-joined with its aggregates, after filling. */
  datatype UserFeatures = UserFeatures(
    userId: int,
    score: int,
    ratio: real,
    createdAt: Option<int>,
    likes: int,
    replies: int,
    meanTextLength: real,
    obsCount: int)

  /** A row of the final table, in its column order; a NaN rate is None. */
  datatype FeatureRow = FeatureRow(
    userId: int,
    score: int,
    likes: int,
    replies: int,
    tweetsPerDay: Option<real>,
    meanTextLength: real,
    ratio: real)

  function Likes(r: TweetRow): int { r.likes }

  function Replies(r: TweetRow): int { r.replies }

  /** `len` of the text, a null text counting as the empty string. */
  function TextLength(r: TweetRow): (n: int)
    ensures n >= 0
    ensures r.text.Some? ==> n == |r.text.value|
    ensures r.text.None? ==> n == 0
  {
    if r.text.Some? then |r.text.value| else 0
  }

  /** What pandas' `count` adds for one row: 1 unless the id is null. */
  function HasTweetId(r: TweetRow): (n: int)
    ensures 0 <= n <= 1
    ensures n == 1 <==> r.tweetId.Some?
  {
    if r.tweetId.Some? then 1 else 0
  }

  function SumOf(rows: seq<TweetRow>, m: TweetRow -> int): int {
    if rows == [] then 0 else m(rows[0]) + SumOf(rows[1..], m)
  }

  /** The rows of one user, in table order. */
  function RowsOf(rows: seq<TweetRow>, uid: int): (g: seq<TweetRow>)
    ensures forall r :: r in g <==> r in rows && r.userId == uid
  {
    if rows == [] then []
    else (if rows[0].userId == uid then [rows[0]] else []) + RowsOf(rows[1..], uid)
  }

  function UserIds(rows: seq<TweetRow>): set<int> {
    set r | r in rows :: r.userId
  }

  /** `mean` is the mean text length of `group`. For an empty group every
      value satisfies it; `ActivityOf` is only applied to non-empty groups,
      and the left join fills 0.0 for a user without rows. */
  predicate MeanOver(mean: real, group: seq<TweetRow>) {
    mean * |group| as real == SumOf(group, TextLength) as real
  }

  /** The aggregates of one group: sums, mean text length, id count. */
  function ActivityOf(group: seq<TweetRow>): (a: Activity)
    requires group != []
    ensures MeanOver(a.meanTextLength, group)
  {
    Activity(SumOf(group, Likes), SumOf(group, Replies),
             SumOf(group, TextLength) as real / |group| as real, SumOf(group, HasTweetId))
  }

  /** `df_tweets.groupby('user_id').agg(...)`: one entry per user that has
      at least one row. */
  function ActivityByUser(rows: seq<TweetRow>): (acts: map<int, Activity>)
    ensures acts.Keys == UserIds(rows)
    ensures forall uid :: uid in acts ==> RowsOf(rows, uid) != [] && acts[uid] == ActivityOf(RowsOf(rows, uid))
  {
    map uid | uid in UserIds(rows) :: assert RowsOf(rows, uid) != [] by {
        var r :| r in rows && r.userId == uid;
        assert r in RowsOf(rows, uid);
      }
      ActivityOf(RowsOf(rows, uid))
  }

  predicate Distinct(ids: seq<int>) {
    forall i, j :: 0 <= i < j < |ids| ==> ids[i] != ids[j]
  }

  /** The per-user sums of `m`, added up over the users `ids`. */
  function GroupTotal(ids: seq<int>, rows: seq<TweetRow>, m: TweetRow -> int): int {
    if ids == [] then 0 else SumOf(RowsOf(rows, ids[0]), m) + GroupTotal(ids[1..], rows, m)
  }

  lemma {:induction false} GroupTotalCons(ids: seq<int>, r: TweetRow, rest: seq<TweetRow>, m: TweetRow -> int)
    requires Distinct(ids)
    ensures GroupTotal(ids, [r] + rest, m) == (if r.userId in ids then m(r) else 0) + GroupTotal(ids, rest, m)
  {
    if ids != [] {
      assert ([r] + rest)[0] == r && ([r] + rest)[1..] == rest;
      var g := RowsOf(rest, ids[0]);
      if r.userId == ids[0] {
        assert RowsOf([r] + rest, ids[0]) == [r] + g;
        assert ([r] + g)[1..] == g;
      } else {
        assert RowsOf([r] + rest, ids[0]) == [] + g;
        assert [] + g == g;
      }
      assert r.userId in ids <==> r.userId == ids[0] || r.userId in ids[1..];
      GroupTotalCons(ids[1..], r, rest, m);
    }
  }

  /** The group-by partitions the rows: over distinct users covering
      every row, the per-user sums add up to the sum over the table. */
  lemma {:induction false} GroupTotalIsTotal(ids: seq<int>, rows: seq<TweetRow>, m: TweetRow -> int)
    requires Distinct(ids)
    requires forall r :: r in rows ==> r.userId in ids
    ensures GroupTotal(ids, rows, m) == SumOf(rows, m)
  {
    if rows == [] {
      GroupTotalEmpty(ids, m);
    } else {
      assert rows == [rows[0]] + rows[1..];
      GroupTotalCons(ids, rows[0], rows[1..], m);
      GroupTotalIsTotal(ids, rows[1..], m);
    }
  }

  lemma {:induction false} GroupTotalEmpty(ids: seq<int>, m: TweetRow -> int)
    ensures GroupTotal(ids, [], m) == 0
  {
    if ids != [] {
      GroupTotalEmpty(ids[1..], m);
    }
  }

  /** The `obs_tweet_count`s, likes and replies of the aggregate table,
      added up over all its users (listed once each), equal the id count,
      likes and replies of the whole intermediate table; with no null
      tweet id the counts add up to the number of matched rows. */
  lemma ActivityTotals(rows: seq<TweetRow>, ids: seq<int>)
    requires Distinct(ids)
    requires forall k :: 0 <= k < |ids| ==> ids[k] in UserIds(rows)
    requires forall r :: r in rows ==> r.userId in ids
    ensures TotalCount(ActivityByUser(rows), ids) == SumOf(rows, HasTweetId)
    ensures TotalLikes(ActivityByUser(rows), ids) == SumOf(rows, Likes)
    ensures TotalReplies(ActivityByUser(rows), ids) == SumOf(rows, Replies)
    ensures (forall r :: r in rows ==> r.tweetId.Some?) ==> TotalCount(ActivityByUser(rows), ids) == |rows|
  {
    var acts := ActivityByUser(rows);
    TotalsAreGroupTotals(acts, rows, ids);
    GroupTotalIsTotal(ids, rows, HasTweetId);
    GroupTotalIsTotal(ids, rows, Likes);
    GroupTotalIsTotal(ids, rows, Replies);
    if forall r :: r in rows ==> r.tweetId.Some? {
      AllIdsCounted(rows);
    }
  }

  lemma {:induction false} TotalsAreGroupTotals(acts: map<int, Activity>, rows: seq<TweetRow>, ids: seq<int>)
    requires acts == ActivityByUser(rows)
    requires forall k :: 0 <= k < |ids| ==> ids[k] in acts
    ensures TotalCount(acts, ids) == GroupTotal(ids, rows, HasTweetId)
    ensures TotalLikes(acts, ids) == GroupTotal(ids, rows, Likes)
    ensures TotalReplies(acts, ids) == GroupTotal(ids, rows, Replies)
  {
    if ids != [] {
      TotalsAreGroupTotals(acts, rows, ids[1..]);
    }
  }

  lemma {:induction false} AllIdsCounted(rows: seq<TweetRow>)
    requires forall r :: r in rows ==> r.tweetId.Some?
    ensures SumOf(rows, HasTweetId) == |rows|
  {
    if rows != [] {
      assert rows[0] in rows;
      assert forall r :: r in rows[1..] ==> r in rows;
      AllIdsCounted(rows[1..]);
    }
  }

  function TotalCount(acts: map<int, Activity>, ids: seq<int>): int
    requires forall k :: 0 <= k < |ids| ==> ids[k] in acts
  {
    if ids == [] then 0 else acts[ids[0]].count + TotalCount(acts, ids[1..])
  }

  function TotalLikes(acts: map<int, Activity>, ids: seq<int>): int
    requires forall k :: 0 <= k < |ids| ==> ids[k] in acts
  {
    if ids == [] then 0 else acts[ids[0]].likes + TotalLikes(acts, ids[1..])
  }

  function TotalReplies(acts: map<int, Activity>, ids: seq<int>): int
    requires forall k :: 0 <= k < |ids| ==> ids[k] in acts
  {
    if ids == [] then 0 else acts[ids[0]].replies + TotalReplies(acts, ids[1..])
  }

  /** `dataset_end_date`: the latest non-null `created_at` of the table, or
      None (NaT) when there is none. */
  function LatestTimestamp(rows: seq<TweetRow>): (t: Option<int>)
    ensures t.None? <==> forall r :: r in rows ==> r.createdAt.None?
    ensures t.Some? ==> exists r :: r in rows && r.createdAt == t
    ensures t.Some? ==> forall r :: r in rows && r.createdAt.Some? ==> r.createdAt.value <= t.value
  {
    if rows == [] then None
    else
      var rest := LatestTimestamp(rows[1..]);
      assert forall r :: r in rows[1..] ==> r in rows;
      assert forall r :: r in rows ==> r == rows[0] || r in rows[1..];
      match rows[0].createdAt
      case None => rest
      case Some(c) =>
        if rest.Some? && rest.value >= c then rest else Some(c)
  }

  /** `df_users.merge(tweet_features, on='user_id', how='left')` followed
      by `fillna`: one row per profile row, in profile order, with zeros
      for a user that has no aggregates. */
  function JoinActivity(profiles: seq<ProfileRow>, acts: map<int, Activity>): (joined: seq<UserFeatures>)
    ensures |joined| == |profiles|
    ensures forall i :: 0 <= i < |profiles| ==>
      var p, j := profiles[i], joined[i];
      && j.userId == p.userId && j.score == p.score && j.ratio == p.ratio && j.createdAt == p.createdAt
      && (p.userId in acts ==>
            j.likes == acts[p.userId].likes && j.replies == acts[p.userId].replies
            && j.meanTextLength == acts[p.userId].meanTextLength && j.obsCount == acts[p.userId].count)
      && (p.userId !in acts ==>
            j.likes == 0 && j.replies == 0 && j.meanTextLength == 0.0 && j.obsCount == 0)
  {
    seq(|profiles|, i requires 0 <= i < |profiles| =>
      var p := profiles[i];
      var a := if p.userId in acts then acts[p.userId] else Activity(0, 0, 0.0, 0);
      UserFeatures(p.userId, p.score, p.ratio, p.createdAt, a.likes, a.replies, a.meanTextLength, a.count))
  }

  const SecondsPerDay: int := 86400

  /** `account_age_days`: the whole days from the creation time to the
      reference time, rounded down and clipped below at 1. A missing time
      on either side gives NaN (None). */
  function AccountAgeDays(end: Option<int>, created: Option<int>): (age: Option<int>)
    ensures age.Some? <==> end.Some? && created.Some?
    ensures age.Some? ==> age.value >= 1
    ensures age.Some? && age.value > 1 ==>
      age.value * SecondsPerDay <= end.value - created.value < (age.value + 1) * SecondsPerDay
    ensures age.Some? && age.value == 1 ==> end.value - created.value < 2 * SecondsPerDay
  {
    if end.None? || created.None? then None
    else
      // Euclidean division by a positive divisor rounds down, as `.dt.days` does.
      var days := (end.value - created.value) / SecondsPerDay;
      Some(if days < 1 then 1 else days)
  }

  /** `rate` is `count` tweets spread over `days` days. */
  predicate IsRate(rate: real, count: int, days: int) {
    rate * days as real == count as real
  }

  /** `avg_tweets_per_day`: the observed count over the account age. */
  function TweetsPerDay(count: int, age: Option<int>): (rate: Option<real>)
    requires age.Some? ==> age.value >= 1
    ensures rate.Some? <==> age.Some?
    ensures rate.Some? ==> IsRate(rate.value, count, age.value)
    ensures rate.Some? && count == 0 ==> rate.value == 0.0
  {
    if age.None? then None else Some(count as real / age.value as real)
  }

  /** The final columns of one joined row. */
  function FinalRow(u: UserFeatures, end: Option<int>): (f: FeatureRow)
    ensures f.userId == u.userId && f.score == u.score && f.ratio == u.ratio
    ensures f.likes == u.likes && f.replies == u.replies && f.meanTextLength == u.meanTextLength
    ensures f.tweetsPerDay.Some? <==> end.Some? && u.createdAt.Some?
    ensures f.tweetsPerDay.Some? ==>
      var age := AccountAgeDays(end, u.createdAt).value;
      age >= 1 && IsRate(f.tweetsPerDay.value, u.obsCount, age)
    ensures f.tweetsPerDay.Some? && u.obsCount == 0 ==> f.tweetsPerDay.value == 0.0
  {
    var age := AccountAgeDays(end, u.createdAt);
    FeatureRow(u.userId, u.score, u.likes, u.replies, TweetsPerDay(u.obsCount, age), u.meanTextLength, u.ratio)
  }

  /** The final table built from non-empty profile and tweet tables. */
  function FeatureTable(profiles: seq<ProfileRow>, tweets: seq<TweetRow>): (table: seq<FeatureRow>)
    ensures |table| == |profiles|
  {
    var end := LatestTimestamp(tweets);
    var joined := JoinActivity(profiles, ActivityByUser(tweets));
    seq(|joined|, i requires 0 <= i < |joined| => FinalRow(joined[i], end))
  }

  /** What the left join fills in for a user: the aggregates of that
      user's own rows, which are all zero when there are none. */
  lemma {:induction false} JoinedActivityOfOwnRows(tweets: seq<TweetRow>, uid: int)
    ensures var acts := ActivityByUser(tweets);
      var own := RowsOf(tweets, uid);
      && (uid in acts <==> own != [])
      && (uid in acts ==> acts[uid] == ActivityOf(own))
  {
    var acts := ActivityByUser(tweets);
    var own := RowsOf(tweets, uid);
    if own != [] {
      assert own[0] in own;
      assert own[0] in tweets && own[0].userId == uid;
      assert uid in UserIds(tweets);
    }
  }

  /** Row i of the left join carries the aggregates of that user's own
      tweet rows, all zero when there are none. */
  lemma JoinedRow(profiles: seq<ProfileRow>, tweets: seq<TweetRow>, i: nat)
    requires i < |profiles|
    ensures var j := JoinActivity(profiles, ActivityByUser(tweets))[i];
      var own := RowsOf(tweets, profiles[i].userId);
      && j.likes == SumOf(own, Likes)
      && j.replies == SumOf(own, Replies)
      && j.obsCount == SumOf(own, HasTweetId)
      && MeanOver(j.meanTextLength, own)
      && (own == [] ==> j.meanTextLength == 0.0)
  {
    JoinedActivityOfOwnRows(tweets, profiles[i].userId);
  }

  /** Row i of the final table: the i-th profile row with the totals of
      that user's own tweet rows (zero when there are none) and the rate
      of the observed count over the clipped account age. */
  lemma FeatureTableRow(profiles: seq<ProfileRow>, tweets: seq<TweetRow>, i: nat)
    requires i < |profiles|
    ensures var f := FeatureTable(profiles, tweets)[i];
      var p := profiles[i];
      var own := RowsOf(tweets, p.userId);
      var age := AccountAgeDays(LatestTimestamp(tweets), p.createdAt);
      && f.userId == p.userId && f.score == p.score && f.ratio == p.ratio
      && f.likes == SumOf(own, Likes)
      && f.replies == SumOf(own, Replies)
      && MeanOver(f.meanTextLength, own)
      && (own == [] ==> f.likes == 0 && f.replies == 0 && f.meanTextLength == 0.0
                        && (f.tweetsPerDay.Some? ==> f.tweetsPerDay.value == 0.0))
      && (f.tweetsPerDay.Some? <==> age.Some?)
      && (f.tweetsPerDay.Some? ==>
            age.value >= 1 && IsRate(f.tweetsPerDay.value, SumOf(own, HasTweetId), age.value))
  {
    var j := JoinActivity(profiles, ActivityByUser(tweets))[i];
    assert FeatureTable(profiles, tweets)[i] == FinalRow(j, LatestTimestamp(tweets));
    JoinedRow(profiles, tweets, i);
  }
}
