/** The feature extraction stage as a whole (`main` of src/etl.py): the
    profile loop, the tweet loop, the intermediate checkpoint, and the
    final per-user feature table. */
module FeatureExtraction {
  import opened Values
  import opened Profiles
  import opened TweetStream
  import opened Aggregation

  /** How a run ends: a fault before the intermediate table is written, a
      fault after it, or both tables written. */
  datatype Outcome =
    | Crashed(fault: Fault)
    | CheckpointOnly(intermediate: seq<TweetRow>, fault: Fault)
    | Finished(intermediate: seq<TweetRow>, features: seq<FeatureRow>)
  {
    predicate Checkpointed() {
      CheckpointOnly? || Finished?
    }
  }

  /** One run on the user dump, the selected ids and the lines of the
      tweet stream. The intermediate table is written as soon as both
      loops have finished; an empty tweet table or an empty user table
      then fails before the final table exists. */
  function Extract(users: seq<UserRecord>, selected: set<int>, lines: seq<string>, decode: string -> Option<Json>): (o: Outcome)
    ensures o.Crashed? <==> ProfileRows(users, selected).Err? || MatchedRows(lines, decode, selected).Err?
    ensures o.Checkpointed() ==> o.intermediate == MatchedRows(lines, decode, selected).value
    ensures o.CheckpointOnly? <==>
      && ProfileRows(users, selected).Ok? && MatchedRows(lines, decode, selected).Ok?
      && (MatchedRows(lines, decode, selected).value == [] || ProfileRows(users, selected).value == [])
    ensures o.Finished? ==> |o.features| == |ProfileRows(users, selected).value|
  {
    match ProfileRows(users, selected)
    case Err(e) => Crashed(e)
    case Ok(profiles) =>
      match MatchedRows(lines, decode, selected)
      case Err(e) => Crashed(e)
      case Ok(tweets) =>
        if tweets == [] then CheckpointOnly(tweets, NoMatchedTweets)
        else if profiles == [] then CheckpointOnly(tweets, NoProfileRows)
        else Finished(tweets, FeatureTable(profiles, tweets))
  }

  /** `main`: runs the two loops, then the table computations. */
  method RunExtraction(users: seq<UserRecord>, selected: set<int>, lines: seq<string>, decode: string -> Option<Json>)
    returns (o: Outcome)
    ensures o == Extract(users, selected, lines, decode)
  {
    var profiles := ProcessProfiles(users, selected);
    if profiles.Err? {
      return Crashed(profiles.error);
    }
    var tweets, tweetCount := MatchTweets(lines, decode, selected);
    if tweets.Err? {
      return Crashed(tweets.error);
    }
    // Here the intermediate table is persisted.
    if tweets.value == [] {
      return CheckpointOnly(tweets.value, NoMatchedTweets);
    }
    if profiles.value == [] {
      return CheckpointOnly(tweets.value, NoProfileRows);
    }
    o := Finished(tweets.value, FeatureTable(profiles.value, tweets.value));
  }

  /** Every row of the final table is a selected user's profile row, in
      profile order: no user is dropped for having no tweets. */
  lemma FeaturesFollowProfiles(users: seq<UserRecord>, selected: set<int>, lines: seq<string>, decode: string -> Option<Json>)
    requires Extract(users, selected, lines, decode).Finished?
    ensures var profiles := ProfileRows(users, selected).value;
      var features := Extract(users, selected, lines, decode).features;
      && |features| == |profiles|
      && forall i :: 0 <= i < |features| ==>
           features[i].userId == profiles[i].userId && features[i].userId in selected
           && features[i].score == profiles[i].score && 0 <= features[i].score <= 5
           && features[i].ratio == profiles[i].ratio
  {
    ProfileRowsSelected(users, selected);
    var profiles := ProfileRows(users, selected).value;
    assert forall i :: 0 <= i < |profiles| ==> profiles[i] in profiles;
  }

  /** Every user of the dump whose id is selected has a row. */
  lemma SelectedUsersHaveFeatures(users: seq<UserRecord>, selected: set<int>, lines: seq<string>, decode: string -> Option<Json>, k: nat)
    requires Extract(users, selected, lines, decode).Finished?
    requires k < |users| && users[k].id.Value? && users[k].id.value in selected
    ensures exists f :: f in Extract(users, selected, lines, decode).features && f.userId == users[k].id.value
  {
    SelectedUserHasRow(users, selected, k);
    var profiles := ProfileRows(users, selected).value;
    var features := Extract(users, selected, lines, decode).features;
    var row :| row in profiles && row.userId == users[k].id.value;
    var i :| 0 <= i < |profiles| && profiles[i] == row;
    assert features[i] in features;
  }

  /** A user with no matched tweet gets zero totals, a zero mean length and
      a zero rate; any other user gets the totals of their own rows. */
  lemma FeaturesAggregateOwnTweets(users: seq<UserRecord>, selected: set<int>, lines: seq<string>, decode: string -> Option<Json>, i: nat)
    requires Extract(users, selected, lines, decode).Finished?
    requires i < |Extract(users, selected, lines, decode).features|
    ensures var o := Extract(users, selected, lines, decode);
      var f := o.features[i];
      var own := RowsOf(o.intermediate, f.userId);
      && f.likes == SumOf(own, Likes)
      && f.replies == SumOf(own, Replies)
      && MeanOver(f.meanTextLength, own)
      && (own == [] ==> f.likes == 0 && f.replies == 0 && f.meanTextLength == 0.0
                        && (f.tweetsPerDay.Some? ==> f.tweetsPerDay.value == 0.0))
  {
    var profiles := ProfileRows(users, selected).value;
    var tweets := MatchedRows(lines, decode, selected).value;
    assert Extract(users, selected, lines, decode).features == FeatureTable(profiles, tweets);
    FeatureTableRow(profiles, tweets, i);
  }

  /** The rate is the user's observed tweet count (rows with a tweet id)
      over an account age of at least one day, and is NaN only when the
      creation time or the reference time is. */
  lemma RateIsObservedCountOverAge(users: seq<UserRecord>, selected: set<int>, lines: seq<string>, decode: string -> Option<Json>, i: nat)
    requires Extract(users, selected, lines, decode).Finished?
    requires i < |Extract(users, selected, lines, decode).features|
    ensures var o := Extract(users, selected, lines, decode);
      var f := o.features[i];
      var created := ProfileRows(users, selected).value[i].createdAt;
      var age := AccountAgeDays(LatestTimestamp(o.intermediate), created);
      && (f.tweetsPerDay.Some? <==> age.Some?)
      && (f.tweetsPerDay.Some? ==>
            age.value >= 1
            && IsRate(f.tweetsPerDay.value, SumOf(RowsOf(o.intermediate, f.userId), HasTweetId), age.value))
  {
    var profiles := ProfileRows(users, selected).value;
    var tweets := MatchedRows(lines, decode, selected).value;
    assert Extract(users, selected, lines, decode).features == FeatureTable(profiles, tweets);
    FeatureTableRow(profiles, tweets, i);
  }
}
