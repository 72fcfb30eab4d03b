/** The profile loop of the feature extraction stage (src/etl.py): every
    user record whose id is selected gets a completeness score, a
    follower/following ratio and its raw creation time. */
module Profiles {
  import opened Values

  /** One element of the user dump, as the JSON decoder sees it.
      `id` is the value of `int(u['id'])` (Null also stands for a value
      `int` rejects); `followersCount` and `followingCount` are Missing
      when `public_metrics` or the key is absent; `createdAt` is a time
      in seconds, carried unparsed. */
  datatype UserRecord = UserRecord(
    id: Field<int>,
    verified: Field<bool>,
    description: Field<string>,
    profileImageUrl: Field<string>,
    location: Field<string>,
    followersCount: Field<int>,
    followingCount: Field<int>,
    createdAt: Field<int>)

  /** One element of `users_data`. */
  datatype ProfileRow = ProfileRow(userId: int, score: int, ratio: real, createdAt: Option<int>)

  function Points(b: bool): nat {
    if b then 1 else 0
  }

  /** What the description adds: one point for being non-null, one more
      for being non-empty. */
  function DescriptionPoints(d: Field<string>): nat {
    if d.IsPresent() then 1 + Points(|d.value| > 0) else 0
  }

  /** `profile_completeness_score`. Only a literal `true` counts as
      verified; a null field counts like an absent one. */
  function CompletenessScore(u: UserRecord): (s: int)
    ensures 0 <= s <= 5
    ensures s == 5 <==>
      && u.verified == Value(true)
      && u.description.IsPresent() && |u.description.value| > 0
      && u.profileImageUrl.IsPresent()
      && u.location.IsPresent()
  {
    Points(u.verified == Value(true))
    + DescriptionPoints(u.description)
    + Points(u.profileImageUrl.IsPresent())
    + Points(u.location.IsPresent())
  }

  /** A description present as the empty string is worth exactly one
      point, a non-empty one exactly two, a null one nothing. */
  lemma DescriptionContribution(u: UserRecord, d: string)
    ensures CompletenessScore(u.(description := Value(d)))
         == CompletenessScore(u.(description := Missing)) + (if |d| == 0 then 1 else 2)
    ensures CompletenessScore(u.(description := Null))
         == CompletenessScore(u.(description := Missing))
  {
  }

  /** `follower_following_ratio`: an absent count reads as 0; a null count
      raises when it is compared or divided. */
  function FollowerFollowingRatio(followers: Field<int>, following: Field<int>): (r: Result<real, Fault>)
    ensures following.Missing? ==> r == Ok(0.0)
    ensures following.Value? && following.value <= 0 ==> r == Ok(0.0)
    ensures following.Value? && following.value > 0 && followers.Value?
      ==> r == Ok(followers.value as real / following.value as real)
    ensures following.Value? && following.value > 0 && followers.Missing? ==> r == Ok(0.0)
    ensures r.Err? <==> following.Null? || (following.Value? && following.value > 0 && followers.Null?)
  {
    match following
    case Null => Err(NullCompared("following_count"))
    case Missing => Ok(0.0)
    case Value(g) =>
      if g <= 0 then Ok(0.0)
      else match followers
        case Null => Err(NullCompared("followers_count"))
        case Missing => Ok(0.0)
        case Value(f) => Ok(f as real / g as real)
  }

  /** What one user record contributes: a fault, nothing (not selected),
      or one row. */
  function ProfileOf(u: UserRecord, selected: set<int>): (r: Result<Option<ProfileRow>, Fault>)
    ensures r == Ok(None) <==> u.id.Value? && u.id.value !in selected
    ensures r.Err? <==>
      || !u.id.Value?
      || (u.id.value in selected && FollowerFollowingRatio(u.followersCount, u.followingCount).Err?)
    ensures r.Ok? && r.value.Some? ==>
      var row := r.value.value;
      && row.userId == u.id.value && row.userId in selected
      && row.score == CompletenessScore(u)
      && FollowerFollowingRatio(u.followersCount, u.followingCount) == Ok(row.ratio)
      && row.createdAt == u.createdAt.AsOption()
  {
    match u.id
    case Missing => Err(MissingKey("id"))
    case Null => Err(UnreadableInt("id"))
    case Value(uid) =>
      if uid !in selected then Ok(None)
      else match FollowerFollowingRatio(u.followersCount, u.followingCount)
        case Err(e) => Err(e)
        case Ok(ratio) => Ok(Some(ProfileRow(uid, CompletenessScore(u), ratio, u.createdAt.AsOption())))
  }

  /** The rows of the profile loop, or the first fault it raises. */
  function ProfileRows(users: seq<UserRecord>, selected: set<int>): (r: Result<seq<ProfileRow>, Fault>)
    ensures r.Ok? ==> |r.value| <= |users|
  {
    if users == [] then Ok([])
    else match ProfileOf(users[0], selected)
      case Err(e) => Err(e)
      case Ok(row) => Prepend(OptionRows(row), ProfileRows(users[1..], selected))
  }

  /** The users of the dump whose readable id is selected, in dump order. */
  function SelectedUsers(users: seq<UserRecord>, selected: set<int>): seq<UserRecord> {
    if users == [] then []
    else (if users[0].id.Value? && users[0].id.value in selected then [users[0]] else [])
         + SelectedUsers(users[1..], selected)
  }

  /** The score as the loop builds it, one `+=` per satisfied condition. */
  method ScoreProfile(u: UserRecord) returns (score: int)
    ensures score == CompletenessScore(u)
  {
    score := 0;
    if u.verified == Value(true) {
      score := score + 1;
    }
    if u.description.IsPresent() {
      score := score + 1;
      if |u.description.value| > 0 {
        score := score + 1;
      }
    }
    if u.profileImageUrl.IsPresent() {
      score := score + 1;
    }
    if u.location.IsPresent() {
      score := score + 1;
    }
  }

  /** The profile loop: scores each selected user and appends one row per
      selected user, in the order of the dump. */
  method ProcessProfiles(users: seq<UserRecord>, selected: set<int>) returns (r: Result<seq<ProfileRow>, Fault>)
    ensures r == ProfileRows(users, selected)
  {
    var rows: seq<ProfileRow> := [];
    var i := 0;
    assert users[i..] == users;
    PrependLaws(rows, rows, ProfileRows(users, selected));
    while i < |users|
      invariant 0 <= i <= |users|
      invariant ProfileRows(users, selected) == Prepend(rows, ProfileRows(users[i..], selected))
    {
      var u := users[i];
      assert users[i..][0] == u && users[i..][1..] == users[i + 1..];
      if u.id.Missing? {
        return Err(MissingKey("id"));
      }
      if u.id.Null? {
        return Err(UnreadableInt("id"));
      }
      var uid := u.id.value;
      if uid !in selected {
        PrependLaws(rows, [], ProfileRows(users[i + 1..], selected));
      } else {
        var score := ScoreProfile(u);
        if u.followingCount.Null? {
          return Err(NullCompared("following_count"));
        }
        var following := if u.followingCount.Value? then u.followingCount.value else 0;
        var ratio: real;
        if following > 0 {
          if u.followersCount.Null? {
            return Err(NullCompared("followers_count"));
          }
          var followers := if u.followersCount.Value? then u.followersCount.value else 0;
          ratio := followers as real / following as real;
        } else {
          ratio := 0.0;
        }

        assert ProfileOf(u, selected) == Ok(Some(ProfileRow(uid, score, ratio, u.createdAt.AsOption())));
        PrependLaws(rows, [ProfileRow(uid, score, ratio, u.createdAt.AsOption())], ProfileRows(users[i + 1..], selected));
        rows := rows + [ProfileRow(uid, score, ratio, u.createdAt.AsOption())];
      }
      i := i + 1;
    }
    assert users[i..] == [] && rows + [] == rows;
    r := Ok(rows);
  }

  /** The loop succeeds exactly when every id is readable and every
      selected user's follower counts can be compared and divided. */
  lemma {:induction false} ProfileRowsOk(users: seq<UserRecord>, selected: set<int>)
    ensures ProfileRows(users, selected).Ok? <==>
      forall k :: 0 <= k < |users| ==>
        users[k].id.Value? &&
        (users[k].id.value in selected ==>
          FollowerFollowingRatio(users[k].followersCount, users[k].followingCount).Ok?)
  {
    if users != [] {
      ProfileRowsOk(users[1..], selected);
      assert forall k :: 1 <= k < |users| ==> users[k] == users[1..][k - 1];
    }
  }

  /** On success the rows are exactly the selected users' rows, one each,
      in dump order. */
  lemma {:induction false} ProfileRowsAreSelectedUsers(users: seq<UserRecord>, selected: set<int>)
    requires ProfileRows(users, selected).Ok?
    ensures var rows := ProfileRows(users, selected).value;
      && |rows| == |SelectedUsers(users, selected)|
      && forall k :: 0 <= k < |rows| ==>
           ProfileOf(SelectedUsers(users, selected)[k], selected) == Ok(Some(rows[k]))
  {
    if users != [] {
      ProfileRowsAreSelectedUsers(users[1..], selected);
    }
  }

  /** Every row belongs to a selected user and carries a score in [0, 5]. */
  lemma {:induction false} ProfileRowsSelected(users: seq<UserRecord>, selected: set<int>)
    requires ProfileRows(users, selected).Ok?
    ensures forall row :: row in ProfileRows(users, selected).value ==>
      row.userId in selected && 0 <= row.score <= 5
  {
    if users != [] {
      ProfileRowsSelected(users[1..], selected);
    }
  }

  /** No selected user of the dump is dropped. */
  lemma {:induction false} SelectedUserHasRow(users: seq<UserRecord>, selected: set<int>, k: nat)
    requires ProfileRows(users, selected).Ok?
    requires k < |users| && users[k].id.Value? && users[k].id.value in selected
    ensures exists row :: row in ProfileRows(users, selected).value && row.userId == users[k].id.value
  {
    if k > 0 {
      SelectedUserHasRow(users[1..], selected, k - 1);
    }
  }
}
