/** The tweet stream of the feature extraction stage (src/etl.py): the
    line cleanup of `parse_line` and the loop that keeps the tweets of the
    selected authors as rows of the intermediate table. */
module TweetStream {
  import opened Values

  /** A decoded tweet object, key by key. `authorId` is the value of
      `int(tweet['author_id'])` (Null also stands for a value `int`
      rejects); `likeCount` and `replyCount` are Missing when
      `public_metrics` or the key is absent; times are in seconds. */
  datatype TweetObject = TweetObject(
    authorId: Field<int>,
    id: Field<int>,
    text: Field<string>,
    createdAt: Field<int>,
    likeCount: Field<int>,
    replyCount: Field<int>)

  /** What `json.loads` returns for a line: JSON null, an object, or any
      other value (number, string, array, boolean). */
  datatype Json = JNull | JObject(tweet: TweetObject) | JOther

  /** A row of the intermediate table; a null cell is None. */
  datatype TweetRow = TweetRow(
    userId: int,
    tweetId: Option<int>,
    text: Option<string>,
    createdAt: Option<int>,
    likes: int,
    replies: int)

  /** The characters Python's `str.strip()` removes (`str.isspace`). */
  predicate IsWhitespace(c: char) {
    var n := c as int;
    || 0x09 <= n <= 0x0D
    || 0x1C <= n <= 0x20
    || n == 0x85 || n == 0xA0 || n == 0x1680
    || 0x2000 <= n <= 0x200A
    || n == 0x2028 || n == 0x2029 || n == 0x202F || n == 0x205F || n == 0x3000
  }

  predicate AllWhitespace(s: string) {
    forall k :: 0 <= k < |s| ==> IsWhitespace(s[k])
  }

  /** `s` neither starts nor ends with whitespace. */
  predicate Trimmed(s: string) {
    s == [] || (!IsWhitespace(s[0]) && !IsWhitespace(s[|s| - 1]))
  }

  function TrimStart(s: string): (r: string)
    ensures |r| <= |s| && r == s[|s| - |r|..]
    ensures forall k :: 0 <= k < |s| - |r| ==> IsWhitespace(s[k])
    ensures r != [] ==> !IsWhitespace(r[0])
  {
    if s != [] && IsWhitespace(s[0]) then TrimStart(s[1..]) else s
  }

  function TrimEnd(s: string): (r: string)
    ensures |r| <= |s| && r == s[..|r|]
    ensures forall k :: |r| <= k < |s| ==> IsWhitespace(s[k])
    ensures r != [] ==> !IsWhitespace(r[|r| - 1])
  {
    if s != [] && IsWhitespace(s[|s| - 1]) then TrimEnd(s[..|s| - 1]) else s
  }

  /** `line.strip()`: the line without its leading and trailing whitespace. */
  function Strip(s: string): (r: string)
    ensures Trimmed(r)
    ensures |r| <= |s|
  {
    var t := TrimStart(s);
    var r := TrimEnd(t);
    assert r != [] ==> r[0] == t[0];
    r
  }

  lemma {:induction false} TrimStartPadded(p: string, u: string)
    requires AllWhitespace(p)
    requires u == [] || !IsWhitespace(u[0])
    ensures TrimStart(p + u) == u
  {
    if p != [] {
      assert (p + u)[1..] == p[1..] + u;
      TrimStartPadded(p[1..], u);
    }
  }

  lemma {:induction false} TrimEndPadded(u: string, q: string)
    requires AllWhitespace(q)
    requires u == [] || !IsWhitespace(u[|u| - 1])
    ensures TrimEnd(u + q) == u
  {
    if q != [] {
      assert (u + q)[..|u + q| - 1] == u + q[..|q| - 1];
      TrimEndPadded(u, q[..|q| - 1]);
    } else {
      assert u + q == u;
    }
  }

  /** Stripping removes exactly the whitespace around a trimmed text. */
  lemma StripPadded(p: string, t: string, q: string)
    requires AllWhitespace(p) && AllWhitespace(q) && Trimmed(t)
    ensures Strip(p + t + q) == t
  {
    if t == [] {
      assert p + t + q == p + q + [];
      TrimStartPadded(p + q, []);
    } else {
      assert p + t + q == p + (t + q);
      TrimStartPadded(p, t + q);
      TrimEndPadded(t, q);
    }
  }

  /** `s` without one trailing comma, if it has one. */
  function DropComma(s: string): (r: string)
    ensures r == s || r + [','] == s
    ensures |s| > 0 && s[|s| - 1] == ',' ==> |r| == |s| - 1
  {
    if |s| > 0 && s[|s| - 1] == ',' then s[..|s| - 1] else s
  }

  /** The line after `strip()` and the removal of one trailing comma. */
  function CleanLine(line: string): (r: string)
    ensures r == Strip(line) || r + [','] == Strip(line)
  {
    DropComma(Strip(line))
  }

  /** `parse_line`: a bracket line is skipped (None); anything else is
      handed to the JSON decoder, whose None is a decoding error. */
  function ParseLine(line: string, decode: string -> Option<Json>): (r: Option<Json>)
    ensures r.Some? ==> r == decode(CleanLine(line))
  {
    var s := CleanLine(line);
    if s == "[" || s == "]" then None else decode(s)
  }

  /** The texts that clean to a bracket are the brackets with at most one
      comma after them. */
  lemma DropCommaBracket(t: string)
    ensures DropComma(t) == "[" <==> t == "[" || t == "[,"
    ensures DropComma(t) == "]" <==> t == "]" || t == "],"
  {
    var c := DropComma(t);
    if |t| > 0 && t[|t| - 1] == ',' {
      assert t == c + [','];
    } else {
      assert c == t;
    }
  }

  /** A line is its trimmed text padded with whitespace: the brackets `[`
      and `]`, with or without one comma, are skipped; otherwise exactly
      one trailing comma is dropped before decoding, and a second comma
      stays. */
  lemma ParseLinePadded(p: string, t: string, q: string, decode: string -> Option<Json>)
    requires AllWhitespace(p) && AllWhitespace(q) && Trimmed(t)
    ensures t in {"[", "]", "[,", "],"} ==> ParseLine(p + t + q, decode) == None
    ensures t !in {"[", "]", "[,", "],"} ==>
      ParseLine(p + t + q, decode) == decode(if |t| > 0 && t[|t| - 1] == ',' then t[..|t| - 1] else t)
  {
    StripPadded(p, t, q);
    assert CleanLine(p + t + q) == DropComma(t);
    DropCommaBracket(t);
  }

  /** A `public_metrics` count as read with `.get`: an absent or null
      count reads as 0. */
  function CountOrZero(f: Field<int>): (n: int)
    ensures f.Value? ==> n == f.value
    ensures !f.Value? ==> n == 0
  {
    if f.Value? then f.value else 0
  }

  /** What one decoded tweet contributes: a fault, nothing (author not
      selected), or one row. The keys `id`, `text` and `created_at` are
      read with `[]`, in that order, only for a selected author. */
  function TweetRowOf(t: TweetObject, selected: set<int>): (r: Result<Option<TweetRow>, Fault>)
    ensures r == Ok(None) <==> t.authorId.Value? && t.authorId.value !in selected
    ensures (r.Ok? && r.value.Some?) <==>
      && t.authorId.Value? && t.authorId.value in selected
      && !t.id.Missing? && !t.text.Missing? && !t.createdAt.Missing?
    ensures r.Ok? && r.value.Some? ==>
      var row := r.value.value;
      && row.userId == t.authorId.value
      && row.tweetId == t.id.AsOption()
      && row.text == t.text.AsOption()
      && row.createdAt == t.createdAt.AsOption()
      && (row.likes == if t.likeCount.Value? then t.likeCount.value else 0)
      && (row.replies == if t.replyCount.Value? then t.replyCount.value else 0)
  {
    match t.authorId
    case Missing => Err(MissingKey("author_id"))
    case Null => Err(UnreadableInt("author_id"))
    case Value(a) =>
      if a !in selected then Ok(None)
      else if t.id.Missing? then Err(MissingKey("id"))
      else if t.text.Missing? then Err(MissingKey("text"))
      else if t.createdAt.Missing? then Err(MissingKey("created_at"))
      else Ok(Some(TweetRow(a, t.id.AsOption(), t.text.AsOption(), t.createdAt.AsOption(),
                            CountOrZero(t.likeCount), CountOrZero(t.replyCount))))
  }

  /** What one line of the stream contributes. Undecodable lines, bracket
      lines and JSON null are skipped; a value that is not an object
      raises when it is indexed. */
  function LineStep(line: string, decode: string -> Option<Json>, selected: set<int>): (r: Result<Option<TweetRow>, Fault>)
    ensures var p := ParseLine(line, decode);
      && (p.None? || p == Some(JNull) ==> r == Ok(None))
      && (r == Err(NotAnObject) <==> p == Some(JOther))
      && (r.Ok? && r.value.Some? ==> p.Some? && p.value.JObject? && r.value.value.userId in selected)
  {
    match ParseLine(line, decode)
    case None => Ok(None)
    case Some(JNull) => Ok(None)
    case Some(JOther) => Err(NotAnObject)
    case Some(JObject(t)) => TweetRowOf(t, selected)
  }

  /** The rows of the tweet loop, or the first fault it raises. */
  function MatchedRows(lines: seq<string>, decode: string -> Option<Json>, selected: set<int>): (r: Result<seq<TweetRow>, Fault>)
    ensures r.Ok? ==> |r.value| <= |lines|
  {
    if lines == [] then Ok([])
    else match LineStep(lines[0], decode, selected)
      case Err(e) => Err(e)
      case Ok(row) => Prepend(OptionRows(row), MatchedRows(lines[1..], decode, selected))
  }

  /** The decoded tweet objects of the stream whose readable author id is
      selected, in stream order. */
  function SelectedTweets(lines: seq<string>, decode: string -> Option<Json>, selected: set<int>): seq<TweetObject> {
    if lines == [] then []
    else
      var p := ParseLine(lines[0], decode);
      (if p.Some? && p.value.JObject? && p.value.tweet.authorId.Value? && p.value.tweet.authorId.value in selected
       then [p.value.tweet] else [])
      + SelectedTweets(lines[1..], decode, selected)
  }

  /** The tweet loop: appends one row per tweet of a selected author and
      counts them in `tweet_count`. */
  method MatchTweets(lines: seq<string>, decode: string -> Option<Json>, selected: set<int>)
    returns (r: Result<seq<TweetRow>, Fault>, tweetCount: nat)
    ensures r == MatchedRows(lines, decode, selected)
    ensures r.Ok? ==> tweetCount == |r.value|
  {
    var rows: seq<TweetRow> := [];
    tweetCount := 0;
    assert lines[0..] == lines;
    PrependLaws(rows, rows, MatchedRows(lines, decode, selected));
    for i := 0 to |lines|
      invariant MatchedRows(lines, decode, selected) == Prepend(rows, MatchedRows(lines[i..], decode, selected))
      invariant tweetCount == |rows|
    {
      assert lines[i..][0] == lines[i] && lines[i..][1..] == lines[i + 1..];
      var tweet := ParseLine(lines[i], decode);
      if tweet.None? || tweet.value.JNull? {
        PrependLaws(rows, [], MatchedRows(lines[i + 1..], decode, selected));
        continue;
      }
      if tweet.value.JOther? {
        return Err(NotAnObject), tweetCount;
      }
      var t := tweet.value.tweet;
      if t.authorId.Missing? {
        return Err(MissingKey("author_id")), tweetCount;
      }
      if t.authorId.Null? {
        return Err(UnreadableInt("author_id")), tweetCount;
      }
      var authorId := t.authorId.value;
      if authorId in selected {
        var likeCount := t.likeCount.AsOption();
        var likes := if likeCount.None? then 0 else likeCount.value;
        var replyCount := t.replyCount.AsOption();
        var replies := if replyCount.None? then 0 else replyCount.value;
        if t.id.Missing? {
          return Err(MissingKey("id")), tweetCount;
        }
        if t.text.Missing? {
          return Err(MissingKey("text")), tweetCount;
        }
        if t.createdAt.Missing? {
          return Err(MissingKey("created_at")), tweetCount;
        }
        var row := TweetRow(authorId, t.id.AsOption(), t.text.AsOption(), t.createdAt.AsOption(), likes, replies);
        PrependLaws(rows, [row], MatchedRows(lines[i + 1..], decode, selected));
        rows := rows + [row];
        tweetCount := tweetCount + 1;
      } else {
        PrependLaws(rows, [], MatchedRows(lines[i + 1..], decode, selected));
      }
    }
    assert lines[|lines|..] == [] && rows + [] == rows;
    r := Ok(rows);
  }

  /** Rows come out in stream order: the rows of a concatenation of two
      streams are the rows of the first followed by those of the second,
      and a fault in the first stream wins. */
  lemma {:induction false} MatchedRowsAppend(a: seq<string>, b: seq<string>, decode: string -> Option<Json>, selected: set<int>)
    ensures MatchedRows(a + b, decode, selected) ==
      match MatchedRows(a, decode, selected)
      case Err(e) => Err(e)
      case Ok(rows) => Prepend(rows, MatchedRows(b, decode, selected))
  {
    if a == [] {
      assert a + b == b;
      PrependLaws([], [], MatchedRows(b, decode, selected));
    } else {
      assert (a + b)[0] == a[0] && (a + b)[1..] == a[1..] + b;
      MatchedRowsAppend(a[1..], b, decode, selected);
      match LineStep(a[0], decode, selected)
      case Err(_) =>
      case Ok(row) =>
        match MatchedRows(a[1..], decode, selected)
        case Err(_) =>
        case Ok(rest) =>
          PrependLaws(OptionRows(row), rest, MatchedRows(b, decode, selected));
    }
  }

  /** On success the rows are exactly the selected tweets, one row each,
      in stream order. */
  lemma {:induction false} MatchedRowsAreSelectedTweets(lines: seq<string>, decode: string -> Option<Json>, selected: set<int>)
    requires MatchedRows(lines, decode, selected).Ok?
    ensures RowsOfTweets(SelectedTweets(lines, decode, selected), MatchedRows(lines, decode, selected).value, selected)
  {
    if lines != [] {
      var rest := SelectedTweets(lines[1..], decode, selected);
      var restRows := MatchedRows(lines[1..], decode, selected).value;
      var head := FirstLineStep(lines, decode, selected);
      MatchedRowsAreSelectedTweets(lines[1..], decode, selected);
      if head.Some? {
        RowsOfTweetsCons(head.value.0, head.value.1, rest, restRows, selected);
      }
    }
  }

  /** `rows` are the rows of `tweets`, position by position. */
  predicate RowsOfTweets(tweets: seq<TweetObject>, rows: seq<TweetRow>, selected: set<int>) {
    |rows| == |tweets| && forall k :: 0 <= k < |rows| ==> TweetRowOf(tweets[k], selected) == Ok(Some(rows[k]))
  }

  lemma RowsOfTweetsCons(t: TweetObject, row: TweetRow, tweets: seq<TweetObject>, rows: seq<TweetRow>, selected: set<int>)
    requires TweetRowOf(t, selected) == Ok(Some(row)) && RowsOfTweets(tweets, rows, selected)
    ensures RowsOfTweets([t] + tweets, [row] + rows, selected)
  {
    var ts, rs := [t] + tweets, [row] + rows;
    forall k | 0 <= k < |rs|
      ensures TweetRowOf(ts[k], selected) == Ok(Some(rs[k]))
    {
      if k > 0 {
        assert ts[k] == tweets[k - 1] && rs[k] == rows[k - 1];
      }
    }
  }

  /** The first line of a stream that runs without a fault: it either
      contributes one selected tweet and its row, or neither. */
  lemma FirstLineStep(lines: seq<string>, decode: string -> Option<Json>, selected: set<int>)
    returns (head: Option<(TweetObject, TweetRow)>)
    requires lines != [] && MatchedRows(lines, decode, selected).Ok?
    ensures MatchedRows(lines[1..], decode, selected).Ok?
    ensures head.None? ==>
      && SelectedTweets(lines, decode, selected) == SelectedTweets(lines[1..], decode, selected)
      && MatchedRows(lines, decode, selected).value == MatchedRows(lines[1..], decode, selected).value
    ensures head.Some? ==>
      && SelectedTweets(lines, decode, selected) == [head.value.0] + SelectedTweets(lines[1..], decode, selected)
      && MatchedRows(lines, decode, selected).value == [head.value.1] + MatchedRows(lines[1..], decode, selected).value
      && TweetRowOf(head.value.0, selected) == Ok(Some(head.value.1))
  {
    var p := ParseLine(lines[0], decode);
    var step := LineStep(lines[0], decode, selected);
    assert step.Ok?;
    if p.Some? && p.value.JObject? && p.value.tweet.authorId.Value? && p.value.tweet.authorId.value in selected {
      assert step == TweetRowOf(p.value.tweet, selected);
      head := Some((p.value.tweet, step.value.value));
    } else {
      head := None;
    }
  }

  /** Every row belongs to a selected author. */
  lemma {:induction false} MatchedRowsSelected(lines: seq<string>, decode: string -> Option<Json>, selected: set<int>)
    requires MatchedRows(lines, decode, selected).Ok?
    ensures forall row :: row in MatchedRows(lines, decode, selected).value ==> row.userId in selected
  {
    if lines != [] {
      MatchedRowsSelected(lines[1..], decode, selected);
    }
  }
}
