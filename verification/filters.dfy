/** The template filters of the two trees: `split`, `get_liked_tweets_list`,
    `format_username` and `format_tweet_content`. Both trees define `split` and
    `get_liked_tweets_list` with the same body; they are modelled once. */
module CustomFilters {
  import opened Wrappers
  import opened Text

  /** Python's `str.split` refuses an empty separator with a ValueError. */
  datatype FilterError = EmptySeparator

  /** The pieces of `value` between the occurrences of `sep`, the occurrences
      being found from the left and without overlap, as `str.split(sep)` does. */
  function Pieces(value: string, sep: string): (r: seq<string>)
    requires sep != []
    ensures |r| >= 1
    decreases |value|
  {
    if |value| < |sep| then [value]
    else if value[..|sep|] == sep then [""] + Pieces(value[|sep|..], sep)
    else
      var rest := Pieces(value[1..], sep);
      [[value[0]] + rest[0]] + rest[1..]
  }

  /** The `split` filter: `value.split(arg)`. */
  function Split(value: string, arg: string): (r: Result<seq<string>, FilterError>)
    ensures r.Failure? <==> arg == []
    ensures r.Success? ==> |r.value| >= 1
  {
    if arg == [] then Failure(EmptySeparator) else Success(Pieces(value, arg))
  }

  /** `sep.join(pieces)`. */
  function Join(pieces: seq<string>, sep: string): string {
    if pieces == [] then []
    else if |pieces| == 1 then pieces[0]
    else pieces[0] + sep + Join(pieces[1..], sep)
  }

  /** `value.count(sep)`: occurrences found from the left without overlap. */
  function Occurrences(value: string, sep: string): nat
    requires sep != []
    decreases |value|
  {
    if |value| < |sep| then 0
    else if value[..|sep|] == sep then 1 + Occurrences(value[|sep|..], sep)
    else Occurrences(value[1..], sep)
  }

  lemma JoinConsHead(c: char, p: string, rest: seq<string>, sep: string)
    ensures Join([[c] + p] + rest, sep) == [c] + Join([p] + rest, sep)
  {
    if rest != [] {
      assert ([[c] + p] + rest)[1..] == rest;
      assert ([p] + rest)[1..] == rest;
    }
  }

  /** Joining the pieces with the separator gives back the original text. */
  lemma {:induction false} SplitJoinRoundTrip(value: string, sep: string)
    requires sep != []
    ensures Split(value, sep).Success?
    ensures Join(Split(value, sep).value, sep) == value
  {
    var ps := Pieces(value, sep);
    if |value| < |sep| {
    } else if value[..|sep|] == sep {
      var tail := value[|sep|..];
      SplitJoinRoundTrip(tail, sep);
      assert ps[1..] == Pieces(tail, sep);
      assert value == sep + tail;
    } else {
      var rest := Pieces(value[1..], sep);
      SplitJoinRoundTrip(value[1..], sep);
      JoinConsHead(value[0], rest[0], rest[1..], sep);
      assert [rest[0]] + rest[1..] == rest;
      assert value == [value[0]] + value[1..];
    }
  }

  lemma {:induction false} FirstPieceIsPrefix(value: string, sep: string)
    requires sep != []
    ensures |Pieces(value, sep)[0]| <= |value|
    ensures value[..|Pieces(value, sep)[0]|] == Pieces(value, sep)[0]
    decreases |value|
  {
    if |value| >= |sep| && value[..|sep|] != sep {
      FirstPieceIsPrefix(value[1..], sep);
    }
  }

  /** No piece returned by `split` contains the separator. */
  lemma {:induction false} SplitPiecesAvoidDelimiter(value: string, sep: string)
    requires sep != []
    ensures Split(value, sep).Success?
    ensures forall k :: 0 <= k < |Split(value, sep).value| ==> !Contains(Split(value, sep).value[k], sep)
    decreases |value|
  {
    var ps := Pieces(value, sep);
    if |value| < |sep| {
      assert !Contains(value, sep);
    } else if value[..|sep|] == sep {
      var tail := value[|sep|..];
      SplitPiecesAvoidDelimiter(tail, sep);
      assert !Contains("", sep);
      forall k | 1 <= k < |ps| ensures !Contains(ps[k], sep) {
        assert ps[k] == Pieces(tail, sep)[k - 1];
      }
    } else {
      var rest := Pieces(value[1..], sep);
      SplitPiecesAvoidDelimiter(value[1..], sep);
      FirstPieceIsPrefix(value[1..], sep);
      var head := [value[0]] + rest[0];
      assert value[..|head|] == head;
      forall i: nat | i <= |head| ensures !OccursAt(head, sep, i) {
        if i > 0 && OccursAt(head, sep, i) {
          assert head[i..i + |sep|] == rest[0][i - 1..i - 1 + |sep|];
          assert OccursAt(rest[0], sep, i - 1);
        }
      }
      forall k | 1 <= k < |ps| ensures !Contains(ps[k], sep) {
        assert ps[k] == rest[k];
      }
    }
  }

  /** `split` yields one more piece than there are separators in the text. */
  lemma {:induction false} SplitPieceCount(value: string, sep: string)
    requires sep != []
    ensures Split(value, sep).Success?
    ensures |Split(value, sep).value| == Occurrences(value, sep) + 1
    decreases |value|
  {
    if |value| >= |sep| {
      if value[..|sep|] == sep {
        SplitPieceCount(value[|sep|..], sep);
      } else {
        SplitPieceCount(value[1..], sep);
      }
    }
  }

  /** The `get_liked_tweets_list` filter: a one-element placeholder list when
      the flag is set, an empty list otherwise. */
  function LikedTweetsList(liked: bool): (r: seq<int>)
    ensures (1 in r) == liked
    ensures |r| <= 1
    ensures liked ==> r == [1]
    ensures !liked ==> r == []
  {
    if liked then [1] else []
  }

  /** The `format_username` filter: the name behind an at-sign. */
  function FormatUsername(value: string): (r: string)
    ensures |r| == |value| + 1
    ensures r[0] == '@' && r[1..] == value
  {
    "@" + value
  }

  /** Two different names are never shown as the same handle. */
  lemma FormatUsernameInjective(a: string, b: string)
    requires FormatUsername(a) == FormatUsername(b)
    ensures a == b
  {
    assert a == FormatUsername(a)[1..];
  }

  /** The `format_tweet_content` filter: every line break becomes `<br>`. */
  function FormatTweetContent(value: string): (r: string)
    ensures '\n' !in r
    ensures |r| == |value| + 3 * multiset(value)['\n']
  {
    if value == [] then []
    else
      assert value == [value[0]] + value[1..];
      (if value[0] == '\n' then "<br>" else [value[0]]) + FormatTweetContent(value[1..])
  }

  lemma {:induction false} FormatWithoutNewlines(value: string)
    requires '\n' !in value
    ensures FormatTweetContent(value) == value
  {
    if value != [] {
      assert value[0] != '\n';
      FormatWithoutNewlines(value[1..]);
      assert value == [value[0]] + value[1..];
    }
  }

  /** Formatting already formatted content changes nothing. */
  lemma FormatTweetContentIdempotent(value: string)
    ensures FormatTweetContent(FormatTweetContent(value)) == FormatTweetContent(value)
  {
    FormatWithoutNewlines(FormatTweetContent(value));
  }

  lemma JoinCons(p: string, rest: seq<string>, sep: string)
    requires rest != []
    ensures Join([p] + rest, sep) == p + sep + Join(rest, sep)
  {
    assert ([p] + rest)[1..] == rest;
  }

  /** One step of `format_tweet_content`, on the first character. */
  lemma FormatTweetContentStep(value: string)
    requires value != []
    ensures FormatTweetContent(value) == (if value[0] == '\n' then "<br>" else [value[0]]) + FormatTweetContent(value[1..])
  {
  }

  /** One step of splitting at line breaks, on the first character. */
  lemma PiecesAtNewlineStep(value: string)
    requires value != []
    ensures value[0] == '\n' ==> Pieces(value, "\n") == [""] + Pieces(value[1..], "\n")
    ensures value[0] != '\n' ==> var rest := Pieces(value[1..], "\n");
      Pieces(value, "\n") == [[value[0]] + rest[0]] + rest[1..]
  {
    assert value[..1] == [value[0]];
  }

  lemma FormatStepNewline(value: string)
    requires value != [] && value[0] == '\n'
    ensures FormatTweetContent(value) == "<br>" + FormatTweetContent(value[1..])
  {
  }

  lemma PiecesStepNewline(value: string)
    requires value != [] && value[0] == '\n'
    ensures Pieces(value, "\n") == [""] + Pieces(value[1..], "\n")
  {
    assert value[..1] == "\n";
  }

  lemma ReplacesAtNewline(value: string)
    requires value != [] && value[0] == '\n'
    requires FormatTweetContent(value[1..]) == Join(Pieces(value[1..], "\n"), "<br>")
    ensures FormatTweetContent(value) == Join(Pieces(value, "\n"), "<br>")
  {
    var rest := Pieces(value[1..], "\n");
    FormatStepNewline(value);
    PiecesStepNewline(value);
    JoinCons("", rest, "<br>");
  }

  lemma ReplacesPastOtherChar(value: string)
    requires value != [] && value[0] != '\n'
    requires FormatTweetContent(value[1..]) == Join(Pieces(value[1..], "\n"), "<br>")
    ensures FormatTweetContent(value) == Join(Pieces(value, "\n"), "<br>")
  {
    var rest := Pieces(value[1..], "\n");
    FormatTweetContentStep(value);
    PiecesAtNewlineStep(value);
    JoinConsHead(value[0], rest[0], rest[1..], "<br>");
    assert [rest[0]] + rest[1..] == rest;
  }

  /** The filter is `value.replace("\n", "<br>")`, which is the text split at
      every line break and joined back with `<br>`. */
  lemma {:induction false} FormatTweetContentReplaces(value: string)
    ensures FormatTweetContent(value) == Join(Pieces(value, "\n"), "<br>")
  {
    if value != [] {
      FormatTweetContentReplaces(value[1..]);
      if value[0] == '\n' {
        ReplacesAtNewline(value);
      } else {
        ReplacesPastOtherChar(value);
      }
    }
  }
}
