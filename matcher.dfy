/** The fingerprint query and the inner generator of handle_submission:
    the rows of the candidate's subreddit, in table order, kept when their
    similarity is strictly above the threshold. */
module Matcher {
  import opened Fingerprint
  import opened Records

  /** The fingerprint rows of one subreddit, in table order
      (SELECT * FROM media_storage WHERE subname = ...). */
  function RowsOf(media: seq<MediaRow>, subname: string): (rows: seq<MediaRow>)
    ensures |rows| <= |media|
    ensures forall r :: r in rows <==> r in media && r.subname == subname
  {
    if media == [] then []
    else (if media[0].subname == subname then [media[0]] else []) + RowsOf(media[1..], subname)
  }

  /** The match a stored row gives for a candidate hash h. */
  function MatchOf(h: Hash, row: MediaRow): Match
  {
    Match(row.hash, row.id, row.subname, Similarity(h, row.hash))
  }

  /** The matches for a candidate hash h among rows, in row order. */
  function GetMatches(h: Hash, rows: seq<MediaRow>): (ms: seq<Match>)
    ensures |ms| <= |rows|
    ensures forall m :: m in ms ==> m.similarity > THRESHOLD
    ensures forall m :: m in ms ==> exists r :: r in rows && m == MatchOf(h, r)
    ensures forall r :: r in rows && IsMatch(h, r.hash) ==> MatchOf(h, r) in ms
  {
    if rows == [] then []
    else (if IsMatch(h, rows[0].hash) then [MatchOf(h, rows[0])] else []) + GetMatches(h, rows[1..])
  }

  /** Matches come out in stored-row order: the matches of a concatenation are
      the matches of its parts, in the same order. */
  lemma {:induction false} GetMatchesConcat(h: Hash, a: seq<MediaRow>, b: seq<MediaRow>)
    ensures GetMatches(h, a + b) == GetMatches(h, a) + GetMatches(h, b)
  {
    if a != [] {
      assert (a + b)[1..] == a[1..] + b;
      GetMatchesConcat(h, a[1..], b);
    } else {
      assert a + b == b;
    }
  }

  /** One stored row gives a match exactly when it is within the threshold. */
  lemma GetMatchesSingle(h: Hash, r: MediaRow)
    ensures GetMatches(h, [r]) == if IsMatch(h, r.hash) then [MatchOf(h, r)] else []
  {
    assert [r][1..] == [];
  }

  /** The query keeps table order: the rows of a concatenation are the rows
      of its parts. */
  lemma {:induction false} RowsOfConcat(a: seq<MediaRow>, b: seq<MediaRow>, subname: string)
    ensures RowsOf(a + b, subname) == RowsOf(a, subname) + RowsOf(b, subname)
  {
    if a != [] {
      assert (a + b)[1..] == a[1..] + b;
      RowsOfConcat(a[1..], b, subname);
    } else {
      assert a + b == b;
    }
  }

  /** The matches the bot computes for a candidate of a subreddit: each
      comes from a stored row of that subreddit and scores above the
      threshold, and every such row gives one. */
  function FindMatches(h: Hash, media: seq<MediaRow>, subname: string): (ms: seq<Match>)
    ensures forall m :: m in ms ==>
      m.subname == subname && m.similarity > THRESHOLD &&
      exists row :: row in media && m == MatchOf(h, row)
    ensures forall row :: row in media && row.subname == subname && IsMatch(h, row.hash) ==>
      MatchOf(h, row) in ms
  {
    GetMatches(h, RowsOf(media, subname))
  }

  /** A newly appended row of another subreddit changes nothing, and one of
      the same subreddit adds at most its own match, at the end. */
  lemma FindMatchesScoped(h: Hash, media: seq<MediaRow>, subname: string, r: MediaRow)
    ensures FindMatches(h, media + [r], subname) ==
      FindMatches(h, media, subname) +
      (if r.subname == subname && IsMatch(h, r.hash) then [MatchOf(h, r)] else [])
  {
    RowsOfConcat(media, [r], subname);
    assert RowsOf([r], subname) == if r.subname == subname then [r] else [] by {
      assert [r][1..] == [];
    }
    GetMatchesConcat(h, RowsOf(media, subname), RowsOf([r], subname));
    if r.subname == subname {
      GetMatchesSingle(h, r);
    }
  }

  /** A byte-identical image stored earlier in the same subreddit is found,
      with similarity 100. */
  lemma DuplicateIsFound(h: Hash, media: seq<MediaRow>, subname: string, i: nat)
    requires i < |media| && media[i].hash == h && media[i].subname == subname
    ensures MatchOf(h, media[i]) in FindMatches(h, media, subname)
    ensures MatchOf(h, media[i]).similarity == 100
  {
    SimilarityReflexive(h);
    assert media[i] in media;
  }
}
