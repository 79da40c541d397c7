/** One hourly round of the timeline mode: `deleteOldTweetsFromTimeline`
    sends ids on a fresh channel and `blindDeleter` deletes them. The two run
    as goroutines over an unbuffered channel; the model runs the walker's pass
    first and hands the ids it sent, in order, to the deleter, which receives
    exactly that sequence. */
module Scheduler {
  import opened GoTypes
  import opened AgeFilter
  import opened Timeline
  import opened Deleter

  /** One round with at most `fuel` page requests: the pass, the delete calls
      made, and the ids whose delete call failed. */
  method TimelineRound(env: Env, fuel: nat, fails: (nat, int64) -> bool)
    returns (p: Pass, attempts: seq<int64>, failed: seq<int64>)
    ensures p == Run(env, fuel)
    ensures attempts == p.emitted
    ensures failed == FailedDeletes(p.emitted, fails, 0)
  {
    p := DeleteOldTweetsFromTimeline(env, fuel);
    attempts, failed := BlindDeleter(p.emitted, fails);
  }

  /** A round makes a delete call for an id exactly when a tweet with that id
      was on a page the client returned during the pass and failed the age
      test at its turn; with a MaxAge that does not wrap, that is when its
      timestamp (the zero Time if it did not parse) lies strictly more than
      MaxAge hours before the clock reading at its turn. */
  lemma RoundDeletesExactlyOldTweets(env: Env, fuel: nat, x: int64)
    requires -MaxAgeNoWrap <= env.maxAge <= MaxAgeNoWrap
    ensures var r := Run(env, fuel);
      var seen := Flatten(r.pages);
      x in r.emitted <==>
        exists j :: 0 <= j < |seen| && seen[j].id == x &&
          TimestampOrZero(env.parseTime(seen[j].createdAt)) < env.clock(j) - env.maxAge * Hour
  {
    var r := Run(env, fuel);
    var seen := Flatten(r.pages);
    RunEmitsOldTweets(env, fuel, x);
    forall j | 0 <= j < |seen|
      ensures TweetExpired(env, seen[j], j) <==>
              TimestampOrZero(env.parseTime(seen[j].createdAt)) < env.clock(j) - env.maxAge * Hour
    {
      ExpiredIff(TimestampOrZero(env.parseTime(seen[j].createdAt)), env.clock(j), env.maxAge);
    }
  }

  /** Every id a round deletes is the id of a tweet on a page some request of
      the pass returned. */
  lemma RoundDeletesOnlyFetchedTweets(env: Env, fuel: nat, x: int64)
    requires x in Run(env, fuel).emitted
    ensures exists i, t ::
      0 <= i < |Run(env, fuel).pages| && i < |Run(env, fuel).requests| &&
      t in env.fetch(i, Run(env, fuel).requests[i]).tweets && t.id == x
  {
    var r := Run(env, fuel);
    var seen := Flatten(r.pages);
    RunEmitsOldTweets(env, fuel, x);
    RunPagesFetched(env, fuel);
    var j :| 0 <= j < |seen| && seen[j].id == x && TweetExpired(env, seen[j], j);
    FlattenMembers(r.pages);
    assert seen[j] in seen;
    var i :| 0 <= i < |r.pages| && seen[j] in r.pages[i];
    assert seen[j] in env.fetch(i, r.requests[i]).tweets;
  }
}
