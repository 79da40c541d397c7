/** One pass of `deleteOldTweetsFromTimeline`: page backwards through the user
    timeline with a `max_id` watermark and emit the id of every old tweet.

    The Twitter client, the clock and the timestamp parser are parameters
    (see `Env`); the channel the ids are sent on is the `emitted` sequence of
    a `Pass`. The walker loops until a page is empty or fails; the model
    makes at most `fuel` page requests, and `PassTerminates` shows how many a
    client that honours `max_id` needs. */
module Timeline {
  import opened GoTypes
  import opened AgeFilter

  /** A tweet as the walker reads it: its id and its raw `CreatedAt` text. */
  datatype Tweet = Tweet(id: int64, createdAt: string)

  /** The result of one `GetUserTimeline` call; `err` is a non-nil error. */
  datatype Page = Page(tweets: seq<Tweet>, err: bool)

  /** Why a pass ended; `Running` while it has not (the model's pass may
      run out of page requests before it ends). */
  datatype Stop = Running | EmptyPage | PageError

  /** What is outside the walker: `fetch(n, maxId)` is the page returned by the
      n-th `GetUserTimeline` call of the pass, made with `max_id` set to `maxId`
      (`None` before any `max_id` is set); `clock(k)` is what `time.Now()` reads
      while the k-th tweet of the pass is tested; `parseTime` is `time.Parse`
      with the Twitter date layout; `maxAge` is the configured MaxAge. */
  datatype Env = Env(
    fetch: (nat, Option<int64>) -> Page,
    clock: nat -> int,
    parseTime: string -> Option<int>,
    maxAge: int64)

  /** The state of a pass after some page requests: the walker's `max_id`
      request parameter (`None` while unset) and `lasttweet` watermark, the
      number `k` of tweets tested so far, and the observable record so far:
      the ids sent on the channel, the `max_id` of every page request, the
      pages whose tweets were processed, and whether and why the pass ended. */
  datatype Pass = Pass(
    maxId: Option<int64>,
    lasttweet: int64,
    k: nat,
    emitted: seq<int64>,
    requests: seq<Option<int64>>,
    pages: seq<seq<Tweet>>,
    stop: Stop)

  /** The age test applied to the k-th tweet of the pass. */
  predicate TweetExpired(env: Env, t: Tweet, k: nat)
  {
    Expired(TimestampOrZero(env.parseTime(t.createdAt)), env.clock(k), env.maxAge)
  }

  /** `lasttweet - 1` in Go's int64 arithmetic: one below, except that
      `math.MinInt64 - 1` wraps round to `math.MaxInt64`. */
  function MaxIdBelow(w: int64): (m: int64)
    ensures m == Wrap64(w - 1)
  {
    if w == MinInt64 then
      assert (w - 1 - Wrap64(w - 1)) % TwoTo64 == 0;
      MaxInt64
    else w - 1
  }

  /** The watermark after the tweets `ts`, starting from `w`: lowered to each
      tweet id that is smaller. */
  function Watermark(w: int64, ts: seq<Tweet>): int64
  {
    if ts == [] then w
    else
      var m := Watermark(w, ts[..|ts| - 1]);
      if ts[|ts| - 1].id < m then ts[|ts| - 1].id else m
  }

  /** The ids emitted for the tweets `ts` when the first of them is the k-th
      tweet of the pass. */
  function ExpiredIds(env: Env, ts: seq<Tweet>, k: nat): seq<int64>
  {
    if ts == [] then []
    else
      var last := ts[|ts| - 1];
      ExpiredIds(env, ts[..|ts| - 1], k) + (if TweetExpired(env, last, k + |ts| - 1) then [last.id] else [])
  }

  function Flatten(pages: seq<seq<Tweet>>): seq<Tweet>
  {
    if pages == [] then [] else pages[0] + Flatten(pages[1..])
  }

  function Ids(ts: seq<Tweet>): (ids: seq<int64>)
    ensures |ids| == |ts| && forall i :: 0 <= i < |ts| ==> ids[i] == ts[i].id
  {
    if ts == [] then [] else Ids(ts[..|ts| - 1]) + [ts[|ts| - 1].id]
  }

  /** One iteration of the outer loop: request a page with the current
      `max_id`; stop on an empty page, or on a non-empty page with an error;
      otherwise run the inner loop over its tweets. A pass that has ended
      stays as it is. */
  function Step(env: Env, s: Pass): Pass
  {
    if s.stop != Running then s
    else
      var page := env.fetch(|s.requests|, s.maxId);
      if |page.tweets| == 0 then s.(requests := s.requests + [s.maxId], stop := EmptyPage)
      else if page.err then s.(requests := s.requests + [s.maxId], stop := PageError)
      else
        var w := Watermark(s.lasttweet, page.tweets);
        Pass(Some(MaxIdBelow(w)), w, s.k + |page.tweets|,
             s.emitted + ExpiredIds(env, page.tweets, s.k),
             s.requests + [s.maxId], s.pages + [page.tweets], Running)
  }

  /** The state before the first request: no `max_id`, `lasttweet` at `math.MaxInt64`. */
  function Start(): Pass
  {
    Pass(None, MaxInt64, 0, [], [], [], Running)
  }

  /** A pass after `fuel` iterations of the outer loop. */
  function Run(env: Env, fuel: nat): Pass
  {
    if fuel == 0 then Start() else Step(env, Run(env, fuel - 1))
  }

  /** `deleteOldTweetsFromTimeline`, making at most `fuel` page requests. */
  method DeleteOldTweetsFromTimeline(env: Env, fuel: nat) returns (p: Pass)
    ensures p == Run(env, fuel)
  {
    var maxId: Option<int64> := None;
    var lasttweet: int64 := MaxInt64;
    var emitted: seq<int64> := [];
    var requests: seq<Option<int64>> := [];
    var pages: seq<seq<Tweet>> := [];
    var k: nat := 0;
    var stop := Running;
    var i := 0;
    while i < fuel
      invariant 0 <= i <= fuel
      invariant stop == Running
      invariant Pass(maxId, lasttweet, k, emitted, requests, pages, stop) == Run(env, i)
    {
      assert Run(env, i + 1) == Step(env, Run(env, i));
      maxId, lasttweet, k, emitted, requests, pages, stop :=
        OuterIteration(env, maxId, lasttweet, k, emitted, requests, pages);
      i := i + 1;
      if stop != Running {
        StaysEnded(env, i, fuel);
        break;
      }
    }
    p := Pass(maxId, lasttweet, k, emitted, requests, pages, stop);
  }

  /** One iteration of the outer `for` loop, on the walker's variables. */
  method OuterIteration(env: Env, maxId0: Option<int64>, lasttweet0: int64, k0: nat, emitted0: seq<int64>,
                        requests0: seq<Option<int64>>, pages0: seq<seq<Tweet>>)
    returns (maxId: Option<int64>, lasttweet: int64, k: nat, emitted: seq<int64>,
             requests: seq<Option<int64>>, pages: seq<seq<Tweet>>, stop: Stop)
    ensures Pass(maxId, lasttweet, k, emitted, requests, pages, stop) ==
            Step(env, Pass(maxId0, lasttweet0, k0, emitted0, requests0, pages0, Running))
  {
    ghost var s := Pass(maxId0, lasttweet0, k0, emitted0, requests0, pages0, Running);
    maxId, lasttweet, k, emitted, requests, pages := maxId0, lasttweet0, k0, emitted0, requests0, pages0;
    var page := env.fetch(|requests|, maxId);
    requests := requests + [maxId];
    if |page.tweets| == 0 {
      stop := EmptyPage;
    } else if page.err {
      stop := PageError;
    } else {
      var pageEmitted;
      pageEmitted, lasttweet, maxId := ProcessPage(env, page.tweets, k, lasttweet, maxId);
      emitted := emitted + pageEmitted;
      pages := pages + [page.tweets];
      k := k + |page.tweets|;
      stop := Running;
    }
  }

  /** The inner `for` loop over one page: lower the watermark to each smaller
      id, set `max_id` to the watermark minus one after every tweet, and emit
      the ids of the old tweets, the first tweet of the page being the k-th of
      the pass. */
  method ProcessPage(env: Env, tweets: seq<Tweet>, k: nat, w0: int64, maxId0: Option<int64>)
    returns (pageEmitted: seq<int64>, lasttweet: int64, maxId: Option<int64>)
    requires tweets != []
    ensures pageEmitted == ExpiredIds(env, tweets, k)
    ensures lasttweet == Watermark(w0, tweets)
    ensures maxId == Some(MaxIdBelow(lasttweet))
  {
    lasttweet, maxId := w0, maxId0;
    pageEmitted := [];
    var i := 0;
    while i < |tweets|
      invariant 0 <= i <= |tweets|
      invariant lasttweet == Watermark(w0, tweets[..i])
      invariant i > 0 ==> maxId == Some(MaxIdBelow(lasttweet))
      invariant pageEmitted == ExpiredIds(env, tweets[..i], k)
    {
      var tweet := tweets[i];
      assert tweets[..i + 1][..i] == tweets[..i];
      if tweet.id < lasttweet {
        lasttweet := tweet.id;
      }
      maxId := Some(MaxIdBelow(lasttweet));
      var ts := TimestampOrZero(env.parseTime(tweet.createdAt));
      if Expired(ts, env.clock(k + i), env.maxAge) {
        pageEmitted := pageEmitted + [tweet.id];
      }
      i := i + 1;
    }
    assert tweets[..i] == tweets;
  }

  /** Once a pass has ended, further iterations change nothing. */
  lemma {:induction false} StaysEnded(env: Env, i: nat, j: nat)
    requires i <= j && Run(env, i).stop != Running
    ensures Run(env, j) == Run(env, i)
    decreases j
  {
    if j > i {
      StaysEnded(env, i, j - 1);
    }
  }

  lemma {:induction false} FlattenSnoc(pages: seq<seq<Tweet>>, page: seq<Tweet>)
    ensures Flatten(pages + [page]) == Flatten(pages) + page
  {
    if pages != [] {
      assert (pages + [page])[1..] == pages[1..] + [page];
      FlattenSnoc(pages[1..], page);
    }
  }

  /** Processing `a` then `b` leaves the same watermark as processing `a + b`. */
  lemma {:induction false} WatermarkAppend(w: int64, a: seq<Tweet>, b: seq<Tweet>)
    ensures Watermark(Watermark(w, a), b) == Watermark(w, a + b)
    decreases |b|
  {
    if b != [] {
      assert (a + b)[..|a + b| - 1] == a + b[..|b| - 1];
      assert (a + b)[|a + b| - 1] == b[|b| - 1];
      WatermarkAppend(w, a, b[..|b| - 1]);
    } else {
      assert a + b == a;
    }
  }

  /** The watermark is the minimum of its start value and every id seen: never
      above either, and equal to one of them. */
  lemma {:induction false} WatermarkIsMin(w: int64, ts: seq<Tweet>)
    ensures Watermark(w, ts) <= w
    ensures forall i :: 0 <= i < |ts| ==> Watermark(w, ts) <= ts[i].id
    ensures Watermark(w, ts) == w || exists i :: 0 <= i < |ts| && Watermark(w, ts) == ts[i].id
    decreases |ts|
  {
    if ts != [] {
      var init := ts[..|ts| - 1];
      WatermarkIsMin(w, init);
      assert forall i :: 0 <= i < |init| ==> init[i] == ts[i];
    }
  }

  /** The watermark never goes up as more tweets are processed. */
  lemma WatermarkNeverIncreases(w: int64, a: seq<Tweet>, b: seq<Tweet>)
    ensures Watermark(w, a + b) <= Watermark(w, a)
  {
    WatermarkAppend(w, a, b);
    WatermarkIsMin(Watermark(w, a), b);
  }

  lemma {:induction false} ExpiredIdsAppend(env: Env, a: seq<Tweet>, b: seq<Tweet>, k: nat)
    ensures ExpiredIds(env, a + b, k) == ExpiredIds(env, a, k) + ExpiredIds(env, b, k + |a|)
    decreases |b|
  {
    if b != [] {
      assert (a + b)[..|a + b| - 1] == a + b[..|b| - 1];
      assert (a + b)[|a + b| - 1] == b[|b| - 1];
      ExpiredIdsAppend(env, a, b[..|b| - 1], k);
    } else {
      assert a + b == a;
    }
  }

  /** An id is emitted for `ts` exactly when some tweet of `ts` with that id
      passes the age test. */
  lemma {:induction false} ExpiredIdsMembership(env: Env, ts: seq<Tweet>, k: nat, x: int64)
    ensures x in ExpiredIds(env, ts, k) <==>
            exists j :: 0 <= j < |ts| && ts[j].id == x && TweetExpired(env, ts[j], k + j)
    decreases |ts|
  {
    if ts != [] {
      var init := ts[..|ts| - 1];
      ExpiredIdsMembership(env, init, k, x);
      assert forall j :: 0 <= j < |init| ==> init[j] == ts[j];
      if x in ExpiredIds(env, ts, k) && x !in ExpiredIds(env, init, k) {
        assert ts[|ts| - 1].id == x && TweetExpired(env, ts[|ts| - 1], k + |ts| - 1);
      }
    }
  }

  /** The emitted ids are the ids of `ts` in order, with the young tweets left out. */
  lemma {:induction false} ExpiredIdsSubsequence(env: Env, ts: seq<Tweet>, k: nat)
    ensures IsSubsequence(ExpiredIds(env, ts, k), Ids(ts))
    ensures |ExpiredIds(env, ts, k)| <= |ts|
    decreases |ts|
  {
    if ts != [] {
      var init := ts[..|ts| - 1];
      ExpiredIdsSubsequence(env, init, k);
      var e := ExpiredIds(env, ts, k);
      assert Ids(ts)[..|ts| - 1] == Ids(init);
      if TweetExpired(env, ts[|ts| - 1], k + |ts| - 1) {
        assert e[..|e| - 1] == ExpiredIds(env, init, k);
      } else {
        assert e == ExpiredIds(env, init, k);
      }
    }
  }

  /** The walker's own variables agree with the record: `k` counts the
      tweets processed, `lasttweet` is their watermark from `math.MaxInt64`,
      and `max_id` is unset before the first page and the watermark minus one
      after it. */
  ghost predicate Consistent(s: Pass)
  {
    s.k == |Flatten(s.pages)|
    && s.lasttweet == Watermark(MaxInt64, Flatten(s.pages))
    && s.maxId == (if s.pages == [] then None else Some(MaxIdBelow(s.lasttweet)))
  }

  lemma ConsistentStep(env: Env, s: Pass)
    requires Consistent(s)
    ensures Consistent(Step(env, s))
  {
    if s.stop == Running {
      var page := env.fetch(|s.requests|, s.maxId);
      if |page.tweets| > 0 && !page.err {
        FlattenSnoc(s.pages, page.tweets);
        WatermarkAppend(MaxInt64, Flatten(s.pages), page.tweets);
      }
    }
  }

  lemma {:induction false} RunConsistent(env: Env, fuel: nat)
    ensures Consistent(Run(env, fuel))
  {
    if fuel > 0 {
      RunConsistent(env, fuel - 1);
      ConsistentStep(env, Run(env, fuel - 1));
    }
  }

  /** Each processed page is the non-empty, error-free page that its request
      returned, and the request after the last processed page, if the pass
      ended, returned an empty page (`EmptyPage`) or a non-empty page with an
      error (`PageError`), whose tweets are not processed. */
  ghost predicate PagesFetched(env: Env, r: Pass)
  {
    |r.requests| == |r.pages| + (if r.stop == Running then 0 else 1)
    && (forall i :: 0 <= i < |r.pages| ==>
          env.fetch(i, r.requests[i]).tweets == r.pages[i] != [] && !env.fetch(i, r.requests[i]).err)
    && (r.stop == EmptyPage ==> env.fetch(|r.pages|, r.requests[|r.pages|]).tweets == [])
    && (r.stop == PageError ==>
          env.fetch(|r.pages|, r.requests[|r.pages|]).tweets != [] &&
          env.fetch(|r.pages|, r.requests[|r.pages|]).err)
  }

  lemma PagesFetchedStep(env: Env, s: Pass)
    requires PagesFetched(env, s)
    ensures PagesFetched(env, Step(env, s))
  {
    if s.stop == Running {
      var r := Step(env, s);
      assert forall i :: 0 <= i < |s.pages| ==> r.pages[i] == s.pages[i] && r.requests[i] == s.requests[i];
    }
  }

  /** Every pass is made of the pages its requests returned, and ends as the
      walker's loop does. */
  lemma {:induction false} RunPagesFetched(env: Env, fuel: nat)
    ensures PagesFetched(env, Run(env, fuel))
  {
    if fuel > 0 {
      RunPagesFetched(env, fuel - 1);
      PagesFetchedStep(env, Run(env, fuel - 1));
    }
  }

  /** The emitted ids are those of the old tweets among the processed ones, in order. */
  ghost predicate EmitsExpired(env: Env, s: Pass)
  {
    s.emitted == ExpiredIds(env, Flatten(s.pages), 0)
  }

  lemma EmitsStep(env: Env, s: Pass)
    requires Consistent(s) && EmitsExpired(env, s)
    ensures EmitsExpired(env, Step(env, s))
  {
    if s.stop == Running {
      var page := env.fetch(|s.requests|, s.maxId);
      if |page.tweets| > 0 && !page.err {
        FlattenSnoc(s.pages, page.tweets);
        ExpiredIdsAppend(env, Flatten(s.pages), page.tweets, 0);
      }
    }
  }

  lemma {:induction false} RunEmitsExpired(env: Env, fuel: nat)
    ensures EmitsExpired(env, Run(env, fuel))
  {
    if fuel > 0 {
      RunEmitsExpired(env, fuel - 1);
      RunConsistent(env, fuel - 1);
      EmitsStep(env, Run(env, fuel - 1));
    }
  }

  /** The first request carries no `max_id`; every later one carries the
      watermark of all the tweets processed before it, minus one. */
  ghost predicate RequestsFollowWatermark(r: Pass)
  {
    (|r.requests| > 0 ==> r.requests[0] == None)
    && forall i :: 1 <= i < |r.requests| && i <= |r.pages| ==>
         r.requests[i] == Some(MaxIdBelow(Watermark(MaxInt64, Flatten(r.pages[..i]))))
  }

  lemma RequestsStep(env: Env, s: Pass)
    requires Consistent(s) && PagesFetched(env, s) && RequestsFollowWatermark(s)
    ensures RequestsFollowWatermark(Step(env, s))
  {
    if s.stop == Running {
      var r := Step(env, s);
      assert r.requests == s.requests + [s.maxId];
      assert r.pages[..|s.pages|] == s.pages;
      forall i | 1 <= i < |r.requests| && i <= |r.pages|
        ensures r.requests[i] == Some(MaxIdBelow(Watermark(MaxInt64, Flatten(r.pages[..i]))))
      {
        assert r.pages[..i] == s.pages[..i];
        if i == |s.pages| {
          assert s.pages[..i] == s.pages;
        }
      }
    }
  }

  /** The first request of a pass has no `max_id`; every later request has
      `max_id` equal to the watermark of all the tweets processed before it,
      minus one. */
  lemma {:induction false} RunRequests(env: Env, fuel: nat)
    ensures RequestsFollowWatermark(Run(env, fuel))
  {
    if fuel > 0 {
      RunRequests(env, fuel - 1);
      RunConsistent(env, fuel - 1);
      RunPagesFetched(env, fuel - 1);
      RequestsStep(env, Run(env, fuel - 1));
    }
  }

  /** A pass whose first page is empty makes one request, without `max_id`,
      and emits nothing. */
  lemma EmptyFirstPage(env: Env, fuel: nat)
    requires fuel > 0 && env.fetch(0, None).tweets == []
    ensures Run(env, fuel) == Pass(None, MaxInt64, 0, [], [None], [], EmptyPage)
  {
    assert Run(env, 1) == Step(env, Start());
    StaysEnded(env, 1, fuel);
  }

  /** The ids a whole pass emits are those of the tweets it processed, in
      order, with the young ones left out. */
  lemma RunEmitsSubsequence(env: Env, fuel: nat)
    ensures IsSubsequence(Run(env, fuel).emitted, Ids(Flatten(Run(env, fuel).pages)))
  {
    RunEmitsExpired(env, fuel);
    ExpiredIdsSubsequence(env, Flatten(Run(env, fuel).pages), 0);
  }

  /** An id is emitted by a pass exactly when a tweet with that id, processed
      as the j-th tweet of the pass, passes the age test at its turn. */
  lemma RunEmitsOldTweets(env: Env, fuel: nat, x: int64)
    ensures var seen := Flatten(Run(env, fuel).pages);
      x in Run(env, fuel).emitted <==>
        exists j :: 0 <= j < |seen| && seen[j].id == x && TweetExpired(env, seen[j], j)
  {
    var r := Run(env, fuel);
    RunEmitsExpired(env, fuel);
    assert r.emitted == ExpiredIds(env, Flatten(r.pages), 0);
    ExpiredIdsMembership(env, Flatten(r.pages), 0, x);
  }

  /** The client never returns a tweet with id `math.MinInt64` (at which
      `lasttweet - 1` would wrap round to `math.MaxInt64`). */
  ghost predicate NoMinId(env: Env)
  {
    forall n, m, t :: t in env.fetch(n, m).tweets ==> t.id > MinInt64
  }

  /** The client honours `max_id`: every tweet of a page requested with
      `max_id = m` has an id of at most m. */
  ghost predicate HonoursMaxId(env: Env)
  {
    forall n, m, t :: t in env.fetch(n, Some(m)).tweets ==> t.id <= m
  }

  lemma {:induction false} FlattenMembers(pages: seq<seq<Tweet>>)
    ensures forall t :: t in Flatten(pages) <==> exists p :: 0 <= p < |pages| && t in pages[p]
  {
    if pages != [] {
      FlattenMembers(pages[1..]);
      forall t | t in Flatten(pages) ensures exists p :: 0 <= p < |pages| && t in pages[p] {
        if t !in pages[0] {
          assert t in Flatten(pages[1..]);
          var p :| 0 <= p < |pages[1..]| && t in pages[1..][p];
          assert t in pages[p + 1];
        }
      }
      forall t, p | 0 <= p < |pages| && t in pages[p] ensures t in Flatten(pages) {
        if p > 0 {
          assert t in pages[1..][p - 1];
        }
      }
    }
  }

  /** One below the watermark of `seen` from `math.MaxInt64` lies strictly
      below every id in `seen`, when none of them is `math.MinInt64`. */
  lemma MaxIdBelowSeen(seen: seq<Tweet>)
    requires forall t :: t in seen ==> t.id > MinInt64
    ensures forall t :: t in seen ==> MaxIdBelow(Watermark(MaxInt64, seen)) < t.id
  {
    var wm := Watermark(MaxInt64, seen);
    WatermarkIsMin(MaxInt64, seen);
    if wm != MaxInt64 {
      var q :| 0 <= q < |seen| && wm == seen[q].id;
      assert seen[q] in seen;
    }
  }

  /** A pass processes no tweet with id `math.MinInt64` when the client
      returns none. */
  lemma ProcessedAboveMin(env: Env, fuel: nat, i: nat)
    requires NoMinId(env)
    requires i <= |Run(env, fuel).pages|
    ensures forall t :: t in Flatten(Run(env, fuel).pages[..i]) ==> t.id > MinInt64
  {
    var r := Run(env, fuel);
    RunPagesFetched(env, fuel);
    FlattenMembers(r.pages[..i]);
    forall t | t in Flatten(r.pages[..i]) ensures t.id > MinInt64 {
      var p :| 0 <= p < i && t in r.pages[..i][p];
      assert t in env.fetch(p, r.requests[p]).tweets;
    }
  }

  /** Every request after the first carries a `max_id` strictly below every
      tweet id processed before it, provided the client never returns
      `math.MinInt64`. */
  lemma RequestBelowSeen(env: Env, fuel: nat, i: nat, t: Tweet)
    requires NoMinId(env)
    requires 1 <= i < |Run(env, fuel).requests| && i <= |Run(env, fuel).pages|
    requires t in Flatten(Run(env, fuel).pages[..i])
    ensures Run(env, fuel).requests[i].Some? && Run(env, fuel).requests[i].value < t.id
  {
    RunRequests(env, fuel);
    ProcessedAboveMin(env, fuel, i);
    MaxIdBelowSeen(Flatten(Run(env, fuel).pages[..i]));
  }

  /** With a client that honours `max_id` and never returns `math.MinInt64`,
      tweet ids strictly decrease from page to page, so no page repeats a
      tweet of an earlier page. */
  lemma PagesDescend(env: Env, fuel: nat)
    requires NoMinId(env) && HonoursMaxId(env)
    ensures var r := Run(env, fuel);
      forall i, j, a, b :: 0 <= i < j < |r.pages| && 0 <= a < |r.pages[i]| && 0 <= b < |r.pages[j]| ==>
        r.pages[j][b].id < r.pages[i][a].id
  {
    var r := Run(env, fuel);
    RunPagesFetched(env, fuel);
    forall i, j, a, b | 0 <= i < j < |r.pages| && 0 <= a < |r.pages[i]| && 0 <= b < |r.pages[j]|
      ensures r.pages[j][b].id < r.pages[i][a].id
    {
      FlattenMembers(r.pages[..j]);
      assert r.pages[i][a] in r.pages[..j][i];
      RequestBelowSeen(env, fuel, j, r.pages[i][a]);
      var v := r.requests[j].value;
      assert r.requests[j] == Some(v);
      assert r.pages[j][b] in env.fetch(j, Some(v)).tweets;
    }
  }

  /** After a processed page that did not end the pass, the watermark has
      moved strictly down and is still above `math.MinInt64`. */
  lemma StepDescends(env: Env, s: Pass)
    requires NoMinId(env) && HonoursMaxId(env) && Consistent(s)
    requires s.stop == Running && Step(env, s).stop == Running
    requires s.pages == [] || s.lasttweet > MinInt64
    ensures MinInt64 < Step(env, s).lasttweet
    ensures s.pages != [] ==> Step(env, s).lasttweet < s.lasttweet
  {
    var page := env.fetch(|s.requests|, s.maxId).tweets;
    var w := Watermark(s.lasttweet, page);
    WatermarkIsMin(s.lasttweet, page);
    if w != s.lasttweet {
      var q :| 0 <= q < |page| && w == page[q].id;
      assert page[q] in page;
    }
    if s.pages != [] {
      assert page[0] in page;
    }
  }

  /** With such a client, the watermark after the n-th request of a pass
      that has not ended is at most `math.MaxInt64 - (n - 1)`. */
  lemma {:induction false} RunDescends(env: Env, fuel: nat)
    requires NoMinId(env) && HonoursMaxId(env)
    requires fuel > 0 && Run(env, fuel).stop == Running
    ensures MinInt64 < Run(env, fuel).lasttweet <= MaxInt64 - (fuel - 1)
    ensures Run(env, fuel).pages != []
  {
    var s := Run(env, fuel - 1);
    RunConsistent(env, fuel - 1);
    if fuel > 1 {
      assert s.stop == Running;
      RunDescends(env, fuel - 1);
    }
    StepDescends(env, s);
  }

  /** With a client that honours `max_id` and never returns
      `math.MinInt64`, every pass ends on an empty or failing page within
      2^64 page requests. */
  lemma PassTerminates(env: Env, fuel: nat)
    requires NoMinId(env) && HonoursMaxId(env)
    requires fuel >= TwoTo64
    ensures Run(env, fuel).stop != Running
  {
    if Run(env, fuel).stop == Running {
      RunDescends(env, fuel);
    }
  }

  /** At any point of a pass, `lasttweet` is the smallest id processed so far,
      or `math.MaxInt64` while none is smaller. */
  lemma RunLasttweetIsMin(env: Env, fuel: nat)
    ensures forall t :: t in Flatten(Run(env, fuel).pages) ==> Run(env, fuel).lasttweet <= t.id
    ensures Run(env, fuel).lasttweet == MaxInt64 ||
            exists t :: t in Flatten(Run(env, fuel).pages) && Run(env, fuel).lasttweet == t.id
  {
    var seen := Flatten(Run(env, fuel).pages);
    RunConsistent(env, fuel);
    WatermarkIsMin(MaxInt64, seen);
    forall t | t in seen ensures Run(env, fuel).lasttweet <= t.id {
      var q :| 0 <= q < |seen| && seen[q] == t;
    }
    if Run(env, fuel).lasttweet != MaxInt64 {
      var q :| 0 <= q < |seen| && Run(env, fuel).lasttweet == seen[q].id;
      assert seen[q] in seen;
    }
  }

  /** `lasttweet` starts at `math.MaxInt64` and never goes up during a pass. */
  lemma {:induction false} LasttweetNeverIncreases(env: Env, i: nat, j: nat)
    requires i <= j
    ensures Run(env, j).lasttweet <= Run(env, i).lasttweet <= MaxInt64
    decreases j
  {
    if j > i {
      LasttweetNeverIncreases(env, i, j - 1);
      var s := Run(env, j - 1);
      if s.stop == Running {
        WatermarkIsMin(s.lasttweet, env.fetch(|s.requests|, s.maxId).tweets);
      }
    }
  }

  /** The client lists each page newest first: ids strictly decrease within
      a page. */
  ghost predicate NewestFirst(env: Env)
  {
    forall n, m, i, j :: 0 <= i < j < |env.fetch(n, m).tweets| ==>
      env.fetch(n, m).tweets[j].id < env.fetch(n, m).tweets[i].id
  }

  /** The ids `xs` strictly decrease. */
  predicate Decreasing(xs: seq<int64>)
  {
    forall i, j :: 0 <= i < j < |xs| ==> xs[j] < xs[i]
  }

  /** Tweet ids strictly decrease along `ts`. */
  predicate Descending(ts: seq<Tweet>)
  {
    forall i, j :: 0 <= i < j < |ts| ==> ts[j].id < ts[i].id
  }

  /** Two descending runs of tweets make one when every id of the second lies
      below `w` and every id of the first at or above it. */
  lemma DescendingAppend(a: seq<Tweet>, b: seq<Tweet>, w: int)
    requires Descending(a) && Descending(b)
    requires forall q :: 0 <= q < |a| ==> w <= a[q].id
    requires forall q :: 0 <= q < |b| ==> b[q].id < w
    ensures Descending(a + b)
  {
    forall i, j | 0 <= i < j < |a + b| ensures (a + b)[j].id < (a + b)[i].id {
      if j < |a| {
        assert (a + b)[j] == a[j] && (a + b)[i] == a[i];
      } else if i >= |a| {
        assert (a + b)[j] == b[j - |a|] && (a + b)[i] == b[i - |a|];
      } else {
        assert (a + b)[i] == a[i] && (a + b)[j] == b[j - |a|];
      }
    }
  }

  /** One outer iteration keeps the processed tweets in decreasing id order
      when the next page lies below `lasttweet`, the smallest id so far. */
  lemma DescendingStep(env: Env, s: Pass)
    requires HonoursMaxId(env) && NewestFirst(env) && Consistent(s)
    requires Descending(Flatten(s.pages))
    requires s.stop == Running && s.pages != [] ==> s.lasttweet > MinInt64
    ensures Descending(Flatten(Step(env, s).pages))
  {
    var page := env.fetch(|s.requests|, s.maxId).tweets;
    if s.stop == Running && page != [] && !env.fetch(|s.requests|, s.maxId).err {
      assert Step(env, s).pages == s.pages + [page];
      FlattenSnoc(s.pages, page);
      assert Descending(page);
      if s.pages != [] {
        WatermarkIsMin(MaxInt64, Flatten(s.pages));
        forall q | 0 <= q < |page| ensures page[q].id < s.lasttweet {
          assert page[q] in env.fetch(|s.requests|, Some(MaxIdBelow(s.lasttweet))).tweets;
        }
        DescendingAppend(Flatten(s.pages), page, s.lasttweet);
      } else {
        assert Flatten(s.pages) + page == page;
      }
    }
  }

  /** With a client that honours `max_id`, never returns `math.MinInt64` and
      lists each page newest first, the tweets of a pass are processed in
      strictly decreasing id order. */
  lemma {:induction false} RunProcessesDescending(env: Env, fuel: nat)
    requires NoMinId(env) && HonoursMaxId(env) && NewestFirst(env)
    ensures Descending(Flatten(Run(env, fuel).pages))
  {
    if fuel > 0 {
      RunProcessesDescending(env, fuel - 1);
      RunDescendingStep(env, fuel - 1);
    }
  }

  /** The iteration after the i-th keeps the processed tweets in decreasing
      id order. */
  lemma RunDescendingStep(env: Env, i: nat)
    requires NoMinId(env) && HonoursMaxId(env) && NewestFirst(env)
    requires Descending(Flatten(Run(env, i).pages))
    ensures Descending(Flatten(Run(env, i + 1).pages))
  {
    var s := Run(env, i);
    RunConsistent(env, i);
    RunAboveMin(env, i);
    DescendingStep(env, s);
    assert Run(env, i + 1) == Step(env, s);
  }

  /** With such a client, `lasttweet` stays above `math.MinInt64` once a page
      has been processed, while the pass goes on. */
  lemma RunAboveMin(env: Env, fuel: nat)
    requires NoMinId(env) && HonoursMaxId(env)
    ensures Run(env, fuel).stop == Running && Run(env, fuel).pages != [] ==> Run(env, fuel).lasttweet > MinInt64
  {
    if fuel > 0 && Run(env, fuel).stop == Running {
      RunDescends(env, fuel);
    }
  }

  /** The ids kept from tweets in strictly decreasing id order are themselves
      strictly decreasing. */
  lemma {:induction false} ExpiredIdsDescending(env: Env, ts: seq<Tweet>, k: nat)
    requires Descending(ts)
    ensures Decreasing(ExpiredIds(env, ts, k))
    decreases |ts|
  {
    if ts != [] {
      var init := ts[..|ts| - 1];
      var last := ts[|ts| - 1];
      ExpiredIdsDescending(env, init, k);
      var e0 := ExpiredIds(env, init, k);
      var e := ExpiredIds(env, ts, k);
      if TweetExpired(env, last, k + |ts| - 1) {
        assert e == e0 + [last.id];
        forall i | 0 <= i < |e0| ensures last.id < e0[i] {
          ExpiredIdsMembership(env, init, k, e0[i]);
          assert e0[i] in e0;
          var q :| 0 <= q < |init| && init[q].id == e0[i] && TweetExpired(env, init[q], k + q);
          assert ts[q] == init[q];
        }
        forall i, j | 0 <= i < j < |e| ensures e[j] < e[i] {
          if j < |e0| {
            assert e[j] == e0[j] && e[i] == e0[i];
          } else {
            assert e[j] == last.id && e[i] == e0[i];
          }
        }
      } else {
        assert e == e0;
      }
    }
  }

  /** With a client that honours `max_id`, never returns `math.MinInt64` and
      lists each page newest first, the ids a pass sends strictly decrease:
      no id is sent twice. */
  lemma NoIdSentTwice(env: Env, fuel: nat)
    requires NoMinId(env) && HonoursMaxId(env) && NewestFirst(env)
    ensures Decreasing(Run(env, fuel).emitted)
    ensures forall i, j :: 0 <= i < j < |Run(env, fuel).emitted| ==> Run(env, fuel).emitted[i] != Run(env, fuel).emitted[j]
  {
    var r := Run(env, fuel);
    RunEmitsExpired(env, fuel);
    assert r.emitted == ExpiredIds(env, Flatten(r.pages), 0);
    RunProcessesDescending(env, fuel);
    ExpiredIdsDescending(env, Flatten(r.pages), 0);
  }

  /** Each outer iteration makes exactly one page request until the pass
      ends, and none after. */
  lemma {:induction false} RunRequestCount(env: Env, fuel: nat)
    ensures |Run(env, fuel).requests| <= fuel
    ensures Run(env, fuel).stop == Running ==> |Run(env, fuel).requests| == fuel
  {
    if fuel > 0 {
      RunRequestCount(env, fuel - 1);
    }
  }
}
