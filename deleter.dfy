/** `blindDeleter`: delete every tweet id received on the channel, in the
    order received, and log the error of every delete call that fails; a
    failure does not stop the loop.

    The channel is the sequence of ids sent on it. The Twitter client's answer
    is a parameter: `fails(i, id)` says whether the i-th delete call, made for
    `id`, returns an error. */
module Deleter {
  import opened GoTypes

  /** The ids whose delete call fails, in call order, when the first id of
      `ids` is the n-th delete call. */
  function FailedDeletes(ids: seq<int64>, fails: (nat, int64) -> bool, n: nat): seq<int64>
  {
    if ids == [] then []
    else
      var last := ids[|ids| - 1];
      FailedDeletes(ids[..|ids| - 1], fails, n) + (if fails(n + |ids| - 1, last) then [last] else [])
  }

  /** `blindDeleter` over the ids received: one delete call per id, in order,
      and the ids whose call failed, as logged. */
  method BlindDeleter(ids: seq<int64>, fails: (nat, int64) -> bool)
    returns (attempts: seq<int64>, failed: seq<int64>)
    ensures attempts == ids
    ensures failed == FailedDeletes(ids, fails, 0)
  {
    attempts, failed := [], [];
    var i := 0;
    while i < |ids|
      invariant 0 <= i <= |ids|
      invariant attempts == ids[..i]
      invariant failed == FailedDeletes(ids[..i], fails, 0)
    {
      var tweetid := ids[i];
      assert ids[..i + 1][..i] == ids[..i];
      attempts := attempts + [tweetid];
      if fails(i, tweetid) {
        failed := failed + [tweetid];
      }
      i := i + 1;
    }
    assert ids[..i] == ids;
  }

  /** An id is logged exactly when one of its delete calls failed. */
  lemma {:induction false} FailedDeletesMembership(ids: seq<int64>, fails: (nat, int64) -> bool, n: nat, x: int64)
    ensures x in FailedDeletes(ids, fails, n) <==> exists i :: 0 <= i < |ids| && ids[i] == x && fails(n + i, x)
    decreases |ids|
  {
    if ids != [] {
      var init := ids[..|ids| - 1];
      FailedDeletesMembership(init, fails, n, x);
      assert forall i :: 0 <= i < |init| ==> init[i] == ids[i];
      if x in FailedDeletes(ids, fails, n) && x !in FailedDeletes(init, fails, n) {
        assert ids[|ids| - 1] == x && fails(n + |ids| - 1, x);
      }
    }
  }

  /** The failed ids are logged in the order they were received, each failed
      call once. */
  lemma {:induction false} FailedDeletesSubsequence(ids: seq<int64>, fails: (nat, int64) -> bool, n: nat)
    ensures IsSubsequence(FailedDeletes(ids, fails, n), ids)
    ensures |FailedDeletes(ids, fails, n)| <= |ids|
    decreases |ids|
  {
    if ids != [] {
      var init := ids[..|ids| - 1];
      FailedDeletesSubsequence(init, fails, n);
      var f := FailedDeletes(ids, fails, n);
      if fails(n + |ids| - 1, ids[|ids| - 1]) {
        assert f[..|f| - 1] == FailedDeletes(init, fails, n);
      } else {
        assert f == FailedDeletes(init, fails, n);
      }
    }
  }

  /** Received ids can be split anywhere: the calls for the second part carry
      on the call count. */
  lemma {:induction false} FailedDeletesAppend(a: seq<int64>, b: seq<int64>, fails: (nat, int64) -> bool, n: nat)
    ensures FailedDeletes(a + b, fails, n) == FailedDeletes(a, fails, n) + FailedDeletes(b, fails, n + |a|)
    decreases |b|
  {
    if b != [] {
      assert (a + b)[..|a + b| - 1] == a + b[..|b| - 1];
      assert (a + b)[|a + b| - 1] == b[|b| - 1];
      FailedDeletesAppend(a, b[..|b| - 1], fails, n);
    } else {
      assert a + b == a;
    }
  }
}
