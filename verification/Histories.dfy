/** What a history of steps leaves behind: the last thing said, and what stands since it was done. Steps are numbered
    from zero, and `n` of them have been taken. */
module Histories {

  datatype Maybe<T> = Nothing | Just(value: T)

  /** The last thing said in the first `n` steps, or what there was to begin with. */
  function Last<T>(said: nat -> Maybe<T>, first: T, n: nat): T
  {
    if n == 0 then first else if said(n - 1).Just? then said(n - 1).value else Last(said, first, n - 1)
  }

  /** It is what was said at some step after which nothing was, or what there was where nothing was said at all. */
  lemma {:induction false} LastIsTheLast<T>(said: nat -> Maybe<T>, first: T, n: nat)
    ensures || (Last(said, first, n) == first && forall j | 0 <= j < n :: said(j).Nothing?)
            || exists i: nat ::
                 i < n && said(i) == Just(Last(said, first, n)) && forall j | i < j < n :: said(j).Nothing?
  {
    if n > 0 {
      LastIsTheLast(said, first, n - 1);
    }
  }

  /** What every step sets to what is said at it, and leaves alone where nothing is, is the last thing said. */
  lemma {:induction false} FollowsTheLast<T>(now: nat -> T, said: nat -> Maybe<T>, n: nat)
    requires forall k: nat | k < n :: now(k + 1) == if said(k).Just? then said(k).value else now(k)
    ensures now(n) == Last(said, now(0), n)
  {
    if n > 0 {
      FollowsTheLast(now, said, n - 1);
    }
  }

  /** It was done at some step and has not been ended since. */
  ghost predicate Since(did: nat -> bool, ended: nat -> bool, n: nat)
  {
    exists i: nat :: i < n && did(i) && forall j: nat | i < j < n :: !ended(j)
  }

  /** What every step that does it brings about, and every other keeps unless it ends it, holds exactly since. */
  lemma {:induction false} FollowsSince(now: nat -> bool, did: nat -> bool, ended: nat -> bool, n: nat)
    requires !now(0) && forall k: nat | k < n :: now(k + 1) <==> did(k) || (now(k) && !ended(k))
    ensures now(n) <==> Since(did, ended, n)
  {
    if n > 0 {
      FollowsSince(now, did, ended, n - 1);
      SinceOneMore(did, ended, n - 1);
    }
  }

  lemma SinceOneMore(did: nat -> bool, ended: nat -> bool, n: nat)
    ensures Since(did, ended, n + 1) <==> did(n) || (Since(did, ended, n) && !ended(n))
  {
    if did(n) {
      assert n < n + 1 && did(n) && forall j: nat | n < j < n + 1 :: !ended(j);
    }
    if Since(did, ended, n) && !ended(n) {
      var i: nat :| i < n && did(i) && forall j: nat | i < j < n :: !ended(j);
      assert i < n + 1 && did(i) && forall j: nat | i < j < n + 1 :: !ended(j);
    }
    if Since(did, ended, n + 1) && !did(n) {
      var i: nat :| i < n + 1 && did(i) && forall j: nat | i < j < n + 1 :: !ended(j);
      assert i < n && did(i) && forall j: nat | i < j < n :: !ended(j);
    }
  }

  /** It was done at some step. */
  ghost predicate Ever(did: nat -> bool, n: nat)
  {
    exists i: nat :: i < n && did(i)
  }

  /** What every step that does it brings about, and every other keeps, holds exactly if it was ever done. */
  lemma {:induction false} FollowsEver(now: nat -> bool, did: nat -> bool, n: nat)
    requires !now(0) && forall k: nat | k < n :: now(k + 1) <==> did(k) || now(k)
    ensures now(n) <==> Ever(did, n)
  {
    if n > 0 {
      FollowsEver(now, did, n - 1);
    }
  }
}
