/**
 * The client hook `useTwitter`: it holds the list of tweets shown to the
 * user and a loading flag, refreshes the list from the chain newest first,
 * and sends a tweet through the program before refreshing.
 *
 * The program handle and the wallet are inputs (present or absent); what
 * the node answers to `program.account.tweet.all()` is an input `Listing`.
 */
module UseTwitter {
  import opened Wrappers
  import opened TwitterProgram

  /** A tweet account as the client receives it: its key and its decoded data. */
  datatype TweetAccount = TweetAccount(publicKey: Pubkey, account: Tweet)

  function Timestamp(a: TweetAccount): int {
    a.account.timestamp
  }

  /**
   * The comparator given to `Array.sort`, `b.timestamp - a.timestamp`:
   * negative when `a` is newer and must come first, zero on a tie.
   */
  function CompareByTimestamp(a: TweetAccount, b: TweetAccount): (d: int)
    ensures d < 0 <==> Timestamp(a) > Timestamp(b)
    ensures d == 0 <==> Timestamp(a) == Timestamp(b)
    ensures d > 0 <==> Timestamp(b) > Timestamp(a)
  {
    Timestamp(b) - Timestamp(a)
  }

  /** No tweet is followed by a newer one. */
  predicate NewestFirst(s: seq<TweetAccount>) {
    forall i, j | 0 <= i < j < |s| :: Timestamp(s[i]) >= Timestamp(s[j])
  }

  /** The tweets of `s` stamped `t`, in their order in `s`. */
  function WithTimestamp(s: seq<TweetAccount>, t: int): seq<TweetAccount> {
    if s == [] then []
    else WithTimestamp(s[..|s| - 1], t) + (if Timestamp(s[|s| - 1]) == t then [s[|s| - 1]] else [])
  }

  /**
   * One step of a stable sort by the comparator: `x`, which came after
   * every element of `s`, moves left past exactly the elements the
   * comparator places after it.
   */
  function Insert(s: seq<TweetAccount>, x: TweetAccount): (r: seq<TweetAccount>)
    ensures |r| == |s| + 1
  {
    if s == [] || CompareByTimestamp(s[|s| - 1], x) <= 0 then s + [x]
    else Insert(s[..|s| - 1], x) + [s[|s| - 1]]
  }

  /** `Array.sort` with `CompareByTimestamp`, which the language specifies to be stable. */
  function SortNewestFirst(s: seq<TweetAccount>): (r: seq<TweetAccount>)
    ensures |r| == |s|
  {
    if s == [] then [] else Insert(SortNewestFirst(s[..|s| - 1]), s[|s| - 1])
  }

  lemma {:induction false} InsertPermutes(s: seq<TweetAccount>, x: TweetAccount)
    ensures multiset(Insert(s, x)) == multiset(s) + multiset{x}
  {
    if s != [] && CompareByTimestamp(s[|s| - 1], x) > 0 {
      var init := s[..|s| - 1];
      InsertPermutes(init, x);
      assert s == init + [s[|s| - 1]];
    }
  }

  lemma {:induction false} InsertKeepsNewestFirst(s: seq<TweetAccount>, x: TweetAccount)
    requires NewestFirst(s)
    ensures NewestFirst(Insert(s, x))
  {
    if s != [] && CompareByTimestamp(s[|s| - 1], x) > 0 {
      var init, last := s[..|s| - 1], s[|s| - 1];
      InsertKeepsNewestFirst(init, x);
      InsertPermutes(init, x);
      var r := Insert(init, x);
      forall i | 0 <= i < |r| ensures Timestamp(r[i]) >= Timestamp(last) {
        assert r[i] in multiset(init) + multiset{x} by { assert r[i] in multiset(r); }
        if r[i] != x {
          var k :| 0 <= k < |init| && init[k] == r[i];
          assert s[k] == r[i];
        }
      }
    }
  }

  lemma {:induction false} WithTimestampOfSnoc(s: seq<TweetAccount>, y: TweetAccount, t: int)
    ensures WithTimestamp(s + [y], t) == WithTimestamp(s, t) + WithTimestamp([y], t)
  {
    assert (s + [y])[..|s + [y]| - 1] == s;
    assert [y][..0] == [];
  }

  /** Inserting `x` puts it after every earlier tweet with the same timestamp. */
  lemma {:induction false} InsertKeepsTies(s: seq<TweetAccount>, x: TweetAccount, t: int)
    ensures WithTimestamp(Insert(s, x), t) == WithTimestamp(s, t) + WithTimestamp([x], t)
  {
    if s == [] || CompareByTimestamp(s[|s| - 1], x) <= 0 {
      WithTimestampOfSnoc(s, x, t);
    } else {
      var init, last := s[..|s| - 1], s[|s| - 1];
      InsertKeepsTies(init, x, t);
      WithTimestampOfSnoc(Insert(init, x), last, t);
      WithTimestampOfSnoc(init, last, t);
      assert s == init + [last];
      assert [x][..0] == [] && [last][..0] == [];
    }
  }

  /** The sorted list is a permutation of the fetched one. */
  lemma {:induction false} SortPermutes(s: seq<TweetAccount>)
    ensures multiset(SortNewestFirst(s)) == multiset(s)
  {
    if s != [] {
      var init := s[..|s| - 1];
      SortPermutes(init);
      InsertPermutes(SortNewestFirst(init), s[|s| - 1]);
      assert s == init + [s[|s| - 1]];
    }
  }

  /** The sorted list is newest first. */
  lemma {:induction false} SortIsNewestFirst(s: seq<TweetAccount>)
    ensures NewestFirst(SortNewestFirst(s))
  {
    if s != [] {
      SortIsNewestFirst(s[..|s| - 1]);
      InsertKeepsNewestFirst(SortNewestFirst(s[..|s| - 1]), s[|s| - 1]);
    }
  }

  /** Tweets with equal timestamps keep the order in which they were fetched. */
  lemma {:induction false} SortIsStable(s: seq<TweetAccount>, t: int)
    ensures WithTimestamp(SortNewestFirst(s), t) == WithTimestamp(s, t)
  {
    if s != [] {
      var init, last := s[..|s| - 1], s[|s| - 1];
      SortIsStable(init, t);
      InsertKeepsTies(SortNewestFirst(init), last, t);
      assert [last][..0] == [];
    }
  }

  /** A list that is already newest first comes out of the sort unchanged. */
  lemma {:induction false} SortKeepsNewestFirstInput(s: seq<TweetAccount>)
    requires NewestFirst(s)
    ensures SortNewestFirst(s) == s
  {
    if s != [] {
      var init := s[..|s| - 1];
      SortKeepsNewestFirstInput(init);
      assert s == init + [s[|s| - 1]];
    }
  }

  /** Sorting the shown list again changes nothing. */
  lemma {:induction false} SortIsIdempotent(s: seq<TweetAccount>)
    ensures SortNewestFirst(SortNewestFirst(s)) == SortNewestFirst(s)
  {
    SortIsNewestFirst(s);
    SortKeepsNewestFirstInput(SortNewestFirst(s));
  }

  lemma {:induction false} WithTimestampMembers(s: seq<TweetAccount>, t: int, x: TweetAccount)
    ensures x in WithTimestamp(s, t) <==> x in s && Timestamp(x) == t
  {
    if s != [] {
      var init := s[..|s| - 1];
      WithTimestampMembers(init, t, x);
      assert s == init + [s[|s| - 1]];
    }
  }

  lemma {:induction false} SnocCancel(x: seq<TweetAccount>, y: seq<TweetAccount>, e: seq<TweetAccount>)
    requires x + e == y + e
    ensures x == y
  {
    assert |x| == |y|;
    assert x == (x + e)[..|x|] && y == (y + e)[..|y|];
  }

  /** In two newest-first lists with the same ties, the last tweet of `q` is no newer than the last of `r`. */
  lemma {:induction false} LastIsOldest(r: seq<TweetAccount>, q: seq<TweetAccount>)
    requires r != [] && q != [] && NewestFirst(q)
    requires forall t :: WithTimestamp(r, t) == WithTimestamp(q, t)
    ensures Timestamp(q[|q| - 1]) <= Timestamp(r[|r| - 1])
  {
    var a := r[|r| - 1];
    var t := Timestamp(a);
    WithTimestampMembers(r, t, a);
    WithTimestampMembers(q, t, a);
    var k :| 0 <= k < |q| && q[k] == a;
  }

  /** Only the empty list has the ties of the empty list. */
  lemma {:induction false} EmptyTies(r: seq<TweetAccount>, q: seq<TweetAccount>)
    requires r == [] && forall t :: WithTimestamp(r, t) == WithTimestamp(q, t)
    ensures q == []
  {
    if q != [] {
      var t := Timestamp(q[|q| - 1]);
      WithTimestampMembers(q, t, q[|q| - 1]);
    }
  }

  /**
   * Two newest-first lists that agree on the order of the tweets of each
   * timestamp are the same list.
   */
  lemma {:induction false} NewestFirstIsDeterminedByTies(r: seq<TweetAccount>, q: seq<TweetAccount>)
    requires NewestFirst(r) && NewestFirst(q)
    requires forall t :: WithTimestamp(r, t) == WithTimestamp(q, t)
    ensures r == q
  {
    if r == [] {
      EmptyTies(r, q);
    } else if q == [] {
      EmptyTies(q, r);
    } else {
      var a, b := r[|r| - 1], q[|q| - 1];
      var ri, qi := r[..|r| - 1], q[..|q| - 1];
      LastIsOldest(r, q);
      LastIsOldest(q, r);
      var m := Timestamp(a);
      assert a == b by {
        var w := WithTimestamp(r, m);
        assert w == WithTimestamp(ri, m) + [a];
        assert w == WithTimestamp(q, m) == WithTimestamp(qi, m) + [b];
        assert w[|w| - 1] == a && w[|w| - 1] == b;
      }
      forall t ensures WithTimestamp(ri, t) == WithTimestamp(qi, t) {
        var e := if m == t then [a] else [];
        assert WithTimestamp(r, t) == WithTimestamp(ri, t) + e;
        assert WithTimestamp(q, t) == WithTimestamp(qi, t) + e;
        SnocCancel(WithTimestamp(ri, t), WithTimestamp(qi, t), e);
      }
      NewestFirstIsDeterminedByTies(ri, qi);
      assert r == ri + [a] && q == qi + [b];
    }
  }

  /**
   * The sort is the only arrangement that is newest first and keeps the
   * fetched order among equal timestamps.
   */
  lemma {:induction false} SortIsUnique(s: seq<TweetAccount>, r: seq<TweetAccount>)
    requires NewestFirst(r)
    requires forall t :: WithTimestamp(r, t) == WithTimestamp(s, t)
    ensures r == SortNewestFirst(s)
  {
    SortIsNewestFirst(s);
    forall t ensures WithTimestamp(r, t) == WithTimestamp(SortNewestFirst(s), t) {
      SortIsStable(s, t);
    }
    NewestFirstIsDeterminedByTies(r, SortNewestFirst(s));
  }

  /**
   * Two fetches give the same list whenever the node returns the same
   * tweets with the tweets of each timestamp in the same order, whatever
   * the order across timestamps.
   */
  lemma {:induction false} FetchedViewDependsOnlyOnTies(s1: seq<TweetAccount>, s2: seq<TweetAccount>)
    requires forall t :: WithTimestamp(s1, t) == WithTimestamp(s2, t)
    ensures SortNewestFirst(s1) == SortNewestFirst(s2)
  {
    SortIsNewestFirst(s1);
    forall t ensures WithTimestamp(SortNewestFirst(s1), t) == WithTimestamp(s2, t) {
      SortIsStable(s1, t);
    }
    SortIsUnique(s2, SortNewestFirst(s1));
  }

  /**
   * The node's order of tweets with equal timestamps shows through: two
   * answers over the same store that list such tweets the other way round
   * are shown differently.
   */
  lemma {:induction false} TieOrderIsVisible(a: TweetAccount, b: TweetAccount)
    requires Timestamp(a) == Timestamp(b) && a != b
    ensures SortNewestFirst([a, b]) == [a, b]
    ensures SortNewestFirst([b, a]) == [b, a]
  {
    assert [a, b][..1] == [a] && [b, a][..1] == [b];
    assert SortNewestFirst([a]) == [a] by { assert [a][..0] == []; }
    assert SortNewestFirst([b]) == [b] by { assert [b][..0] == []; }
  }

  /** Where the inner loop of the in-place sort stops is where `Insert` puts `x`. */
  lemma {:induction false} InsertAt(s: seq<TweetAccount>, x: TweetAccount, j: nat)
    requires j <= |s|
    requires j == 0 || Timestamp(s[j - 1]) >= Timestamp(x)
    requires forall k | j <= k < |s| :: Timestamp(s[k]) < Timestamp(x)
    ensures Insert(s, x) == s[..j] + [x] + s[j..]
  {
    if j < |s| {
      var init, last := s[..|s| - 1], s[|s| - 1];
      assert CompareByTimestamp(last, x) > 0;
      assert Insert(s, x) == Insert(init, x) + [last];
      assert j == 0 || init[j - 1] == s[j - 1];
      assert forall k | j <= k < |init| :: init[k] == s[k];
      InsertAt(init, x, j);
      assert s[..j] == init[..j];
      assert s[j..] == init[j..] + [last];
    } else {
      assert s[..j] == s && s[j..] == [];
    }
  }

  /**
   * The inner loop of the in-place sort: shifts right, by one place, the
   * end of the sorted prefix `a[..i]` that is older than `x`, and returns
   * the index of the slot this opens.
   */
  method OpenSlot(a: array<TweetAccount>, i: nat, x: TweetAccount) returns (j: nat)
    requires i < a.Length
    modifies a
    ensures j <= i
    ensures j == 0 || Timestamp(old(a[j - 1])) >= Timestamp(x)
    ensures forall k | j <= k < i :: Timestamp(old(a[k])) < Timestamp(x)
    ensures forall k | 0 <= k < j :: a[k] == old(a[k])
    ensures forall k | j < k <= i :: a[k] == old(a[k - 1])
    ensures forall k | i < k < a.Length :: a[k] == old(a[k])
  {
    j := i;
    while j > 0 && CompareByTimestamp(a[j - 1], x) > 0
      invariant 0 <= j <= i
      invariant forall k | 0 <= k < j :: a[k] == old(a[k])
      invariant forall k | j < k <= i :: a[k] == old(a[k - 1])
      invariant forall k | i < k < a.Length :: a[k] == old(a[k])
      invariant forall k | j <= k < i :: Timestamp(old(a[k])) < Timestamp(x)
    {
      a[j] := a[j - 1];
      j := j - 1;
    }
  }

  /** The array after `OpenSlot` and the write of `x` into the slot, as sequences. */
  lemma {:induction false} ShiftedIsInserted(before: seq<TweetAccount>, after: seq<TweetAccount>, i: nat, j: nat, x: TweetAccount)
    requires j <= i < |before| == |after|
    requires j == 0 || Timestamp(before[j - 1]) >= Timestamp(x)
    requires forall k | j <= k < i :: Timestamp(before[k]) < Timestamp(x)
    requires forall k | 0 <= k < j :: after[k] == before[k]
    requires after[j] == x
    requires forall k | j < k <= i :: after[k] == before[k - 1]
    requires forall k | i < k < |after| :: after[k] == before[k]
    ensures after[..i + 1] == Insert(before[..i], x)
    ensures after[i + 1..] == before[i + 1..]
  {
    var sorted := before[..i];
    InsertAt(sorted, x, j);
    var r := sorted[..j] + [x] + sorted[j..];
    forall k | 0 <= k <= i ensures after[k] == r[k] {
      if k < j {
        assert r[k] == sorted[k];
      } else if k == j {
        assert r[k] == x;
      } else {
        assert r[k] == sorted[k - 1];
      }
    }
    assert after[..i + 1] == r;
  }

  /** One pass of the in-place sort: `a[i]` joins the sorted prefix `a[..i]` where `Insert` puts it. */
  method InsertInPlace(a: array<TweetAccount>, i: nat)
    requires i < a.Length
    modifies a
    ensures a[..i + 1] == Insert(old(a[..i]), old(a[i]))
    ensures a[i + 1..] == old(a[i + 1..])
  {
    ghost var before := a[..];
    var x := a[i];
    var j := OpenSlot(a, i, x);
    a[j] := x;
    ShiftedIsInserted(before, a[..], i, j, x);
  }

  /** Sorting one more element of the input is inserting it into the sorted prefix. */
  lemma {:induction false} SortPrefixStep(input: seq<TweetAccount>, i: nat)
    requires i < |input|
    ensures SortNewestFirst(input[..i + 1]) == Insert(SortNewestFirst(input[..i]), input[i])
  {
    assert input[..i + 1][..i] == input[..i];
  }

  /** Two sequences with the same suffix from `i` agree at `i` and from `i + 1`. */
  lemma {:induction false} SuffixStep(p: seq<TweetAccount>, q: seq<TweetAccount>, i: nat)
    requires i < |p| && i < |q| && p[i..] == q[i..]
    ensures p[i] == q[i] && p[i + 1..] == q[i + 1..]
  {
    assert p[i] == p[i..][0] && q[i] == q[i..][0];
    assert p[i + 1..] == p[i..][1..] && q[i + 1..] == q[i..][1..];
  }

  /** `Array.sort` on the fetched array, in place: a stable insertion sort by the comparator. */
  method SortInPlace(a: array<TweetAccount>)
    modifies a
    ensures a[..] == SortNewestFirst(old(a[..]))
  {
    ghost var input := a[..];
    var i := 0;
    while i < a.Length
      invariant 0 <= i <= a.Length
      invariant a[..i] == SortNewestFirst(input[..i])
      invariant a[i..] == input[i..]
    {
      SuffixStep(a[..], input, i);
      InsertInPlace(a, i);
      SortPrefixStep(input, i);
      i := i + 1;
    }
    assert input[..a.Length] == input;
  }

  /** The answer of the node to `program.account.tweet.all()`. */
  datatype Listing = Fetched(accounts: seq<TweetAccount>) | FetchFailed

  /** Whether the wallet signed and the node took the transaction, and its signature if so. */
  datatype Submission = Submitted(signature: string) | NotSubmitted

  /** Why `sendTweet` throws. */
  datatype SendError =
    | NotConnected                // no wallet or no program handle
    | SubmissionFailed            // the wallet or the node did not take the transaction
    | Rejected(error: TxError)    // the transaction ran and failed

  /** The hook's state: the list shown and the loading flag. */
  class TwitterClient {
    var tweets: seq<TweetAccount>
    var loading: bool

    constructor ()
      ensures tweets == [] && !loading
    {
      tweets := [];
      loading := false;
    }

    /**
     * `fetchTweets`: without a program handle nothing happens; otherwise
     * the list becomes the fetched tweets newest first, or stays as it was
     * if the fetch failed, and loading ends either way.
     */
    method FetchTweets(hasProgram: bool, listing: Listing)
      modifies this
      ensures !hasProgram ==> tweets == old(tweets) && loading == old(loading)
      ensures hasProgram ==> !loading
      ensures hasProgram && listing.Fetched? ==> tweets == SortNewestFirst(listing.accounts)
      ensures hasProgram && listing.FetchFailed? ==> tweets == old(tweets)
    {
      if hasProgram {
        loading := true;
        if listing.Fetched? {
          var all := listing.accounts;
          var fetched := new TweetAccount[|all|](i requires 0 <= i < |all| => all[i]);
          assert fetched[..] == all;
          SortInPlace(fetched);
          tweets := fetched[..];
        }
        loading := false;
      }
    }

    /**
     * `sendTweet`: refuses without wallet and program; otherwise sends
     * `send_tweet` for the fresh key `tweetKey`, signed by the wallet and
     * by the fresh key, and refreshes the list only once the transaction
     * has succeeded. It returns the transaction's signature.
     */
    method SendTweet(hasProgram: bool, wallet: Option<Pubkey>, ledger: Ledger, tweetKey: Pubkey, clock: I64,
                     submission: Submission, topic: string, content: string, refresh: Listing)
      returns (r: Result<string, SendError>)
      requires ledger.Valid()
      modifies this, ledger
      ensures ledger.Valid()
      ensures !hasProgram || wallet.None? ==>
        r == Failure(NotConnected) && unchanged(this) && unchanged(ledger)
      ensures hasProgram && wallet.Some? && submission.NotSubmitted? ==>
        r == Failure(SubmissionFailed) && unchanged(this) && unchanged(ledger)
      ensures hasProgram && wallet.Some? && submission.Submitted? ==>
        var step := Step(old(ledger.accounts), SendTweetRequest(tweetKey, wallet.value, true, clock, topic, content));
        && ledger.accounts == step.ledger
        && (step.outcome.Fail? ==> r == Failure(Rejected(step.outcome.error)) && unchanged(this))
        && (step.outcome.Pass? ==>
              && r == Success(submission.signature)
              && !loading
              && tweets == (if refresh.Fetched? then SortNewestFirst(refresh.accounts) else old(tweets)))
    {
      if !hasProgram || wallet.None? {
        return Failure(NotConnected);
      }
      if submission.NotSubmitted? {
        return Failure(SubmissionFailed);
      }
      var outcome := ledger.SendTweet(tweetKey, wallet.value, true, clock, topic, content);
      if outcome.Fail? {
        return Failure(Rejected(outcome.error));
      }
      FetchTweets(true, refresh);
      r := Success(submission.signature);
    }
  }
}
