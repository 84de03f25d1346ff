/**
 * How the program and the client fit together: what a refresh shows after
 * a transaction, given that the node answers `program.account.tweet.all()`
 * with every tweet account of the store, each once, in any order; and the
 * transactions the program's test suite sends.
 */
module Scenarios {
  import opened Wrappers
  import opened Text
  import opened TwitterProgram
  import opened UseTwitter

  /** `s` is an answer to `program.account.tweet.all()` on the store `ledger`. */
  predicate IsListingOf(ledger: map<Pubkey, Tweet>, s: seq<TweetAccount>) {
    && (forall i | 0 <= i < |s| :: s[i].publicKey in ledger && ledger[s[i].publicKey] == s[i].account)
    && (forall i, j | 0 <= i < j < |s| :: s[i].publicKey != s[j].publicKey)
    && (forall k | k in ledger :: exists i | 0 <= i < |s| :: s[i].publicKey == k)
  }

  function KeysOf(s: seq<TweetAccount>): set<Pubkey> {
    set i | 0 <= i < |s| :: s[i].publicKey
  }

  /** A list of accounts with pairwise different keys has as many keys as entries. */
  lemma {:induction false} DistinctKeysCount(s: seq<TweetAccount>)
    requires forall i, j | 0 <= i < j < |s| :: s[i].publicKey != s[j].publicKey
    ensures |KeysOf(s)| == |s|
  {
    if s != [] {
      var init, last := s[..|s| - 1], s[|s| - 1];
      DistinctKeysCount(init);
      assert KeysOf(s) == KeysOf(init) + {last.publicKey} by {
        forall k | k in KeysOf(s) ensures k in KeysOf(init) + {last.publicKey} {
          var i :| 0 <= i < |s| && s[i].publicKey == k;
          if i < |s| - 1 { assert init[i].publicKey == k; }
        }
      }
      assert last.publicKey !in KeysOf(init) by {
        forall i | 0 <= i < |init| ensures init[i].publicKey != last.publicKey {
          assert init[i] == s[i];
        }
      }
    }
  }

  /** A full listing of the store has exactly one entry per account. */
  lemma {:induction false} ListingLength(ledger: map<Pubkey, Tweet>, s: seq<TweetAccount>)
    requires IsListingOf(ledger, s)
    ensures |s| == |ledger|
  {
    DistinctKeysCount(s);
    assert KeysOf(s) == ledger.Keys by {
      forall k | k in ledger ensures k in KeysOf(s) {
        var i :| 0 <= i < |s| && s[i].publicKey == k;
      }
    }
  }

  /**
   * After a successful `send_tweet`, the refreshed list shows the new tweet,
   * under its key and with the data as sent, and holds exactly one more
   * tweet than the store had before.
   */
  lemma {:induction false} PostedTweetIsListedAfterRefresh(ledger: map<Pubkey, Tweet>, req: SendTweetRequest, s: seq<TweetAccount>)
    requires req.signed && req.tweetKey != req.authority && req.tweetKey !in ledger && RunHandler(req) == Pass
    requires IsListingOf(ledger[req.tweetKey := NewTweet(req)], s)
    ensures TweetAccount(req.tweetKey, Tweet(req.authority, req.clock, req.topic, req.content)) in SortNewestFirst(s)
    ensures |SortNewestFirst(s)| == |ledger| + 1
  {
    var after := ledger[req.tweetKey := NewTweet(req)];
    assert Step(ledger, req).ledger == after;
    AcceptedTweetIsStoredAsSent(ledger, req);
    var i :| 0 <= i < |s| && s[i].publicKey == req.tweetKey;
    assert s[i] == TweetAccount(req.tweetKey, Tweet(req.authority, req.clock, req.topic, req.content));
    SortPermutes(s);
    assert s[i] in multiset(SortNewestFirst(s));
    ListingLength(after, s);
    assert after.Keys == ledger.Keys + {req.tweetKey};
    assert |after.Keys| == |ledger.Keys| + 1;
  }

  /** After a failed `send_tweet`, a refresh lists as many tweets as before. */
  lemma {:induction false} RejectedTweetLeavesListingCount(ledger: map<Pubkey, Tweet>, req: SendTweetRequest, s: seq<TweetAccount>)
    requires Step(ledger, req).outcome.Fail?
    requires IsListingOf(Step(ledger, req).ledger, s)
    ensures |SortNewestFirst(s)| == |ledger|
  {
    ListingLength(ledger, s);
  }

  /** The strings of the test "can send a new tweet". */
  const TEST_TOPIC: string := "solana"
  const TEST_CONTENT: string := "Just setting up " + "my dApp Twitter " + "clone on Solana!"

  /** Both strings of the test are ASCII and within the limits, and neither is blank. */
  lemma {:induction false} TestStringsAreAdmissible()
    ensures Admissible(TEST_TOPIC, TEST_CONTENT) && IsAscii(TEST_TOPIC) && IsAscii(TEST_CONTENT)
  {
    assert !IsWhitespace(TEST_TOPIC[0]) && !IsWhitespace(TEST_CONTENT[0]);
    assert IsAscii("Just setting up ") && IsAscii("my dApp Twitter ") && IsAscii("clone on Solana!");
    AsciiConcat("Just setting up ", "my dApp Twitter ");
    AsciiConcat("Just setting up " + "my dApp Twitter ", "clone on Solana!");
  }

  /**
   * "can send a new tweet": the test's topic and content, signed, at a
   * freshly generated key (not the wallet's), are stored with the signer,
   * the clock and the strings as sent.
   */
  lemma {:induction false} CanSendNewTweet(ledger: map<Pubkey, Tweet>, key: Pubkey, wallet: Pubkey, clock: I64)
    requires key !in ledger && key != wallet
    ensures var req := SendTweetRequest(key, wallet, true, clock, TEST_TOPIC, TEST_CONTENT);
      && Step(ledger, req).outcome == Pass
      && Step(ledger, req).ledger[key] == Tweet(wallet, clock, TEST_TOPIC, TEST_CONTENT)
  {
    TestStringsAreAdmissible();
    AdmissibleAsciiTweetFits(Tweet(wallet, clock, TEST_TOPIC, TEST_CONTENT));
  }

  /**
   * "fails when content is too long": 281 characters of content under the
   * topic "test" fail with `ContentTooLong`, and no account is created.
   */
  lemma {:induction false} ContentOf281CharsFails(ledger: map<Pubkey, Tweet>, key: Pubkey, wallet: Pubkey, clock: I64)
    requires key !in ledger && key != wallet
    ensures var req := SendTweetRequest(key, wallet, true, clock, "test", seq(281, _ => 'a'));
      Step(ledger, req) == StepResult(Fail(Program(ContentTooLong)), ledger)
  {
  }

  /**
   * The client end to end: a connected user posts an admissible tweet that
   * fits its account to a fresh key, the refresh lists the whole store, and
   * the tweet then shows in the list the hook holds.
   */
  method PostAndRefresh(client: TwitterClient, ledger: Ledger, wallet: Pubkey, tweetKey: Pubkey, clock: I64,
                        signature: string, topic: string, content: string, listing: seq<TweetAccount>)
    returns (r: Result<string, SendError>)
    requires ledger.Valid() && tweetKey !in ledger.accounts && tweetKey != wallet
    requires Admissible(topic, content) && Fits(Tweet(wallet, clock, topic, content))
    requires IsListingOf(ledger.accounts[tweetKey := Tweet(wallet, clock, topic, content)], listing)
    modifies client, ledger
    ensures r == Success(signature)
    ensures TweetAccount(tweetKey, Tweet(wallet, clock, topic, content)) in client.tweets
    ensures NewestFirst(client.tweets) && !client.loading
  {
    r := client.SendTweet(true, Some(wallet), ledger, tweetKey, clock, Submitted(signature), topic, content, Fetched(listing));
    var req := SendTweetRequest(tweetKey, wallet, true, clock, topic, content);
    PostedTweetIsListedAfterRefresh(old(ledger.accounts), req, listing);
    SortIsNewestFirst(listing);
  }
}
