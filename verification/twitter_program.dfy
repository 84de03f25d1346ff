/**
 * The on-chain `twitter` program: the `send_tweet` instruction, the `Tweet`
 * account it initialises, its error codes and its space constants.
 *
 * The chain's account store is a map from account key to `Tweet`. One
 * transaction is one `Step`: the runtime's signature check, Anchor's `init`
 * of the tweet account, the handler's validation chain, and Anchor's final
 * serialisation of the account into the space `init` allocated. Any failure
 * aborts the whole transaction, so the map is then left as it was.
 */
module TwitterProgram {
  import opened Wrappers
  import opened Text

  const TOPIC_MAX_LENGTH: nat := 50
  const CONTENT_MAX_LENGTH: nat := 280
  const DISCRIMINATOR_LENGTH: nat := 8
  const PUBKEY_LENGTH: nat := 32
  const TIMESTAMP_LENGTH: nat := 8
  /** Borsh writes a string as a 4-byte length followed by its UTF-8 bytes. */
  const STRING_PREFIX_LENGTH: nat := 4

  /** The space `init` allocates for a tweet account: 386 bytes. */
  const TWEET_ACCOUNT_SIZE: nat :=
    DISCRIMINATOR_LENGTH + PUBKEY_LENGTH + TIMESTAMP_LENGTH
    + (STRING_PREFIX_LENGTH + TOPIC_MAX_LENGTH) + (STRING_PREFIX_LENGTH + CONTENT_MAX_LENGTH)

  type Pubkey = k: seq<bv8> | |k| == 32 witness seq(32, _ => 0)

  /** Rust's `i64`, the type of `Clock::unix_timestamp`. */
  type I64 = x: int | -0x8000_0000_0000_0000 <= x < 0x8000_0000_0000_0000

  datatype Tweet = Tweet(authority: Pubkey, timestamp: I64, topic: string, content: string)

  datatype ErrorCode = TopicCannotBeEmpty | ContentCannotBeEmpty | TopicTooLong | ContentTooLong

  /**
   * Why a `send_tweet` transaction fails: one of the program's own codes, or
   * a rejection by the runtime or by Anchor around the handler.
   */
  datatype TxError =
    | Program(code: ErrorCode)
    | MissingSignature        // a required signer did not sign
    | TryingToInitPayerAsProgramAccount  // `init` at the key of the paying wallet itself
    | AccountAlreadyInUse     // the System Program's refusal, inside `init`, of a key that holds a tweet
    | AccountDidNotSerialize  // the populated account does not fit its space

  /** The arguments and accounts of one `send_tweet` transaction. */
  datatype SendTweetRequest = SendTweetRequest(
    tweetKey: Pubkey,  // the fresh account `init` creates
    authority: Pubkey, // the sending wallet
    signed: bool,      // both the wallet and the tweet key signed
    clock: I64,        // `Clock::get()` at execution time
    topic: string,
    content: string)

  datatype StepResult = StepResult(outcome: Outcome<TxError>, ledger: map<Pubkey, Tweet>)

  /** What the program requires of a topic and a content, measured in characters. */
  predicate Admissible(topic: string, content: string) {
    && |topic| <= TOPIC_MAX_LENGTH
    && |content| <= CONTENT_MAX_LENGTH
    && !IsBlank(topic)
    && !IsBlank(content)
  }

  /** Bytes the account's data takes: discriminator, then the Borsh encoding of the fields. */
  function SerializedSize(t: Tweet): (n: nat)
    ensures 56 + |t.topic| + |t.content| <= n <= 56 + 4 * (|t.topic| + |t.content|)
  {
    DISCRIMINATOR_LENGTH + PUBKEY_LENGTH + TIMESTAMP_LENGTH
    + STRING_PREFIX_LENGTH + ByteLen(t.topic) + STRING_PREFIX_LENGTH + ByteLen(t.content)
  }

  predicate Fits(t: Tweet) {
    SerializedSize(t) <= TWEET_ACCOUNT_SIZE
  }

  /** What holds of every account the program has written. */
  predicate WellFormed(t: Tweet) {
    Admissible(t.topic, t.content) && Fits(t)
  }

  predicate ValidLedger(ledger: map<Pubkey, Tweet>) {
    forall k | k in ledger :: WellFormed(ledger[k])
  }

  /**
   * The handler's validation chain: the first failing check decides the
   * error, in the order length of topic, length of content, blank topic,
   * blank content.
   */
  function ValidateArgs(topic: string, content: string): (r: Outcome<ErrorCode>)
    ensures r == Fail(TopicTooLong) <==> |topic| > TOPIC_MAX_LENGTH
    ensures r == Fail(ContentTooLong) <==> |topic| <= TOPIC_MAX_LENGTH && |content| > CONTENT_MAX_LENGTH
    ensures r == Fail(TopicCannotBeEmpty) <==>
      |topic| <= TOPIC_MAX_LENGTH && |content| <= CONTENT_MAX_LENGTH && IsBlank(topic)
    ensures r == Fail(ContentCannotBeEmpty) <==>
      |topic| <= TOPIC_MAX_LENGTH && |content| <= CONTENT_MAX_LENGTH && !IsBlank(topic) && IsBlank(content)
    ensures r == Pass <==> Admissible(topic, content)
  {
    if |topic| > TOPIC_MAX_LENGTH then Fail(TopicTooLong)
    else if |content| > CONTENT_MAX_LENGTH then Fail(ContentTooLong)
    else if Trim(topic) == [] then Fail(TopicCannotBeEmpty)
    else if Trim(content) == [] then Fail(ContentCannotBeEmpty)
    else Pass
  }

  /** The account `send_tweet` populates: signer, clock and the two strings as given. */
  function NewTweet(req: SendTweetRequest): Tweet {
    Tweet(req.authority, req.clock, req.topic, req.content)
  }

  /**
   * What happens once the tweet account is initialised: the handler's
   * validation chain, then Anchor's serialisation of the populated account
   * into its allocated space.
   */
  function RunHandler(req: SendTweetRequest): (r: Outcome<TxError>)
    ensures r.Fail? ==> r.error.Program? || r.error == AccountDidNotSerialize
    ensures r.Fail? && r.error.Program? <==> ValidateArgs(req.topic, req.content).Fail?
    ensures r.Fail? && r.error.Program? ==> ValidateArgs(req.topic, req.content) == Fail(r.error.code)
    ensures r == Pass <==> Admissible(req.topic, req.content) && Fits(NewTweet(req))
  {
    var check := ValidateArgs(req.topic, req.content);
    if check.Fail? then Fail(Program(check.error))
    else if !Fits(NewTweet(req)) then Fail(AccountDidNotSerialize)
    else Pass
  }

  /**
   * One `send_tweet` transaction against the account store `ledger`.
   * Before the handler runs, the runtime checks the signatures and `init`
   * refuses the payer's own key and, through the System Program, a key
   * that already holds a tweet. On success exactly one account appears, at
   * `tweetKey`, holding the signer, the clock and the two strings; on any
   * failure nothing changes.
   */
  function Step(ledger: map<Pubkey, Tweet>, req: SendTweetRequest): (r: StepResult)
    ensures r.outcome == Fail(MissingSignature) <==> !req.signed
    ensures r.outcome == Fail(TryingToInitPayerAsProgramAccount) <==> req.signed && req.tweetKey == req.authority
    ensures r.outcome == Fail(AccountAlreadyInUse) <==>
      req.signed && req.tweetKey != req.authority && req.tweetKey in ledger
    ensures req.signed && req.tweetKey != req.authority && req.tweetKey !in ledger ==> r.outcome == RunHandler(req)
    ensures r.outcome.Fail? ==> r.ledger == ledger
    ensures r.outcome.Pass? ==> r.ledger == ledger[req.tweetKey := NewTweet(req)]
  {
    if !req.signed then StepResult(Fail(MissingSignature), ledger)
    else if req.tweetKey == req.authority then StepResult(Fail(TryingToInitPayerAsProgramAccount), ledger)
    else if req.tweetKey in ledger then StepResult(Fail(AccountAlreadyInUse), ledger)
    else
      var outcome := RunHandler(req);
      if outcome.Fail? then StepResult(outcome, ledger)
      else StepResult(Pass, ledger[req.tweetKey := NewTweet(req)])
  }

  /**
   * A successful transaction adds exactly one account, at the fresh key,
   * holding the signer, the clock and the strings exactly as sent; every
   * other account is untouched.
   */
  lemma {:induction false} AcceptedTweetIsStoredAsSent(ledger: map<Pubkey, Tweet>, req: SendTweetRequest)
    requires Step(ledger, req).outcome.Pass?
    ensures var after := Step(ledger, req).ledger;
      && req.tweetKey !in ledger
      && after.Keys == ledger.Keys + {req.tweetKey}
      && after[req.tweetKey].authority == req.authority
      && after[req.tweetKey].timestamp == req.clock
      && after[req.tweetKey].topic == req.topic
      && after[req.tweetKey].content == req.content
      && forall k | k in ledger :: after[k] == ledger[k]
  {
    var r := Step(ledger, req);
    assert req.signed && req.tweetKey != req.authority && req.tweetKey !in ledger;
    assert r.ledger == ledger[req.tweetKey := NewTweet(req)];
    InsertAtFreshKey(ledger, req.tweetKey, NewTweet(req));
  }

  /** Storing at a fresh key adds that key alone and keeps every other account. */
  lemma {:induction false} InsertAtFreshKey(ledger: map<Pubkey, Tweet>, key: Pubkey, t: Tweet)
    requires key !in ledger
    ensures ledger[key := t].Keys == ledger.Keys + {key}
    ensures ledger[key := t][key] == t
    ensures forall k | k in ledger :: ledger[key := t][k] == ledger[k]
  {
  }

  /** Every account a transaction leaves in the store satisfies the program's limits and fits its space. */
  lemma {:induction false} StepKeepsLedgerValid(ledger: map<Pubkey, Tweet>, req: SendTweetRequest)
    requires ValidLedger(ledger)
    ensures ValidLedger(Step(ledger, req).ledger)
  {
  }

  /** The chain's tweet accounts, updated in place by `send_tweet`. */
  class Ledger {
    var accounts: map<Pubkey, Tweet>

    ghost predicate Valid()
      reads this
    {
      ValidLedger(accounts)
    }

    constructor ()
      ensures Valid() && accounts == map[]
    {
      accounts := map[];
    }

    /** Executes one `send_tweet` transaction. */
    method SendTweet(tweetKey: Pubkey, authority: Pubkey, signed: bool, clock: I64, topic: string, content: string)
      returns (outcome: Outcome<TxError>)
      requires Valid()
      modifies this
      ensures Valid()
      ensures StepResult(outcome, accounts)
        == Step(old(accounts), SendTweetRequest(tweetKey, authority, signed, clock, topic, content))
    {
      if !signed {
        return Fail(MissingSignature);
      }
      if tweetKey == authority {
        return Fail(TryingToInitPayerAsProgramAccount);
      }
      if tweetKey in accounts {
        return Fail(AccountAlreadyInUse);
      }
      var check := ValidateArgs(topic, content);
      if check.Fail? {
        return Fail(Program(check.error));
      }
      var tweet := Tweet(authority, clock, topic, content);
      if !Fits(tweet) {
        return Fail(AccountDidNotSerialize);
      }
      StepKeepsLedgerValid(accounts, SendTweetRequest(tweetKey, authority, signed, clock, topic, content));
      accounts := accounts[tweetKey := tweet];
      outcome := Pass;
    }
  }

  /** Every stored account respects both length limits, counted in characters. */
  lemma {:induction false} StoredTweetsRespectLimits(ledger: map<Pubkey, Tweet>, k: Pubkey)
    requires ValidLedger(ledger) && k in ledger
    ensures |ledger[k].topic| <= TOPIC_MAX_LENGTH && |ledger[k].content| <= CONTENT_MAX_LENGTH
    ensures Trim(ledger[k].topic) != [] && Trim(ledger[k].content) != []
  {
  }

  /** A topic over the limit is rejected as too long even when it is all whitespace. */
  lemma {:induction false} BlankOverlongTopicIsTooLong(ledger: map<Pubkey, Tweet>, req: SendTweetRequest)
    requires req.signed && req.tweetKey != req.authority && req.tweetKey !in ledger
    requires |req.topic| > TOPIC_MAX_LENGTH && IsBlank(req.topic)
    ensures Step(ledger, req) == StepResult(Fail(Program(TopicTooLong)), ledger)
  {
  }

  /**
   * A second `send_tweet` at a key that already holds a tweet fails and
   * leaves the first tweet as it was: with `AccountAlreadyInUse` unless its
   * signer is that key itself, which `init` refuses first.
   */
  lemma {:induction false} SecondInitAtKeyFails(ledger: map<Pubkey, Tweet>, first: SendTweetRequest, second: SendTweetRequest)
    requires first.signed && first.tweetKey != first.authority && first.tweetKey !in ledger && RunHandler(first) == Pass
    requires second.signed && second.tweetKey == first.tweetKey
    ensures var after := Step(ledger, first).ledger;
      && Step(after, second).outcome.Fail?
      && Step(after, second).ledger == after
      && (second.authority != second.tweetKey ==> Step(after, second).outcome == Fail(AccountAlreadyInUse))
      && Step(after, second).ledger[first.tweetKey] == Tweet(first.authority, first.clock, first.topic, first.content)
  {
  }

  /**
   * Space is counted in bytes but the limits in characters: the allocated
   * space holds every admissible tweet whose strings are ASCII.
   */
  lemma {:induction false} AdmissibleAsciiTweetFits(t: Tweet)
    requires Admissible(t.topic, t.content) && IsAscii(t.topic) && IsAscii(t.content)
    ensures Fits(t)
  {
    ByteLenIsCharCountIffAscii(t.topic);
    ByteLenIsCharCountIffAscii(t.content);
  }

  /** Byte bounds within the limits are what makes a tweet fit. */
  lemma {:induction false} ByteBoundedTweetFits(t: Tweet)
    requires ByteLen(t.topic) <= TOPIC_MAX_LENGTH && ByteLen(t.content) <= CONTENT_MAX_LENGTH
    ensures Fits(t)
  {
  }

  /**
   * The validation chain admits strings that do not fit the account: a
   * one-letter topic with 280 copies of 'é' (two bytes each) passes every
   * check and the transaction then fails with `AccountDidNotSerialize`.
   */
  lemma {:induction false} AdmissibleTweetMayNotFit(ledger: map<Pubkey, Tweet>, key: Pubkey, authority: Pubkey, clock: I64)
    requires key !in ledger && key != authority
    ensures var content := seq(280, _ => '\U{E9}');
      var req := SendTweetRequest(key, authority, true, clock, "a", content);
      && ValidateArgs("a", content) == Pass
      && TWEET_ACCOUNT_SIZE == 386
      && SerializedSize(NewTweet(req)) == 617
      && Step(ledger, req) == StepResult(Fail(AccountDidNotSerialize), ledger)
  {
    var content := seq(280, _ => '\U{E9}');
    ByteLenOfRepeat('\U{E9}', 280);
    assert ByteLen("a") == 1 by { assert "a"[..0] == []; }
    assert !IsBlank(content) by { assert !IsWhitespace(content[0]); }
    assert !IsBlank("a") by { assert !IsWhitespace("a"[0]); }
  }

  /**
   * The validation the account size calls for: the same chain with both
   * limits measured in UTF-8 bytes (Rust's `str::len`). Whatever it admits
   * fits the account, and it admits nothing the character-counting chain
   * rejects.
   */
  function ValidateArgsByBytes(topic: string, content: string): (r: Outcome<ErrorCode>)
    ensures r == Pass ==> forall a: Pubkey, ts: I64 :: Fits(Tweet(a, ts, topic, content))
    ensures r == Pass ==> ValidateArgs(topic, content) == Pass
    ensures |topic| > TOPIC_MAX_LENGTH ==> r == Fail(TopicTooLong)
  {
    if ByteLen(topic) > TOPIC_MAX_LENGTH then Fail(TopicTooLong)
    else if ByteLen(content) > CONTENT_MAX_LENGTH then Fail(ContentTooLong)
    else if Trim(topic) == [] then Fail(TopicCannotBeEmpty)
    else if Trim(content) == [] then Fail(ContentCannotBeEmpty)
    else Pass
  }

  /** On ASCII strings the byte-counting chain decides exactly as the character-counting one. */
  lemma {:induction false} ByteValidationAgreesOnAscii(topic: string, content: string)
    requires IsAscii(topic) && IsAscii(content)
    ensures ValidateArgsByBytes(topic, content) == ValidateArgs(topic, content)
  {
    ByteLenIsCharCountIffAscii(topic);
    ByteLenIsCharCountIffAscii(content);
  }

  /**
   * With the byte-counting chain, every signed transaction at a fresh key
   * that the chain admits is stored: `AccountDidNotSerialize` cannot happen.
   */
  lemma {:induction false} ByteValidatedTweetIsStored(ledger: map<Pubkey, Tweet>, req: SendTweetRequest)
    requires req.signed && req.tweetKey != req.authority && req.tweetKey !in ledger
    requires ValidateArgsByBytes(req.topic, req.content) == Pass
    ensures Step(ledger, req) == StepResult(Pass, ledger[req.tweetKey := NewTweet(req)])
  {
    assert Fits(NewTweet(req));
  }
}
