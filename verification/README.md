# Solana Twitter clone: `send_tweet` and the `useTwitter` hook

This project models, in Dafny, the two halves of a small Twitter clone on
Solana.

- **The on-chain `twitter` program** (an Anchor program). It has one
  instruction, `send_tweet(topic, content)`. The instruction initialises a
  fresh `Tweet` account at a key the client generates. It runs the
  handler's validation chain and checks character counts in this order:
  - a topic longer than 50 is `TopicTooLong`;
  - a content longer than 280 is `ContentTooLong`;
  - a blank topic is `TopicCannotBeEmpty`;
  - a blank content is `ContentCannotBeEmpty`.

  If every check passes, the account gets the signer, the cluster clock's
  Unix timestamp and the two strings. Around the handler sit the runtime's
  signature check and Anchor's `init`. `init` refuses the paying wallet's own
  key (`TryingToInitPayerAsProgramAccount`). It creates the account through
  the System Program, which refuses a key already in use
  (`AccountAlreadyInUse`).
  At the end, Anchor serialises the account into the `TWEET_ACCOUNT_SIZE` =
  8 + 32 + 8 + (4 + 50) + (4 + 280) = 386 bytes `init` allocated. A
  transaction that fails anywhere leaves the store as it was. The chain's
  store of tweet accounts is a `map<Pubkey, Tweet>`:
  - `TwitterProgram.Step` is one transaction on that map.
  - `TwitterProgram.Ledger` is the same store as an object that
    `SendTweet` updates in place.
- **The client hook `useTwitter`**. It keeps the list of tweets shown and a
  loading flag (`UseTwitter.TwitterClient`):
  - `fetchTweets` asks the node for every tweet account, sorts the answer
    newest first with `Array.sort` and a `b - a` comparator on timestamps,
    and stores it. On a failed fetch it keeps the old list. Loading is
    cleared either way.
  - `sendTweet` refuses without a wallet and program. Otherwise it sends the
    transaction and refreshes only after the transaction succeeds.
  - The shown list depends on the order in which the node returns tweets
    with equal timestamps. `getProgramAccounts` promises no order, so two
    fetches over an unchanged store can show two different lists.
    `UseTwitter.TieOrderIsVisible` gives such a pair.
    `UseTwitter.FetchedViewDependsOnlyOnTies` states the exact condition
    under which two answers give the same list.
  - `Array.sort` is stable. It is modelled as a stable insertion sort:
    - a function, `SortNewestFirst`, says what the result is;
    - an in-place method on an array, `SortInPlace`, is proved to compute it.
- **`Text`** holds what the program uses of Rust strings:
  - `chars().count()` is the length of a `seq<char>`;
  - `trim()` strips Unicode White_Space at both ends;
  - `str::len()` is the UTF-8 length, which is what Borsh stores.
- **`Scenarios`** connects the two halves. Given a node that answers with
  every account of the store exactly once, a refresh after a successful
  transaction shows the new tweet. It also restates the program's tests as
  lemmas.

Some failures do not come from the program's own codes:
- The program has no authorisation error code. A transaction missing a
  required signature is rejected before the handler runs. The model names
  this rejection `MissingSignature`; it is not an error name of the chain.
  It stands for three rejections:
  - the runtime's signature verification failing;
  - the System Program's `MissingRequiredSignature` when the tweet key did
    not sign the account creation;
  - Anchor's `AccountNotSigner` from `Signer<'info>` (`lib.rs:56`) when the
    wallet is not a signer.
- A second `init` at a used key fails inside `init`'s call to the System
  Program (`AccountAlreadyInUse`), not with a program code.
- `fetchTweets` does not retry. It logs the error and keeps the previous list.

The comment at `lib.rs:9` says the size is 332. The expression on line 10
that `init` uses evaluates to 386, and the model uses 386.

## Model

| member | source | states |
|---|---|---|
| Text.IsWhitespace | anchor_project/twitter/programs/twitter/src/lib.rs:25-28 | Rust's `char::is_whitespace`, the characters `trim()` strips: the 25 code points with the Unicode White_Space property (defined as a predicate, without a contract of its own) |
| Text.TrimStart | anchor_project/twitter/programs/twitter/src/lib.rs:25-28 | the result is a suffix of the input; everything dropped is whitespace; the result does not start with whitespace |
| Text.TrimEnd | anchor_project/twitter/programs/twitter/src/lib.rs:25-28 | the result is a prefix of the input; everything dropped is whitespace; the result does not end with whitespace |
| Text.Trim | anchor_project/twitter/programs/twitter/src/lib.rs:25-30 | `trim()` is empty exactly when every character is whitespace; a non-empty result has no whitespace at either end |
| Text.CharLen | anchor_project/twitter/programs/twitter/src/lib.rs:39-40 | a character takes 1 to 4 UTF-8 bytes, and exactly 1 when it is ASCII |
| Text.ByteLen | anchor_project/twitter/programs/twitter/src/lib.rs:39-40 | a string's UTF-8 length lies between its character count and four times that |
| Text.ByteLenIsCharCountIffAscii | anchor_project/twitter/programs/twitter/src/lib.rs:19-24 | byte length equals character count if and only if the string is ASCII |
| Text.ByteLenOfRepeat | anchor_project/twitter/programs/twitter/src/lib.rs:22-24 | n copies of one character take n times its byte length |
| TwitterProgram.ValidateArgs | anchor_project/twitter/programs/twitter/src/lib.rs:17-30 | for each of the four error codes, the exact condition under which it is returned, including the precedence of the checks; passing holds exactly for admissible strings |
| TwitterProgram.NewTweet | anchor_project/twitter/programs/twitter/src/lib.rs:37-40 | the account the handler populates: the signer's key, the clock's Unix timestamp, and the topic and content as sent (a definition; its properties are stated by TwitterProgram.AcceptedTweetIsStoredAsSent) |
| TwitterProgram.SerializedSize | anchor_project/twitter/programs/twitter/src/lib.rs:61-67 | the bytes Anchor writes for a tweet: the 8-byte discriminator, then the Borsh encoding of the fields (32-byte key, 8-byte timestamp, and each string as a 4-byte length plus its UTF-8 bytes); it lies between 56 plus the character counts and 56 plus four times them |
| TwitterProgram.Fits | anchor_project/twitter/programs/twitter/src/lib.rs:10 | a tweet fits when its serialised size is at most the `space = TWEET_ACCOUNT_SIZE` of 386 bytes that `init` allocates (lib.rs:52) (a definition; used by TwitterProgram.RunHandler, TwitterProgram.AdmissibleAsciiTweetFits and TwitterProgram.ValidateArgsByBytes) |
| TwitterProgram.RunHandler | anchor_project/twitter/programs/twitter/src/lib.rs:17-43 | after `init`, the outcome is the handler's own error exactly when validation fails, otherwise `AccountDidNotSerialize` when the populated account exceeds 386 bytes, otherwise success |
| TwitterProgram.Step | anchor_project/twitter/programs/twitter/src/lib.rs:47-58 | an unsigned transaction fails with `MissingSignature`; `init` at the payer's own key fails with `TryingToInitPayerAsProgramAccount`; otherwise `init` at a key holding a tweet fails with `AccountAlreadyInUse`; any failure leaves the store unchanged; success stores the new tweet at the fresh key |
| TwitterProgram.AcceptedTweetIsStoredAsSent | anchor_project/twitter/programs/twitter/src/lib.rs:32-40 | after success, exactly one key is added; it holds the signer, the clock and both strings as sent; every other account is unchanged |
| TwitterProgram.StepKeepsLedgerValid | anchor_project/twitter/programs/twitter/src/lib.rs:6-30 | every account in the store respects both limits, is not blank and fits its space, and every transaction preserves this |
| TwitterProgram.StoredTweetsRespectLimits | anchor_project/twitter/programs/twitter/src/lib.rs:61-67 | a stored tweet has a topic of at most 50 characters, a content of at most 280, and neither trims to empty |
| TwitterProgram.BlankOverlongTopicIsTooLong | anchor_project/twitter/programs/twitter/src/lib.rs:19-27 | an all-whitespace topic over 50 characters is reported as `TopicTooLong`, not as empty |
| TwitterProgram.SecondInitAtKeyFails | anchor_project/twitter/programs/twitter/src/lib.rs:49-52 | a second `send_tweet` at a key that already holds a tweet fails and leaves the store as it was, with `AccountAlreadyInUse` unless its signer is that key |
| TwitterProgram.AdmissibleAsciiTweetFits | anchor_project/twitter/programs/twitter/src/lib.rs:6-10 | every admissible tweet whose strings are ASCII fits in the 386 allocated bytes |
| TwitterProgram.ByteBoundedTweetFits | anchor_project/twitter/programs/twitter/src/lib.rs:10 | strings within the limits when counted in bytes always fit the account |
| TwitterProgram.AdmissibleTweetMayNotFit | anchor_project/twitter/programs/twitter/src/lib.rs:19-24 | topic "a" and 280 copies of 'é' pass every check of the chain; the account is 386 bytes but the tweet serialises to 617, so the transaction fails with `AccountDidNotSerialize` |
| TwitterProgram.ValidateArgsByBytes | anchor_project/twitter/programs/twitter/src/lib.rs:10 | the corrected chain counts bytes: whatever it admits fits the account for every signer and clock; it admits nothing the character chain rejects; an overlong topic is still `TopicTooLong` |
| TwitterProgram.ByteValidationAgreesOnAscii | anchor_project/twitter/programs/twitter/src/lib.rs:19-24 | on ASCII strings the corrected chain decides exactly as the original one |
| TwitterProgram.ByteValidatedTweetIsStored | anchor_project/twitter/programs/twitter/src/lib.rs:47-53 | a signed transaction at a fresh key that the corrected chain admits always succeeds and stores the tweet |
| TwitterProgram.Ledger.constructor | anchor_project/twitter/programs/twitter/src/lib.rs:61-67 | the store starts empty and valid |
| TwitterProgram.Ledger.SendTweet | anchor_project/twitter/programs/twitter/src/lib.rs:17-58 | updating the store in place yields exactly `Step`'s outcome and new store, and keeps every stored tweet valid |
| UseTwitter.CompareByTimestamp | app/src/app/UseTwitter.tsx:52-53 | the comparator is negative exactly when the first tweet is newer, zero exactly on equal timestamps, and positive exactly when the second is newer |
| UseTwitter.Insert | app/src/app/UseTwitter.tsx:52-54 | one step of the stable sort adds exactly one element; its place is fixed by UseTwitter.InsertAt |
| UseTwitter.SortNewestFirst | app/src/app/UseTwitter.tsx:52-54 | the sort keeps the length; its order is fixed by the lemmas below |
| UseTwitter.InsertPermutes | app/src/app/UseTwitter.tsx:52-54 | inserting adds exactly the inserted element to the multiset |
| UseTwitter.InsertKeepsNewestFirst | app/src/app/UseTwitter.tsx:52-54 | inserting into a newest-first list keeps it newest first |
| UseTwitter.InsertKeepsTies | app/src/app/UseTwitter.tsx:52-54 | the inserted tweet goes after every earlier tweet with the same timestamp |
| UseTwitter.SortPermutes | app/src/app/UseTwitter.tsx:50-55 | the sorted list is a permutation of the fetched one |
| UseTwitter.SortIsNewestFirst | app/src/app/UseTwitter.tsx:51-54 | no tweet in the sorted list is followed by a newer one |
| UseTwitter.SortIsStable | app/src/app/UseTwitter.tsx:52-54 | tweets with equal timestamps keep the order in which the node returned them |
| UseTwitter.SortKeepsNewestFirstInput | app/src/app/UseTwitter.tsx:52-54 | an answer that is already newest first is shown as returned |
| UseTwitter.SortIsIdempotent | app/src/app/UseTwitter.tsx:52-54 | sorting the shown list again changes nothing |
| UseTwitter.NewestFirstIsDeterminedByTies | app/src/app/UseTwitter.tsx:52-54 | two newest-first lists that agree on the order within each timestamp are equal |
| UseTwitter.SortIsUnique | app/src/app/UseTwitter.tsx:52-54 | the sort's result is the only list that is newest first and keeps the node's order within each timestamp |
| UseTwitter.FetchedViewDependsOnlyOnTies | app/src/app/UseTwitter.tsx:50-55 | two answers that agree on the order within each timestamp give the same shown list, whatever their order across timestamps |
| UseTwitter.TieOrderIsVisible | app/src/app/UseTwitter.tsx:50-55 | two tweets with equal timestamps are shown in the order the node returned them, so the two orders of the same answer give two different lists |
| UseTwitter.InsertAt | app/src/app/UseTwitter.tsx:52-54 | the tweet is inserted just after the last tweet that is at least as new, ahead of every older one |
| UseTwitter.OpenSlot | app/src/app/UseTwitter.tsx:52-54 | the inner loop shifts right, by one place, exactly the older tail of the sorted prefix and returns the free slot; nothing else moves |
| UseTwitter.InsertInPlace | app/src/app/UseTwitter.tsx:52-54 | one pass of the in-place sort turns the prefix into `Insert` of the prefix and the next element, and leaves the rest of the array alone |
| UseTwitter.SortInPlace | app/src/app/UseTwitter.tsx:52-54 | sorting the fetched array in place leaves exactly `SortNewestFirst` of its old contents |
| UseTwitter.TwitterClient.constructor | app/src/app/UseTwitter.tsx:29-30 | the hook starts with no tweets and not loading |
| UseTwitter.TwitterClient.FetchTweets | app/src/app/UseTwitter.tsx:46-62 | without a program nothing changes; otherwise loading ends cleared; a successful fetch shows the answer newest first; a failed one keeps the old list |
| UseTwitter.TwitterClient.SendTweet | app/src/app/UseTwitter.tsx:70-90 | without program or wallet it throws and changes nothing; an unsubmitted transaction changes nothing; otherwise the store is the program's `Step`, and the list is refreshed only on success, when the transaction's signature is returned |
| Scenarios.ListingLength | anchor_project/twitter/tests/twitter.ts:64-69 | a full answer to `tweet.all()` has one entry per account in the store |
| Scenarios.PostedTweetIsListedAfterRefresh | app/src/app/UseTwitter.tsx:76-86 | after a successful send, the refreshed list contains the new tweet as sent and is one longer than the store was |
| Scenarios.RejectedTweetLeavesListingCount | app/src/app/UseTwitter.tsx:76-86 | after a failed transaction, a refresh shows as many tweets as the store had |
| Scenarios.TestStringsAreAdmissible | anchor_project/twitter/tests/twitter.ts:16-17 | the test's topic and content are ASCII, within the limits and not blank |
| Scenarios.CanSendNewTweet | anchor_project/twitter/tests/twitter.ts:13-38 | the test's tweet at a fresh key succeeds and is stored with the signer, the clock, the topic and the content as sent |
| Scenarios.ContentOf281CharsFails | anchor_project/twitter/tests/twitter.ts:40-61 | 281 characters of content fail with `ContentTooLong` and leave the store unchanged |
| Scenarios.PostAndRefresh | app/src/app/UseTwitter.tsx:70-90 | a connected user's admissible tweet that fits its account, whatever its bytes per character, is sent and returns its signature, and the hook then shows it in a newest-first list with loading cleared |

## Left out

- The React parts of the hook are left out: `useState`, `useMemo`, `useEffect` and `useCallback`. The program handle and the wallet are inputs, present or absent.
- The user interface (`TweetForm.tsx`, `TweetList.tsx`, `page.tsx`) is not part of this model. This includes the form's own `trim()` of both strings before sending, which follows JavaScript's whitespace rules.
- The RPC transport, the IDL and Borsh's byte-level encoding are left out. Only the encoded size is modelled. The node's answer to `tweet.all()` is an input `Listing`.
- `Keypair.generate()` and `Clock::get()` become parameters: a fresh key and an `I64` clock value.
- Signature cryptography is left out. Signing is the boolean `signed` (both the wallet and the fresh key signed), and the client always sends signed transactions.
- Rent, lamports and the payer's balance are left out. An unfunded wallet appears only as `NotSubmitted`.
- A transport failure after the transaction has landed is left out. Concurrent calls and interleaved refreshes are left out too.
- UseTwitter.TwitterClient.FetchTweets: the state while the fetch is pending, with `loading == true`, is not observable in the model. Only the final state is stated.
- UseTwitter.CompareByTimestamp: `BN.toNumber()` and the subtraction are IEEE doubles in the source. The model uses exact integers. The sign of a double difference of two safe integers matches the integer one. Timestamps above 2^53, where `toNumber()` throws, are not modelled.
- TwitterProgram.Step: the store holds only tweet accounts. `init` at a key holding any other account is not modelled, for example an account with data or an owner other than the System Program. The one exception is the paying wallet's own key, which is modelled.
- The failure message strings of the error codes (`#[msg(...)]`) are left out.

## Findings

| source | as written | input that shows it | evidently intended | confidence | as-written member | corrected member |
|---|---|---|---|---|---|---|
| anchor_project/twitter/programs/twitter/src/lib.rs:19-24 | the limits count characters (`chars().count()`), but the 386 bytes of `TWEET_ACCOUNT_SIZE` hold the strings' UTF-8 bytes | topic "a" with content of 280 × 'é' (U+00E9, 2 bytes each) passes every check; the account needs 617 bytes and the transaction fails with `AccountDidNotSerialize` instead of `ContentTooLong` | every tweet the handler admits fits its account, so limits are checked in bytes (or space is allocated for 4 bytes per character) | not executed | TwitterProgram.AdmissibleTweetMayNotFit | TwitterProgram.ValidateArgsByBytes |
