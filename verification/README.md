# blog_dapp in Dafny

A model of the on-chain blog program `blog_dapp`, an Anchor program for Solana.
The program keeps one global record and one account per blog post.

- The global record holds a post counter (`total_posts`, a `u64`) and the list of post addresses.
- Each post account holds the author's key, a title, a content, a `post_id` and a Unix timestamp.

Five instructions act on these accounts: `initialize`, `create_post`,
`edit_post`, `delete_post` and `list_posts`.

The model is functional. The ledger is a `GlobalAccount` plus a map from
address to `BlogPost`. Each instruction is a pure function from the ledger and
its arguments to `Result<Ledger>`. A failure carries no ledger, so a failed
instruction changes nothing, as Solana's all-or-nothing transactions require.

Each instruction follows the order Anchor imposes:
1. load the accounts in declaration order (`AccountNotInitialized`);
2. create an `init` account (`AccountAlreadyInUse`);
3. check `has_one` (`ConstraintHasOne`);
4. run the handler (the program's `BlogError` codes);
5. write every account back into its fixed space (`AccountDidNotSerialize`) and remove a `close`d account.

Other modelling choices:
- Rust's overflow-checked `u64` arithmetic panics out of range; the model calls this `ArithmeticOverflow`.
- Strings are Dafny `string`s. `String::len` is their UTF-8 byte length (`Utf8.Length`).
- Signers, fresh account addresses and the clock's Unix time are plain arguments.

Files, one module each:
- `errors.dfy`: error codes and `Result`.
- `utf8.dfy`: UTF-8 byte length.
- `state.dfy`: account types and constants.
- `space.dfy`: account-size arithmetic.
- `instructions.dfy`: the instructions, the dispatcher `Apply` and `Run` over a transaction sequence.
- `invariant.dfy`: the bookkeeping invariant `Valid` and its preservation.
- `properties.dfy`: round trips, ordering, the `LEN` finding and the test scenario.

The invariant `Valid` says the following about an initialized ledger:
- the counter equals the length of the address list and is at most `MAX_POSTS`;
- the list has no repeats and names exactly the live posts;
- every account fits its space;
- every post's `post_id` is still 0.

Before `initialize`, there are no posts.

## Behaviour worth noting

- **Deleting another author's post.** `delete_post` by a non-author fails at `has_one` (instructions.rs:102) with `ConstraintHasOne`. The handler's `Unauthorized` check (line 47) cannot be reached, although one of the tests (tests/blog_dapp.ts:127) expects `Unauthorized`.
- **Deleting a closed post.** Deleting an already deleted post fails with `AccountNotInitialized`, because the account no longer exists. The test at tests/blog_dapp.ts:160-190 expects an ownership error.
- **Create checks.** `create_post` rejects an empty title, empty content and a full counter, in that order.
- **`initialize` on an existing record.** `initialize` cannot reset an existing global record: `init` on an address in use fails.
- **The `max_len` bounds.** They are not enforced field by field. A post fits its 939-byte account exactly when title and content together take at most 875 bytes. So a 26-byte title with short content is stored.

## Model

| member | source | states |
|---|---|---|
| Utf8.Length | programs/blog_dapp/src/instructions.rs:13-14 | `String::len` is the UTF-8 byte length: between the character count and four times it, zero exactly for the empty string, equal to the character count exactly for ASCII |
| Space.LayoutConstants | programs/blog_dapp/src/state.rs:22-23 | `MAX_POSTS` is 100, `LEN` is 3208, `INIT_SPACE` of a post is 931 and its account space 939 |
| Space.PostFitsIff | programs/blog_dapp/src/state.rs:5-13 | a post fits its `8 + INIT_SPACE` account iff its title and content bytes together are at most 25 + 850 |
| Space.WithinMaxLenFits | programs/blog_dapp/src/state.rs:7-10 | a post within both `max_len` bounds fits its account |
| Space.OverlongTitleFits | programs/blog_dapp/src/state.rs:7-8 | a 26-byte title with 1-byte content still fits: the bound is not per field |
| Space.LenHoldsOneAddressTooFew | programs/blog_dapp/src/state.rs:23 | a global record with n addresses fits `LEN` iff n < `MAX_POSTS`; with `MAX_POSTS` addresses it overflows by the counter and the vector prefix |
| Space.RequiredLenHoldsMaxPosts | programs/blog_dapp/src/state.rs:15-23 | a global record with n addresses fits `REQUIRED_LEN` iff n <= `MAX_POSTS` |
| Instructions.CheckedSub | programs/blog_dapp/src/instructions.rs:52 | `u64` subtraction succeeds iff it does not go below zero, and then gives the difference |
| Instructions.FindPosition | programs/blog_dapp/src/instructions.rs:50 | not found iff the key is absent; otherwise the index of its first occurrence |
| Instructions.RemoveAt | programs/blog_dapp/src/instructions.rs:51 | the list is one shorter, the elements before the index stay, the ones after shift down by one |
| Instructions.Initialize | programs/blog_dapp/src/instructions.rs:5-10 | fails with `AccountAlreadyInUse` on an existing record; succeeds iff the record is new and an empty record fits the space, and then yields counter 0, an empty list and the same posts |
| Instructions.CreatePost | programs/blog_dapp/src/instructions.rs:12-30 | rejects in order: missing record, address in use, empty title, empty content, counter at `MAX_POSTS`; never overflows the counter; succeeds iff all checks pass and both accounts fit; then stores exactly the new post by the caller with `post_id` 0, appends exactly its key, adds 1 to the counter |
| Instructions.EditPost | programs/blog_dapp/src/instructions.rs:32-41 | missing post fails; a signer other than the author fails with `ConstraintHasOne`, then empty title, then empty content; on success only this post's title, content and timestamp change, the author, `post_id`, the other posts and the global record stay |
| Instructions.DeletePost | programs/blog_dapp/src/instructions.rs:43-58 | missing accounts fail first, a non-author fails with `ConstraintHasOne`, never `Unauthorized`, an unlisted key fails with `PostNotFound`; on success the post is removed, its first list occurrence removed and the counter decreased by 1 |
| Instructions.ListPosts | programs/blog_dapp/src/instructions.rs:60-67 | succeeds iff the record exists and shows its counter and its addresses in order |
| Invariant.InitializePreservesValid | programs/blog_dapp/src/instructions.rs:5-10 | a successful `initialize` keeps the invariant |
| Invariant.CreatePostPreservesValid | programs/blog_dapp/src/instructions.rs:19-27 | a successful `create_post` keeps the invariant: the appended key is new, the counter stays equal to the list length and within `MAX_POSTS` |
| Invariant.EditPostPreservesValid | programs/blog_dapp/src/instructions.rs:32-41 | a successful `edit_post` keeps the invariant |
| Invariant.DeletePostPreservesValid | programs/blog_dapp/src/instructions.rs:50-52 | a successful `delete_post` keeps the invariant: the list keeps no repeats and names exactly the remaining posts |
| Invariant.RunPreservesValid | programs/blog_dapp/src/instructions.rs:5-58 | every sequence of atomic transactions keeps the invariant |
| Invariant.CounterCountsLivePosts | programs/blog_dapp/src/state.rs:17-18 | under the invariant, `total_posts` equals the number of live posts |
| Invariant.ReachableCounterBounded | programs/blog_dapp/src/instructions.rs:19-27 | in every ledger reachable from the start, the counter is within `[0, MAX_POSTS]` and equals the number of live posts |
| Invariant.DeleteByAuthorSucceeds | programs/blog_dapp/src/instructions.rs:50-52 | under the invariant, the author's `delete_post` of a live post succeeds, so the decrement cannot underflow |
| Invariant.DeleteFailsOnlyInFramework | programs/blog_dapp/src/instructions.rs:47-54 | under the invariant, `delete_post` fails only with `AccountNotInitialized` or `ConstraintHasOne` |
| Properties.RemoveFirstIsWithout | programs/blog_dapp/src/instructions.rs:50-51 | in a list without repeats, removing the first occurrence of a key equals dropping the key and keeping the rest in order |
| Properties.DeleteKeepsOrder | programs/blog_dapp/src/instructions.rs:50-52 | after `delete_post`, the list is the old list without the key, the other addresses in their order |
| Properties.CreateThenDeleteRestores | programs/blog_dapp/src/instructions.rs:21-55 | creating a post and deleting it as its author gives back the original ledger |
| Properties.EditThenRead | programs/blog_dapp/src/instructions.rs:36-39 | after `edit_post` the post reads back the written title and content under the same author, and repeating the edit changes nothing |
| Properties.EditTwiceLastWins | programs/blog_dapp/src/instructions.rs:36-39 | two successive edits leave the same ledger as the second alone |
| Properties.ListingMatchesLivePosts | programs/blog_dapp/src/instructions.rs:62-64 | under the invariant, the listing shows a counter equal to its number of addresses and to the number of live posts, and lists exactly the live posts |
| Properties.ListPostsReadOnly | programs/blog_dapp/src/instructions.rs:60-67 | `list_posts` succeeds iff the record exists and never changes the ledger |
| Properties.PostIdStaysZero | programs/blog_dapp/src/state.rs:11 | no reachable post's `post_id` ever differs from its zero initial value |
| Properties.LastPostRejectedWithLen | programs/blog_dapp/src/state.rs:23 | with `LEN` bytes the counter stays below `MAX_POSTS`, and at `MAX_POSTS - 1` an otherwise valid `create_post` fails with `AccountDidNotSerialize` |
| Properties.RequiredLenAdmitsMaxPosts | programs/blog_dapp/src/instructions.rs:19 | with `REQUIRED_LEN` bytes an otherwise valid `create_post` succeeds iff the counter is below `MAX_POSTS` |
| Properties.TestSuiteScenario | tests/blog_dapp.ts:15-225 | the test suite's calls give the asserted counters, titles and contents, and the failures `InvalidTitle`, `ConstraintHasOne` and `AccountNotInitialized` |

## Findings

| source | as written | input that shows it | evidently intended | confidence | as-written member | corrected member |
|---|---|---|---|---|---|---|
| programs/blog_dapp/src/state.rs:23 | `LEN = 8 + 32 * MAX_POSTS` (3208 bytes) counts the discriminator and the addresses but not the 8-byte counter or the 4-byte vector length | a global record listing 99 posts; the next `create_post` needs 3220 bytes and fails with `AccountDidNotSerialize` although the limit check passes | space for `MAX_POSTS` addresses: `8 + 8 + 4 + 32 * MAX_POSTS` = 3220 | not executed; the arithmetic is proved | Properties.LastPostRejectedWithLen | Properties.RequiredLenAdmitsMaxPosts |

`Initialize` takes the account's space as an argument; the deployed program
passes `LEN`. Both lemmas hold for the same instruction functions:
- `Space.LenHoldsOneAddressTooFew` and `Properties.LastPostRejectedWithLen` state the behaviour with `LEN`.
- `Space.RequiredLenHoldsMaxPosts` and `Properties.RequiredLenAdmitsMaxPosts` state that `REQUIRED_LEN` restores the intended limit.

## Left out

- Rent, the payer and the lamport transfer on `close`: only the removal of the closed account is modelled.
- PDA seed and bump derivation: the new post's address is an argument, and `init` on a live address fails with `AccountAlreadyInUse`.
- The mismatch between the `owner` signer declared in `CreatePost` and the `user` the handler reads, and the undeclared `title` seed: the caller is an argument. This is framework wiring, not behaviour.
- Signature verification: a signer is its public key.
- `Clock::get()`: the Unix time is an argument. A failing clock read is not modelled.
- The `msg!` logging of `list_posts`: the logged values are returned as a `Listing`.
- Borsh byte encoding: only its sizes are modelled.
- Which account holds the global record: the model has one global record, as the tests use. The program would accept any `GlobalState` account.
- Rust's overflow checks: the workspace's Cargo profile is not part of this model. An out-of-range `u64` result is taken to abort the instruction.
- Concurrent transactions and the runtime's serialization of them: every instruction is atomic, and `Run` applies transactions one at a time.
- Dispatch: the program module in programs/blog_dapp/src/lib.rs only forwards to the handlers; `Instructions.Apply` plays its role.
- Utf8.Length: strings are sequences of Unicode scalar values, so every string is valid UTF-8, as a Rust `String` is.
- Properties.TestSuiteScenario: stated for any distinct keys and any non-empty texts of at most 100 characters, not for the tests' literal strings.
