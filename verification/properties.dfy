/** Properties relating several instructions: round trips, what deletion
    keeps, what listing shows, how the allocated space bounds creation, and
    the test suite's scenario replayed on the model. */
module Properties {
  import opened Errors
  import opened State
  import opened Space
  import opened Instructions
  import opened Invariant
  import Utf8

  /** Reference definition: `s` with every occurrence of `key` dropped and
      the other elements in their original order. */
  function Without(s: seq<Pubkey>, key: Pubkey): (r: seq<Pubkey>)
    ensures key !in r
    ensures forall k :: k in r <==> k in s && k != key
    ensures |r| <= |s|
  {
    if s == [] then []
    else if s[0] == key then Without(s[1..], key)
    else [s[0]] + Without(s[1..], key)
  }

  /** In a list without repeats, removing the first occurrence of `key` is
      dropping `key` and keeping the others in order. */
  lemma {:induction false} RemoveFirstIsWithout(s: seq<Pubkey>, key: Pubkey)
    requires Distinct(s)
    requires key in s
    ensures FindPosition(s, key).Found?
    ensures RemoveAt(s, FindPosition(s, key).index) == Without(s, key)
  {
    var rest := s[1..];
    if s[0] == key {
      assert key !in rest by {
        forall j | 0 <= j < |rest| ensures rest[j] != key {
          assert rest[j] == s[j + 1];
        }
      }
      assert Without(rest, key) == rest by {
        WithoutAbsent(rest, key);
      }
    } else {
      assert Distinct(rest) by {
        forall i, j | 0 <= i < j < |rest| ensures rest[i] != rest[j] {
          assert rest[i] == s[i + 1] && rest[j] == s[j + 1];
        }
      }
      RemoveFirstIsWithout(rest, key);
      var i := FindPosition(rest, key).index;
      assert RemoveAt(s, i + 1) == [s[0]] + RemoveAt(rest, i);
    }
  }

  lemma {:induction false} WithoutAbsent(s: seq<Pubkey>, key: Pubkey)
    requires key !in s
    ensures Without(s, key) == s
  {
    if s != [] {
      assert key !in s[1..];
      WithoutAbsent(s[1..], key);
    }
  }

  /** A successful `delete_post` leaves the address list with the deleted
      address dropped and the other addresses in their order. */
  lemma DeleteKeepsOrder(l: Ledger, signer: Pubkey, key: Pubkey)
    requires Valid(l)
    requires DeletePost(l, signer, key).Ok?
    ensures DeletePost(l, signer, key).value.global.state.postAddresses
         == Without(l.global.state.postAddresses, key)
  {
    RemoveFirstIsWithout(l.global.state.postAddresses, key);
  }

  /** Creating a post and then deleting it as its author restores the
      ledger exactly. */
  lemma CreateThenDeleteRestores(l: Ledger, caller: Pubkey, key: Pubkey, title: string, content: string, now: i64)
    requires Valid(l)
    requires CreatePost(l, caller, key, title, content, now).Ok?
    ensures DeletePost(CreatePost(l, caller, key, title, content, now).value, caller, key) == Ok(l)
  {
    var l1 := CreatePost(l, caller, key, title, content, now).value;
    var s := l.global.state.postAddresses;
    assert key !in s;
    var s1 := s + [key];
    assert FindPosition(s1, key) == Found(|s|) by {
      assert key in s1 && s1[..|s|] == s;
    }
    assert RemoveAt(s1, |s|) == s;
    assert l1.posts - {key} == l.posts;
    var l2 := DeletePost(l1, caller, key).value;
    assert l2.global == l.global;
  }

  /** After a successful `edit_post`, reading the post returns what was
      written, and a second edit with the same arguments changes nothing. */
  lemma EditThenRead(l: Ledger, signer: Pubkey, key: Pubkey, title: string, content: string, now: i64)
    requires EditPost(l, signer, key, title, content, now).Ok?
    ensures var l' := EditPost(l, signer, key, title, content, now).value;
            && l'.posts[key].title == title
            && l'.posts[key].content == content
            && l'.posts[key].author == l.posts[key].author
            && EditPost(l', signer, key, title, content, now) == Ok(l')
  {
    var l' := EditPost(l, signer, key, title, content, now).value;
    assert l'.posts[key] == l.posts[key].(title := title, content := content, timestamp := now);
    assert l'.posts[key := l'.posts[key]] == l'.posts;
  }

  /** Of two successive edits by the author, only the second is visible. */
  lemma EditTwiceLastWins(l: Ledger, signer: Pubkey, key: Pubkey,
                          t1: string, c1: string, n1: i64, t2: string, c2: string, n2: i64)
    requires EditPost(l, signer, key, t1, c1, n1).Ok?
    requires EditPost(l, signer, key, t2, c2, n2).Ok?
    ensures EditPost(EditPost(l, signer, key, t1, c1, n1).value, signer, key, t2, c2, n2)
         == EditPost(l, signer, key, t2, c2, n2)
  {
    var l1 := EditPost(l, signer, key, t1, c1, n1).value;
    var p2 := l.posts[key].(title := t2, content := c2, timestamp := n2);
    assert l1.posts[key].(title := t2, content := c2, timestamp := n2) == p2;
    assert PostSize(l1.posts[key].(title := t2, content := c2)) == PostSize(p2);
    assert l1.posts[key := p2] == l.posts[key := p2];
  }

  /** Under the invariant, `list_posts` shows as many addresses as the counter
      says, one per live post, each naming a live post. */
  lemma ListingMatchesLivePosts(l: Ledger)
    requires Valid(l)
    requires l.global.Initialized?
    ensures ListPosts(l).Ok?
    ensures var listing := ListPosts(l).value;
            && listing.totalPosts as int == |listing.addresses| == |l.posts|
            && (forall k :: k in listing.addresses <==> k in l.posts)
  {
    CounterCountsLivePosts(l);
  }

  /** `list_posts` never changes the ledger. */
  lemma ListPostsReadOnly(l: Ledger)
    ensures Apply(l, ListPostsIx).Ok? <==> l.global.Initialized?
    ensures Apply(l, ListPostsIx).Ok? ==> Apply(l, ListPostsIx).value == l
  {
  }

  /** Every post reachable from the first ledger still has the `postId` its
      account was zeroed with. */
  lemma PostIdStaysZero(txs: seq<Instruction>, key: Pubkey)
    requires key in Run(Genesis, txs).posts
    ensures Run(Genesis, txs).posts[key].postId == 0
  {
    GenesisValid();
    RunPreservesValid(Genesis, txs);
  }

  /** A ledger in which the post limit is the only thing stopping
      `create_post`: initialized, with a fresh key and a post that fits. */
  ghost predicate CreateOtherwiseAdmissible(l: Ledger, caller: Pubkey, key: Pubkey, title: string, content: string, now: i64) {
    && Valid(l)
    && l.global.Initialized?
    && key !in l.posts
    && title != [] && content != []
    && PostSize(NewPost(caller, title, content, now)) <= BLOG_POST_SPACE
  }

  /** As written: with the global account given `LEN` bytes, the post that
      would bring the counter to `MAX_POSTS` does not fit, so `create_post`
      fails although the limit check passes, and the counter never passes
      `MAX_POSTS - 1`. */
  lemma LastPostRejectedWithLen(l: Ledger, caller: Pubkey, key: Pubkey, title: string, content: string, now: i64)
    requires CreateOtherwiseAdmissible(l, caller, key, title, content, now)
    requires l.global.space == LEN
    ensures l.global.state.totalPosts as int < MAX_POSTS
    ensures l.global.state.totalPosts as int == MAX_POSTS - 1
        ==> CreatePost(l, caller, key, title, content, now) == Err(AccountDidNotSerialize)
  {
    Space.LenHoldsOneAddressTooFew(|l.global.state.postAddresses|);
    Space.LenHoldsOneAddressTooFew(|l.global.state.postAddresses| + 1);
  }

  /** Corrected: with at least `REQUIRED_LEN` bytes, `create_post` succeeds
      whenever the counter is below `MAX_POSTS`, so the limit check is what
      stops it. */
  lemma RequiredLenAdmitsMaxPosts(l: Ledger, caller: Pubkey, key: Pubkey, title: string, content: string, now: i64)
    requires CreateOtherwiseAdmissible(l, caller, key, title, content, now)
    requires l.global.space >= REQUIRED_LEN
    ensures CreatePost(l, caller, key, title, content, now).Ok?
        <==> l.global.state.totalPosts as int < MAX_POSTS
  {
    Space.RequiredLenHoldsMaxPosts(|l.global.state.postAddresses| + 1);
  }

  /** Non-empty and at most 100 characters, as every text the tests use. */
  predicate ShortText(s: string) {
    0 < |s| <= 100
  }

  /** The test suite's sequence of calls, replayed on the model for any
      signers, fresh addresses and short non-empty texts like the ones the
      tests use. Two of its expectations differ from what the program does: a
      stranger deleting the post fails at `has_one` with `ConstraintHasOne`,
      not with the handler's `Unauthorized`, and deleting the already closed
      post fails because the account no longer exists. */
  lemma TestSuiteScenario(wallet: Pubkey, stranger: Pubkey, post: Pubkey, other: Pubkey,
                          post1: Pubkey, post2: Pubkey,
                          title: string, content: string, newTitle: string, newContent: string,
                          title1: string, content1: string, title2: string, content2: string)
    requires stranger != wallet
    requires other != post && post1 != post2
    requires ShortText(title) && ShortText(content) && ShortText(newTitle) && ShortText(newContent)
    requires ShortText(title1) && ShortText(content1) && ShortText(title2) && ShortText(content2)
    ensures
      var s0 := Initialize(Genesis, LEN);
      && s0.Ok? && s0.value.global.state.totalPosts == 0
      && var s1 := CreatePost(s0.value, wallet, post, title, content, 1);
      && s1.Ok?
      && s1.value.posts[post].title == title
      && s1.value.posts[post].content == content
      && s1.value.global.state.totalPosts == 1
      && CreatePost(s1.value, wallet, other, "", content, 2) == Err(Program(InvalidTitle))
      && var s2 := EditPost(s1.value, wallet, post, newTitle, newContent, 3);
      && s2.Ok?
      && s2.value.posts[post].title == newTitle
      && s2.value.posts[post].content == newContent
      && DeletePost(s2.value, stranger, post) == Err(ConstraintHasOne)
      && var s3 := DeletePost(s2.value, wallet, post);
      && s3.Ok?
      && post !in s3.value.posts
      && s3.value.global.state.totalPosts == 0
      && DeletePost(s3.value, stranger, post) == Err(AccountNotInitialized)
      && var s4 := CreatePost(s3.value, wallet, post1, title1, content1, 4);
      && s4.Ok?
      && var s5 := CreatePost(s4.value, wallet, post2, title2, content2, 5);
      && s5.Ok?
      && s5.value.global.state.totalPosts == 2
      && |s5.value.global.state.postAddresses| == 2
  {
    var s0 := Initialize(Genesis, LEN).value;
    assert title != [] && content != [];
    var s1 := CreatePost(s0, wallet, post, title, content, 1);
    assert s1.Ok?;
    var s2 := EditPost(s1.value, wallet, post, newTitle, newContent, 3);
    assert newTitle != [] && newContent != [];
    assert s2.Ok?;
    var s3 := DeletePost(s2.value, wallet, post);
    assert FindPosition(s2.value.global.state.postAddresses, post) == Found(0);
    assert s3.Ok?;
    var s4 := CreatePost(s3.value, wallet, post1, title1, content1, 4);
    assert title1 != [] && content1 != [];
    assert s4.Ok?;
    var s5 := CreatePost(s4.value, wallet, post2, title2, content2, 5);
    assert title2 != [] && content2 != [];
    assert s5.Ok?;
  }
}
