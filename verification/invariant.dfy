/** The bookkeeping invariant of the ledger, and proofs that every
    instruction keeps it and that, under it, the counter's `u64` arithmetic
    never leaves its range. */
module Invariant {
  import opened Errors
  import opened State
  import opened Space
  import opened Instructions

  predicate Distinct(s: seq<Pubkey>) {
    forall i, j :: 0 <= i < j < |s| ==> s[i] != s[j]
  }

  /** Before `initialize` there are no posts. After it, the counter equals
      the length of the address list, stays within `MAX_POSTS`, the list has
      no repeats and names exactly the live posts, every account fits its
      space, and no post's `postId` has left its zero. */
  ghost predicate Valid(l: Ledger) {
    match l.global
    case Uninitialized => l.posts == map[]
    case Initialized(g, space) =>
      && g.totalPosts as int == |g.postAddresses|
      && g.totalPosts as int <= MAX_POSTS
      && Distinct(g.postAddresses)
      && (forall k :: k in l.posts <==> k in g.postAddresses)
      && GlobalSize(g) <= space
      && (forall k :: k in l.posts ==> l.posts[k].postId == 0)
      && (forall k :: k in l.posts ==> PostSize(l.posts[k]) <= BLOG_POST_SPACE)
  }

  lemma GenesisValid()
    ensures Valid(Genesis)
  {
  }

  lemma InitializePreservesValid(l: Ledger, space: nat)
    requires Valid(l)
    requires Initialize(l, space).Ok?
    ensures Valid(Initialize(l, space).value)
  {
  }

  lemma CreatePostPreservesValid(l: Ledger, caller: Pubkey, key: Pubkey, title: string, content: string, now: i64)
    requires Valid(l)
    requires CreatePost(l, caller, key, title, content, now).Ok?
    ensures Valid(CreatePost(l, caller, key, title, content, now).value)
  {
    var s := l.global.state.postAddresses;
    var s' := s + [key];
    assert key !in s;
    forall i, j | 0 <= i < j < |s'| ensures s'[i] != s'[j] {
      if j == |s| {
        assert s'[i] == s[i];
      }
    }
  }

  lemma EditPostPreservesValid(l: Ledger, signer: Pubkey, key: Pubkey, title: string, content: string, now: i64)
    requires Valid(l)
    requires EditPost(l, signer, key, title, content, now).Ok?
    ensures Valid(EditPost(l, signer, key, title, content, now).value)
  {
    var l' := EditPost(l, signer, key, title, content, now).value;
    var post := l.posts[key].(title := title, content := content, timestamp := now);
    assert PostSize(l'.posts[key]) == PostSize(post);
  }

  /** Removing the element at `i` from a list without repeats leaves a list
      without repeats that holds exactly the other elements. */
  lemma RemoveAtOfDistinct(s: seq<Pubkey>, i: nat)
    requires Distinct(s)
    requires i < |s|
    ensures Distinct(RemoveAt(s, i))
    ensures forall k :: k in RemoveAt(s, i) <==> k in s && k != s[i]
  {
    var r := RemoveAt(s, i);
    forall k | k in s && k != s[i] ensures k in r {
      var j :| 0 <= j < |s| && s[j] == k;
      if j < i {
        assert r[j] == k;
      } else {
        assert r[j - 1] == k;
      }
    }
  }

  lemma DeletePostPreservesValid(l: Ledger, signer: Pubkey, key: Pubkey)
    requires Valid(l)
    requires DeletePost(l, signer, key).Ok?
    ensures Valid(DeletePost(l, signer, key).value)
  {
    var s := l.global.state.postAddresses;
    var i := FindPosition(s, key).index;
    RemoveAtOfDistinct(s, i);
  }

  lemma ApplyPreservesValid(l: Ledger, ix: Instruction)
    requires Valid(l)
    requires Apply(l, ix).Ok?
    ensures Valid(Apply(l, ix).value)
  {
    match ix
    case InitializeIx(space) => InitializePreservesValid(l, space);
    case CreatePostIx(caller, key, title, content, now) =>
      CreatePostPreservesValid(l, caller, key, title, content, now);
    case EditPostIx(signer, key, title, content, now) =>
      EditPostPreservesValid(l, signer, key, title, content, now);
    case DeletePostIx(signer, key) => DeletePostPreservesValid(l, signer, key);
    case ListPostsIx =>
  }

  /** Every sequence of transactions keeps the invariant. */
  lemma {:induction false} RunPreservesValid(l: Ledger, txs: seq<Instruction>)
    requires Valid(l)
    ensures Valid(Run(l, txs))
    decreases |txs|
  {
    if txs != [] {
      match Apply(l, txs[0])
      case Ok(l') =>
        ApplyPreservesValid(l, txs[0]);
        RunPreservesValid(l', txs[1..]);
      case Err(_) =>
        RunPreservesValid(l, txs[1..]);
    }
  }

  /** The set of elements of a list without repeats has as many members as
      the list has elements. */
  lemma {:induction false} DistinctCardinality(s: seq<Pubkey>)
    requires Distinct(s)
    ensures |set k | k in s| == |s|
  {
    if s != [] {
      var rest := s[1..];
      assert Distinct(rest) by {
        forall i, j | 0 <= i < j < |rest| ensures rest[i] != rest[j] {
          assert rest[i] == s[i + 1] && rest[j] == s[j + 1];
        }
      }
      DistinctCardinality(rest);
      assert s[0] !in rest by {
        forall j | 0 <= j < |rest| ensures rest[j] != s[0] {
          assert rest[j] == s[j + 1];
        }
      }
      assert (set k | k in s) == (set k | k in rest) + {s[0]} by {
        assert s == [s[0]] + rest;
      }
    }
  }

  /** The counter counts the live posts. */
  lemma CounterCountsLivePosts(l: Ledger)
    requires Valid(l)
    requires l.global.Initialized?
    ensures l.global.state.totalPosts as int == |l.posts|
  {
    var s := l.global.state.postAddresses;
    DistinctCardinality(s);
    assert l.posts.Keys == set k | k in s;
  }

  /** From the first ledger on, the counter stays within `[0, MAX_POSTS]` and
      equals the number of live posts. */
  lemma ReachableCounterBounded(txs: seq<Instruction>)
    ensures var l := Run(Genesis, txs);
            l.global.Initialized? ==>
              && 0 <= l.global.state.totalPosts as int <= MAX_POSTS
              && l.global.state.totalPosts as int == |l.posts|
  {
    GenesisValid();
    RunPreservesValid(Genesis, txs);
    var l := Run(Genesis, txs);
    if l.global.Initialized? {
      CounterCountsLivePosts(l);
    }
  }

  /** Under the invariant, `delete_post` by the author of a live post
      succeeds: the address is in the list, so the decrement at
      `total_posts -= 1` does not underflow, and the shorter list fits. */
  lemma DeleteByAuthorSucceeds(l: Ledger, key: Pubkey)
    requires Valid(l)
    requires l.global.Initialized?
    requires key in l.posts
    ensures DeletePost(l, l.posts[key].author, key).Ok?
  {
    var g := l.global.state;
    assert key in g.postAddresses;
    var i := FindPosition(g.postAddresses, key).index;
    assert g.totalPosts as int >= 1;
    assert GlobalSizeFor(|g.postAddresses| - 1) <= GlobalSize(g);
  }

  /** Under the invariant, `delete_post` fails only through the framework's
      checks: never with `PostNotFound`, never by underflowing the counter,
      never for lack of space. */
  lemma DeleteFailsOnlyInFramework(l: Ledger, signer: Pubkey, key: Pubkey)
    requires Valid(l)
    ensures DeletePost(l, signer, key).Err? ==>
      DeletePost(l, signer, key).error in {AccountNotInitialized, ConstraintHasOne}
  {
    if key in l.posts && l.global.Initialized? && l.posts[key].author == signer {
      DeleteByAuthorSucceeds(l, key);
    }
  }
}
