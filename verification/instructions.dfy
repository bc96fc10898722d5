/** The program's five instructions as transitions of the ledger.

    Each instruction runs in the order the Anchor framework imposes:
    1. the accounts are loaded in the order their struct declares them, and
       an `Account<T>` whose address holds no account fails;
    2. `init` creates the account, failing when the address is in use;
    3. the `has_one` constraints are checked;
    4. the handler runs;
    5. every written account is encoded back into its fixed space, and a
       `close`d account is removed.
    A failure at any step rolls the whole instruction back. Signers, fresh
    account addresses and the clock's Unix time are plain arguments. */
module Instructions {
  import opened Errors
  import opened State
  import opened Space
  import Utf8

  /** The account the global record lives in, and the space it was given. */
  datatype GlobalAccount =
    | Uninitialized
    | Initialized(state: GlobalState, space: nat)

  /** Everything the program reads or writes: the global record's account
      and the live post accounts by address. */
  datatype Ledger = Ledger(global: GlobalAccount, posts: map<Pubkey, BlogPost>)

  /** The ledger before the program's first instruction. */
  const Genesis: Ledger := Ledger(Uninitialized, map[])

  /** `a - b` on `u64` with overflow checks on: below zero it panics. */
  function CheckedSub(a: u64, b: u64): (r: Result<u64>)
    ensures r.Ok? <==> b <= a
    ensures r.Ok? ==> r.value as int == a as int - b as int
  {
    if b <= a then Ok(a - b) else Err(ArithmeticOverflow)
  }

  datatype Search = Found(index: nat) | NotFound

  /** `iter().position(|&x| x == key)`: the first index holding `key`. */
  function FindPosition(s: seq<Pubkey>, key: Pubkey): (r: Search)
    ensures r.NotFound? <==> key !in s
    ensures r.Found? ==> r.index < |s| && s[r.index] == key && key !in s[..r.index]
  {
    if s == [] then NotFound
    else if s[0] == key then Found(0)
    else
      match FindPosition(s[1..], key)
      case NotFound => NotFound
      case Found(i) =>
        assert s[..i + 1] == [s[0]] + s[1..][..i];
        Found(i + 1)
  }

  /** `Vec::remove(i)`: drops the element at `i` and shifts the rest down. */
  function RemoveAt(s: seq<Pubkey>, i: nat): (r: seq<Pubkey>)
    requires i < |s|
    ensures |r| == |s| - 1
    ensures forall j :: 0 <= j < i ==> r[j] == s[j]
    ensures forall j :: i <= j < |r| ==> r[j] == s[j + 1]
  {
    s[..i] + s[i + 1..]
  }

  /** `initialize`: `init` creates the global record's account with `space`
      bytes (the program passes `LEN`), and the handler writes an empty
      record into it. */
  function Initialize(l: Ledger, space: nat): (r: Result<Ledger>)
    ensures l.global.Initialized? ==> r == Err(AccountAlreadyInUse)
    ensures r.Ok? <==> l.global.Uninitialized? && GlobalSizeFor(0) <= space
    ensures r.Ok? ==>
      && r.value.global.Initialized?
      && r.value.global.state.totalPosts == 0
      && r.value.global.state.postAddresses == []
      && r.value.global.space == space
      && r.value.posts == l.posts
  {
    if l.global.Initialized? then Err(AccountAlreadyInUse)
    else
      var g := GlobalState(0, []);
      if GlobalSize(g) > space then Err(AccountDidNotSerialize)
      else Ok(l.(global := Initialized(g, space)))
  }

  /** The post `create_post` writes into a freshly zeroed account. */
  function NewPost(caller: Pubkey, title: string, content: string, now: i64): BlogPost {
    BlogPost(caller, title, content, 0, now)
  }

  /** `create_post` signed by `caller`, creating the post account at the
      fresh address `key` at Unix time `now`. */
  function CreatePost(l: Ledger, caller: Pubkey, key: Pubkey, title: string, content: string, now: i64)
    : (r: Result<Ledger>)
    ensures l.global.Uninitialized? ==> r == Err(AccountNotInitialized)
    ensures l.global.Initialized? && key in l.posts ==> r == Err(AccountAlreadyInUse)
    ensures l.global.Initialized? && key !in l.posts ==>
      && (title == [] ==> r == Err(Program(InvalidTitle)))
      && (title != [] && content == [] ==> r == Err(Program(InvalidContent)))
      && ((title != [] && content != [] && l.global.state.totalPosts as int >= MAX_POSTS)
            ==> r == Err(Program(PostLimitReached)))
    ensures r != Err(ArithmeticOverflow)
    ensures r.Ok? <==>
      && l.global.Initialized?
      && key !in l.posts
      && title != [] && content != []
      && l.global.state.totalPosts as int < MAX_POSTS
      && PostSize(NewPost(caller, title, content, now)) <= BLOG_POST_SPACE
      && GlobalSizeFor(|l.global.state.postAddresses| + 1) <= l.global.space
    ensures r.Ok? ==>
      && r.value.posts == l.posts[key := NewPost(caller, title, content, now)]
      && r.value.global.Initialized?
      && r.value.global.state.totalPosts as int == l.global.state.totalPosts as int + 1
      && r.value.global.state.postAddresses == l.global.state.postAddresses + [key]
      && r.value.global.space == l.global.space
  {
    if l.global.Uninitialized? then Err(AccountNotInitialized)
    else if key in l.posts then Err(AccountAlreadyInUse)
    else if Utf8.Length(title) == 0 then Err(Program(InvalidTitle))
    else if Utf8.Length(content) == 0 then Err(Program(InvalidContent))
    else
      var g := l.global.state;
      if g.totalPosts >= MAX_POSTS as u64 then Err(Program(PostLimitReached))
      else
        var post := NewPost(caller, title, content, now);
        // `total_posts += 1` panics on overflow; the limit just checked keeps
        // the sum within `u64`, which the newtype makes Dafny check here.
        var g' := GlobalState(g.totalPosts + 1, g.postAddresses + [key]);
        if PostSize(post) > BLOG_POST_SPACE || GlobalSize(g') > l.global.space then
          Err(AccountDidNotSerialize)
        else
          Ok(Ledger(Initialized(g', l.global.space), l.posts[key := post]))
  }

  /** `edit_post` on the post at `key`, signed by `signer`, at Unix time `now`. */
  function EditPost(l: Ledger, signer: Pubkey, key: Pubkey, title: string, content: string, now: i64)
    : (r: Result<Ledger>)
    ensures key !in l.posts ==> r == Err(AccountNotInitialized)
    ensures key in l.posts && l.posts[key].author != signer ==> r == Err(ConstraintHasOne)
    ensures key in l.posts && l.posts[key].author == signer ==>
      && (title == [] ==> r == Err(Program(InvalidTitle)))
      && (title != [] && content == [] ==> r == Err(Program(InvalidContent)))
    ensures r.Ok? <==>
      && key in l.posts
      && l.posts[key].author == signer
      && title != [] && content != []
      && PostSize(l.posts[key].(title := title, content := content)) <= BLOG_POST_SPACE
    ensures r.Ok? ==>
      && r.value.global == l.global
      && r.value.posts.Keys == l.posts.Keys
      && (forall k :: k in l.posts && k != key ==> r.value.posts[k] == l.posts[k])
      && r.value.posts[key] == BlogPost(signer, title, content, l.posts[key].postId, now)
  {
    if key !in l.posts then Err(AccountNotInitialized)
    else if l.posts[key].author != signer then Err(ConstraintHasOne)
    else if Utf8.Length(title) == 0 then Err(Program(InvalidTitle))
    else if Utf8.Length(content) == 0 then Err(Program(InvalidContent))
    else
      var post := l.posts[key].(title := title, content := content, timestamp := now);
      if PostSize(post) > BLOG_POST_SPACE then Err(AccountDidNotSerialize)
      else Ok(l.(posts := l.posts[key := post]))
  }

  /** `delete_post` on the post at `key`, signed by `signer`. On success the
      post's account is closed. */
  function DeletePost(l: Ledger, signer: Pubkey, key: Pubkey): (r: Result<Ledger>)
    ensures key !in l.posts || l.global.Uninitialized? ==> r == Err(AccountNotInitialized)
    ensures (key in l.posts && l.global.Initialized? && l.posts[key].author != signer)
              ==> r == Err(ConstraintHasOne)
    ensures r != Err(Program(Unauthorized))
    ensures (key in l.posts && l.global.Initialized? && l.posts[key].author == signer
             && key !in l.global.state.postAddresses) ==> r == Err(Program(PostNotFound))
    ensures r.Ok? ==>
      && key in l.posts
      && l.posts[key].author == signer
      && r.value.posts == l.posts - {key}
      && r.value.global.Initialized?
      && l.global.Initialized?
      && r.value.global.state.totalPosts as int == l.global.state.totalPosts as int - 1
      && r.value.global.space == l.global.space
      && var i := FindPosition(l.global.state.postAddresses, key).index;
         r.value.global.state.postAddresses == RemoveAt(l.global.state.postAddresses, i)
  {
    if key !in l.posts || l.global.Uninitialized? then Err(AccountNotInitialized)
    else if l.posts[key].author != signer then Err(ConstraintHasOne)
    // The handler's own author check repeats `has_one`, which has already passed.
    else if l.posts[key].author != signer then Err(Program(Unauthorized))
    else
      var g := l.global.state;
      match FindPosition(g.postAddresses, key)
      case NotFound => Err(Program(PostNotFound))
      case Found(i) =>
        var total :- CheckedSub(g.totalPosts, 1);
        var g' := GlobalState(total, RemoveAt(g.postAddresses, i));
        if GlobalSize(g') > l.global.space then Err(AccountDidNotSerialize)
        else Ok(Ledger(Initialized(g', l.global.space), l.posts - {key}))
  }

  /** What `list_posts` logs: the counter, then each address in order. */
  datatype Listing = Listing(totalPosts: u64, addresses: seq<Pubkey>)

  /** `list_posts`: reads the global record and writes nothing. */
  function ListPosts(l: Ledger): (r: Result<Listing>)
    ensures r.Ok? <==> l.global.Initialized?
    ensures r.Ok? ==>
      && r.value.totalPosts == l.global.state.totalPosts
      && r.value.addresses == l.global.state.postAddresses
  {
    if l.global.Uninitialized? then Err(AccountNotInitialized)
    else Ok(Listing(l.global.state.totalPosts, l.global.state.postAddresses))
  }

  /** One transaction: an instruction with its signer, accounts and arguments. */
  datatype Instruction =
    | InitializeIx(space: nat)
    | CreatePostIx(caller: Pubkey, key: Pubkey, title: string, content: string, now: i64)
    | EditPostIx(signer: Pubkey, key: Pubkey, title: string, content: string, now: i64)
    | DeletePostIx(signer: Pubkey, key: Pubkey)
    | ListPostsIx

  /** The program's entry point: dispatch to the instruction's handler. */
  function Apply(l: Ledger, ix: Instruction): Result<Ledger> {
    match ix
    case InitializeIx(space) => Initialize(l, space)
    case CreatePostIx(caller, key, title, content, now) => CreatePost(l, caller, key, title, content, now)
    case EditPostIx(signer, key, title, content, now) => EditPost(l, signer, key, title, content, now)
    case DeletePostIx(signer, key) => DeletePost(l, signer, key)
    case ListPostsIx =>
      var listing :- ListPosts(l);
      Ok(l)
  }

  /** The ledger after a sequence of transactions, each applied atomically:
      a failed one leaves the ledger as it was. */
  function Run(l: Ledger, txs: seq<Instruction>): Ledger
    decreases |txs|
  {
    if txs == [] then l
    else
      match Apply(l, txs[0])
      case Ok(l') => Run(l', txs[1..])
      case Err(_) => Run(l, txs[1..])
  }
}
