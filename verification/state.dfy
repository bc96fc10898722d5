/** The account layouts of the blog program: one post per account, and one
    global record counting the posts and listing their addresses. */
module State {

  /** Rust's fixed-width integers. */
  newtype byte = x: int | 0 <= x < 0x100
  newtype u64 = x: int | 0 <= x < 0x1_0000_0000_0000_0000
  newtype i64 = x: int | -0x8000_0000_0000_0000 <= x < 0x8000_0000_0000_0000

  const PUBKEY_BYTES: nat := 32

  /** An account address or a signer's public key. */
  type Pubkey = k: seq<byte> | |k| == PUBKEY_BYTES witness seq(32, _ => 0)

  /** The bound `max_len` declares for each string field, in bytes. */
  const TITLE_MAX_LEN: nat := 25
  const CONTENT_MAX_LEN: nat := 850

  /** One blog post. `postId` is declared but no instruction assigns it;
      `timestamp` is the cluster's Unix time when the post was last written. */
  datatype BlogPost = BlogPost(
    author: Pubkey,
    title: string,
    content: string,
    postId: u64,
    timestamp: i64)

  /** The shared record: a post counter and the addresses of the posts. */
  datatype GlobalState = GlobalState(totalPosts: u64, postAddresses: seq<Pubkey>)

  /** The most posts `create_post` admits. */
  const MAX_POSTS: nat := 100

  /** The space the program allocates for the global record's account. */
  const LEN: nat := 8 + PUBKEY_BYTES * MAX_POSTS
}
