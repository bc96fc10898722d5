/** Account-size arithmetic. An Anchor account stores an 8-byte
    discriminator followed by the Borsh encoding of its fields: integers at
    their width, a public key as 32 bytes, and a `String` or `Vec` as a 4-byte
    length followed by its elements. An account's space is fixed when it is
    created, and writing back data that does not fit fails. */
module Space {
  import opened State
  import Utf8

  const DISCRIMINATOR: nat := 8
  const U64_BYTES: nat := 8
  const I64_BYTES: nat := 8
  const LENGTH_PREFIX: nat := 4

  /** `BlogPost::INIT_SPACE` as `#[derive(InitSpace)]` computes it: every
      field at its declared maximum, without the discriminator. */
  const BLOG_POST_INIT_SPACE: nat :=
    PUBKEY_BYTES
    + (LENGTH_PREFIX + TITLE_MAX_LEN)
    + (LENGTH_PREFIX + CONTENT_MAX_LEN)
    + U64_BYTES
    + I64_BYTES

  /** The space `create_post` allocates for a post account. */
  const BLOG_POST_SPACE: nat := DISCRIMINATOR + BLOG_POST_INIT_SPACE

  /** Bytes the post occupies in its account. */
  function PostSize(p: BlogPost): nat {
    DISCRIMINATOR
    + PUBKEY_BYTES
    + LENGTH_PREFIX + Utf8.Length(p.title)
    + LENGTH_PREFIX + Utf8.Length(p.content)
    + U64_BYTES
    + I64_BYTES
  }

  /** Bytes a global record listing `n` addresses occupies in its account. */
  function GlobalSizeFor(n: nat): nat {
    DISCRIMINATOR + U64_BYTES + LENGTH_PREFIX + PUBKEY_BYTES * n
  }

  function GlobalSize(g: GlobalState): nat {
    GlobalSizeFor(|g.postAddresses|)
  }

  /** The space a global record needs to list `MAX_POSTS` addresses. */
  const REQUIRED_LEN: nat := DISCRIMINATOR + U64_BYTES + LENGTH_PREFIX + PUBKEY_BYTES * MAX_POSTS

  lemma LayoutConstants()
    ensures MAX_POSTS == 100 && LEN == 3208
    ensures BLOG_POST_INIT_SPACE == 931 && BLOG_POST_SPACE == 939
    ensures REQUIRED_LEN == 3220
  {
  }

  /** A post fits its account exactly when its title and content together
      take no more bytes than the two `max_len` bounds together. */
  lemma PostFitsIff(p: BlogPost)
    ensures PostSize(p) <= BLOG_POST_SPACE
        <==> Utf8.Length(p.title) + Utf8.Length(p.content) <= TITLE_MAX_LEN + CONTENT_MAX_LEN
  {
  }

  /** Within both `max_len` bounds a post always fits. */
  lemma WithinMaxLenFits(p: BlogPost)
    requires Utf8.Length(p.title) <= TITLE_MAX_LEN
    requires Utf8.Length(p.content) <= CONTENT_MAX_LEN
    ensures PostSize(p) <= BLOG_POST_SPACE
  {
  }

  /** The bounds are not enforced field by field: a 26-byte title fits when
      the content is short. */
  lemma OverlongTitleFits()
    ensures var p := BlogPost(seq(32, _ => 0), seq(26, _ => 'a'), "a", 0, 0);
            Utf8.Length(p.title) > TITLE_MAX_LEN && PostSize(p) <= BLOG_POST_SPACE
  {
    var title: string := seq(26, _ => 'a');
    assert Utf8.IsAscii(title);
    assert Utf8.IsAscii("a");
  }

  /** As written, `LEN` holds a global record with at most `MAX_POSTS - 1`
      addresses: it counts the discriminator but not the counter or the
      vector's length prefix. */
  lemma LenHoldsOneAddressTooFew(n: nat)
    ensures GlobalSizeFor(n) <= LEN <==> n < MAX_POSTS
    ensures GlobalSizeFor(MAX_POSTS) == LEN + U64_BYTES + LENGTH_PREFIX
  {
  }

  /** `REQUIRED_LEN` holds a global record with up to `MAX_POSTS` addresses,
      and no more. */
  lemma RequiredLenHoldsMaxPosts(n: nat)
    ensures GlobalSizeFor(n) <= REQUIRED_LEN <==> n <= MAX_POSTS
  {
  }
}
