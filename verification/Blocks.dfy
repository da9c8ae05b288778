/** Block headers and the bytes they are hashed over. */
module Blocks {
  import opened Types

  datatype CrossShardLink = CrossShardLink(shardID: uint32, blockHash: Hash, stateProof: seq<byte>)

  datatype BlockHeader = BlockHeader(
    version: uint32, height: uint64, timestamp: int64, prevBlockHash: Hash, merkleRoot: Hash, stateRoot: Hash,
    accumulatorRoot: Hash, nonce: uint64, difficulty: uint64, shardID: uint32, crossShardLinks: seq<CrossShardLink>)

  datatype Block = Block(header: BlockHeader, transactions: seq<Transaction>)

  // ---- big-endian integers -------------------------------------------------------------------

  /** The low `width` bytes of n, most significant first. */
  function BigEndian(n: nat, width: nat): (bytes: seq<byte>)
    ensures |bytes| == width
  {
    if width == 0 then [] else BigEndian(n / 256, width - 1) + [n % 256]
  }

  function FromBigEndian(bytes: seq<byte>): nat {
    if bytes == [] then 0 else 256 * FromBigEndian(bytes[..|bytes| - 1]) + bytes[|bytes| - 1]
  }

  function Pow256(k: nat): (r: nat)
    ensures r > 0
  {
    if k == 0 then 1 else 256 * Pow256(k - 1)
  }

  lemma {:induction false} BigEndianRoundTrip(n: nat, width: nat)
    requires n < Pow256(width)
    ensures FromBigEndian(BigEndian(n, width)) == n
  {
    if width > 0 {
      BigEndianRoundTrip(n / 256, width - 1);
      assert BigEndian(n, width)[..width - 1] == BigEndian(n / 256, width - 1);
    }
  }

  lemma {:induction false} BigEndianInjective(a: nat, b: nat, width: nat)
    requires a < Pow256(width) && b < Pow256(width)
    ensures BigEndian(a, width) == BigEndian(b, width) ==> a == b
  {
    BigEndianRoundTrip(a, width);
    BigEndianRoundTrip(b, width);
  }

  lemma {:induction false} Widths()
    ensures Pow256(4) == U32 && Pow256(8) == U64
  {
  }

  /** The i-th byte is the digit of its place: the first byte counts most. */
  lemma {:induction false} BigEndianDigit(n: nat, width: nat, i: nat)
    requires i < width
    ensures BigEndian(n, width)[i] == n / Pow256(width - 1 - i) % 256
  {
    if i < width - 1 {
      BigEndianDigit(n / 256, width - 1, i);
      DivideTwice(n, Pow256(width - 2 - i));
    }
  }

  lemma {:induction false} DivideTwice(n: nat, d: nat)
    requires d > 0
    ensures n / 256 / d == n / (256 * d)
  {
    var q, r := n / (256 * d), n % (256 * d);
    assert n == 256 * (d * q) + r && r / 256 < d;
    assert n / 256 == d * q + r / 256;
    DivideExactly(d, q, r / 256);
  }

  lemma {:induction false} Grows(d: nat, a: nat, b: nat)
    requires a < b
    ensures d * a + d <= d * b
  {
    assert d * b == d * (b - 1) + d;
    if a < b - 1 {
      Grows(d, a, b - 1);
    }
  }

  lemma {:induction false} DivideExactly(d: nat, q: nat, r: nat)
    requires r < d
    ensures (d * q + r) / d == q
  {
    var m := d * q + r;
    var y := m / d;
    assert m == d * y + m % d;
    if y > q {
      Grows(d, q, y);
    } else if y < q {
      Grows(d, y, q);
    }
  }

  // ---- header encoding -----------------------------------------------------------------------

  function EncodeInt64(t: int64): seq<byte> {
    BigEndian(t % U64, 8)
  }

  function EncodeLink(link: CrossShardLink): seq<byte> {
    BigEndian(link.shardID, 4) + link.blockHash + link.stateProof
  }

  function EncodeLinks(links: seq<CrossShardLink>): seq<byte> {
    if links == [] then [] else EncodeLinks(links[..|links| - 1]) + EncodeLink(links[|links| - 1])
  }

  /** The 168 bytes that every header starts with. */
  function EncodeFixed(h: BlockHeader): (bytes: seq<byte>)
    ensures |bytes| == 168
  {
    BigEndian(h.version, 4) + (BigEndian(h.height, 8) + (EncodeInt64(h.timestamp) + (h.prevBlockHash + (h.merkleRoot
    + (h.stateRoot + (h.accumulatorRoot + (BigEndian(h.nonce, 8) + (BigEndian(h.difficulty, 8)
    + BigEndian(h.shardID, 4)))))))))
  }

  function Encode(h: BlockHeader): seq<byte> {
    EncodeFixed(h) + EncodeLinks(h.crossShardLinks)
  }

  /** How the block store names blocks; its results hold for any such function. */
  type BlockHash = Block -> Hash

  /** A block is named by the hash of its header's bytes. */
  function HeaderHash(H: HashFn): BlockHash {
    (b: Block) => H(Encode(b.header))
  }

  /** The header hash as the node computes it, appending to one buffer. */
  method HashHeader(H: HashFn, h: BlockHeader) returns (hash: Hash)
    ensures hash == H(Encode(h))
  {
    var buf := BigEndian(h.version, 4);
    buf := buf + BigEndian(h.height, 8);
    buf := buf + EncodeInt64(h.timestamp);
    buf := buf + h.prevBlockHash;
    buf := buf + h.merkleRoot;
    buf := buf + h.stateRoot;
    buf := buf + h.accumulatorRoot;
    buf := buf + BigEndian(h.nonce, 8);
    buf := buf + BigEndian(h.difficulty, 8);
    buf := buf + BigEndian(h.shardID, 4);
    assert buf == EncodeFixed(h);
    var links := h.crossShardLinks;
    for i := 0 to |links|
      invariant buf == EncodeFixed(h) + EncodeLinks(links[..i])
    {
      assert links[..i + 1][..i] == links[..i];
      buf := buf + BigEndian(links[i].shardID, 4);
      buf := buf + links[i].blockHash;
      buf := buf + links[i].stateProof;
      assert buf == EncodeFixed(h) + EncodeLinks(links[..i]) + EncodeLink(links[i]);
    }
    assert links[..|links|] == links;
    hash := H(buf);
  }

  /** The value of a slice of the bytes as an unsigned integer. */
  function At(bytes: seq<byte>, from: nat, to: nat): nat
    requires from <= to <= |bytes|
  {
    FromBigEndian(bytes[from..to])
  }

  /** Where each fixed field stands in the bytes of a header, and what its bytes mean. */
  lemma {:induction false} FixedLayout(h: BlockHeader)
    ensures var e := Encode(h);
            && |e| >= 168
            && At(e, 0, 4) == h.version && At(e, 4, 12) == h.height && At(e, 12, 20) == h.timestamp % U64
            && e[20..52] == h.prevBlockHash && e[52..84] == h.merkleRoot && e[84..116] == h.stateRoot
            && e[116..148] == h.accumulatorRoot
            && At(e, 148, 156) == h.nonce && At(e, 156, 164) == h.difficulty && At(e, 164, 168) == h.shardID
  {
    var e := Encode(h);
    Widths();
    assert e[0..4] == BigEndian(h.version, 4);
    assert e[4..12] == BigEndian(h.height, 8);
    assert e[12..20] == BigEndian(h.timestamp % U64, 8);
    assert e[148..156] == BigEndian(h.nonce, 8);
    assert e[156..164] == BigEndian(h.difficulty, 8);
    assert e[164..168] == BigEndian(h.shardID, 4);
    BigEndianRoundTrip(h.version, 4);
    BigEndianRoundTrip(h.height, 8);
    BigEndianRoundTrip(h.timestamp % U64, 8);
    BigEndianRoundTrip(h.nonce, 8);
    BigEndianRoundTrip(h.difficulty, 8);
    BigEndianRoundTrip(h.shardID, 4);
  }

  /** Where the k-th link starts: each takes 36 bytes and those of its state proof. */
  function LinkStart(links: seq<CrossShardLink>, k: nat): nat
    requires k <= |links|
  {
    if k == 0 then 168 else LinkStart(links, k - 1) + 36 + |links[k - 1].stateProof|
  }

  lemma {:induction false} LinksUpTo(links: seq<CrossShardLink>, k: nat)
    requires k <= |links|
    ensures 168 + |EncodeLinks(links[..k])| == LinkStart(links, k)
    ensures EncodeLinks(links[..k]) <= EncodeLinks(links)
  {
    if k > 0 {
      LinkStartsAfter(links, k - 1);
    }
    LinksArePrefix(links, k);
  }

  lemma {:induction false} LinkStartsAfter(links: seq<CrossShardLink>, k: nat)
    requires k < |links|
    ensures EncodeLinks(links[..k + 1]) == EncodeLinks(links[..k]) + EncodeLink(links[k])
    ensures 168 + |EncodeLinks(links[..k + 1])| == LinkStart(links, k + 1)
  {
    assert links[..k + 1][..k] == links[..k];
    if k > 0 {
      LinkStartsAfter(links, k - 1);
    }
  }

  lemma {:induction false} LinksArePrefix(links: seq<CrossShardLink>, k: nat)
    requires k <= |links|
    ensures EncodeLinks(links[..k]) <= EncodeLinks(links)
    decreases |links| - k
  {
    assert links[..|links|] == links;
    if k < |links| {
      LinkStartsAfter(links, k);
      LinksArePrefix(links, k + 1);
    }
  }

  /** Where the parts of the k-th link stand in the bytes of a header. */
  lemma {:induction false} LinkLayout(h: BlockHeader, k: nat)
    requires k < |h.crossShardLinks|
    ensures var e, link, at := Encode(h), h.crossShardLinks[k], LinkStart(h.crossShardLinks, k);
            && at + 36 + |link.stateProof| <= |e|
            && At(e, at, at + 4) == link.shardID && e[at + 4..at + 36] == link.blockHash
            && e[at + 36..at + 36 + |link.stateProof|] == link.stateProof
  {
    hide EncodeFixed, EncodeLinks, EncodeLink, FromBigEndian, LinkStart;
    var e, links, at := Encode(h), h.crossShardLinks, LinkStart(h.crossShardLinks, k);
    var link, bytes := links[k], EncodeLinks(links);
    LinksUpTo(links, k);
    LinkStartsAfter(links, k);
    LinksArePrefix(links, k + 1);
    var end := at + |EncodeLink(link)|;
    SliceOfLater(EncodeFixed(h), bytes, EncodeLinks(links[..k]), EncodeLink(link));
    LinkParts(link, e[at..end]);
    SliceOfSlice(e, at, end, 0, 4);
    SliceOfSlice(e, at, end, 4, 36);
    SliceOfSlice(e, at, end, 36, end - at);
  }

  lemma {:induction false} SliceOfSlice<T>(s: seq<T>, a: nat, b: nat, i: nat, j: nat)
    requires a <= b <= |s| && i <= j <= b - a
    ensures s[a..b][i..j] == s[a + i..a + j]
  {
    var t := s[a..b];
    forall k | 0 <= k < j - i ensures t[i..j][k] == s[a + i..a + j][k] {
      assert t[i..j][k] == t[i + k] == s[a + (i + k)];
    }
  }

  lemma {:induction false} SliceOfLater<T>(first: seq<T>, second: seq<T>, before: seq<T>, part: seq<T>)
    requires before + part <= second
    ensures var from := |first| + |before|;
            from + |part| <= |first + second| && (first + second)[from..from + |part|] == part
  {
  }

  lemma {:induction false} LinkParts(link: CrossShardLink, bytes: seq<byte>)
    requires bytes == EncodeLink(link)
    ensures |bytes| == 36 + |link.stateProof| && FromBigEndian(bytes[..4]) == link.shardID
    ensures bytes[4..36] == link.blockHash && bytes[36..] == link.stateProof
  {
    Widths();
    BigEndianRoundTrip(link.shardID, 4);
    assert bytes[..4] == BigEndian(link.shardID, 4);
  }

  ghost predicate SameFixedFields(a: BlockHeader, b: BlockHeader) {
    a.(crossShardLinks := []) == b.(crossShardLinks := [])
  }

  lemma {:induction false} EncodeInt64Injective(a: int64, b: int64)
    requires EncodeInt64(a) == EncodeInt64(b)
    ensures a == b
  {
    Widths();
    BigEndianInjective(a % U64, b % U64, 8);
  }

  lemma {:induction false} FixedPartInjective(a: BlockHeader, b: BlockHeader)
    requires EncodeFixed(a) == EncodeFixed(b)
    ensures SameFixedFields(a, b)
  {
    var a9 := BigEndian(a.difficulty, 8) + BigEndian(a.shardID, 4);
    var b9 := BigEndian(b.difficulty, 8) + BigEndian(b.shardID, 4);
    var a8 := BigEndian(a.nonce, 8) + a9;
    var b8 := BigEndian(b.nonce, 8) + b9;
    var a7, b7 := a.accumulatorRoot + a8, b.accumulatorRoot + b8;
    var a6, b6 := a.stateRoot + a7, b.stateRoot + b7;
    var a5, b5 := a.merkleRoot + a6, b.merkleRoot + b6;
    var a4, b4 := a.prevBlockHash + a5, b.prevBlockHash + b5;
    var a3, b3 := EncodeInt64(a.timestamp) + a4, EncodeInt64(b.timestamp) + b4;
    var a2, b2 := BigEndian(a.height, 8) + a3, BigEndian(b.height, 8) + b3;
    SplitEqual(BigEndian(a.version, 4), a2, BigEndian(b.version, 4), b2);
    SplitEqual(BigEndian(a.height, 8), a3, BigEndian(b.height, 8), b3);
    SplitEqual(EncodeInt64(a.timestamp), a4, EncodeInt64(b.timestamp), b4);
    SplitEqual(a.prevBlockHash, a5, b.prevBlockHash, b5);
    SplitEqual(a.merkleRoot, a6, b.merkleRoot, b6);
    SplitEqual(a.stateRoot, a7, b.stateRoot, b7);
    SplitEqual(a.accumulatorRoot, a8, b.accumulatorRoot, b8);
    SplitEqual(BigEndian(a.nonce, 8), a9, BigEndian(b.nonce, 8), b9);
    SplitEqual(BigEndian(a.difficulty, 8), BigEndian(a.shardID, 4), BigEndian(b.difficulty, 8), BigEndian(b.shardID, 4));
    Widths();
    BigEndianInjective(a.version, b.version, 4);
    BigEndianInjective(a.height, b.height, 8);
    EncodeInt64Injective(a.timestamp, b.timestamp);
    BigEndianInjective(a.nonce, b.nonce, 8);
    BigEndianInjective(a.difficulty, b.difficulty, 8);
    BigEndianInjective(a.shardID, b.shardID, 4);
  }

  /** Two headers have the same bytes exactly when their fixed fields and their link bytes agree. */
  lemma {:induction false} EqualEncodings(a: BlockHeader, b: BlockHeader)
    ensures Encode(a) == Encode(b) <==>
            SameFixedFields(a, b) && EncodeLinks(a.crossShardLinks) == EncodeLinks(b.crossShardLinks)
  {
    if Encode(a) == Encode(b) {
      SplitEqual(EncodeFixed(a), EncodeLinks(a.crossShardLinks), EncodeFixed(b), EncodeLinks(b.crossShardLinks));
      FixedPartInjective(a, b);
    }
  }

  /** State proofs carry no length, so the links themselves are not determined by the header bytes. */
  lemma {:induction false} LinksAreAmbiguous(h: BlockHeader, first: CrossShardLink, second: CrossShardLink)
    ensures var apart := h.(crossShardLinks := [first, second]);
            var folded := h.(crossShardLinks := [first.(stateProof := first.stateProof + EncodeLink(second))]);
            apart != folded && Encode(apart) == Encode(folded)
  {
    var merged := first.(stateProof := first.stateProof + EncodeLink(second));
    TwoLinks(first, second);
    OneLink(merged);
    assert EncodeLink(merged) == EncodeLink(first) + EncodeLink(second);
    assert |[first, second]| != |[merged]|;
  }

  // ---- when the bytes determine the header -----------------------------------------------------

  lemma {:induction false} FromBigEndianRange(bytes: seq<byte>)
    ensures FromBigEndian(bytes) < Pow256(|bytes|)
  {
    if bytes != [] {
      FromBigEndianRange(bytes[..|bytes| - 1]);
    }
  }

  lemma {:induction false} BytesRoundTrip(bytes: seq<byte>)
    ensures BigEndian(FromBigEndian(bytes), |bytes|) == bytes
  {
    if bytes != [] {
      BytesRoundTrip(bytes[..|bytes| - 1]);
    }
  }

  /** A link read back from at least 36 bytes. */
  function DecodeLink(bytes: seq<byte>): (link: CrossShardLink)
    requires |bytes| >= 36
    ensures EncodeLink(link) == bytes
  {
    Widths();
    FromBigEndianRange(bytes[..4]);
    BytesRoundTrip(bytes[..4]);
    CrossShardLink(FromBigEndian(bytes[..4]), bytes[4..36], bytes[36..])
  }

  lemma {:induction false} EncodeLinkInjective(a: CrossShardLink, b: CrossShardLink)
    requires EncodeLink(a) == EncodeLink(b)
    ensures a == b
  {
    var x, y := BigEndian(a.shardID, 4), BigEndian(b.shardID, 4);
    assert EncodeLink(a) == x + (a.blockHash + a.stateProof) && EncodeLink(b) == y + (b.blockHash + b.stateProof);
    SplitEqual(x, a.blockHash + a.stateProof, y, b.blockHash + b.stateProof);
    SplitEqual(a.blockHash, a.stateProof, b.blockHash, b.stateProof);
    Widths();
    BigEndianInjective(a.shardID, b.shardID, 4);
  }

  lemma {:induction false} LinkBytesAtLeast(links: seq<CrossShardLink>)
    ensures |EncodeLinks(links)| >= 36 * |links|
  {
    if links != [] {
      LinkBytesAtLeast(links[..|links| - 1]);
    }
  }

  lemma {:induction false} OneLink(link: CrossShardLink)
    ensures EncodeLinks([link]) == EncodeLink(link)
  {
  }

  lemma {:induction false} TwoLinks(first: CrossShardLink, second: CrossShardLink)
    ensures EncodeLinks([first, second]) == EncodeLink(first) + EncodeLink(second)
  {
    OneLink(first);
    assert [first, second][..1] == [first];
  }

  /** Fewer than 72 bytes hold at most one link, and that one can be read back. */
  lemma {:induction false} FewBytesDetermineLinks(a: seq<CrossShardLink>, b: seq<CrossShardLink>)
    requires EncodeLinks(a) == EncodeLinks(b) && |EncodeLinks(a)| < 72
    ensures a == b
  {
    LinkBytesAtLeast(a);
    LinkBytesAtLeast(b);
    if a == [] {
      assert b == [];
    } else {
      assert b != [];
      OneLink(a[0]);
      OneLink(b[0]);
      assert a == [a[0]] && b == [b[0]];
      EncodeLinkInjective(a[0], b[0]);
    }
  }

  /** From 72 bytes on they can be read both as one link and as two. */
  lemma {:induction false} ManyBytesAreAmbiguous(links: seq<CrossShardLink>) returns (others: seq<CrossShardLink>)
    requires |EncodeLinks(links)| >= 72
    ensures others != links && EncodeLinks(others) == EncodeLinks(links)
  {
    var bytes := EncodeLinks(links);
    if |links| == 1 {
      var first, second := DecodeLink(bytes[..36]), DecodeLink(bytes[36..]);
      TwoLinks(first, second);
      others := [first, second];
    } else {
      OneLink(DecodeLink(bytes));
      others := [DecodeLink(bytes)];
    }
  }

  /** The bytes of a header are those of no other header exactly when there are fewer than 240, its links taking fewer than 72. */
  lemma {:induction false} BytesDetermineHeader(h: BlockHeader)
    ensures (forall g | Encode(g) == Encode(h) :: g == h) <==> |Encode(h)| < 240
  {
    if |Encode(h)| < 240 {
      forall g | Encode(g) == Encode(h) ensures g == h {
        EqualEncodings(g, h);
        FewBytesDetermineLinks(g.crossShardLinks, h.crossShardLinks);
      }
    } else {
      var others := ManyBytesAreAmbiguous(h.crossShardLinks);
      assert Encode(h.(crossShardLinks := others)) == Encode(h);
    }
  }
}
