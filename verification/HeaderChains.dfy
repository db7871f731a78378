/** Header chains on top of a known block: linkage, work, and the one-bit commitments to every
    610th header that a synchronisation remembers between its two passes. */
module HeaderChains {

  type Hash = nat

  datatype Header = Header(version: int, prev: Hash, merkle: nat, time: nat, bits: nat, nonce: nat)

  /** A header without the hash of its predecessor. */
  datatype CompressedHeader = CompressedHeader(version: int, merkle: nat, time: nat, bits: nat, nonce: nat)

  function Compress(h: Header): CompressedHeader {
    CompressedHeader(h.version, h.merkle, h.time, h.bits, h.nonce)
  }

  function GetFullHeader(c: CompressedHeader, prev: Hash): Header {
    Header(c.version, prev, c.merkle, c.time, c.bits, c.nonce)
  }

  const HEADER_COMMITMENT_PERIOD: nat := 610
  const REDOWNLOAD_BUFFER_SIZE: nat := 14521

  /** The hash, the difficulty rule, the work of a target and the salted bit of a hash; the block
      that the peer's headers build on; and the parameters of the synchronisation. */
  datatype Params = Params(
    hash: Header -> Hash, permitted: (nat, nat, nat) -> bool, proof: nat -> nat, bit: Hash -> bool,
    start: Header, startHeight: nat, startWork: nat, minWork: nat, commitOffset: nat, maxCommitments: nat)

  function LastHash(p: Params, chain: seq<Header>): Hash {
    if chain == [] then p.hash(p.start) else p.hash(chain[|chain| - 1])
  }

  function LastBits(p: Params, chain: seq<Header>): nat {
    if chain == [] then p.start.bits else chain[|chain| - 1].bits
  }

  function Work(p: Params, chain: seq<Header>): nat {
    if chain == [] then p.startWork else Work(p, chain[..|chain| - 1]) + p.proof(chain[|chain| - 1].bits)
  }

  /** The bits of the headers committed to, as the first pass remembers them. */
  ghost function Commitments(p: Params, chain: seq<Header>): seq<bool> {
    if chain == [] then []
    else
      var before := Commitments(p, chain[..|chain| - 1]);
      if (p.startHeight + |chain|) % 610 == p.commitOffset then before + [p.bit(p.hash(chain[|chain| - 1]))] else before
  }

  /** How many of the first `n` headers are committed to. */
  ghost function CommitCount(p: Params, n: nat): nat {
    if n == 0 then 0 else CommitCount(p, n - 1) + if (p.startHeight + n) % 610 == p.commitOffset then 1 else 0
  }

  lemma {:induction false} CommitmentCount(p: Params, chain: seq<Header>)
    ensures |Commitments(p, chain)| == CommitCount(p, |chain|)
  {
    if chain != [] {
      CommitmentCount(p, chain[..|chain| - 1]);
    }
  }

  /** One in every 610 heights, whatever the offset. */
  lemma {:induction false} CommitCountIs(p: Params, n: nat)
    requires p.commitOffset < 610
    ensures CommitCount(p, n) == (p.startHeight + n + 610 - p.commitOffset) / 610 - (p.startHeight + 610 - p.commitOffset) / 610
  {
    if n > 0 {
      CommitCountIs(p, n - 1);
    }
  }

  /** The commitment made to a header is found at the place given by its height alone. */
  lemma {:induction false} CommitmentAt(p: Params, chain: seq<Header>, i: nat)
    requires (p.startHeight + i + 1) % 610 == p.commitOffset
    ensures CommitCount(p, i) < |Commitments(p, chain)| <==> i < |chain|
    ensures i < |chain| ==> CommitCount(p, i) < |Commitments(p, chain)| && Commitments(p, chain)[CommitCount(p, i)] == p.bit(p.hash(chain[i]))
  {
    CommitmentCount(p, chain);
    if i < |chain| {
      if i == |chain| - 1 {
        CommitmentCount(p, chain[..i]);
      } else {
        CommitmentAt(p, chain[..|chain| - 1], i);
      }
    } else {
      CountGrows(p, |chain|, i);
    }
  }

  lemma {:induction false} CountGrows(p: Params, m: nat, n: nat)
    requires m <= n
    ensures CommitCount(p, m) <= CommitCount(p, n)
    decreases n
  {
    if m < n {
      CountGrows(p, m, n - 1);
    }
  }

  ghost predicate Linked(p: Params, chain: seq<Header>) {
    forall i :: 0 <= i < |chain| ==> chain[i].prev == LastHash(p, chain[..i])
  }

  predicate PermittedAt(p: Params, chain: seq<Header>, i: nat)
    requires i < |chain|
  {
    p.permitted(p.startHeight + i + 1, LastBits(p, chain[..i]), chain[i].bits)
  }

  ghost predicate Permitted(p: Params, chain: seq<Header>) {
    forall i :: 0 <= i < |chain| ==> PermittedAt(p, chain, i)
  }

  /** The first of two headers is the predecessor of the second, for all neighbours. */
  ghost predicate Continuous(p: Params, headers: seq<Header>) {
    forall i :: 0 < i < |headers| ==> headers[i].prev == p.hash(headers[i - 1])
  }

  // ---- Growing a chain by one header ----

  lemma Grow(p: Params, chain: seq<Header>, h: Header)
    ensures Work(p, chain + [h]) == Work(p, chain) + p.proof(h.bits)
    ensures LastHash(p, chain + [h]) == p.hash(h) && LastBits(p, chain + [h]) == h.bits
  {
    assert (chain + [h])[..|chain|] == chain;
  }

  lemma {:induction false} GrowCommitments(p: Params, chain: seq<Header>, h: Header)
    ensures Commitments(p, chain + [h]) ==
            if (p.startHeight + |chain| + 1) % 610 == p.commitOffset then Commitments(p, chain) + [p.bit(p.hash(h))] else Commitments(p, chain)
  {
    assert (chain + [h])[..|chain|] == chain;
    assert |chain + [h]| == |chain| + 1;
  }

  lemma GrowLinked(p: Params, chain: seq<Header>, h: Header)
    requires Linked(p, chain) && h.prev == LastHash(p, chain)
    ensures Linked(p, chain + [h])
  {
    forall i | 0 <= i < |chain + [h]|
      ensures (chain + [h])[i].prev == LastHash(p, (chain + [h])[..i])
    {
      assert (chain + [h])[..i] == chain[..i];
    }
    assert chain[..|chain|] == chain;
  }

  lemma GrowPermitted(p: Params, chain: seq<Header>, h: Header)
    requires Permitted(p, chain) && p.permitted(p.startHeight + |chain| + 1, LastBits(p, chain), h.bits)
    ensures Permitted(p, chain + [h])
  {
    forall i | 0 <= i < |chain + [h]|
      ensures PermittedAt(p, chain + [h], i)
    {
      assert (chain + [h])[..i] == chain[..i];
      assert chain[..|chain|] == chain;
      assert i < |chain| ==> PermittedAt(p, chain, i);
    }
  }

  /** Prefixes have no more work and the first commitments. */
  lemma {:induction false} PrefixOf(p: Params, chain: seq<Header>, n: nat)
    requires n <= |chain|
    ensures Work(p, chain[..n]) <= Work(p, chain) && Commitments(p, chain[..n]) <= Commitments(p, chain)
  {
    if n == |chain| {
      assert chain[..n] == chain;
    } else {
      PrefixOf(p, chain[..|chain| - 1], n);
      assert chain[..|chain| - 1][..n] == chain[..n];
    }
  }

  // ---- Dropping and restoring the hash of the predecessor ----

  function Compressed(headers: seq<Header>): seq<CompressedHeader> {
    seq(|headers|, (i: nat) requires i < |headers| => Compress(headers[i]))
  }

  /** The headers that compressed ones stand for, after a block with a given hash. */
  function Expand(p: Params, prev: Hash, buffer: seq<CompressedHeader>): seq<Header>
    decreases |buffer|
  {
    if buffer == [] then []
    else var h := GetFullHeader(buffer[0], prev); [h] + Expand(p, p.hash(h), buffer[1..])
  }

  /** Nothing is altered by dropping the previous hashes of a linked chain. */
  lemma {:induction false} ExpandCompressed(p: Params, chain: seq<Header>, n: nat)
    requires Linked(p, chain) && n <= |chain|
    ensures Expand(p, LastHash(p, chain[..n]), Compressed(chain[n..])) == chain[n..]
    decreases |chain| - n
  {
    if n < |chain| {
      var h := chain[n];
      assert chain[n..][0] == h && h.prev == LastHash(p, chain[..n]);
      assert Compressed(chain[n..])[1..] == Compressed(chain[n + 1..]);
      assert chain[..n + 1] == chain[..n] + [h];
      ExpandCompressed(p, chain, n + 1);
      assert chain[n..] == [h] + chain[n + 1..];
    }
  }
}
