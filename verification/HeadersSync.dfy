/** The two-pass synchronisation of headers with a peer whose chain is not yet known to have enough
    work: a first pass that keeps only commitments, a second that checks against them and hands out
    headers once enough of the chain above them has been checked. */
module HeadersSync {
  import opened HeaderChains

  datatype State = PRESYNC | REDOWNLOAD | FINAL

  /** Whether the first pass takes header number `i` of a chain. */
  ghost predicate PresyncTakes(p: Params, chain: seq<Header>, i: nat)
    requires i < |chain|
  {
    PermittedAt(p, chain, i) && CommitCount(p, i + 1) <= p.maxCommitments
  }

  /** Whether the second pass takes header number `i` of a chain after a first pass that took another:
      at every 610th height the two have the same bit, until the chain has the work asked for. */
  ghost predicate RedownloadTakes(p: Params, presync: seq<Header>, chain: seq<Header>, i: nat)
    requires i < |chain|
  {
    && chain[i].prev == LastHash(p, chain[..i]) && PermittedAt(p, chain, i)
    && (Work(p, chain[..i + 1]) < p.minWork && (p.startHeight + i + 1) % 610 == p.commitOffset ==>
          i < |presync| && p.bit(p.hash(presync[i])) == p.bit(p.hash(chain[i])))
  }

  ghost predicate PresyncTakesFrom(p: Params, chain: seq<Header>, n: nat) {
    forall i :: n <= i < |chain| ==> PresyncTakes(p, chain, i)
  }

  ghost predicate RedownloadTakesFrom(p: Params, presync: seq<Header>, chain: seq<Header>, n: nat) {
    forall i :: n <= i < |chain| ==> RedownloadTakes(p, presync, chain, i)
  }

  /** How many headers are out once all of a chain is in. */
  function Ready(p: Params, chain: seq<Header>, before: nat): nat {
    if chain != [] && Work(p, chain) >= p.minWork then |chain|
    else if |chain| - before > REDOWNLOAD_BUFFER_SIZE then |chain| - REDOWNLOAD_BUFFER_SIZE
    else before
  }

  class HeadersSyncState {
    const p: Params
    var state: State
    var commitments: seq<bool>
    var currentWork: nat
    var lastHeader: Header
    var currentHeight: nat
    var buffer: seq<CompressedHeader>
    var bufferLastHeight: nat
    var bufferLastHash: Hash
    var bufferFirstPrevHash: Hash
    var redownloadWork: nat
    var processAll: bool

    /** All headers taken in the first pass, taken in the second, and handed out. */
    ghost var presync: seq<Header>
    ghost var accepted: seq<Header>
    ghost var released: seq<Header>

    ghost predicate InPresync()
      reads this
    {
      && Linked(p, presync) && Permitted(p, presync) && lastHeader == (if presync == [] then p.start else presync[|presync| - 1])
      && currentHeight == p.startHeight + |presync| && currentWork == Work(p, presync)
      && commitments == Commitments(p, presync) && |commitments| == CommitCount(p, |presync|) <= p.maxCommitments
      && !processAll && accepted == [] && released == []
    }

    /** The second pass, also in the middle of a message. */
    ghost predicate InRedownload()
      reads this
    {
      && Linked(p, presync) && Permitted(p, presync) && Work(p, presync) >= p.minWork
      && Linked(p, accepted) && Permitted(p, accepted) && released <= accepted
      && buffer == Compressed(accepted[|released|..]) && (released != [] ==> buffer != [])
      && bufferFirstPrevHash == LastHash(p, released) && bufferLastHash == LastHash(p, accepted)
      && bufferLastHeight == p.startHeight + |accepted| && redownloadWork == Work(p, accepted)
      && (processAll <==> accepted != [] && redownloadWork >= p.minWork)
      && RedownloadTakesFrom(p, presync, accepted, 0)
      && (!processAll ==> Commitments(p, accepted) + commitments == Commitments(p, presync))
    }

    ghost predicate Valid()
      reads this
    {
      && released <= accepted && Linked(p, accepted) && Permitted(p, accepted) && RedownloadTakesFrom(p, presync, accepted, 0)
      && (state == PRESYNC ==> InPresync())
      && (state == REDOWNLOAD ==>
            && InRedownload() && !processAll && |buffer| <= REDOWNLOAD_BUFFER_SIZE
            && (released != [] ==> |buffer| == REDOWNLOAD_BUFFER_SIZE))
    }

    constructor (p: Params)
      ensures this.p == p && Valid() && state == PRESYNC && presync == []
    {
      this.p := p;
      state, commitments, currentWork, lastHeader, currentHeight := PRESYNC, [], p.startWork, p.start, p.startHeight;
      buffer, bufferLastHeight, bufferLastHash, bufferFirstPrevHash := [], 0, 0, 0;
      redownloadWork, processAll := 0, false;
      presync, accepted, released := [], [], [];
    }

    method Finalize()
      modifies this`state, this`commitments, this`lastHeader, this`buffer, this`bufferLastHash, this`bufferFirstPrevHash,
               this`processAll, this`currentHeight
      ensures state == FINAL && commitments == [] && buffer == []
    {
      commitments, buffer := [], [];
      lastHeader := Header(0, 0, 0, 0, 0, 0);
      bufferLastHash, bufferFirstPrevHash := 0, 0;
      processAll, currentHeight, state := false, 0, FINAL;
    }

    // ---- The first pass ----

    /** One header; the caller has seen to it that it follows the previous one. */
    method ValidateAndProcessSingleHeader(current: Header) returns (ok: bool)
      requires InPresync() && current.prev == LastHash(p, presync)
      modifies this`commitments, this`currentWork, this`lastHeader, this`currentHeight, this`presync
      ensures ok <==> PresyncTakes(p, old(presync) + [current], |old(presync)|)
      ensures ok ==> InPresync() && presync == old(presync) + [current]
    {
      hide Commitments, Work, Linked, Permitted, CommitCount;
      var nextHeight := currentHeight + 1;
      StepFacts(p, presync, current);
      CommitmentCount(p, presync);
      CommitmentCount(p, presync + [current]);
      if !p.permitted(nextHeight, lastHeader.bits, current.bits) {
        return false;
      }
      if nextHeight % HEADER_COMMITMENT_PERIOD == p.commitOffset {
        commitments := commitments + [p.bit(p.hash(current))];
        if |commitments| > p.maxCommitments {
          return false;
        }
      }
      currentWork := currentWork + p.proof(current.bits);
      lastHeader, currentHeight := current, nextHeight;
      presync := presync + [current];
      return true;
    }

    method ValidateAndStoreHeadersCommitments(headers: seq<Header>) returns (ok: bool)
      requires state == PRESYNC && InPresync() && headers != [] && Continuous(p, headers)
      modifies this`state, this`commitments, this`currentWork, this`lastHeader, this`currentHeight, this`presync,
               this`buffer, this`bufferLastHeight, this`bufferLastHash, this`bufferFirstPrevHash, this`redownloadWork
      ensures ok <==> headers[0].prev == LastHash(p, old(presync)) && PresyncTakesFrom(p, old(presync) + headers, |old(presync)|)
      ensures ok ==> presync == old(presync) + headers
      ensures ok && Work(p, presync) >= p.minWork ==> state == REDOWNLOAD && InRedownload() && accepted == []
      ensures ok && Work(p, presync) < p.minWork ==> state == PRESYNC && InPresync()
    {
      hide Commitments, Work, Linked, Permitted, PresyncTakes;
      ghost var before := presync;
      if headers[0].prev != p.hash(lastHeader) {
        return false;
      }
      for n := 0 to |headers|
        invariant state == PRESYNC && InPresync() && presync == before + headers[..n]
        invariant n < |headers| ==> headers[n].prev == LastHash(p, presync)
        invariant forall i :: |before| <= i < |before| + n ==> PresyncTakes(p, before + headers, i)
      {
        assert before + headers[..n + 1] == presync + [headers[n]];
        TakesPrefix(p, before + headers, before + headers[..n + 1], |before| + n);
        var taken := ValidateAndProcessSingleHeader(headers[n]);
        if !taken {
          return false;
        }
      }
      assert headers[..|headers|] == headers;
      if currentWork >= p.minWork {
        RedownloadStarts(p);
        hide Compressed, LastHash, CommitCount;
        buffer, bufferLastHeight := [], p.startHeight;
        bufferFirstPrevHash, bufferLastHash := p.hash(p.start), p.hash(p.start);
        redownloadWork, state := p.startWork, REDOWNLOAD;
      }
      return true;
    }

    // ---- The second pass ----

    /** Puts a header that has passed the second pass's tests at the end of the buffer. */
    method StoreRedownloaded(header: Header)
      requires Linked(p, presync) && Permitted(p, presync) && Work(p, presync) >= p.minWork
      requires released <= accepted && buffer == Compressed(accepted[|released|..])
      requires bufferFirstPrevHash == LastHash(p, released) && bufferLastHeight == p.startHeight + |accepted|
      requires var chain := accepted + [header];
               && Linked(p, chain) && Permitted(p, chain) && RedownloadTakesFrom(p, presync, chain, 0)
               && redownloadWork == Work(p, chain) && (processAll <==> redownloadWork >= p.minWork)
               && (!processAll ==> Commitments(p, chain) + commitments == Commitments(p, presync))
      modifies this`buffer, this`bufferLastHeight, this`bufferLastHash, this`accepted
      ensures InRedownload() && accepted == old(accepted) + [header]
    {
      hide Commitments, Work, Linked, Permitted, Compressed, RedownloadTakesFrom;
      CompressedMore(accepted, |released|, header);
      buffer := buffer + [Compress(header)];
      bufferLastHeight, bufferLastHash := bufferLastHeight + 1, p.hash(header);
      accepted := accepted + [header];
    }

    method ValidateAndStoreRedownloadedHeader(header: Header) returns (ok: bool)
      requires InRedownload()
      modifies this`commitments, this`buffer, this`bufferLastHeight, this`bufferLastHash, this`redownloadWork,
               this`processAll, this`accepted
      ensures ok <==> RedownloadTakes(p, presync, old(accepted) + [header], |old(accepted)|)
      ensures ok ==> InRedownload() && accepted == old(accepted) + [header]
      ensures !ok ==> accepted == old(accepted)
    {
      var nextHeight := bufferLastHeight + 1;
      StepFacts(p, accepted, header);
      hide Commitments, Work, Linked, Permitted, CommitCount;
      CommitmentCount(p, accepted);
      if nextHeight % HEADER_COMMITMENT_PERIOD == p.commitOffset {
        CommitmentAt(p, presync, |accepted|);
      }
      if header.prev != bufferLastHash {
        return false;
      }
      assert buffer == [] ==> accepted == [] by { assert |buffer| == |accepted| - |released|; }
      var previousBits := if buffer != [] then buffer[|buffer| - 1].bits else p.start.bits;
      if !p.permitted(nextHeight, previousBits, header.bits) {
        return false;
      }
      redownloadWork := redownloadWork + p.proof(header.bits);
      if redownloadWork >= p.minWork {
        processAll := true;
      }
      if !processAll && nextHeight % HEADER_COMMITMENT_PERIOD == p.commitOffset {
        if commitments == [] {
          return false;
        }
        var expected := commitments[0];
        commitments := commitments[1..];
        if p.bit(p.hash(header)) != expected {
          return false;
        }
      }
      TakesMore(p, presync, accepted, header);
      StoreRedownloaded(header);
      return true;
    }

    /** Takes headers out of the front of the buffer, each completed with the hash of the one before. */
    method PopHeadersReadyForAcceptance() returns (out: seq<Header>)
      requires InRedownload()
      modifies this`buffer, this`bufferFirstPrevHash, this`released
      ensures released <= accepted && |released| == Ready(p, accepted, |old(released)|) >= |old(released)|
      ensures out == accepted[|old(released)|..|released|]
      ensures !processAll ==>
                && InRedownload() && |buffer| == |accepted| - |released| <= REDOWNLOAD_BUFFER_SIZE
                && (out != [] ==> |buffer| == REDOWNLOAD_BUFFER_SIZE)
      ensures processAll ==> buffer == [] && released == accepted
    {
      hide Commitments, Work, Permitted, Linked, Compressed, LastHash;
      out := [];
      ghost var n := |released|;
      ghost var k := n;
      CompressedSize(accepted[n..]);
      assert accepted[..n] == released;
      while |buffer| > REDOWNLOAD_BUFFER_SIZE || (|buffer| > 0 && processAll)
        invariant n <= k <= |accepted| && out == accepted[n..k]
        invariant buffer == Compressed(accepted[k..]) && |buffer| == |accepted| - k
        invariant bufferFirstPrevHash == LastHash(p, accepted[..k])
        invariant k > n ==> processAll || |buffer| >= REDOWNLOAD_BUFFER_SIZE
        decreases |buffer|
      {
        FrontOfBuffer(p, accepted, k);
        var h := GetFullHeader(buffer[0], bufferFirstPrevHash);
        out := out + [h];
        buffer := buffer[1..];
        bufferFirstPrevHash := p.hash(h);
        k := k + 1;
      }
      released := accepted[..k];
    }

    // ---- A message ----

    /** A message in the first pass. */
    method Presync(received: seq<Header>, full: bool) returns (success: bool, more: bool)
      requires state == PRESYNC && InPresync() && received != [] && Continuous(p, received)
      modifies this`state, this`commitments, this`currentWork, this`lastHeader, this`currentHeight, this`presync,
               this`buffer, this`bufferLastHeight, this`bufferLastHash, this`bufferFirstPrevHash, this`redownloadWork
      ensures released == [] && accepted == [] && Linked(p, accepted) && Permitted(p, accepted) && RedownloadTakesFrom(p, presync, accepted, 0)
      ensures var chain := old(presync) + received;
              && (success <==> received[0].prev == LastHash(p, old(presync)) && PresyncTakesFrom(p, chain, |old(presync)|))
              && (success ==> presync == chain && state == if Work(p, chain) >= p.minWork then REDOWNLOAD else PRESYNC)
              && (more <==> success && (full || Work(p, chain) >= p.minWork))
      ensures success ==> Valid()
    {
      hide Commitments, Work, Linked, Permitted, PresyncTakesFrom, Compressed;
      success := ValidateAndStoreHeadersCommitments(received);
      more := success && (full || state == REDOWNLOAD);
      CompressedSize(accepted[|released|..]);
      RedownloadStarts(p);
    }

    /** A message in the second pass. */
    method Redownload(received: seq<Header>, full: bool) returns (out: seq<Header>, success: bool, more: bool)
      requires state == REDOWNLOAD && Valid() && received != []
      modifies this`commitments, this`buffer, this`bufferLastHeight, this`bufferLastHash, this`redownloadWork,
               this`processAll, this`accepted, this`bufferFirstPrevHash, this`released
      ensures var chain := old(accepted) + received;
              && (success <==> RedownloadTakesFrom(p, presync, chain, |old(accepted)|))
              && (success ==> accepted == chain && released <= chain && |released| == Ready(p, chain, |old(released)|))
              && (more <==> success && full && Work(p, chain) < p.minWork)
              && (!success ==> out == [])
      ensures released == old(released) + out && old(accepted) <= accepted
      ensures released <= accepted && Linked(p, accepted) && Permitted(p, accepted) && RedownloadTakesFrom(p, presync, accepted, 0)
      ensures more ==> Valid()
    {
      hide Commitments, Work, Linked, Permitted, RedownloadTakesFrom, Compressed, LastHash;
      ghost var n := |released|;
      CompressedSize(accepted[n..]);
      out, more := [], false;
      success := TakeAll(received);
      if success {
        ghost var gone := released;
        out := PopHeadersReadyForAcceptance();
        assert released[..n] == gone;
        assert released == accepted[..|released|];
        if buffer == [] && processAll {
        } else if full {
          more := true;
        }
      }
    }

    method TakeAll(received: seq<Header>) returns (success: bool)
      requires InRedownload()
      modifies this`commitments, this`buffer, this`bufferLastHeight, this`bufferLastHash, this`redownloadWork,
               this`processAll, this`accepted
      ensures success <==> RedownloadTakesFrom(p, presync, old(accepted) + received, |old(accepted)|)
      ensures success ==> InRedownload() && accepted == old(accepted) + received
      ensures old(accepted) <= accepted && released <= accepted && Linked(p, accepted) && Permitted(p, accepted)
      ensures RedownloadTakesFrom(p, presync, accepted, 0)
    {
      hide Commitments, RedownloadTakes, Linked, Permitted, Work, Compressed, LastHash;
      ghost var before := accepted;
      for n := 0 to |received|
        invariant InRedownload() && accepted == before + received[..n]
        invariant forall i :: |before| <= i < |before| + n ==> RedownloadTakes(p, presync, before + received, i)
      {
        assert before + received[..n + 1] == accepted + [received[n]];
        TakesPrefix(p, before + received, before + received[..n + 1], |before| + n);
        var taken := ValidateAndStoreRedownloadedHeader(received[n]);
        if !taken {
          return false;
        }
      }
      assert received[..|received|] == received;
      return true;
    }

    /** A message of headers, `full` if there may be more. Where the sync goes on, the headers handed
        out so far and the buffer make up the chain taken in the second pass. */
    method ProcessNextHeaders(received: seq<Header>, full: bool) returns (out: seq<Header>, success: bool, more: bool)
      requires Valid() && Continuous(p, received)
      modifies this
      ensures Valid() && released == old(released) + out && old(accepted) <= accepted
      ensures received == [] || old(state) == FINAL ==>
                out == [] && !success && !more && state == old(state) && accepted == old(accepted) && presync == old(presync)
      ensures received != [] && old(state) != FINAL ==> (state == FINAL <==> !more) && (more ==> success)
      ensures received != [] && old(state) == PRESYNC ==>
                var chain := old(presync) + received;
                && (success <==> received[0].prev == LastHash(p, old(presync)) && PresyncTakesFrom(p, chain, |old(presync)|))
                && (success ==> presync == chain && accepted == [])
                && (more <==> success && (full || Work(p, chain) >= p.minWork))
                && (more ==> state == (if Work(p, chain) >= p.minWork then REDOWNLOAD else PRESYNC))
                && out == []
      ensures received != [] && old(state) == REDOWNLOAD ==>
                var chain := old(accepted) + received;
                && (success <==> RedownloadTakesFrom(p, old(presync), chain, |old(accepted)|))
                && presync == old(presync)
                && (success ==> accepted == chain && released <= chain && |released| == Ready(p, chain, |old(released)|))
                && (more <==> success && full && Work(p, chain) < p.minWork)
                && (more ==> state == REDOWNLOAD)
                && (!success ==> out == [])
      // A header of the second pass that differs from the commitment to its height is refused, and so is a
      // first pass with more commitments than allowed.
      ensures old(state) == REDOWNLOAD && success ==> SameBits(p, old(presync), old(accepted) + received)
      ensures old(state) == PRESYNC && success ==> CommitCount(p, |old(presync) + received|) <= p.maxCommitments
    {
      hide Commitments, Work, Linked, Permitted, RedownloadTakesFrom, PresyncTakesFrom, SameBits, Compressed, LastHash, Ready, Continuous, CommitCount;
      out, success, more := [], false, false;
      if received == [] || state == FINAL {
        return;
      }
      if state == PRESYNC {
        success, more := Presync(received, full);
        if success {
          TakenCount(p, presync, |old(presync)|);
        }
      } else {
        out, success, more := Redownload(received, full);
        TakenBits(p, presync, accepted);
      }
      if !(success && more) {
        Finalize();
      }
    }
  }

  /** The bits of two passes over a chain agree where they were committed to. */
  ghost predicate SameBits(p: Params, presync: seq<Header>, chain: seq<Header>) {
    forall i :: 0 <= i < |chain| ==> SameBit(p, presync, chain, i)
  }

  ghost predicate SameBit(p: Params, presync: seq<Header>, chain: seq<Header>, i: nat)
    requires i < |chain|
  {
    (p.startHeight + i + 1) % 610 == p.commitOffset && Work(p, chain[..i + 1]) < p.minWork ==>
      i < |presync| && p.bit(p.hash(presync[i])) == p.bit(p.hash(chain[i]))
  }

  lemma TakenBits(p: Params, presync: seq<Header>, chain: seq<Header>)
    requires RedownloadTakesFrom(p, presync, chain, 0)
    ensures SameBits(p, presync, chain)
  {
    hide RedownloadTakes, SameBit;
    forall i | 0 <= i < |chain|
      ensures SameBit(p, presync, chain, i)
    {
      TakenBit(p, presync, chain, i);
    }
  }

  lemma TakenBit(p: Params, presync: seq<Header>, chain: seq<Header>, i: nat)
    requires i < |chain| && RedownloadTakes(p, presync, chain, i)
    ensures SameBit(p, presync, chain, i)
  {
    hide Work, LastHash, PermittedAt;
  }

  lemma TakenCount(p: Params, chain: seq<Header>, n: nat)
    requires n < |chain| && PresyncTakesFrom(p, chain, n)
    ensures CommitCount(p, |chain|) <= p.maxCommitments
  {
    hide CommitCount;
    assert PresyncTakes(p, chain, |chain| - 1);
  }

  // ---- Whole runs ----

  /** Completing the buffered headers with the hashes of their predecessors gives the rest of the chain. */
  lemma BufferRestores(s: HeadersSyncState)
    requires s.Valid() && s.state == REDOWNLOAD
    ensures s.released + Expand(s.p, s.bufferFirstPrevHash, s.buffer) == s.accepted
  {
    ExpandCompressed(s.p, s.accepted, |s.released|);
    assert s.accepted[..|s.released|] == s.released;
  }

  datatype Message = Message(headers: seq<Header>, full: bool)

  /** Header number `i` may leave once `top` headers have been taken: enough of them are above it, or
      the chain has the work asked for. */
  predicate MayLeave(p: Params, chain: seq<Header>, top: nat, i: nat) {
    i < top <= |chain| && (top - i - 1 >= 14521 || Work(p, chain[..top]) >= p.minWork)
  }

  /** Any messages whatever: what is handed out is always the beginning of the one chain taken in the
      second pass, each header at a moment when it may leave. */
  method Run(p: Params, messages: seq<Message>) returns (s: HeadersSyncState, handed: seq<Header>, ghost tops: seq<nat>)
    requires forall k :: 0 <= k < |messages| ==> Continuous(p, messages[k].headers)
    ensures fresh(s) && s.Valid() && s.p == p && handed == s.released
    ensures handed <= s.accepted && Linked(p, s.accepted) && Permitted(p, s.accepted)
    ensures s.state == REDOWNLOAD ==> handed + Expand(p, s.bufferFirstPrevHash, s.buffer) == s.accepted
    ensures |tops| == |handed| && forall i :: 0 <= i < |handed| ==> MayLeave(p, s.accepted, tops[i], i)
    ensures SameBits(p, s.presync, s.accepted)
    ensures s.state == PRESYNC ==> |s.commitments| == CommitCount(p, |s.presync|) <= p.maxCommitments
  {
    hide Commitments, Work, Linked, Permitted, MayLeave, Continuous, RedownloadTakesFrom, PresyncTakesFrom, SameBits, CommitCount, Expand;
    s := new HeadersSyncState(p);
    handed, tops := [], [];
    for n := 0 to |messages|
      invariant fresh(s) && s.Valid() && s.p == p && handed == s.released
      invariant |tops| == |handed| && forall i :: 0 <= i < |handed| ==> MayLeave(p, s.accepted, tops[i], i)
    {
      ghost var before, gone := s.accepted, s.released;
      var out, _, _ := s.ProcessNextHeaders(messages[n].headers, messages[n].full);
      handed := handed + out;
      tops := LeaveMore(p, before, s.accepted, |gone|, |handed|, tops);
    }
    if s.state == REDOWNLOAD {
      BufferRestores(s);
    }
    TakenBits(p, s.presync, s.accepted);
  }

  lemma LeaveMore(p: Params, before: seq<Header>, chain: seq<Header>, m: nat, r: nat, tops: seq<nat>) returns (tops': seq<nat>)
    requires before <= chain && m <= r <= |chain| && (r > m ==> r == Ready(p, chain, m))
    requires |tops| == m && forall i :: 0 <= i < m ==> MayLeave(p, before, tops[i], i)
    ensures |tops'| == r && forall i :: 0 <= i < r ==> MayLeave(p, chain, tops'[i], i)
  {
    tops' := tops + seq(r - m, (_: nat) => |chain|);
    assert chain[..|chain|] == chain;
    forall i | 0 <= i < r
      ensures MayLeave(p, chain, tops'[i], i)
    {
      if i < m {
        assert MayLeave(p, before, tops[i], i) && chain[..tops[i]] == before[..tops[i]];
      }
    }
  }

  // ---- A peer that serves its chain again ----

  function Joined(batches: seq<seq<Header>>): seq<Header> {
    if batches == [] then [] else Joined(batches[..|batches| - 1]) + batches[|batches| - 1]
  }

  /** No check of the second pass fails on the chain of the first pass, which may have grown since. */
  lemma ReplayTakes(p: Params, presync: seq<Header>, chain: seq<Header>, n: nat)
    requires presync <= chain && Linked(p, chain) && Permitted(p, chain) && Work(p, presync) >= p.minWork && n <= |chain|
    ensures RedownloadTakesFrom(p, presync, chain[..n], 0)
  {
    forall i | 0 <= i < n
      ensures RedownloadTakes(p, presync, chain[..n], i)
    {
      ReplayTakesOne(p, presync, chain, i);
      assert chain[..n][..i + 1] == chain[..i + 1] && chain[..n][..i] == chain[..i];
      assert PermittedAt(p, chain, i);
    }
  }

  lemma ReplayTakesOne(p: Params, presync: seq<Header>, chain: seq<Header>, i: nat)
    requires presync <= chain && Work(p, presync) >= p.minWork && i < |chain|
    ensures Work(p, chain[..i + 1]) < p.minWork ==> i < |presync|
  {
    hide Work, Commitments;
    if Work(p, chain[..i + 1]) < p.minWork && |presync| <= i + 1 {
      assert chain[..i + 1][..|presync|] == presync;
      PrefixOf(p, chain[..i + 1], |presync|);
      assert false;
    }
  }

  /** Whatever the split into messages, full ones before the last: once the work asked for is reached,
      every header served has been handed out. */
  method Replay(s: HeadersSyncState, chain: seq<Header>, batches: seq<seq<Header>>, lastFull: bool) returns (handed: seq<Header>)
    requires s.Valid() && s.state == REDOWNLOAD && s.accepted == []
    requires s.presync <= chain && Linked(s.p, chain) && Permitted(s.p, chain) && Joined(batches) <= chain
    requires batches != [] && forall k :: 0 <= k < |batches| ==> batches[k] != []
    requires Work(s.p, Joined(batches)) >= s.p.minWork
    requires forall k :: 0 < k < |batches| ==> Work(s.p, Joined(batches[..k])) < s.p.minWork
    modifies s
    ensures handed == Joined(batches) && s.state == FINAL
  {
    hide Commitments, Work, Linked, Permitted, RedownloadTakesFrom, PresyncTakesFrom, Ready, Joined;
    handed := [];
    JoinedNone();
    for n := 0 to |batches| - 1
      invariant s.Valid() && s.state == REDOWNLOAD && s.presync == old(s.presync)
      invariant s.accepted == Joined(batches[..n]) && handed == s.released
    {
      Serve(s.p, s.presync, chain, batches, n);
      var out, _, more := s.ProcessNextHeaders(batches[n], true);
      handed := handed + out;
    }
    var last := |batches| - 1;
    Serve(s.p, s.presync, chain, batches, last);
    assert batches[..last + 1] == batches;
    var out, _, _ := s.ProcessNextHeaders(batches[last], lastFull);
    handed := handed + out;
    AllReady(s.p, s.accepted, |handed|);
  }

  lemma JoinedNone()
    ensures Joined([]) == []
  {
  }

  lemma AllReady(p: Params, chain: seq<Header>, before: nat)
    ensures chain != [] && Work(p, chain) >= p.minWork ==> forall n :: Ready(p, chain, n) == |chain|
  {
  }

  /** The next message is taken. */
  lemma Serve(p: Params, presync: seq<Header>, chain: seq<Header>, batches: seq<seq<Header>>, n: nat)
    requires n < |batches| && Joined(batches) <= chain
    requires presync <= chain && Linked(p, chain) && Permitted(p, chain) && Work(p, presync) >= p.minWork
    ensures var before := Joined(batches[..n]);
            && before + batches[n] == Joined(batches[..n + 1]) && Continuous(p, batches[n])
            && RedownloadTakesFrom(p, presync, before + batches[n], |before|)
  {
    hide Commitments, Work, Permitted;
    assert batches[..n + 1][..n] == batches[..n];
    var before, after := Joined(batches[..n]), Joined(batches[..n + 1]);
    JoinedPrefix(batches, n + 1);
    assert after == chain[..|after|];
    ReplayTakes(p, presync, chain, |after|);
    forall i | 0 < i < |batches[n]|
      ensures batches[n][i].prev == p.hash(batches[n][i - 1])
    {
      assert chain[|before| + i] == after[|before| + i] && chain[|before| + i - 1] == after[|before| + i - 1];
      assert chain[|before| + i].prev == LastHash(p, chain[..|before| + i]);
    }
  }

  lemma {:induction false} JoinedPrefix(batches: seq<seq<Header>>, n: nat)
    requires n <= |batches|
    ensures Joined(batches[..n]) <= Joined(batches)
  {
    if n == |batches| {
      assert batches[..n] == batches;
    } else {
      JoinedPrefix(batches[..|batches| - 1], n);
      assert batches[..|batches| - 1][..n] == batches[..n];
    }
  }

  lemma CompressedSize(headers: seq<Header>)
    ensures |Compressed(headers)| == |headers|
  {
  }

  lemma FrontOfBuffer(p: Params, chain: seq<Header>, k: nat)
    requires Linked(p, chain) && k < |chain|
    ensures var buffer := Compressed(chain[k..]);
            && buffer != [] && GetFullHeader(buffer[0], LastHash(p, chain[..k])) == chain[k]
            && buffer[1..] == Compressed(chain[k + 1..]) && LastHash(p, chain[..k + 1]) == p.hash(chain[k])
  {
    assert chain[k..][0] == chain[k];
  }

  // ---- One header more ----

  lemma StepFacts(p: Params, chain: seq<Header>, h: Header)
    ensures var chain' := chain + [h];
            && chain'[..|chain|] == chain && chain'[..|chain| + 1] == chain'
            && Work(p, chain') == Work(p, chain) + p.proof(h.bits)
            && LastHash(p, chain') == p.hash(h) && LastBits(p, chain') == h.bits
            && (Linked(p, chain) && h.prev == LastHash(p, chain) ==> Linked(p, chain'))
            && (Permitted(p, chain) && p.permitted(p.startHeight + |chain| + 1, LastBits(p, chain), h.bits) ==> Permitted(p, chain'))
            && Commitments(p, chain') ==
               if (p.startHeight + |chain| + 1) % 610 == p.commitOffset then Commitments(p, chain) + [p.bit(p.hash(h))] else Commitments(p, chain)
  {
    hide Commitments, Work, Linked, Permitted;
    Grow(p, chain, h);
    GrowCommitments(p, chain, h);
    if Linked(p, chain) && h.prev == LastHash(p, chain) {
      GrowLinked(p, chain, h);
    }
    if Permitted(p, chain) && p.permitted(p.startHeight + |chain| + 1, LastBits(p, chain), h.bits) {
      GrowPermitted(p, chain, h);
    }
  }

  lemma TakesMore(p: Params, presync: seq<Header>, chain: seq<Header>, h: Header)
    requires RedownloadTakesFrom(p, presync, chain, 0) && RedownloadTakes(p, presync, chain + [h], |chain|)
    ensures RedownloadTakesFrom(p, presync, chain + [h], 0)
  {
    hide RedownloadTakes;
    forall i | 0 <= i < |chain|
      ensures RedownloadTakes(p, presync, chain + [h], i)
    {
      TakesPrefix(p, chain + [h], chain, i);
    }
  }

  /** What comes later in a chain does not matter. */
  lemma TakesPrefix(p: Params, chain: seq<Header>, chain': seq<Header>, i: nat)
    requires i < |chain'| <= |chain| && chain' <= chain
    ensures PresyncTakes(p, chain, i) == PresyncTakes(p, chain', i)
    ensures forall presync :: RedownloadTakes(p, presync, chain, i) == RedownloadTakes(p, presync, chain', i)
  {
    assert chain[..i] == chain'[..i] && chain[..i + 1] == chain'[..i + 1];
  }

  lemma RedownloadStarts(p: Params)
    ensures Linked(p, []) && Permitted(p, []) && Work(p, []) == p.startWork && Commitments(p, []) == []
    ensures Compressed([]) == []
  {
  }

  lemma CompressedMore(chain: seq<Header>, n: nat, h: Header)
    requires n <= |chain|
    ensures Compressed((chain + [h])[n..]) == Compressed(chain[n..]) + [Compress(h)]
    ensures |Compressed(chain[n..])| == |chain| - n
  {
    assert (chain + [h])[n..] == chain[n..] + [h];
  }
}
