/**
  The hash chain of the chunk streaming protocol, stated on values: what the sender puts
  on the wire, when the receiver accepts what it is given, and which channel faults pass.

  SHA-1 (FIPS 180-4, section 6.1) followed by hex encoding is a parameter `h`. Two facts
  about it are stated where they are used: it never yields the empty string, and it has
  no collision among the chunks in play.
 */
module ChunkChain {
  import opened Common

  /** What one message carries once the extractor has opened it. */
  datatype Wire = Wire(content: Chunk, previousHash: string)

  type Digest = Chunk -> string

  ghost predicate NeverBlank(h: Digest) {
    forall c :: h(c) != ""
  }

  ghost predicate Collision(h: Digest, a: Chunk, b: Chunk) {
    a != b && h(a) == h(b)
  }

  ghost predicate CollisionFree(h: Digest, pool: set<Chunk>) {
    forall a, b | a in pool && b in pool :: !Collision(h, a, b)
  }

  /** The hash that has to accompany chunk `i`. */
  function PreviousHash(h: Digest, chunks: seq<Chunk>, i: nat): string
    requires i <= |chunks|
  {
    if i == 0 then "" else h(chunks[i - 1])
  }

  /** The messages an undisturbed sender produces for `chunks`. */
  function Chain(h: Digest, chunks: seq<Chunk>): seq<Wire> {
    seq(|chunks|, i requires 0 <= i < |chunks| => Wire(chunks[i], PreviousHash(h, chunks, i)))
  }

  function Contents(ws: seq<Wire>): seq<Chunk> {
    seq(|ws|, i requires 0 <= i < |ws| => ws[i].content)
  }

  /** The receiver accepts a message when its hash is that of the content received before it. */
  predicate LinkHolds(h: Digest, ws: seq<Wire>, k: nat)
    requires k < |ws|
  {
    ws[k].previousHash == if k == 0 then "" else h(ws[k - 1].content)
  }

  predicate Accepted(h: Digest, ws: seq<Wire>) {
    forall k | 0 <= k < |ws| :: LinkHolds(h, ws, k)
  }

  // ---------- Loss, duplication and reordering ----------

  /** A channel that only loses, repeats and reorders delivers the messages named by `s`. */
  function Deliver(ws: seq<Wire>, s: seq<nat>): seq<Wire>
    requires forall k | 0 <= k < |s| :: s[k] < |ws|
  {
    seq(|s|, k requires 0 <= k < |s| => ws[s[k]])
  }

  predicate IndexesInto(s: seq<nat>, n: nat) {
    forall k | 0 <= k < |s| :: s[k] < n
  }

  /** Every delivered chunk follows a chunk equal to the one it followed at the sender. */
  predicate FollowsEqualChunk(chunks: seq<Chunk>, s: seq<nat>, k: nat)
    requires IndexesInto(s, |chunks|) && 0 < k < |s|
  {
    s[k] >= 1 && chunks[s[k] - 1] == chunks[s[k - 1]]
  }

  predicate Unnoticed(chunks: seq<Chunk>, s: seq<nat>)
    requires IndexesInto(s, |chunks|)
  {
    s == [] || (s[0] == 0 && forall k | 0 < k < |s| :: FollowsEqualChunk(chunks, s, k))
  }

  /** Fault detection, exact form. */
  lemma AcceptedDeliveries(h: Digest, chunks: seq<Chunk>, s: seq<nat>)
    requires NeverBlank(h) && CollisionFree(h, set c | c in chunks)
    requires IndexesInto(s, |chunks|)
    ensures Accepted(h, Deliver(Chain(h, chunks), s)) <==> Unnoticed(chunks, s)
  {
    var ws := Deliver(Chain(h, chunks), s);
    forall k | 0 <= k < |s|
      ensures LinkHolds(h, ws, k) <==> (if k == 0 then s[0] == 0 else FollowsEqualChunk(chunks, s, k))
    {
      if k > 0 && s[k] >= 1 {
        var a, b := chunks[s[k] - 1], chunks[s[k - 1]];
        assert a in chunks && b in chunks;
        assert !Collision(h, a, b);
      }
    }
    if Unnoticed(chunks, s) && s != [] {
      assert LinkHolds(h, ws, 0);
    }
    if Accepted(h, ws) && s != [] {
      assert LinkHolds(h, ws, 0);
    }
  }

  predicate PairwiseDistinct(chunks: seq<Chunk>) {
    forall i, j | 0 <= i < j < |chunks| :: chunks[i] != chunks[j]
  }

  /** The delivery of the first messages, each once and in order. */
  predicate IsPrefixDelivery(s: seq<nat>) {
    forall k | 0 <= k < |s| :: s[k] == k
  }

  lemma {:induction false} UnnoticedIsPrefixWhenDistinct(chunks: seq<Chunk>, s: seq<nat>, k: nat)
    requires IndexesInto(s, |chunks|) && PairwiseDistinct(chunks)
    requires Unnoticed(chunks, s) && k < |s|
    ensures s[k] == k
  {
    if k > 0 {
      UnnoticedIsPrefixWhenDistinct(chunks, s, k - 1);
      assert FollowsEqualChunk(chunks, s, k);
    }
  }

  /**
    The chain catches every loss, repetition and reordering short of a truncation exactly
    when no two chunks of the payload are equal.
   */
  lemma ChainDetectsAllIffDistinct(h: Digest, chunks: seq<Chunk>)
    requires NeverBlank(h) && CollisionFree(h, set c | c in chunks)
    ensures PairwiseDistinct(chunks) <==>
            forall s: seq<nat> | IndexesInto(s, |chunks|) ::
              Accepted(h, Deliver(Chain(h, chunks), s)) ==> IsPrefixDelivery(s)
  {
    if PairwiseDistinct(chunks) {
      forall s: seq<nat> | IndexesInto(s, |chunks|) && Accepted(h, Deliver(Chain(h, chunks), s))
        ensures IsPrefixDelivery(s)
      {
        AcceptedDeliveries(h, chunks, s);
        forall k | 0 <= k < |s| ensures s[k] == k {
          UnnoticedIsPrefixWhenDistinct(chunks, s, k);
        }
      }
    } else {
      var i, j :| 0 <= i < j < |chunks| && chunks[i] == chunks[j];
      var s := JumpBack(i, j);
      assert IndexesInto(s, |chunks|);
      assert forall k | 0 < k < |s| :: FollowsEqualChunk(chunks, s, k);
      AcceptedDeliveries(h, chunks, s);
      assert s[j + 1] != j + 1;
      assert !IsPrefixDelivery(s);
    }
  }

  /** Deliver messages 0 to j, then fall back to the message after chunk i. */
  function JumpBack(i: nat, j: nat): (s: seq<nat>)
    requires i < j
    ensures |s| == j + 2
  {
    seq(j + 2, k requires 0 <= k < j + 2 => if k <= j then k else i + 1)
  }

  lemma PrefixDeliveryContents(h: Digest, chunks: seq<Chunk>, s: seq<nat>)
    requires IndexesInto(s, |chunks|) && IsPrefixDelivery(s)
    ensures |s| <= |chunks|
    ensures Contents(Deliver(Chain(h, chunks), s)) == chunks[..|s|]
  {
    if s != [] {
      assert s[|s| - 1] == |s| - 1;
    }
  }

  lemma ConcatOfPrefix(chunks: seq<Chunk>, n: nat)
    requires n <= |chunks|
    ensures Concat(chunks[..n]) <= Concat(chunks)
  {
    ConcatAppend(chunks[..n], chunks[n..]);
    assert chunks == chunks[..n] + chunks[n..];
  }

  /** With distinct chunks, what is accepted reassembles to a prefix of the payload. */
  lemma AcceptedDeliveryYieldsPayloadPrefix(h: Digest, chunks: seq<Chunk>, s: seq<nat>)
    requires NeverBlank(h) && CollisionFree(h, set c | c in chunks)
    requires PairwiseDistinct(chunks) && IndexesInto(s, |chunks|)
    requires Accepted(h, Deliver(Chain(h, chunks), s))
    ensures |s| <= |chunks|
    ensures Concat(Contents(Deliver(Chain(h, chunks), s))) == Concat(chunks[..|s|]) <= Concat(chunks)
  {
    ChainDetectsAllIffDistinct(h, chunks);
    assert IsPrefixDelivery(s);
    PrefixDeliveryContents(h, chunks, s);
    ConcatOfPrefix(chunks, |s|);
  }

  /** Dropping the first of two equal neighbouring chunks goes unseen, whatever the hash. */
  lemma EqualNeighbourDropUnseen(h: Digest, chunks: seq<Chunk>, i: nat)
    requires 0 < i < |chunks| && chunks[i - 1] == chunks[i]
    ensures var ws := Chain(h, chunks);
            var delivered := ws[..i] + ws[i + 1..];
            Accepted(h, delivered) && |delivered| == |chunks| - 1
  {
    var ws := Chain(h, chunks);
    var delivered := ws[..i] + ws[i + 1..];
    forall k | 0 <= k < |delivered| ensures LinkHolds(h, delivered, k) {
      assert delivered[k] == if k < i then ws[k] else ws[k + 1];
    }
  }

  // ---------- Corruption ----------

  /** The hash column of a stream, which a corrupting channel may leave alone. */
  predicate SameHashColumn(a: seq<Wire>, b: seq<Wire>) {
    |a| == |b| && forall k | 0 <= k < |a| :: a[k].previousHash == b[k].previousHash
  }

  /** Tamper binding without any assumption on `h`: a change before the last chunk is a collision. */
  lemma TamperingNeedsACollision(h: Digest, chunks: seq<Chunk>, received: seq<Wire>, i: nat)
    requires SameHashColumn(received, Chain(h, chunks)) && Accepted(h, received)
    requires i + 1 < |chunks| && received[i].content != chunks[i]
    ensures Collision(h, received[i].content, chunks[i])
  {
    assert LinkHolds(h, received, i + 1);
  }

  /**
    With the sender's hash column, a stream is accepted exactly when it agrees with the
    sender in every chunk but the last; the last chunk is never covered.
   */
  lemma AcceptedIffOnlyLastChunkTampered(h: Digest, chunks: seq<Chunk>, received: seq<Wire>)
    requires SameHashColumn(received, Chain(h, chunks))
    requires CollisionFree(h, (set c | c in chunks) + (set c | c in Contents(received)))
    ensures Accepted(h, received) <==> forall i | 0 <= i < |chunks| - 1 :: received[i].content == chunks[i]
  {
    if Accepted(h, received) {
      forall i | 0 <= i < |chunks| - 1 ensures received[i].content == chunks[i] {
        assert Contents(received)[i] in Contents(received) && chunks[i] in chunks;
        assert !Collision(h, received[i].content, chunks[i]);
        if received[i].content != chunks[i] {
          TamperingNeedsACollision(h, chunks, received, i);
        }
      }
    }
    if forall i | 0 <= i < |chunks| - 1 :: received[i].content == chunks[i] {
      forall k | 0 <= k < |received| ensures LinkHolds(h, received, k) {
        assert received[k].previousHash == Chain(h, chunks)[k].previousHash;
        if k > 0 {
          assert received[k - 1].content == chunks[k - 1];
        }
      }
    }
  }

  /** Faithful delivery is always accepted and reassembles the payload. */
  lemma FaithfulDeliveryAccepted(h: Digest, chunks: seq<Chunk>)
    ensures Accepted(h, Chain(h, chunks))
    ensures Contents(Chain(h, chunks)) == chunks
  {
    var ws := Chain(h, chunks);
    assert forall k | 0 <= k < |ws| :: LinkHolds(h, ws, k);
  }

  // ---------- The receiver behind a pipe ----------

  /** What the pipe's extractor hands the validator: the hash, with the data blanked out. */
  function Blanked(ws: seq<Wire>): seq<Wire> {
    seq(|ws|, i requires 0 <= i < |ws| => ws[i].(content := []))
  }

  /**
    The piped receiver hashes blanked chunks, so it accepts an undisturbed stream exactly
    when there is at most one message or every chunk but the last is empty.
   */
  lemma PipeAcceptsFaithfulStreamIff(h: Digest, chunks: seq<Chunk>)
    requires CollisionFree(h, (set c | c in chunks) + {[]})
    ensures Accepted(h, Blanked(Chain(h, chunks))) <==>
            forall i | 0 <= i < |chunks| - 1 :: chunks[i] == []
  {
    var blank := Blanked(Chain(h, chunks));
    forall k | 0 < k < |blank|
      ensures LinkHolds(h, blank, k) <==> chunks[k - 1] == []
    {
      assert chunks[k - 1] in chunks;
      assert !Collision(h, chunks[k - 1], []);
    }
    if forall i | 0 <= i < |chunks| - 1 :: chunks[i] == [] {
      forall k | 0 < k < |blank| ensures LinkHolds(h, blank, k) {
        assert chunks[k - 1] == [];
      }
      assert forall k | 0 <= k < |blank| :: LinkHolds(h, blank, k);
    }
    if Accepted(h, blank) {
      forall i | 0 <= i < |chunks| - 1 ensures chunks[i] == [] {
        assert LinkHolds(h, blank, i + 1);
      }
    }
  }
}
