/**
  The sender and receiver loops of the streaming library, over a message type `M` that the
  caller builds and opens with its own constructor and extractor, and the client and server
  operations built on them.
 */
module GrpcStreamIo {
  import opened Common
  import opened ChunkChain

  const CHUNK_SIZE: nat := 3 * 1024 * 1024

  // ---------- The payload reader ----------

  datatype ReadErr = NoErr | ReadEof | ReadFailure

  datatype ReadResult = ReadResult(bytes: Chunk, err: ReadErr)

  /**
    The io.Reader contract: a read fits the buffer, may be short or empty, and only the last
    one reports an error, with or without data. After it, every read answers (0, EOF).
   */
  predicate LegalReads(answers: seq<ReadResult>, room: nat) {
    && (forall i | 0 <= i < |answers| :: |answers[i].bytes| <= room)
    && (forall i | 0 <= i < |answers| - 1 :: answers[i].err.NoErr?)
  }

  class Reader {
    /** The answers still to come. */
    var answers: seq<ReadResult>

    constructor (answers: seq<ReadResult>)
      ensures this.answers == answers
    {
      this.answers := answers;
    }

    method Read(buf: array<Byte>) returns (n: nat, err: ReadErr)
      requires LegalReads(answers, buf.Length)
      modifies this, buf
      ensures old(answers) == [] ==> n == 0 && err.ReadEof? && answers == []
      ensures old(answers) != [] ==>
                && n == |old(answers)[0].bytes| <= buf.Length && buf[..n] == old(answers)[0].bytes
                && err == old(answers)[0].err && answers == old(answers)[1..]
    {
      if answers == [] {
        return 0, ReadEof;
      }
      var bytes := answers[0].bytes;
      n, err := |bytes|, answers[0].err;
      for i := 0 to n
        invariant buf[..i] == bytes[..i]
        invariant answers == old(answers)
      {
        buf[i] := bytes[i];
      }
      answers := answers[1..];
    }
  }

  /** Does the last answer carry nothing to send: a failure, or an end of file without data? */
  predicate LastReadUnsent(answers: seq<ReadResult>) {
    && answers != []
    && var last := answers[|answers| - 1];
       last.err.ReadFailure? || (last.err.ReadEof? && last.bytes == [])
  }

  predicate ReadFails(answers: seq<ReadResult>) {
    answers != [] && answers[|answers| - 1].err.ReadFailure?
  }

  function AllBytes(answers: seq<ReadResult>): seq<Chunk> {
    seq(|answers|, i requires 0 <= i < |answers| => answers[i].bytes)
  }

  function Payload(answers: seq<ReadResult>): Chunk {
    Concat(AllBytes(answers))
  }

  /** One chunk per read that carries something to send. */
  function SentChunks(answers: seq<ReadResult>): seq<Chunk> {
    AllBytes(if LastReadUnsent(answers) then answers[..|answers| - 1] else answers)
  }

  /** Nothing of the payload is lost, and every chunk keeps below the message limit. */
  lemma SentChunksCoverPayload(answers: seq<ReadResult>)
    requires LegalReads(answers, CHUNK_SIZE) && !ReadFails(answers)
    ensures Concat(SentChunks(answers)) == Payload(answers)
    ensures forall c | c in SentChunks(answers) :: |c| <= 3 * 1024 * 1024
  {
    if LastReadUnsent(answers) {
      var most := SentChunks(answers);
      assert AllBytes(answers) == most + [[]];
      ConcatSnoc(most, []);
    }
  }

  /**
    Which reads become chunks: all of them, empty ones too, but for a last one that fails (its
    data are dropped) or that brings the end of file and no data.
   */
  lemma SentChunksAreReads(answers: seq<ReadResult>, last: ReadResult)
    requires forall i | 0 <= i < |answers| :: answers[i].err == NoErr
    ensures var chunks := SentChunks(answers);
            |chunks| == |answers| && forall i | 0 <= i < |answers| :: chunks[i] == answers[i].bytes
    ensures SentChunks(answers + [last]) ==
            SentChunks(answers) +
              match last.err
              case NoErr => [last.bytes]
              case ReadEof => (if last.bytes == [] then [] else [last.bytes])
              case ReadFailure => []
    ensures ReadFails(answers + [last]) <==> last.err == ReadFailure
    ensures !ReadFails(answers)
  {
    var more := answers + [last];
    assert more[..|answers|] == answers;
  }

  // ---------- Fixed-size chunks ----------

  /** `p` cut into pieces of `size` bytes, with what is left over as the last piece. */
  function Pieces(p: Chunk, size: nat): seq<Chunk>
    requires size > 0
  {
    if p == [] then []
    else if |p| <= size then [p]
    else [p[..size]] + Pieces(p[size..], size)
  }

  /** Every chunk but the last has exactly `size` bytes, and the last has some. */
  predicate FullButLast(chunks: seq<Chunk>, size: nat) {
    && (forall i | 0 <= i < |chunks| - 1 :: |chunks[i]| == size)
    && (chunks != [] ==> 0 < |chunks[|chunks| - 1]| <= size)
  }

  lemma {:induction false} PiecesFullButLast(p: Chunk, size: nat)
    requires size > 0
    ensures FullButLast(Pieces(p, size), size)
    ensures Pieces(p, size) == [] <==> p == []
    decreases |p|
  {
    if |p| > size {
      PiecesFullButLast(p[size..], size);
    }
  }

  lemma {:induction false} FullButLastArePieces(chunks: seq<Chunk>, size: nat)
    requires size > 0 && FullButLast(chunks, size)
    ensures Pieces(Concat(chunks), size) == chunks
    ensures Concat(chunks) == [] <==> chunks == []
  {
    if chunks != [] {
      var rest := chunks[1..];
      FullButLastArePieces(rest, size);
      assert chunks == [chunks[0]] + rest;
      if rest == [] {
        assert Concat(chunks) == chunks[0];
      } else {
        assert Concat(chunks)[..size] == chunks[0] && Concat(chunks)[size..] == Concat(rest);
      }
    }
  }

  /** Every sent read fills the buffer, but for the last, which carries something. */
  predicate SentReadsFill(answers: seq<ReadResult>) {
    var n := |SentChunks(answers)|;
    && (forall i | 0 <= i < n - 1 :: |answers[i].bytes| == CHUNK_SIZE)
    && (n > 0 ==> answers[n - 1].bytes != [])
  }

  lemma SentChunkIsRead(answers: seq<ReadResult>)
    requires LegalReads(answers, CHUNK_SIZE)
    ensures |SentChunks(answers)| <= |answers|
    ensures forall i | 0 <= i < |SentChunks(answers)| ::
              SentChunks(answers)[i] == answers[i].bytes && |answers[i].bytes| <= CHUNK_SIZE
  {
  }

  /** The chunks are the fixed-size pieces of what was sent exactly when no earlier read falls short. */
  lemma FixedSizeIffReadsFill(answers: seq<ReadResult>)
    requires LegalReads(answers, CHUNK_SIZE)
    ensures var chunks := SentChunks(answers);
            chunks == Pieces(Concat(chunks), CHUNK_SIZE) <==> SentReadsFill(answers)
  {
    hide SentChunks, Pieces, Concat;
    var chunks := SentChunks(answers);
    SentChunkIsRead(answers);
    PiecesFullButLast(Concat(chunks), CHUNK_SIZE);
    if SentReadsFill(answers) {
      FullButLastArePieces(chunks, CHUNK_SIZE);
    }
  }

  /** Two short reads: two chunks, where the payload fits into one. */
  lemma ShortReadsGiveShortChunks()
    ensures var answers := [ReadResult([0], NoErr), ReadResult([1], ReadEof)];
            && LegalReads(answers, CHUNK_SIZE)
            && SentChunks(answers) == [[0], [1]] && Pieces(Payload(answers), CHUNK_SIZE) == [[0, 1]]
  {
    var answers := [ReadResult([0], NoErr), ReadResult([1], ReadEof)];
    assert AllBytes(answers) == [[0], [1]];
    var parts: seq<Chunk> := [[0], [1]];
    assert parts[1..] == [[1]] && Concat([[1]]) == [1];
    assert Payload(answers) == Concat(parts) == [0] + [1] == [0, 1];
  }

  // ---------- Streams ----------

  datatype StreamEnd = Eof | Broken

  datatype Received<+T> = Msg(msg: T) | Ended(end: StreamEnd)

  class GrpcStream<In, Out> {
    /** Messages still to be received, and what follows them. */
    var inbox: seq<In>
    const ending: StreamEnd
    var sent: seq<Out>
    /** The transport refuses every message once this many have been sent. */
    const failsAt: Option<nat>
    var sendClosed: bool
    const closeFails: bool

    constructor (inbox: seq<In>, ending: StreamEnd, failsAt: Option<nat>, closeFails: bool)
      ensures this.inbox == inbox && this.ending == ending && sent == [] && !sendClosed
      ensures this.failsAt == failsAt && this.closeFails == closeFails
    {
      this.inbox, this.ending, this.failsAt, this.closeFails := inbox, ending, failsAt, closeFails;
      sent, sendClosed := [], false;
    }

    method RecvMsg() returns (r: Received<In>)
      modifies this`inbox
      ensures old(inbox) == [] ==> r == Ended(ending) && inbox == []
      ensures old(inbox) != [] ==> r == Msg(old(inbox)[0]) && inbox == old(inbox)[1..]
    {
      if inbox == [] {
        r := Ended(ending);
      } else {
        r := Msg(inbox[0]);
        inbox := inbox[1..];
      }
    }

    method SendMsg(m: Out) returns (ok: bool)
      modifies this`sent
      ensures ok == !Refuses(failsAt, |old(sent)|)
      ensures sent == if ok then old(sent) + [m] else old(sent)
    {
      ok := !Refuses(failsAt, |sent|);
      if ok {
        sent := sent + [m];
      }
    }

    method CloseSend() returns (ok: bool)
      modifies this`sendClosed
      ensures ok == !closeFails && sendClosed
    {
      sendClosed := true;
      ok := !closeFails;
    }
  }

  predicate Refuses(failsAt: Option<nat>, alreadySent: nat) {
    failsAt.Some? && failsAt.value <= alreadySent
  }

  /** The running hasher: what was written since the last reset. */
  class Hasher {
    const h: Digest
    var written: Chunk

    constructor (h: Digest)
      ensures this.h == h && written == []
    {
      this.h, written := h, [];
    }

    method Reset()
      modifies this
      ensures written == []
    {
      written := [];
    }

    method Write(bytes: Chunk)
      modifies this
      ensures written == old(written) + bytes
    {
      written := written + bytes;
    }

    method HexSum() returns (s: string)
      ensures s == h(written)
    {
      s := h(written);
    }

    /** Whatever was written before, the hash of `bytes` alone. */
    method HashOf(bytes: Chunk) returns (s: string)
      modifies this
      ensures s == h(bytes)
    {
      Reset();
      Write(bytes);
      assert written == bytes;
      s := HexSum();
    }
  }

  // ---------- Sender ----------

  datatype SendError = ReadFailed | ConstructFailed(at: nat) | SendFailed(at: nat)

  type Constructor<!M> = (string, Chunk) -> Option<M>

  predicate Constructs<M>(h: Digest, make: Constructor<M>, chunks: seq<Chunk>, i: nat)
    requires i < |chunks|
  {
    make(PreviousHash(h, chunks, i), chunks[i]).Some?
  }

  /** The first chunk that cannot be turned into a message or is refused by the transport. */
  function FirstSendFault<M>(h: Digest, make: Constructor<M>, chunks: seq<Chunk>, alreadySent: nat,
                             failsAt: Option<nat>, k: nat): (e: Option<SendError>)
    requires k <= |chunks|
    ensures e.Some? ==> !e.value.ReadFailed? && k <= e.value.at < |chunks|
    ensures forall i | k <= i < (if e.Some? then e.value.at else |chunks|) :: Constructs(h, make, chunks, i)
    decreases |chunks| - k
  {
    if k == |chunks| then None
    else if !Constructs(h, make, chunks, k) then Some(ConstructFailed(k))
    else if Refuses(failsAt, alreadySent + k) then Some(SendFailed(k))
    else FirstSendFault(h, make, chunks, alreadySent, failsAt, k + 1)
  }

  predicate CanConstruct<M>(h: Digest, make: Constructor<M>, chunks: seq<Chunk>, n: nat)
    requires n <= |chunks|
  {
    forall i | 0 <= i < n :: Constructs(h, make, chunks, i)
  }

  /** The first `n` messages of the chain. */
  function Messages<M>(h: Digest, make: Constructor<M>, chunks: seq<Chunk>, n: nat): (ms: seq<M>)
    requires n <= |chunks| && CanConstruct(h, make, chunks, n)
    ensures |ms| == n
  {
    if n == 0 then []
    else
      assert Constructs(h, make, chunks, n - 1);
      Messages(h, make, chunks, n - 1) + [make(PreviousHash(h, chunks, n - 1), chunks[n - 1]).value]
  }

  lemma {:induction false} MessageAt<M>(h: Digest, make: Constructor<M>, chunks: seq<Chunk>, n: nat, i: nat)
    requires i < n <= |chunks| && CanConstruct(h, make, chunks, n)
    ensures make(PreviousHash(h, chunks, i), chunks[i]) == Some(Messages(h, make, chunks, n)[i])
  {
    assert Constructs(h, make, chunks, n - 1);
    if i < n - 1 {
      MessageAt(h, make, chunks, n - 1, i);
    }
  }

  /** Message `i` carries chunk `i` and the hash of the chunk before it, or no hash if it is the first. */
  lemma MessagesCarryChain<M>(h: Digest, make: Constructor<M>, chunks: seq<Chunk>, n: nat, i: nat)
    requires i < n <= |chunks| && CanConstruct(h, make, chunks, n)
    ensures |Messages(h, make, chunks, n)| == n
    ensures i == 0 ==> make("", chunks[0]) == Some(Messages(h, make, chunks, n)[0])
    ensures i > 0 ==> make(h(chunks[i - 1]), chunks[i]) == Some(Messages(h, make, chunks, n)[i])
  {
    MessageAt(h, make, chunks, n, i);
  }

  /** Chunk `i` can be built with the hash it has to carry, and is not the one the transport starts to refuse. */
  predicate GoesOut<M>(h: Digest, make: Constructor<M>, chunks: seq<Chunk>, alreadySent: nat, failsAt: Option<nat>,
                       i: nat)
    requires i < |chunks|
  {
    && make(if i == 0 then "" else h(chunks[i - 1]), chunks[i]).Some?
    && (failsAt.Some? ==> alreadySent + i < failsAt.value)
  }

  /** The sender stops at the first chunk that does not go out, and building comes before sending. */
  lemma {:induction false} FirstSendFaultIs<M>(h: Digest, make: Constructor<M>, chunks: seq<Chunk>, alreadySent: nat,
                                               failsAt: Option<nat>, k: nat)
    requires k <= |chunks|
    ensures match FirstSendFault(h, make, chunks, alreadySent, failsAt, k)
            case None => forall i | k <= i < |chunks| :: GoesOut(h, make, chunks, alreadySent, failsAt, i)
            case Some(e) =>
              && (e.ConstructFailed? || e.SendFailed?) && k <= e.at < |chunks|
              && (forall i | k <= i < e.at :: GoesOut(h, make, chunks, alreadySent, failsAt, i))
              && !GoesOut(h, make, chunks, alreadySent, failsAt, e.at)
              && (e.ConstructFailed? <==>
                    make(if e.at == 0 then "" else h(chunks[e.at - 1]), chunks[e.at]).None?)
    decreases |chunks| - k
  {
    if k < |chunks| {
      FirstSendFaultIs(h, make, chunks, alreadySent, failsAt, k + 1);
    }
  }

  /** How the loop's three exits and its step show in the answers of a legal reader. */
  lemma NextAnswer(answers: seq<ReadResult>, k: nat)
    requires LegalReads(answers, CHUNK_SIZE) && k <= |SentChunks(answers)|
    ensures |SentChunks(answers)| <= |answers|
    ensures k == |answers| ==> k == |SentChunks(answers)| && !ReadFails(answers)
    ensures k < |answers| && answers[k].err.ReadFailure? ==> k == |SentChunks(answers)| && ReadFails(answers)
    ensures k < |answers| && answers[k] == ReadResult([], ReadEof) ==> k == |SentChunks(answers)| && !ReadFails(answers)
    ensures k < |answers| && !answers[k].err.ReadFailure? && answers[k] != ReadResult([], ReadEof)
            ==> k < |SentChunks(answers)| && SentChunks(answers)[k] == answers[k].bytes
  {
  }

  /** What a run of the sender leaves behind: the messages sent and the verdict. */
  ghost predicate SendOutcome<M>(h: Digest, make: Constructor<M>, answers: seq<ReadResult>, failsAt: Option<nat>,
                                 before: seq<M>, after: seq<M>, r: Result<(), SendError>) {
    var chunks := SentChunks(answers);
    var fault := FirstSendFault(h, make, chunks, |before|, failsAt, 0);
    && after == before + Messages(h, make, chunks, if fault.Some? then fault.value.at else |chunks|)
    && r == if fault.Some? then Err(fault.value) else if ReadFails(answers) then Err(ReadFailed) else Ok(())
  }

  /** The first `k` chunks have been sent without a fault. */
  ghost predicate SentSoFar<M>(h: Digest, make: Constructor<M>, chunks: seq<Chunk>, failsAt: Option<nat>,
                               before: seq<M>, after: seq<M>, k: nat) {
    && k <= |chunks| && CanConstruct(h, make, chunks, k)
    && FirstSendFault(h, make, chunks, |before|, failsAt, 0) == FirstSendFault(h, make, chunks, |before|, failsAt, k)
    && after == before + Messages(h, make, chunks, k)
  }

  lemma NothingSentYet<M>(h: Digest, make: Constructor<M>, chunks: seq<Chunk>, failsAt: Option<nat>, before: seq<M>)
    ensures SentSoFar(h, make, chunks, failsAt, before, before, 0)
  {
  }

  lemma SendStep<M>(h: Digest, make: Constructor<M>, answers: seq<ReadResult>, failsAt: Option<nat>,
                    before: seq<M>, after: seq<M>, k: nat)
    requires var chunks := SentChunks(answers);
             k < |chunks| && SentSoFar(h, make, chunks, failsAt, before, after, k)
    ensures var chunks := SentChunks(answers);
            var message := make(PreviousHash(h, chunks, k), chunks[k]);
            if message.None? then
              SendOutcome(h, make, answers, failsAt, before, after, Err(ConstructFailed(k)))
            else if Refuses(failsAt, |after|) then
              SendOutcome(h, make, answers, failsAt, before, after, Err(SendFailed(k)))
            else
              SentSoFar(h, make, chunks, failsAt, before, after + [message.value], k + 1)
  {
    var chunks := SentChunks(answers);
    if Constructs(h, make, chunks, k) {
      assert CanConstruct(h, make, chunks, k + 1);
    }
  }

  lemma SendDone<M>(h: Digest, make: Constructor<M>, answers: seq<ReadResult>, failsAt: Option<nat>,
                    before: seq<M>, after: seq<M>)
    requires var chunks := SentChunks(answers);
             SentSoFar(h, make, chunks, failsAt, before, after, |chunks|)
    ensures SendOutcome(h, make, answers, failsAt, before, after,
                        if ReadFails(answers) then Err(ReadFailed) else Ok(()))
  {
  }

  datatype ChunkFailure = NotBuilt | NotSent

  /** One chunk: build its message, send it, and compute the hash the next one must carry. */
  method SendChunk<R, M>(stream: GrpcStream<R, M>, hasher: Hasher, make: Constructor<M>,
                         previousChunkHash: string, contentChunk: Chunk)
    returns (r: Result<string, ChunkFailure>)
    modifies stream`sent, hasher
    ensures var message := make(previousChunkHash, contentChunk);
            if message.None? then r == Err(NotBuilt) && stream.sent == old(stream.sent)
            else if Refuses(stream.failsAt, |old(stream.sent)|) then
              r == Err(NotSent) && stream.sent == old(stream.sent)
            else r == Ok(hasher.h(contentChunk)) && stream.sent == old(stream.sent) + [message.value]
  {
    var message := make(previousChunkHash, contentChunk);
    if message.None? {
      return Err(NotBuilt);
    }
    var sent := stream.SendMsg(message.value);
    if !sent {
      return Err(NotSent);
    }
    var hash := hasher.HashOf(contentChunk);
    r := Ok(hash);
  }

  /**
    Terminates for every legal reader. Sends the chain over the chunks read, in order, up to
    the first fault; a read failure surfaces only after everything before it was sent.
   */
  method SendMessagesToStream<R, M>(reader: Reader, stream: GrpcStream<R, M>, make: Constructor<M>, h: Digest)
    returns (r: Result<(), SendError>)
    requires LegalReads(reader.answers, CHUNK_SIZE)
    modifies reader, stream`sent
    ensures SendOutcome(h, make, old(reader.answers), stream.failsAt, old(stream.sent), stream.sent, r)
  {
    hide SentChunks, SendOutcome, SentSoFar, FirstSendFault, Messages, CanConstruct;
    ghost var all := reader.answers;
    ghost var chunks := SentChunks(all);
    NextAnswer(all, 0);
    NothingSentYet(h, make, chunks, stream.failsAt, stream.sent);
    var previousChunkHash := "";
    var hasher := new Hasher(h);
    var chunkNumber: nat := 0;
    var buf := new Byte[CHUNK_SIZE];
    while true
      invariant chunkNumber <= |chunks| <= |all| && reader.answers == all[chunkNumber..]
      invariant previousChunkHash == PreviousHash(h, chunks, chunkNumber)
      invariant SentSoFar(h, make, chunks, stream.failsAt, old(stream.sent), stream.sent, chunkNumber)
      invariant fresh(hasher) && fresh(buf) && hasher.h == h
      decreases |reader.answers|
    {
      NextAnswer(all, chunkNumber);
      if chunkNumber == |chunks| {
        SendDone(h, make, all, stream.failsAt, old(stream.sent), stream.sent);
      }
      var bytesRead, err := reader.Read(buf);
      if err.ReadFailure? {
        return Err(ReadFailed);
      }
      if bytesRead == 0 && err.ReadEof? {
        break;
      }
      chunkNumber := chunkNumber + 1;
      var contentChunk := buf[..bytesRead];
      assert contentChunk == all[chunkNumber - 1].bytes == chunks[chunkNumber - 1];
      SendStep(h, make, all, stream.failsAt, old(stream.sent), stream.sent, chunkNumber - 1);
      var step := SendChunk(stream, hasher, make, previousChunkHash, contentChunk);
      if step.Err? {
        return Err(if step.error.NotBuilt? then ConstructFailed(chunkNumber - 1) else SendFailed(chunkNumber - 1));
      }
      previousChunkHash := step.value;
    }
    r := Ok(());
  }

  // ---------- Receiver ----------

  datatype Extraction = Extraction(data: Chunk, hash: string, failed: bool)

  type Extractor<!M> = M -> Extraction

  datatype ReceiveError = ExtractFailed(at: nat) | HashMismatch(at: nat) | StreamBroken

  function ExpectedHash<M>(h: Digest, extract: Extractor<M>, ms: seq<M>, at: nat): string
    requires at <= |ms|
  {
    if at == 0 then "" else h(extract(ms[at - 1]).data)
  }

  /** The first message from `at` on that cannot be opened or breaks the chain. */
  function FirstFault<M>(h: Digest, extract: Extractor<M>, ms: seq<M>, at: nat): (e: Option<ReceiveError>)
    requires at <= |ms|
    ensures e.Some? ==> !e.value.StreamBroken? && at <= e.value.at < |ms|
    decreases |ms| - at
  {
    if at == |ms| then None
    else if extract(ms[at]).failed then Some(ExtractFailed(at))
    else if extract(ms[at]).hash != ExpectedHash(h, extract, ms, at) then Some(HashMismatch(at))
    else FirstFault(h, extract, ms, at + 1)
  }

  /** How many messages the receiver takes off the stream. */
  function Consumed<M>(h: Digest, extract: Extractor<M>, ms: seq<M>): (n: nat)
    ensures n <= |ms|
  {
    match FirstFault(h, extract, ms, 0)
    case Some(e) => e.at + 1
    case None => |ms|
  }

  function DataOf<M>(extract: Extractor<M>, ms: seq<M>): seq<Chunk> {
    seq(|ms|, i requires 0 <= i < |ms| => extract(ms[i]).data)
  }

  /** The data of the first `n` messages. */
  function Gathered<M>(extract: Extractor<M>, ms: seq<M>, n: nat): Chunk
    requires n <= |ms|
  {
    if n == 0 then [] else Gathered(extract, ms, n - 1) + extract(ms[n - 1]).data
  }

  /** What the first `n` messages put into the pipe, if there is one. */
  function PipedBytes<M>(intoPipe: bool, extract: Extractor<M>, ms: seq<M>, n: nat): Chunk
    requires n <= |ms|
  {
    if intoPipe then Gathered(extract, ms, n) else []
  }

  lemma {:induction false} GatheredIsConcat<M>(extract: Extractor<M>, ms: seq<M>, n: nat)
    requires n <= |ms|
    ensures Gathered(extract, ms, n) == Concat(DataOf(extract, ms[..n]))
  {
    if n > 0 {
      GatheredIsConcat(extract, ms, n - 1);
      var init := DataOf(extract, ms[..n - 1]);
      assert DataOf(extract, ms[..n]) == init + [extract(ms[n - 1]).data];
      ConcatSnoc(init, extract(ms[n - 1]).data);
    }
  }

  function Assembled<M>(h: Digest, extract: Extractor<M>, ms: seq<M>, ending: StreamEnd): Result<Chunk, ReceiveError> {
    match FirstFault(h, extract, ms, 0)
    case Some(e) => Err(e)
    case None => if ending.Eof? then Ok(Gathered(extract, ms, |ms|)) else Err(StreamBroken)
  }

  /**
    The extractor closure. Behind a pipe it writes the data it finds to the pipe and hands
    its caller an empty slice instead.
   */
  class ExtractorClosure<!M> {
    const extract: Extractor<M>
    const intoPipe: bool
    var piped: Chunk

    constructor (extract: Extractor<M>, intoPipe: bool)
      ensures this.extract == extract && this.intoPipe == intoPipe && piped == []
    {
      this.extract, this.intoPipe, piped := extract, intoPipe, [];
    }

    method Extract(m: M) returns (e: Extraction)
      modifies this
      ensures e == View(extract, intoPipe)(m)
      ensures piped == if intoPipe then old(piped) + extract(m).data else old(piped)
    {
      e := extract(m);
      if intoPipe {
        piped := piped + e.data;
        e := e.(data := []);
      }
    }
  }

  /** What the validator gets to see. */
  function View<M>(extract: Extractor<M>, intoPipe: bool): Extractor<M> {
    if intoPipe then (m: M) => extract(m).(data := []) else extract
  }

  /** The first `k` messages have been received, opened and validated. */
  ghost predicate ReceivedSoFar<M>(h: Digest, extract: Extractor<M>, ms: seq<M>, k: nat, assembled: Chunk,
                                   expected: string) {
    && k <= |ms|
    && FirstFault(h, extract, ms, 0) == FirstFault(h, extract, ms, k)
    && assembled == Gathered(extract, ms, k)
    && expected == ExpectedHash(h, extract, ms, k)
  }

  lemma NothingReceivedYet<M>(h: Digest, extract: Extractor<M>, ms: seq<M>, intoPipe: bool)
    ensures ReceivedSoFar(h, extract, ms, 0, [], "") && PipedBytes(intoPipe, extract, ms, 0) == []
  {
  }

  lemma ReceiveStep<M>(h: Digest, extract: Extractor<M>, ms: seq<M>, ending: StreamEnd, k: nat, assembled: Chunk,
                       expected: string)
    requires k < |ms| && ReceivedSoFar(h, extract, ms, k, assembled, expected)
    ensures var e := extract(ms[k]);
            if e.failed || e.hash != expected then
              && Assembled(h, extract, ms, ending) == Err(if e.failed then ExtractFailed(k) else HashMismatch(k))
              && Consumed(h, extract, ms) == k + 1
            else
              ReceivedSoFar(h, extract, ms, k + 1, assembled + e.data, h(e.data))
  {
  }

  lemma ReceiveEnd<M>(h: Digest, extract: Extractor<M>, ms: seq<M>, ending: StreamEnd, assembled: Chunk,
                      expected: string)
    requires ReceivedSoFar(h, extract, ms, |ms|, assembled, expected)
    ensures Assembled(h, extract, ms, ending) == (if ending.Eof? then Ok(assembled) else Err(StreamBroken))
    ensures Consumed(h, extract, ms) == |ms|
  {
  }

  lemma PipeStep<M>(intoPipe: bool, extract: Extractor<M>, ms: seq<M>, k: nat, piped: Chunk)
    requires k < |ms|
    ensures piped + PipedBytes(intoPipe, extract, ms, k + 1)
         == piped + PipedBytes(intoPipe, extract, ms, k) + if intoPipe then extract(ms[k]).data else []
  {
  }

  method ReadMessagesFromStream<M, R>(stream: GrpcStream<M, R>, closure: ExtractorClosure<M>, h: Digest)
    returns (r: Result<Chunk, ReceiveError>)
    modifies stream`inbox, closure
    ensures var view := View(closure.extract, closure.intoPipe);
            var n := Consumed(h, view, old(stream.inbox));
            && r == Assembled(h, view, old(stream.inbox), stream.ending)
            && stream.inbox == old(stream.inbox)[n..]
            && closure.piped == old(closure.piped) +
                 PipedBytes(closure.intoPipe, closure.extract, old(stream.inbox), n)
  {
    hide View, FirstFault, Gathered, Assembled, Consumed, PipedBytes, ReceivedSoFar, ExpectedHash;
    ghost var all := stream.inbox;
    ghost var view := View(closure.extract, closure.intoPipe);
    var assembledContent: Chunk := [];
    var blockIdx: nat := 0;
    var computedPreviousBlockHash := "";
    var hasher := new Hasher(h);
    NothingReceivedYet(h, view, all, closure.intoPipe);
    NothingReceivedYet(h, closure.extract, all, closure.intoPipe);
    var received := stream.RecvMsg();
    while received.Msg?
      invariant blockIdx <= |all|
      invariant received.Msg? ==>
                  blockIdx < |all| && received.msg == all[blockIdx] && stream.inbox == all[blockIdx + 1..]
      invariant received.Ended? ==> blockIdx == |all| && received.end == stream.ending && stream.inbox == []
      invariant ReceivedSoFar(h, view, all, blockIdx, assembledContent, computedPreviousBlockHash)
      invariant closure.piped == old(closure.piped) + PipedBytes(closure.intoPipe, closure.extract, all, blockIdx)
      invariant fresh(hasher) && hasher.h == h
      decreases |all| - blockIdx
    {
      ReceiveStep(h, view, all, stream.ending, blockIdx, assembledContent, computedPreviousBlockHash);
      PipeStep(closure.intoPipe, closure.extract, all, blockIdx, old(closure.piped));
      var extraction := closure.Extract(received.msg);
      assert extraction == view(all[blockIdx]);
      if extraction.failed {
        return Err(ExtractFailed(blockIdx));
      }
      if extraction.hash != computedPreviousBlockHash {
        return Err(HashMismatch(blockIdx));
      }
      assembledContent := assembledContent + extraction.data;
      computedPreviousBlockHash := hasher.HashOf(extraction.data);
      received := stream.RecvMsg();
      blockIdx := blockIdx + 1;
    }
    ReceiveEnd(h, view, all, stream.ending, assembledContent, computedPreviousBlockHash);
    if received.end != Eof {
      return Err(StreamBroken);
    }
    r := Ok(assembledContent);
  }

  /** Message `i` opens, and carries the hash of the data before it, or none if it is the first. */
  predicate Passes<M>(h: Digest, extract: Extractor<M>, ms: seq<M>, i: nat)
    requires i < |ms|
  {
    && !extract(ms[i]).failed
    && extract(ms[i]).hash == if i == 0 then "" else h(extract(ms[i - 1]).data)
  }

  lemma {:induction false} FirstFaultIs<M>(h: Digest, extract: Extractor<M>, ms: seq<M>, k: nat)
    requires k <= |ms|
    ensures match FirstFault(h, extract, ms, k)
            case None => forall i | k <= i < |ms| :: Passes(h, extract, ms, i)
            case Some(e) =>
              && (e.ExtractFailed? || e.HashMismatch?) && k <= e.at < |ms|
              && (forall i | k <= i < e.at :: Passes(h, extract, ms, i))
              && !Passes(h, extract, ms, e.at) && (e.ExtractFailed? <==> extract(ms[e.at]).failed)
    decreases |ms| - k
  {
    if k < |ms| {
      FirstFaultIs(h, extract, ms, k + 1);
    }
  }

  /**
    The receiver takes messages up to and including the first that does not pass, and says why
    that one does not: opening comes before comparing hashes. If all pass, the stream's own end
    decides.
   */
  lemma ReceiverStopsAtFirstFault<M>(h: Digest, extract: Extractor<M>, ms: seq<M>, ending: StreamEnd)
    ensures var r, n := Assembled(h, extract, ms, ending), Consumed(h, extract, ms);
            if forall i | 0 <= i < |ms| :: Passes(h, extract, ms, i) then
              n == |ms| && (ending == Broken <==> r == Err(StreamBroken)) && (ending == Eof <==> r.Ok?)
            else
              && 0 < n <= |ms| && !Passes(h, extract, ms, n - 1)
              && (forall i | 0 <= i < n - 1 :: Passes(h, extract, ms, i))
              && r == Err(if extract(ms[n - 1]).failed then ExtractFailed(n - 1) else HashMismatch(n - 1))
  {
    FirstFaultIs(h, extract, ms, 0);
  }

  // ---------- What the receiver's verdict means ----------

  function Wires<M>(extract: Extractor<M>, ms: seq<M>): seq<Wire> {
    seq(|ms|, i requires 0 <= i < |ms| => Wire(extract(ms[i]).data, extract(ms[i]).hash))
  }

  predicate AllOpen<M>(extract: Extractor<M>, ms: seq<M>) {
    forall i | 0 <= i < |ms| :: !extract(ms[i]).failed
  }

  lemma {:induction false} NoFaultMeansAccepted<M>(h: Digest, extract: Extractor<M>, ms: seq<M>, at: nat)
    requires at <= |ms|
    ensures FirstFault(h, extract, ms, at).None? <==>
            forall k | at <= k < |ms| :: !extract(ms[k]).failed && LinkHolds(h, Wires(extract, ms), k)
    decreases |ms| - at
  {
    hide LinkHolds, Wires, ExpectedHash;
    if at < |ms| {
      NoFaultMeansAccepted(h, extract, ms, at + 1);
      LinkComparesHashes(h, extract, ms, at);
    }
  }

  lemma LinkComparesHashes<M>(h: Digest, extract: Extractor<M>, ms: seq<M>, at: nat)
    requires at < |ms|
    ensures LinkHolds(h, Wires(extract, ms), at) <==> extract(ms[at]).hash == ExpectedHash(h, extract, ms, at)
  {
  }

  /** Success exactly when the stream ends in EOF, every message opens and the chain holds. */
  lemma AssembledIffAccepted<M>(h: Digest, extract: Extractor<M>, ms: seq<M>, ending: StreamEnd)
    ensures var r := Assembled(h, extract, ms, ending);
            && (r.Ok? <==> ending.Eof? && AllOpen(extract, ms) && Accepted(h, Wires(extract, ms)))
            && (r.Ok? ==> r.value == Concat(Contents(Wires(extract, ms))))
  {
    NoFaultMeansAccepted(h, extract, ms, 0);
    GatheredIsConcat(extract, ms, |ms|);
    assert ms[..|ms|] == ms && Contents(Wires(extract, ms)) == DataOf(extract, ms);
    if ending.Eof? && AllOpen(extract, ms) && Accepted(h, Wires(extract, ms)) {
      forall k | 0 <= k < |ms| ensures !extract(ms[k]).failed && LinkHolds(h, Wires(extract, ms), k) {
      }
    }
  }

  /** Opening a constructed message gives back what went into it. */
  ghost predicate Matches<M>(make: Constructor<M>, extract: Extractor<M>) {
    forall p, c :: make(p, c).Some? ==> extract(make(p, c).value) == Extraction(c, p, false)
  }

  lemma WiresOfMessages<M>(h: Digest, make: Constructor<M>, extract: Extractor<M>, chunks: seq<Chunk>)
    requires Matches(make, extract) && CanConstruct(h, make, chunks, |chunks|)
    ensures var ms := Messages(h, make, chunks, |chunks|);
            Wires(extract, ms) == Chain(h, chunks) && AllOpen(extract, ms)
  {
    var ms := Messages(h, make, chunks, |chunks|);
    forall i | 0 <= i < |ms|
      ensures extract(ms[i]) == Extraction(chunks[i], PreviousHash(h, chunks, i), false)
    {
      MessageAt(h, make, chunks, |chunks|, i);
    }
  }

  /** Round trip, for every legal reader and every payload. */
  lemma RoundTrip<M>(h: Digest, make: Constructor<M>, extract: Extractor<M>, answers: seq<ReadResult>)
    requires LegalReads(answers, CHUNK_SIZE) && !ReadFails(answers)
    requires Matches(make, extract) && CanConstruct(h, make, SentChunks(answers), |SentChunks(answers)|)
    ensures var ms := Messages(h, make, SentChunks(answers), |SentChunks(answers)|);
            Assembled(h, extract, ms, Eof) == Ok(Payload(answers))
  {
    var chunks := SentChunks(answers);
    var ms := Messages(h, make, chunks, |chunks|);
    WiresOfMessages(h, make, extract, chunks);
    FaithfulDeliveryAccepted(h, chunks);
    AssembledIffAccepted(h, extract, ms, Eof);
    SentChunksCoverPayload(answers);
  }

  function Pick<M>(ms: seq<M>, s: seq<nat>): seq<M>
    requires IndexesInto(s, |ms|)
  {
    seq(|s|, k requires 0 <= k < |s| => ms[s[k]])
  }

  lemma WiresOfPicked<M>(extract: Extractor<M>, ms: seq<M>, s: seq<nat>)
    requires IndexesInto(s, |ms|) && AllOpen(extract, ms)
    ensures Wires(extract, Pick(ms, s)) == Deliver(Wires(extract, ms), s)
    ensures AllOpen(extract, Pick(ms, s))
  {
  }

  /** Fault detection at the receiver, for any lost, repeated or reordered messages. */
  lemma ReceiverFaultDetection<M>(h: Digest, make: Constructor<M>, extract: Extractor<M>, chunks: seq<Chunk>,
                                  s: seq<nat>)
    requires NeverBlank(h) && CollisionFree(h, set c | c in chunks)
    requires Matches(make, extract) && CanConstruct(h, make, chunks, |chunks|)
    requires IndexesInto(s, |chunks|)
    ensures var r := Assembled(h, extract, Pick(Messages(h, make, chunks, |chunks|), s), Eof);
            && (r.Ok? <==> Unnoticed(chunks, s))
            && (r.Ok? && PairwiseDistinct(chunks) ==>
                  |s| <= |chunks| && r.value == Concat(chunks[..|s|]) <= Concat(chunks))
  {
    var ms := Messages(h, make, chunks, |chunks|);
    var delivered := Pick(ms, s);
    WiresOfMessages(h, make, extract, chunks);
    WiresOfPicked(extract, ms, s);
    AssembledIffAccepted(h, extract, delivered, Eof);
    AcceptedDeliveries(h, chunks, s);
    if Unnoticed(chunks, s) && PairwiseDistinct(chunks) {
      AcceptedDeliveryYieldsPayloadPrefix(h, chunks, s);
    }
  }

  /**
    Tamper binding at the receiver's result, and so at what the server's consumer is given:
    with the sender's hash column a stream is accepted exactly when every chunk but the last
    is the sender's, and what comes out is then the payload up to the last chunk.
   */
  lemma TamperBindingAtReceiver<M>(h: Digest, extract: Extractor<M>, chunks: seq<Chunk>, ms: seq<M>, ending: StreamEnd)
    requires SameHashColumn(Wires(extract, ms), Chain(h, chunks))
    requires CollisionFree(h, (set c | c in chunks) + (set c | c in Contents(Wires(extract, ms))))
    ensures var r := Assembled(h, extract, ms, ending);
            var n := |chunks|;
            && (r.Ok? <==> ending.Eof? && AllOpen(extract, ms) &&
                             forall i | 0 <= i < n - 1 :: extract(ms[i]).data == chunks[i])
            && (r.Ok? ==> r.value == if n == 0 then [] else Concat(chunks[..n - 1]) + extract(ms[n - 1]).data)
  {
    hide Accepted, CollisionFree, Assembled, Concat, SameHashColumn, Chain, Contents;
    var ws := Wires(extract, ms);
    SameColumnSameLength(h, ws, chunks);
    AssembledIffAccepted(h, extract, ms, ending);
    AcceptedIffOnlyLastChunkTampered(h, chunks, ws);
    if forall i | 0 <= i < |chunks| - 1 :: ws[i].content == chunks[i] {
      ContentsUpToLast(chunks, ws);
    }
  }

  lemma SameColumnSameLength(h: Digest, ws: seq<Wire>, chunks: seq<Chunk>)
    requires SameHashColumn(ws, Chain(h, chunks))
    ensures |ws| == |chunks|
  {
  }

  lemma ContentsUpToLast(chunks: seq<Chunk>, ws: seq<Wire>)
    requires |ws| == |chunks| && forall i | 0 <= i < |chunks| - 1 :: ws[i].content == chunks[i]
    ensures Concat(Contents(ws)) ==
            if chunks == [] then [] else Concat(chunks[..|chunks| - 1]) + ws[|chunks| - 1].content
  {
    if chunks != [] {
      var n := |chunks| - 1;
      assert Contents(ws) == chunks[..n] + [ws[n].content];
      ConcatSnoc(chunks[..n], ws[n].content);
    }
  }

  // ---------- Client and server ----------

  datatype ClientError = ChunksNotSent(cause: SendError) | CloseFailed | NoResponse

  method ClientSendData<R, M>(reader: Reader, stream: GrpcStream<R, M>, make: Constructor<M>, h: Digest)
    returns (r: Result<R, ClientError>)
    requires LegalReads(reader.answers, CHUNK_SIZE)
    modifies reader, stream
    ensures var chunks := SentChunks(old(reader.answers));
            match FirstSendFault(h, make, chunks, |old(stream.sent)|, stream.failsAt, 0)
            case Some(e) =>
              && r == Err(ChunksNotSent(e)) && stream.inbox == old(stream.inbox)
              && stream.sendClosed == old(stream.sendClosed)
              && stream.sent == old(stream.sent) + Messages(h, make, chunks, e.at)
            case None =>
              && stream.sent == old(stream.sent) + Messages(h, make, chunks, |chunks|)
              && (ReadFails(old(reader.answers)) ==>
                    r == Err(ChunksNotSent(ReadFailed)) && stream.sendClosed == old(stream.sendClosed))
              && (!ReadFails(old(reader.answers)) ==>
                    && stream.sendClosed
                    && r == if stream.closeFails then Err(CloseFailed)
                            else if old(stream.inbox) == [] then Err(NoResponse)
                            else Ok(old(stream.inbox)[0]))
  {
    var sent := SendMessagesToStream(reader, stream, make, h);
    if sent.Err? {
      return Err(ChunksNotSent(sent.error));
    }
    var closed := stream.CloseSend();
    if !closed {
      return Err(CloseFailed);
    }
    var response := stream.RecvMsg();
    if response.Ended? {
      return Err(NoResponse);
    }
    r := Ok(response.msg);
  }

  /** The server's consumer callback, with a record of what it was invoked on. */
  class Consumer<R> {
    const run: Chunk -> Option<R>
    var calls: seq<Chunk>

    constructor (run: Chunk -> Option<R>)
      ensures this.run == run && calls == []
    {
      this.run, calls := run, [];
    }

    method Consume(content: Chunk) returns (response: Option<R>)
      modifies this
      ensures response == run(content) && calls == old(calls) + [content]
    {
      calls := calls + [content];
      response := run(content);
    }
  }

  /** The consumer runs once on fully accepted content, and otherwise not at all. */
  method ServerReceiveData<M, R>(stream: GrpcStream<M, R>, extract: Extractor<M>, consumer: Consumer<R>, h: Digest)
    returns (ok: bool)
    modifies stream, consumer
    ensures stream.inbox == old(stream.inbox)[Consumed(h, extract, old(stream.inbox))..]
    ensures match Assembled(h, extract, old(stream.inbox), stream.ending)
            case Err(_) => !ok && consumer.calls == old(consumer.calls) && stream.sent == old(stream.sent)
            case Ok(content) =>
              && consumer.calls == old(consumer.calls) + [content]
              && ok == (consumer.run(content).Some? && !Refuses(stream.failsAt, |old(stream.sent)|))
              && stream.sent == old(stream.sent) + if ok then [consumer.run(content).value] else []
  {
    var closure := new ExtractorClosure(extract, false);
    var assembled := ReadMessagesFromStream(stream, closure, h);
    if assembled.Err? {
      return false;
    }
    var response := consumer.Consume(assembled.value);
    if response.None? {
      return false;
    }
    ok := stream.SendMsg(response.value);
  }

  /** How a read ends once the pipe is drained. Closing a reader hides the error it is closed with. */
  datatype PipeEnd = EndOfFile | ClosedPipe

  /**
    Everything the validator pulled goes down the pipe, the rejected chunk included; a write to
    the pipe waits for its bytes to be read, so the consumer has them all before it sees the end.
   */
  method PipeReader<M, R>(stream: GrpcStream<M, R>, extract: Extractor<M>, h: Digest)
    returns (piped: Chunk, end: PipeEnd, closedWith: Option<ReceiveError>)
    modifies stream`inbox
    ensures var view := View(extract, true);
            var n := Consumed(h, view, old(stream.inbox));
            && stream.inbox == old(stream.inbox)[n..]
            && piped == Gathered(extract, old(stream.inbox), n)
            && (match Assembled(h, view, old(stream.inbox), stream.ending)
                case Err(e) => end == ClosedPipe && closedWith == Some(e)
                case Ok(_) => end == EndOfFile && closedWith == None)
  {
    var closure := new ExtractorClosure(extract, true);
    var assembled := ReadMessagesFromStream(stream, closure, h);
    piped := closure.piped;
    if assembled.Err? {
      end, closedWith := ClosedPipe, Some(assembled.error);
    } else {
      end, closedWith := EndOfFile, None;
    }
  }

  /**
    Through the pipe, any stream at all: what passes is a message that opens and carries the
    hash of the empty chunk, or no hash if it is the first. What it contains does not matter.
   */
  lemma PipedReceiverPasses<M>(h: Digest, extract: Extractor<M>, ms: seq<M>, i: nat)
    requires i < |ms|
    ensures Passes(h, View(extract, true), ms, i) <==>
              !extract(ms[i]).failed && extract(ms[i]).hash == if i == 0 then "" else h([])
    ensures Passes(h, View(extract, false), ms, i) <==> Passes(h, extract, ms, i)
  {
  }

  function FirstNonEmpty(chunks: seq<Chunk>): (j: nat)
    ensures j <= |chunks| && (forall i | 0 <= i < j :: chunks[i] == [])
    ensures j < |chunks| ==> chunks[j] != []
  {
    if chunks == [] || chunks[0] != [] then 0 else 1 + FirstNonEmpty(chunks[1..])
  }

  lemma {:induction false} FaithfulPipeStops<M>(h: Digest, make: Constructor<M>, extract: Extractor<M>,
                                                chunks: seq<Chunk>, at: nat)
    requires Matches(make, extract) && CanConstruct(h, make, chunks, |chunks|)
    requires CollisionFree(h, (set c | c in chunks) + {[]})
    requires at <= |chunks| && at <= FirstNonEmpty(chunks) + 1
    ensures var ms := Messages(h, make, chunks, |chunks|);
            var j := FirstNonEmpty(chunks);
            FirstFault(h, View(extract, true), ms, at)
            == if j + 1 < |chunks| then Some(HashMismatch(j + 1)) else None
    decreases |chunks| - at
  {
    var ms := Messages(h, make, chunks, |chunks|);
    var view := View(extract, true);
    var j := FirstNonEmpty(chunks);
    if at < |chunks| {
      MessageAt(h, make, chunks, |chunks|, at);
      assert view(ms[at]) == Extraction([], PreviousHash(h, chunks, at), false);
      if at > 0 {
        MessageAt(h, make, chunks, |chunks|, at - 1);
        assert view(ms[at - 1]).data == [];
        assert chunks[at - 1] in chunks && !Collision(h, chunks[at - 1], []);
      }
      if at <= j {
        FaithfulPipeStops(h, make, extract, chunks, at + 1);
      }
    }
  }

  lemma {:induction false} GatheredMessages<M>(h: Digest, make: Constructor<M>, extract: Extractor<M>,
                                               chunks: seq<Chunk>, n: nat)
    requires Matches(make, extract) && CanConstruct(h, make, chunks, |chunks|) && n <= |chunks|
    ensures Gathered(extract, Messages(h, make, chunks, |chunks|), n) == Concat(chunks[..n])
  {
    if n > 0 {
      GatheredMessages(h, make, extract, chunks, n - 1);
      MessageAt(h, make, chunks, |chunks|, n - 1);
      assert chunks[..n] == chunks[..n - 1] + [chunks[n - 1]];
      ConcatSnoc(chunks[..n - 1], chunks[n - 1]);
    }
  }

  /**
    An undisturbed stream through the pipe: with a first non-empty chunk `j` that is not the
    last, the transfer is rejected at message `j + 1`, after exactly the chunks up to that one
    went down the pipe; otherwise it is accepted and the payload went down whole. So it is
    accepted exactly when every chunk but the last is empty.
   */
  lemma PipedReceiverOnFaithfulStream<M>(h: Digest, make: Constructor<M>, extract: Extractor<M>, chunks: seq<Chunk>)
    requires Matches(make, extract) && CanConstruct(h, make, chunks, |chunks|)
    requires CollisionFree(h, (set c | c in chunks) + {[]})
    ensures var ms := Messages(h, make, chunks, |chunks|);
            var view := View(extract, true);
            var j := FirstNonEmpty(chunks);
            var piped := Gathered(extract, ms, Consumed(h, view, ms));
            && (Assembled(h, view, ms, Eof).Ok? <==> forall i | 0 <= i < |chunks| - 1 :: chunks[i] == [])
            && (if j + 1 < |chunks|
                then Assembled(h, view, ms, Eof) == Err(HashMismatch(j + 1)) && piped == Concat(chunks[..j + 2])
                else Assembled(h, view, ms, Eof).Ok? && piped == Concat(chunks))
  {
    hide Messages, Gathered, FirstFault, Matches, CanConstruct;
    var ms := Messages(h, make, chunks, |chunks|);
    var view := View(extract, true);
    FaithfulPipeStops(h, make, extract, chunks, 0);
    GatheredMessages(h, make, extract, chunks, Consumed(h, view, ms));
    assert chunks[..|chunks|] == chunks;
  }

  /**
    Had the extractor returned the data it piped, both receivers would agree on every stream:
    on success the pipe holds exactly what the buffered receiver returns, and on failure the
    data of all messages up to and including the offending one.
   */
  lemma PipeReturningDataAgrees<M>(h: Digest, extract: Extractor<M>, ms: seq<M>, ending: StreamEnd)
    ensures var r := Assembled(h, extract, ms, ending);
            var piped := Gathered(extract, ms, Consumed(h, extract, ms));
            && (r.Ok? ==> piped == r.value == Concat(DataOf(extract, ms)))
            && (r.Err? ==>
                  piped == Concat(DataOf(extract, if r.error.StreamBroken? then ms else ms[..r.error.at + 1])))
  {
    GatheredIsConcat(extract, ms, Consumed(h, extract, ms));
    GatheredIsConcat(extract, ms, |ms|);
    assert ms[..|ms|] == ms;
  }

  /** So an undisturbed transfer of any payload would have reached the pipe whole, without an error. */
  lemma PipeReturningDataRoundTrip<M>(h: Digest, make: Constructor<M>, extract: Extractor<M>, answers: seq<ReadResult>)
    requires LegalReads(answers, CHUNK_SIZE) && !ReadFails(answers)
    requires Matches(make, extract) && CanConstruct(h, make, SentChunks(answers), |SentChunks(answers)|)
    ensures var ms := Messages(h, make, SentChunks(answers), |SentChunks(answers)|);
            && Assembled(h, extract, ms, Eof).Ok?
            && Gathered(extract, ms, Consumed(h, extract, ms)) == Payload(answers)
  {
    hide SentChunks, Messages, Gathered, Consumed, Assembled;
    RoundTrip(h, make, extract, answers);
    PipeReturningDataAgrees(h, extract, Messages(h, make, SentChunks(answers), |SentChunks(answers)|), Eof);
  }
}
