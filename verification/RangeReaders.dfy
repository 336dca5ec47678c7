/** The reader that turns a remote resource into a seekable stream by issuing range requests.
    The server is a parameter: a function from the number of the exchange and the request to
    the response. */
module RangeReaders {
  import opened Text
  import opened RangeHeaders
  import opened CacheItems

  // ---- Responses ----

  /** What an error is, or wraps: io.EOF, io.ErrUnexpectedEOF, or neither. */
  datatype Cause = EndOfStream | UnexpectedEnd | OtherError

  /** What a read of a body says: go on, or the error that ended it. */
  datatype BodyStatus = More | Stopped(cause: Cause)

  /** A response body: the pieces that successive reads deliver. An ending with `together` is
      reported by the read that delivers the last bytes. */
  datatype Body = Body(pieces: seq<seq<byte>>, ending: Cause, together: bool) {

    /** One Read into a buffer of `limit` bytes. */
    function Read(limit: nat): (r: (seq<byte>, BodyStatus, Body))
      requires limit > 0
      ensures |r.0| <= limit && Flat(pieces) == r.0 + Flat(r.2.pieces) && r.2.ending == ending
      ensures r.1.More? ==> |r.0| > 0 || |r.2.pieces| < |pieces|
      ensures !r.1.More? ==> r.1 == Stopped(ending) && Flat(r.2.pieces) == []
    {
      if pieces == [] then ([], Stopped(ending), this)
      else
        var head, rest := pieces[0], pieces[1..];
        if |head| > limit then
          assert head == head[..limit] + head[limit..];
          (head[..limit], More, this.(pieces := [head[limit..]] + rest))
        else (head, if rest == [] && together then Stopped(ending) else More, this.(pieces := rest))
    }
  }

  /** All bytes of the pieces. */
  function Flat(pieces: seq<seq<byte>>): seq<byte> {
    if pieces == [] then [] else pieces[0] + Flat(pieces[1..])
  }

  /** A GET with an optional Range header (first and last position), or a HEAD. */
  datatype Request = Request(range: Option<(int, int)>, head: bool)

  /** `NoResponse` is an exchange that failed with an error: a server that closes a fresh connection
      without an answer makes the client report an error that wraps io.EOF. */
  datatype Response =
    | NoResponse(cause: Cause)
    | Response(status: int, contentRange: string, acceptRanges: string, contentType: string,
               contentLength: int, body: Body)

  type Server = (nat, Request) -> Response

  /** A complete answer that ignores the Range header of the request. */
  predicate IgnoresRange(resp: Response) {
    resp.Response? && resp.status == 200 && resp.acceptRanges != "bytes" && resp.contentRange == ""
  }

  /** The answers of a server that serves `source` as RFC 9110 asks: partial content names the
      range it holds, whichever that is, and delivers a nonempty part of it, possibly cut short;
      complete content declares its length, so that a cut is not mistaken for its end. Any exchange
      may fail in any way. */
  ghost predicate Allowed(source: seq<byte>, req: Request, resp: Response) {
    resp.NoResponse? || (
      && (resp.status == 416 ==>
            var total := ParseContentRangeTotalLength(resp.contentRange);
            total.Some? && total.value > 0 ==> total.value == |source|)
      && (req.head && resp.status == 200 ==> resp.contentLength == |source| || resp.contentLength < 0)
      && (!req.head && IgnoresRange(resp) ==>
            && resp.contentLength == |source| && Flat(resp.body.pieces) <= source
            && (resp.body.ending.EndOfStream? ==> Flat(resp.body.pieces) == source))
      && (!req.head && (resp.status == 200 || resp.status == 206) && !IgnoresRange(resp) ==>
            exists first: nat, last: nat, total :: HoldsRange(source, first, last, total, resp)))
  }

  ghost predicate HoldsRange(source: seq<byte>, first: nat, last: nat, total: int, resp: Response)
    requires resp.Response?
  {
    && first <= last < |source| && (total == -1 || total == |source|)
    && resp.contentRange == FmtContentRange(first, last, total)
    && Flat(resp.body.pieces) <= source[first..last + 1]
    && (Flat(resp.body.pieces) != [] || !resp.body.ending.EndOfStream?)
  }

  ghost predicate WellBehaved(source: seq<byte>, respond: Server) {
    forall n, req :: Allowed(source, req, respond(n, req))
  }

  /** An answer of a server that does not fail: it serves any range that starts inside the source,
      in part or by sending everything, and always says how long the source is. */
  ghost predicate Answers(source: seq<byte>, contentTypes: seq<string>, req: Request, resp: Response) {
    && resp.Response? && resp.contentType != "" && (contentTypes == [] || resp.contentType in contentTypes)
    && (req.head ==> resp.status == 200 && resp.contentLength == |source|)
    && (!req.head && resp.status != 416 ==> resp.body.ending.EndOfStream?)
    && (!req.head && (req.range.Some? ==> req.range.value.0 < |source|) ==>
          IgnoresRange(resp)
          || (req.range.Some? && (resp.status == 200 || resp.status == 206) && StartsAt(resp, req.range.value.0)
              && ParseContentRangeTotalLength(resp.contentRange) == Some(|source|)))
  }

  /** Whether the response says that it starts at this offset. */
  predicate StartsAt(resp: Response, offset: int)
    requires resp.Response?
  {
    var positions := ParseContentRangeStartAndEnd(resp.contentRange);
    positions.Some? && positions.value.0 == offset
  }

  ghost predicate Reliable(source: seq<byte>, contentTypes: seq<string>, respond: Server) {
    forall n, req :: Answers(source, contentTypes, req, respond(n, req))
  }

  /** Some answer of the server has this content type. */
  ghost predicate Offered(respond: Server, contentType: string) {
    exists n, req :: HasType(respond(n, req), contentType)
  }

  predicate HasType(resp: Response, contentType: string) {
    resp.Response? && resp.contentType == contentType
  }

  datatype Outcome = Done | EndOfFile | Failure(cause: Cause)

  /** How one turn of the read loop ended. */
  datatype Step = Continue | FetchedEof | FetchFailed(cause: Cause) | ReadFailed(cause: Cause)

  datatype Whence = SeekStart | SeekCurrent | SeekEnd | OtherWhence

  /** What filling a buffer comes to: `Short` is io.ErrUnexpectedEOF, or an error that wraps it. */
  datatype FullOutcome = Full | Nothing | Short | Error

  /** The first n bytes from `offset` on, as far as the source goes. */
  function Slice(source: seq<byte>, offset: nat, n: nat): seq<byte> {
    if offset >= |source| then []
    else if offset + n <= |source| then source[offset..offset + n]
    else source[offset..]
  }

  lemma SliceAppend(source: seq<byte>, offset: nat, a: seq<byte>, b: seq<byte>)
    requires a == Slice(source, offset, |a|) && b == Slice(source, offset + |a|, |b|)
    ensures a + b == Slice(source, offset, |a + b|)
  {
  }

  // ---- The reader ----

  class RangeReader {
    ghost const source: seq<byte>
    const respond: Server
    const perLength: nat
    const allowedContentTypes: seq<string>
    const notSupportSeekWhenNotSupportRange: bool
    var exchanges: nat
    var offset: nat
    var contentTotalLength: int
    var currentRespMaxOffset: int
    var currentResp: Option<Body>
    var notSupportRange: bool
    var contentType: string
    /** Whether the last fetch met a server that closed the connection without an answer. */
    ghost var hungUp: bool

    /** The current body goes on with the source at the current offset. */
    ghost predicate BodyFits()
      reads this
    {
      currentResp.Some? ==> offset <= |source| && Flat(currentResp.value.pieces) <= source[offset..]
    }

    ghost predicate Valid()
      reads this
    {
      && 0 < |source| <= MAX_INT64 && 0 < perLength <= MAX_INT64 && offset <= MAX_INT64
      && WellBehaved(source, respond) && (contentType == "" || Offered(respond, contentType))
      && (contentTotalLength == -1 || contentTotalLength == |source|)
      && (NeedsFetch() || (BodyFits() && currentRespMaxOffset < |source|))
    }

    /** Whether the next read has to issue a request first. */
    predicate NeedsFetch()
      reads this
    {
      currentResp.None? || offset > currentRespMaxOffset
    }

    /** The server does not fail, and what it has sent so far shows that. */
    ghost predicate Healthy()
      reads this
    {
      && !notSupportSeekWhenNotSupportRange && Reliable(source, allowedContentTypes, respond)
      && (currentResp.Some? ==> currentResp.value.ending.EndOfStream? && contentTotalLength == |source| && contentType != "")
    }

    constructor (ghost source: seq<byte>, respond: Server, perLength: nat, allowedContentTypes: seq<string>,
                 forceNotSupportRange: bool, notSupportSeekWhenNotSupportRange: bool)
      requires 0 < |source| <= MAX_INT64 && 0 < perLength <= MAX_INT64 && WellBehaved(source, respond)
      ensures Valid() && offset == 0 && exchanges == 0 && currentResp.None? && contentTotalLength == -1
      ensures this.source == source && this.respond == respond && this.perLength == perLength
      ensures this.allowedContentTypes == allowedContentTypes && notSupportRange == forceNotSupportRange
      ensures this.notSupportSeekWhenNotSupportRange == notSupportSeekWhenNotSupportRange
      ensures !notSupportSeekWhenNotSupportRange && Reliable(source, allowedContentTypes, respond) ==> Healthy()
    {
      this.source, this.respond, this.perLength := source, respond, perLength;
      this.allowedContentTypes := allowedContentTypes;
      this.notSupportSeekWhenNotSupportRange := notSupportSeekWhenNotSupportRange;
      exchanges, offset, contentTotalLength, currentRespMaxOffset := 0, 0, -1, 0;
      currentResp, notSupportRange, contentType, hungUp := None, forceNotSupportRange, "", false;
    }

    predicate ContentTypeAllowed(ct: string) {
      allowedContentTypes == [] || (ct != "" && ct in allowedContentTypes)
    }

    method Exchange(req: Request) returns (resp: Response)
      requires Valid()
      modifies `exchanges
      ensures Valid() && Allowed(source, req, resp)
      ensures resp == respond(old(exchanges), req) && exchanges == old(exchanges) + 1
      ensures resp.Response? ==> Offered(respond, resp.contentType)
      ensures Reliable(source, allowedContentTypes, respond) ==> Answers(source, allowedContentTypes, req, resp)
    {
      resp := respond(exchanges, req);
      assert resp.Response? ==> HasType(respond(exchanges, req), resp.contentType);
      exchanges := exchanges + 1;
    }

    /** The last position of the next range, by 64-bit arithmetic. */
    function NextEnd(): int
      requires Valid()
      reads this
    {
      var end := Wrap64(offset + perLength - 1);
      if contentTotalLength > 0 && end > contentTotalLength - 1 then contentTotalLength - 1 else end
    }

    /** The request that the next fetch issues. */
    ghost function NextRequest(): Request
      requires Valid()
      reads this
    {
      Request(if notSupportRange then None else Some((offset, NextEnd())), false)
    }

    /** The total length is known, and the offset is not before it. */
    predicate AtKnownEnd()
      reads this
    {
      contentTotalLength > 0 && offset >= contentTotalLength
    }

    /** The next GET; also sets how far its response may reach. */
    method CreateRequest() returns (req: Request)
      requires Valid() && currentResp.None?
      modifies `currentRespMaxOffset
      ensures Valid() && req == old(NextRequest())
      ensures req.range.Some? <==> !notSupportRange
      // Without ranges the next response may reach to the end, where that is known.
      ensures notSupportRange ==>
                currentRespMaxOffset == if contentTotalLength == -1 then old(currentRespMaxOffset) else contentTotalLength - 1
      // From the offset on, as much as one response may hold, but not beyond a known end; the last
      // position is computed without overflow exactly if it does not come before the first.
      ensures req.range.Some? && !AtKnownEnd() ==>
                var (first, last) := req.range.value;
                && first == offset && currentRespMaxOffset == last
                && (first <= last <==> offset + perLength - 1 <= MAX_INT64)
                && (first <= last ==> last < offset + perLength && (contentTotalLength == |source| ==> last < |source|)
                                      && (last == offset + perLength - 1 || last == contentTotalLength - 1))
    {
      if notSupportRange {
        if contentTotalLength != -1 {
          currentRespMaxOffset := contentTotalLength - 1;
        }
        return Request(None, false);
      }
      var end := Wrap64(offset + perLength - 1);
      if contentTotalLength > 0 && end > contentTotalLength - 1 {
        end := contentTotalLength - 1;
      }
      currentRespMaxOffset := end;
      req := Request(Some((offset, end)), false);
    }

    /** The server answers the next request as one that does not fail. */
    ghost predicate Answered()
      requires Valid()
      reads this
    {
      !notSupportSeekWhenNotSupportRange
      && Answers(source, allowedContentTypes, NextRequest(), respond(exchanges, NextRequest()))
    }

    lemma AnswersIfHealthy()
      requires Valid()
      ensures Healthy() ==> Answered()
    {
    }

    method FetchNextChunk() returns (outcome: Outcome)
      requires Valid()
      modifies this
      ensures Valid() && offset == old(offset)
      ensures exchanges == old(exchanges) + if old(AtKnownEnd()) then 0 else 1
      // End of file is reported at the end of the source, and when a server hung up instead of answering;
      // once the total length is known, the second case is exactly the one that is not the end.
      ensures outcome.EndOfFile? ==> offset >= |source| || hungUp
      ensures outcome.EndOfFile? && contentTotalLength == |source| ==> (offset >= |source| <==> !hungUp)
      ensures outcome.Failure? ==> !outcome.cause.EndOfStream?
      ensures !old(AtKnownEnd()) && old(respond(exchanges, NextRequest())).NoResponse? ==>
                var cause := old(respond(exchanges, NextRequest())).cause;
                outcome == (if cause.EndOfStream? then EndOfFile else Failure(cause))
      ensures hungUp <==> !old(AtKnownEnd()) && old(respond(exchanges, NextRequest())) == NoResponse(EndOfStream)
      ensures outcome.Done? ==> currentResp.Some? && BodyFits() && !hungUp
                                && (old(contentTotalLength) == |source| ==> offset < |source|)
      ensures !outcome.Done? ==> currentResp.None?
      ensures outcome.Done? && !IgnoresRange(old(respond(exchanges, NextRequest()))) ==>
                currentResp == Some(old(respond(exchanges, NextRequest())).body)
      // A fetch makes progress, or has found out that the offset is at the end.
      ensures outcome.Done? ==>
                || (!NeedsFetch() && (Flat(currentResp.value.pieces) != [] || !currentResp.value.ending.EndOfStream?))
                || (offset == |source| && contentTotalLength == |source|)
      ensures outcome.Done? && BytesLeft() > 0 <==> old(NextDelivers())
      // Ranges are given up exactly when a complete answer was taken.
      ensures notSupportRange <==> old(notSupportRange) || (outcome.Done? && IgnoresRange(old(respond(exchanges, NextRequest()))))
      ensures old(contentTotalLength) == |source| ==> contentTotalLength == |source|
      // A server that does not fail lets every fetch inside the source succeed.
      ensures old(Answered()) && offset < |source| ==> outcome.Done? && contentTotalLength == |source|
      ensures old(Healthy()) ==> Healthy() && !hungUp
      ensures old(Healthy()) && offset < |source| ==> outcome.Done? && contentTotalLength == |source|
      ensures old(Healthy()) && (outcome.Done? || old(Informed())) ==> Informed()
      ensures old(Healthy()) && offset >= |source| && old(contentTotalLength) == |source| ==> outcome.EndOfFile?
    {
      hide WellBehaved, Flat, Allowed, IgnoresRange, Reliable, StartsAt, ParseContentRangeTotalLength;
      AnswersIfHealthy();
      currentResp, hungUp := None, false;
      if contentTotalLength > 0 && offset >= contentTotalLength {
        return EndOfFile;
      }
      var req := CreateRequest();
      var resp := Exchange(req);
      if resp.NoResponse? {
        // The error of the client is wrapped, and the caller takes whatever wraps io.EOF for the end.
        hungUp := resp.cause.EndOfStream?;
        return if resp.cause.EndOfStream? then EndOfFile else Failure(resp.cause);
      }
      outcome := TakeResponse(req, resp);
    }

    /** What an answer of the server comes to. */
    method TakeResponse(req: Request, resp: Response) returns (outcome: Outcome)
      requires Valid() && currentResp.None? && !hungUp && resp.Response? && !AtKnownEnd()
      requires !req.head && (req.range.Some? ==> req.range.value.0 == offset) && Allowed(source, req, resp)
      requires Offered(respond, resp.contentType)
      modifies `notSupportRange, `contentTotalLength, `currentRespMaxOffset, `currentResp, `contentType
      ensures Valid()
      ensures outcome.EndOfFile? ==> offset >= |source| && contentTotalLength == old(contentTotalLength)
      ensures outcome.Failure? ==> !outcome.cause.EndOfStream?
      ensures outcome.Done? ==> currentResp.Some? && BodyFits() && (old(contentTotalLength) == |source| ==> offset < |source|)
      ensures !outcome.Done? ==> currentResp.None?
      ensures outcome.Done? && !IgnoresRange(resp) ==> currentResp == Some(resp.body)
      ensures outcome.Done? ==>
                || (!NeedsFetch() && (Flat(currentResp.value.pieces) != [] || !currentResp.value.ending.EndOfStream?))
                || (offset == |source| && contentTotalLength == |source|)
      ensures outcome.Done? && BytesLeft() > 0 <==> Delivers(resp)
      ensures notSupportRange <==> old(notSupportRange) || (outcome.Done? && IgnoresRange(resp))
      // Other statuses and other content types are refused; a range that cannot be satisfied tells the length.
      ensures resp.status !in {200, 206} || !(allowedContentTypes == [] || (resp.contentType != "" && resp.contentType in allowedContentTypes)) ==>
                outcome == Failure(OtherError) && contentType == old(contentType)
      ensures resp.status == 416 && ParseContentRangeTotalLength(resp.contentRange).Some?
              && ParseContentRangeTotalLength(resp.contentRange).value > 0 ==>
                contentTotalLength == ParseContentRangeTotalLength(resp.contentRange).value
      ensures outcome.Done? ==> contentType == resp.contentType
      ensures contentTotalLength == old(contentTotalLength) || contentTotalLength == |source|
      ensures !notSupportSeekWhenNotSupportRange && Answers(source, allowedContentTypes, req, resp) && offset < |source| ==>
                outcome.Done? && contentTotalLength == |source|
      ensures Answers(source, allowedContentTypes, req, resp) ==>
                && (outcome.Done? ==> currentResp.value.ending.EndOfStream? && Informed())
                && (old(contentType) != "" ==> contentType != "")
    {
      hide WellBehaved, Flat, StartsAt, FmtContentRange, ParseContentRangeTotalLength, ParseContentRangeStartAndEnd;
      if resp.status != 206 && resp.status != 200 && resp.status != 416 {
        return Failure(OtherError);
      }
      if resp.status == 416 {
        var total := ParseContentRangeTotalLength(resp.contentRange);
        if total.Some? && total.value > 0 {
          contentTotalLength := total.value;
        }
        return Failure(OtherError);
      }
      if !ContentTypeAllowed(resp.contentType) {
        return Failure(OtherError);
      }
      contentType := resp.contentType;
      if IgnoresRange(resp) {
        outcome := TakeCompleteBody(resp);
      } else {
        outcome := TakePartialBody(resp);
      }
    }

    /** The server sent everything: skip to the offset. */
    method TakeCompleteBody(resp: Response) returns (outcome: Outcome)
      requires Valid() && currentResp.None? && !hungUp && IgnoresRange(resp)
      requires resp.contentLength == |source| && Flat(resp.body.pieces) <= source
      requires resp.body.ending.EndOfStream? ==> Flat(resp.body.pieces) == source
      modifies `notSupportRange, `contentTotalLength, `currentRespMaxOffset, `currentResp
      ensures Valid()
      ensures outcome.EndOfFile? ==> offset >= |source| && contentTotalLength == old(contentTotalLength)
      ensures outcome.Failure? ==> !outcome.cause.EndOfStream?
      ensures outcome.Done? ==> currentResp.Some? && BodyFits() && offset <= |source|
      ensures outcome.Done? ==>
                || (!NeedsFetch() && (Flat(currentResp.value.pieces) != [] || !currentResp.value.ending.EndOfStream?))
                || (offset == |source| && contentTotalLength == |source|)
      ensures outcome.Done? && BytesLeft() > 0 <==> |Flat(resp.body.pieces)| > offset && CanSkip()
      ensures notSupportRange == (old(notSupportRange) || outcome.Done?)
      ensures contentTotalLength == old(contentTotalLength) || contentTotalLength == |source|
      ensures outcome.Done? ==> contentTotalLength == |source| && currentResp.value.ending == resp.body.ending
      ensures !outcome.Done? ==> currentResp.None?
      ensures !notSupportSeekWhenNotSupportRange && resp.body.ending.EndOfStream? && offset < |source| ==> outcome.Done?
    {
      var body := resp.body;
      if offset > 0 {
        if notSupportSeekWhenNotSupportRange {
          return Failure(OtherError);
        }
        var skipped;
        skipped, body := Discard(body, offset);
        if skipped < offset {
          // The error of io.CopyN is wrapped, so a body that ended early reads as io.EOF.
          return if body.ending.EndOfStream? then EndOfFile else Failure(body.ending);
        }
      }
      notSupportRange := true;
      contentTotalLength := resp.contentLength;
      currentRespMaxOffset := contentTotalLength - 1;
      currentResp := Some(body);
      outcome := Done;
    }

    /** Partial content is taken exactly if it says that it starts at the offset. */
    method TakePartialBody(resp: Response) returns (outcome: Outcome)
      requires Valid() && currentResp.None? && !hungUp && resp.Response?
      requires exists first: nat, last: nat, total :: HoldsRange(source, first, last, total, resp)
      modifies `contentTotalLength, `currentRespMaxOffset, `currentResp
      ensures Valid() && outcome == (if StartsAt(resp, offset) then Done else Failure(OtherError))
      ensures outcome.Done? ==>
                && currentResp == Some(resp.body) && BodyFits() && !NeedsFetch() && offset < |source|
                && (Flat(currentResp.value.pieces) != [] || !currentResp.value.ending.EndOfStream?)
      ensures outcome.Failure? ==> currentResp.None?
      ensures contentTotalLength == old(contentTotalLength) || contentTotalLength == |source|
      ensures ParseContentRangeTotalLength(resp.contentRange) == Some(|source|) ==> contentTotalLength == |source|
    {
      hide FmtContentRange, ParseContentRangeTotalLength, ParseContentRangeStartAndEnd, Flat;
      ghost var first: nat, last: nat, announced :| HoldsRange(source, first, last, announced, resp);
      ContentRangeRoundTrip(first, last, announced);
      var total := ParseContentRangeTotalLength(resp.contentRange);
      if total.Some? && total.value > 0 {
        contentTotalLength := total.value;
      }
      var positions := ParseContentRangeStartAndEnd(resp.contentRange);
      if positions.Some? {
        if positions.value.1 != -1 {
          currentRespMaxOffset := positions.value.1;
        }
        if offset != positions.value.0 {
          return Failure(OtherError);
        }
      }
      currentResp := Some(resp.body);
      assert Flat(resp.body.pieces) <= source[offset..];
      outcome := Done;
    }

    /** `got` are the bytes that this call takes from the source. A failure returns none of them, but
        the offset has moved past them: whether there are any is decided by the state before the call. */
    method Read(want: nat) returns (buf: seq<byte>, outcome: Outcome, ghost got: seq<byte>)
      requires Valid()
      modifies this
      ensures Valid()
      ensures |got| <= want && got == Slice(source, old(offset), |got|) && offset == old(offset) + |got|
      ensures buf == if outcome.Failure? then [] else got
      ensures outcome.Done? ==> |buf| == want || 0 < |buf| < want
      ensures outcome.Failure? ==> !outcome.cause.EndOfStream?
      // End of file means the end of the source, unless the last fetch met a server that hung up;
      // once the total length is known, it means the end exactly if that was not so.
      ensures outcome.EndOfFile? ==> |buf| < want && (offset >= |source| || hungUp)
      ensures outcome.EndOfFile? && contentTotalLength == |source| ==> (offset >= |source| <==> !hungUp)
      ensures want > 0 && old(HangsUp()) ==> outcome.EndOfFile? && buf == [] && hungUp
      ensures want > 0 && old(Refusal()).Some? && !old(Refusal()).value.EndOfStream? ==>
                outcome == Failure(old(Refusal()).value) && got == []
      // A body that breaks off after some bytes is no failure of this read; only a fetch is, which leaves
      // no body.
      ensures outcome.Failure? && got != [] ==> currentResp.None?
      // With a server that does not fail, a read is complete or has met the end of the source.
      ensures old(Healthy()) ==> Healthy() && (outcome.EndOfFile? ==> !hungUp)
      ensures old(Healthy() && (offset < |source| || contentTotalLength == |source|)) ==>
                !outcome.Failure? && (outcome.Done? ==> |buf| == want) && (got != [] || old(Informed()) ==> Informed())
      // However the read ends, it moves the offset exactly if bytes were left of the body at hand, or
      // the first fetch that is due delivers some.
      ensures want > 0 ==> (offset != old(offset) <==> old(Moves()))
      // A read that empties its body and then cannot fetch fails.
      ensures old(Cornered(want)) ==> outcome.Failure?
    {
      hide Valid, NeedsFetch, Phase, Healthy, Refusal, Cornered, BytesLeft, Informed, Moves;
      buf, got := [], [];
      while |buf| < want
        invariant Valid() && |buf| <= want && got == buf
        invariant offset == old(offset) + |buf| && buf == Slice(source, old(offset), |buf|)
        invariant old(Refusal()).Some? ==> Refusal() == old(Refusal()) && buf == []
        invariant old(Healthy()) ==> Healthy()
        invariant old(Healthy() && (offset < |source| || contentTotalLength == |source|)) ==>
                    (offset < |source| || contentTotalLength == |source|) && (buf != [] || old(Informed()) ==> Informed())
        invariant if buf == [] then Moves() <==> old(Moves()) else old(Moves())
        invariant old(Cornered(want)) ==> Cornered(want - |buf|)
        decreases want - |buf|, Unknown(), Phase(), PiecesLeft()
      {
        var bytes, step := NextBytes(want - |buf|);
        SliceAppend(source, old(offset), buf, bytes);
        buf := buf + bytes;
        got := buf;
        match step {
          case Continue =>
          case FetchedEof => return buf, EndOfFile, got;
          case FetchFailed(cause) => return [], Failure(cause), got;
          case ReadFailed(cause) =>
            if |buf| > 0 {
              return buf, Done, got;
            }
            return [], Failure(cause), got;
        }
      }
      NotCorneredByNothing();
      outcome := Done;
    }

    /** The error of the next exchange, if the next read begins with one and that fails. */
    ghost function Refusal(): Option<Cause>
      requires Valid()
      reads this
    {
      if NeedsFetch() && !AtKnownEnd() && respond(exchanges, NextRequest()).NoResponse?
      then Some(respond(exchanges, NextRequest()).cause) else None
    }

    /** The next fetch meets a server that closes the connection without an answer. */
    ghost predicate HangsUp()
      requires Valid()
      reads this
    {
      Refusal() == Some(EndOfStream)
    }

    /** How many bytes are left to read before the next fetch. */
    ghost function BytesLeft(): nat
      reads this
    {
      if NeedsFetch() then 0 else |Flat(currentResp.value.pieces)|
    }

    /** An answer from which bytes at the current offset can be read. */
    ghost predicate Delivers(resp: Response)
      reads this
    {
      && resp.Response? && (resp.status == 200 || resp.status == 206) && ContentTypeAllowed(resp.contentType)
      && if IgnoresRange(resp) then |Flat(resp.body.pieces)| > offset && CanSkip()
         else StartsAt(resp, offset) && Flat(resp.body.pieces) != []
    }

    /** Whether a body that starts at 0 may be skipped to the offset. */
    predicate CanSkip()
      reads this
    {
      offset == 0 || !notSupportSeekWhenNotSupportRange
    }

    /** The answer to the next fetch delivers bytes. */
    ghost predicate NextDelivers()
      requires Valid()
      reads this
    {
      !AtKnownEnd() && Delivers(respond(exchanges, NextRequest()))
    }

    /** The next read takes bytes: some are left of the current body, or a fetch is due, at once or at
        the end of an empty body, and its answer delivers some. */
    ghost predicate Moves()
      requires Valid()
      reads this
    {
      BytesLeft() > 0 || ((NeedsFetch() || currentResp.value.ending.EndOfStream?) && NextDelivers())
    }

    /** A read of this many bytes needs a fetch inside the source, and every fetch fails. */
    ghost predicate Cornered(want: int)
      reads this
    {
      && BytesLeft() < want && offset + BytesLeft() < |source|
      && (currentResp.Some? ==> currentResp.value.ending.EndOfStream?)
      && forall n, req | n >= exchanges :: respond(n, req) == NoResponse(OtherError)
    }

    lemma NotCorneredByNothing()
      ensures !Cornered(0)
    {
    }

    /** One turn of the read loop: a fetch if one is needed, then one read of the body. */
    method NextBytes(limit: nat) returns (bytes: seq<byte>, step: Step)
      requires Valid() && limit > 0
      modifies this
      ensures Valid() && |bytes| <= limit && offset == old(offset) + |bytes|
      ensures bytes != [] ==> offset <= |source| && bytes == source[old(offset)..offset]
      ensures step.FetchedEof? ==> bytes == [] && (offset >= |source| || hungUp)
      ensures step.FetchedEof? && contentTotalLength == |source| ==> (offset >= |source| <==> !hungUp)
      ensures step.FetchFailed? ==> bytes == [] && !step.cause.EndOfStream?
      ensures step.ReadFailed? ==> !step.cause.EndOfStream?
      ensures old(HangsUp()) ==> step.FetchedEof? && hungUp
      ensures old(Refusal()).Some? && !old(HangsUp()) ==> step == FetchFailed(old(Refusal()).value)
      ensures step.FetchFailed? ==> currentResp.None?
      ensures step.Continue? && bytes == [] ==>
                || Unknown() < old(Unknown())
                || (Unknown() == old(Unknown()) && Phase() < old(Phase()))
                || (Unknown() == old(Unknown()) && Phase() == old(Phase()) && PiecesLeft() < old(PiecesLeft()))
      ensures old(Healthy()) ==> Healthy() && (step.FetchedEof? ==> !hungUp)
      ensures old(Healthy() && (offset < |source| || contentTotalLength == |source|)) ==>
                (step.Continue? || step.FetchedEof?) && contentTotalLength == |source|
                && (step.Continue? || old(Informed()) ==> Informed())
      ensures bytes != [] ==> old(Moves())
      ensures bytes == [] ==> (old(Moves()) <==> step.Continue? && Moves())
      ensures old(Cornered(limit)) ==> step.FetchFailed? || (step.Continue? && Cornered(limit - |bytes|))
    {
      hide WellBehaved, Flat, Reliable, Delivers;
      if NeedsFetch() {
        var fetched := FetchNextChunk();
        if fetched.EndOfFile? {
          return [], FetchedEof;
        }
        if fetched.Failure? {
          return [], FetchFailed(fetched.cause);
        }
      }
      bytes, step := ReadBody(limit);
    }

    /** The second half of a turn: a body that has ended is not an error. */
    method ReadBody(limit: nat) returns (bytes: seq<byte>, step: Step)
      requires Valid() && currentResp.Some? && BodyFits() && limit > 0
      requires NeedsFetch() ==> AtKnownEnd()
      modifies `offset, `currentResp
      ensures Valid() && |bytes| <= limit && offset == old(offset) + |bytes| <= |source|
      ensures bytes == source[old(offset)..offset]
      ensures step.Continue? || (step.ReadFailed? && !step.cause.EndOfStream? && step.cause == old(currentResp).value.ending)
      ensures currentResp.Some? ==> old(Flat(currentResp.value.pieces)) == bytes + Flat(currentResp.value.pieces)
      ensures currentResp.None? ==> bytes == old(Flat(currentResp.value.pieces))
      ensures step.Continue? && bytes == [] && currentResp.Some? ==> |currentResp.value.pieces| < |old(currentResp).value.pieces|
      ensures currentResp.Some? ==> currentResp.value.ending == old(currentResp).value.ending
      ensures currentResp.None? ==> old(currentResp).value.ending.EndOfStream?
      ensures bytes != [] ==> old(Moves())
      ensures bytes == [] ==> (old(Moves()) <==> step.Continue? && Moves())
    {
      hide WellBehaved, Flat, StartsAt, IgnoresRange;
      var status;
      bytes, status := ReadPiece(limit);
      step := if status.Stopped? && !status.cause.EndOfStream? then ReadFailed(status.cause) else Continue;
    }

    /** One read from the current body, which is closed at its end. */
    method ReadPiece(limit: nat) returns (bytes: seq<byte>, status: BodyStatus)
      requires Valid() && currentResp.Some? && BodyFits() && limit > 0
      modifies `offset, `currentResp
      ensures Valid() && |bytes| <= limit && offset == old(offset) + |bytes| <= |source|
      ensures bytes == source[old(offset)..offset]
      ensures status.Stopped? ==> status.cause == old(currentResp).value.ending
      ensures currentResp.None? <==> status == Stopped(EndOfStream)
      ensures currentResp.Some? ==> old(Flat(currentResp.value.pieces)) == bytes + Flat(currentResp.value.pieces)
      ensures status.Stopped? ==> bytes == old(Flat(currentResp.value.pieces))
      ensures !status.More? && bytes == [] ==> old(Flat(currentResp.value.pieces)) == []
      ensures status.More? && bytes == [] ==>
                && currentResp.Some? && currentResp.value.ending == old(currentResp).value.ending
                && Flat(currentResp.value.pieces) == old(Flat(currentResp.value.pieces))
                && |currentResp.value.pieces| < |old(currentResp).value.pieces|
      ensures currentResp.Some? ==> currentResp.value.ending == old(currentResp).value.ending
    {
      hide WellBehaved, Flat, Body.Read;
      var (read, ended, body) := currentResp.value.Read(limit);
      bytes, status := read, ended;
      ghost var flat := Flat(currentResp.value.pieces);
      assert source[offset..][..|flat|] == flat;
      assert flat[..|bytes|] == bytes && flat[|bytes|..] == Flat(body.pieces);
      offset := offset + |bytes|;
      currentResp := if status == Stopped(EndOfStream) then None else Some(body);
    }

    /** Total length and content type have been learnt from a response. */
    ghost predicate Informed()
      reads this
    {
      contentTotalLength == |source| && contentType != ""
    }

    /** 1 as long as the total length has not been reported. */
    ghost function Unknown(): nat
      reads this
    {
      if contentTotalLength == |source| then 0 else 1
    }

    ghost function PiecesLeft(): nat
      reads this
    {
      if currentResp.Some? then |currentResp.value.pieces| else 0
    }

    /** Orders the situations of a read that delivers nothing: before a fetch, then after it. */
    ghost function Phase(): nat
      reads this
    {
      if NeedsFetch() then 1
      else if Flat(currentResp.value.pieces) == [] && currentResp.value.ending.EndOfStream? then 2
      else 0
    }

    // ---- Seeking ----

    method FetchContentLength() returns (ok: bool)
      requires Valid()
      modifies `exchanges, `contentType, `contentTotalLength
      ensures Valid() && (ok ==> contentTotalLength == |source|)
      ensures old(Healthy()) ==> Healthy()
      // It succeeds exactly on a 200 of an allowed content type that declares the length.
      ensures var resp := respond(old(exchanges), Request(None, true));
              && (ok <==> resp.Response? && resp.status == 200 && resp.contentLength >= 0
                          && (allowedContentTypes == [] || (resp.contentType != "" && resp.contentType in allowedContentTypes)))
              && (ok ==> contentType == resp.contentType && contentTotalLength == resp.contentLength)
              && (!ok ==> contentType == old(contentType) && contentTotalLength == old(contentTotalLength))
    {
      var resp := Exchange(Request(None, true));
      if resp.NoResponse? || resp.status != 200 || !ContentTypeAllowed(resp.contentType) || resp.contentLength < 0 {
        return false;
      }
      contentType := resp.contentType;
      contentTotalLength := resp.contentLength;
      ok := true;
    }

    /** The target of a seek. SeekEnd counts back from the end of the source. */
    ghost function Target(delta: int, whence: Whence): Option<int>
      reads this
    {
      match whence
      case SeekStart => Some(delta)
      case SeekCurrent => Some(offset + delta)
      case SeekEnd => Some(|source| - delta)
      case OtherWhence => None
    }

    method CalculateNewOffset(delta: int, whence: Whence) returns (r: Result<int>)
      requires Valid() && InInt64(delta)
      modifies `exchanges, `contentType, `contentTotalLength
      ensures Valid()
      // A target that does not fit 64 bits wraps to a negative one.
      ensures r.Ok? ==> old(Target(delta, whence)).Some?
                        && var target := old(Target(delta, whence)).value;
                           if target <= MAX_INT64 then r.value == target else r.value < 0
      ensures whence.SeekStart? || whence.SeekCurrent? || (whence.SeekEnd? && old(contentTotalLength) >= 0) ==> r.Ok?
      ensures old(Healthy()) ==> Healthy()
    {
      match whence
      case SeekStart => r := Ok(delta);
      case SeekCurrent => r := Ok(Wrap64(offset + delta));
      case SeekEnd =>
        if contentTotalLength < 0 {
          var ok := FetchContentLength();
          if !ok {
            return Err("failed to fetch content length");
          }
        }
        r := Ok(Wrap64(contentTotalLength - delta));
      case OtherWhence => r := Err("invalid seek whence value");
    }

    method Seek(delta: int, whence: Whence) returns (r: Result<nat>)
      requires Valid() && InInt64(delta)
      modifies this
      ensures Valid()
      ensures r.Ok? ==> old(Target(delta, whence)) == Some(r.value) && offset == r.value
      ensures r.Err? ==> offset == old(offset)
      // A failure and a move drop the body at hand.
      ensures currentResp == if r.Err? || offset != old(offset) then None else old(currentResp)
      ensures r.Ok? ==> 0 <= old(Target(delta, whence)).value <= MAX_INT64
      ensures old(Healthy()) ==> Healthy()
      // Unless the server made seeking impossible, it succeeds wherever the target is known and fits.
      ensures !notSupportSeekWhenNotSupportRange && old(Target(delta, whence)).Some? ==>
                (whence.SeekEnd? ==> old(contentTotalLength) >= 0) && 0 <= old(Target(delta, whence)).value <= MAX_INT64 ==> r.Ok?
    {
      var target := CalculateNewOffset(delta, whence);
      if target.Err? {
        currentResp := None;
        return Err(target.message);
      }
      if target.value < 0 {
        currentResp := None;
        return Err("cannot seek to negative offset");
      }
      if target.value != offset {
        currentResp := None;
        if notSupportRange && notSupportSeekWhenNotSupportRange {
          return Err("seek is not supported when not support range");
        }
        offset := target.value;
      }
      r := Ok(offset);
    }

    // ---- What the proxy asks of the reader ----

    /** `io.ReadFull` into a buffer of n bytes. What it holds are the bytes at the offset; that a short
        buffer ends at the end of the source is for the caller to find out. */
    method ReadFull(n: nat) returns (buf: seq<byte>, outcome: FullOutcome)
      requires Valid() && n > 0
      modifies this
      ensures Valid() && offset >= old(offset) && |buf| <= n
      ensures buf == Slice(source, old(offset), |buf|)
      ensures outcome.Full? <==> |buf| == n
      ensures outcome.Nothing? ==> buf == [] && (old(offset) >= |source| || hungUp)
      // A read that begins with a failing exchange is short only if the error wraps io.ErrUnexpectedEOF.
      ensures old(Refusal()).Some? ==>
                buf == [] && outcome == match old(Refusal()).value
                                        case EndOfStream => Nothing
                                        case UnexpectedEnd => Short
                                        case OtherError => Error
      ensures old(Healthy()) ==> Healthy()
      ensures old(Healthy()) && old(offset) < |source| ==>
                Informed() && (outcome.Full? || (outcome.Short? && old(offset) + |buf| == |source|))
    {
      hide Valid, Healthy, Refusal, Cornered, BytesLeft, Moves;
      buf := [];
      while |buf| < n
        invariant Valid() && |buf| <= n && offset == old(offset) + |buf|
        invariant buf == Slice(source, old(offset), |buf|)
        invariant old(Refusal()).Some? ==> Refusal() == old(Refusal()) && buf == []
        invariant old(Healthy()) ==> Healthy()
        invariant old(Healthy()) && old(offset) < |source| ==> buf == [] || Informed()
        decreases n - |buf|
      {
        var bytes, read, got := Read(n - |buf|);
        if read.Failure? {
          return buf, if read.cause.UnexpectedEnd? then Short else Error;
        }
        SliceAppend(source, old(offset), buf, bytes);
        buf := buf + bytes;
        if read.EndOfFile? {
          outcome := if buf == [] then Nothing else Short;
          return;
        }
      }
      outcome := Full;
    }

    method ContentTotalLength() returns (r: Result<int>)
      requires Valid()
      ensures r.Ok? <==> contentTotalLength == |source|
      ensures r.Ok? ==> r.value == |source|
    {
      if contentTotalLength > 0 {
        return Ok(contentTotalLength);
      }
      r := Err("content total length is not available");
    }

    method ContentType() returns (r: Result<string>)
      requires Valid()
      ensures r.Ok? ==> r.value != "" && Offered(respond, r.value)
      ensures r == if contentType != "" then Ok(contentType) else Err("content type is not available")
    {
      r := if contentType != "" then Ok(contentType) else Err("content type is not available");
    }
  }

  /** A server that answers every request with the whole source. */
  function SendsAll(source: seq<byte>): Server {
    (n: nat, req: Request) => Response(200, "", "", "video/mp4", |source|, Body([source], EndOfStream, false))
  }

  /** What is asked of servers can be met. */
  lemma SomeServerIsReliable(source: seq<byte>)
    ensures WellBehaved(source, SendsAll(source)) && Reliable(source, [], SendsAll(source))
  {
    assert Flat([source]) == source + Flat([]);
  }

  /** End of file in the middle of any source: the server hangs up, and the error of the client, which
      wraps io.EOF, is taken for the end. */
  method EofInsideSource(ghost source: seq<byte>) returns (buf: seq<byte>, outcome: Outcome)
    requires 0 < |source| <= MAX_INT64
    ensures outcome == EndOfFile && buf == []
  {
    var hangUp: Server := (n: nat, req: Request) => NoResponse(EndOfStream);
    var reader := new RangeReader(source, hangUp, 1, [], false, false);
    ghost var got;
    buf, outcome, got := reader.Read(1);
    assert reader.offset == 0 < |source|;
  }

  /** The server serves the first byte of the source, once. */
  function FirstByteOnce(source: seq<byte>): Server
    requires 0 < |source|
  {
    (n: nat, req: Request) =>
      if n == 0 && req == Request(Some((0, 0)), false)
      then Response(206, FmtContentRange(0, 0, |source|), "bytes", "video/mp4", 1, Body([[source[0]]], EndOfStream, false))
      else NoResponse(OtherError)
  }

  lemma FirstByteIsAllowed(source: seq<byte>)
    requires 0 < |source| <= MAX_INT64
    ensures WellBehaved(source, FirstByteOnce(source))
    ensures Answers(source, [], Request(Some((0, 0)), false), FirstByteOnce(source)(0, Request(Some((0, 0)), false)))
    ensures Flat([[source[0]]]) == [source[0]]
  {
    hide FmtContentRange, ParseContentRangeStartAndEnd, ParseContentRangeTotalLength;
    ContentRangeRoundTrip(0, 0, |source|);
    var resp := FirstByteOnce(source)(0, Request(Some((0, 0)), false));
    assert Flat([[source[0]]]) == [source[0]] + Flat([]);
    assert source[0..1] == [source[0]];
    assert HoldsRange(source, 0, 0, |source|, resp);
  }

  /** A read that moves the offset and returns nothing, on any source of two bytes or more: the first
      byte is delivered, and the fetch of the second one fails. */
  method FailedReadMoves(source: seq<byte>) returns (buf: seq<byte>, outcome: Outcome, offset: nat)
    requires 2 <= |source| <= MAX_INT64
    ensures outcome.Failure? && buf == [] && offset > 0
  {
    hide FmtContentRange, ParseContentRangeStartAndEnd, ParseContentRangeTotalLength, Answers, WellBehaved, Flat;
    FirstByteIsAllowed(source);
    var reader := new RangeReader(source, FirstByteOnce(source), 1, [], false, false);
    var fetched := reader.FetchNextChunk();
    assert reader.currentResp.value.pieces == [[source[0]]];
    ghost var got;
    buf, outcome, got := reader.Read(2);
    offset := reader.offset;
  }

  /** `io.CopyN` into nowhere: drops n bytes, or all there are. */
  method Discard(body: Body, n: nat) returns (skipped: nat, rest: Body)
    ensures skipped <= n && skipped <= |Flat(body.pieces)| && rest.ending == body.ending
    ensures Flat(rest.pieces) == Flat(body.pieces)[skipped..]
    ensures skipped < n ==> Flat(rest.pieces) == []
  {
    hide Flat, Body.Read;
    skipped, rest := 0, body;
    while skipped < n
      invariant skipped <= n && skipped <= |Flat(body.pieces)| && rest.ending == body.ending
      invariant Flat(rest.pieces) == Flat(body.pieces)[skipped..]
      decreases n - skipped, |rest.pieces|
    {
      var (bytes, status, next) := rest.Read(n - skipped);
      assert Flat(next.pieces) == Flat(rest.pieces)[|bytes|..];
      skipped, rest := skipped + |bytes|, next;
      if !status.More? {
        break;
      }
    }
  }
}
