/**
 * `TwilightDownloader.download_file`: choose between a resumed and a fresh
 * request, handle the server's answer (range refused, partial content, an
 * error status), decide whether the file is already complete, and stream the
 * body into the file while a progress counter advances.
 *
 * The HTTP session is the function `get` from a request to a reply; the
 * local file is its contents, a byte sequence (a missing file is the empty
 * one). Exceptions become the faults of `Reply` and `BodyEnd`.
 */
module Fetch {
  import opened Wrappers
  import opened Text

  type byte = b: int | 0 <= b < 256

  const PARTIAL_CONTENT := 206
  const RANGE_NOT_SATISFIABLE := 416

  /** A GET of the file's URL; `range` is the value of the Range header, if one is sent. */
  datatype Request = Request(range: Option<string>)

  /**
   * What can be raised while a file is fetched: a `requests` exception, any
   * other exception (a content-length that is not a number, say), or the
   * user's interrupt.
   */
  datatype Fault = RequestFault | OtherFault | InterruptFault

  /** The content-length header: missing, a number, or text `int()` rejects. */
  datatype LengthHeader = Absent | Declared(n: int) | Malformed

  /** How the body's iteration stops: at its end, or by a raised fault. */
  datatype BodyEnd = Finished | Broken(fault: Fault)

  /** The session's answer to one GET: raised before a response, or a response. */
  datatype Reply =
    | Raised(fault: Fault)
    | Response(status: int, length: LengthHeader, chunks: seq<seq<byte>>, end: BodyEnd)

  /** `True`, `False`, or the interrupt re-raised to the caller. */
  datatype Outcome = Succeeded | Failed | Interrupted

  /** The file open mode: `'ab'` or `'wb'`. */
  datatype Mode = Append | Truncate

  /** The progress bar: its total and where its counter stands. */
  datatype Bar = Bar(total: int, position: int)

  /**
   * One call of `download_file`: its outcome, the file contents afterwards,
   * the requests sent, and the progress bar if streaming began.
   */
  datatype Transfer = Transfer(outcome: Outcome, file: seq<byte>, sent: seq<Request>, bar: Option<Bar>)

  /** `raise_for_status` raises for the 4xx and 5xx statuses. */
  predicate IsErrorStatus(status: int) {
    400 <= status < 600
  }

  /** line 78: the value `bytes=<offset>-`. */
  function RangeHeader(offset: nat): string {
    "bytes=" + Decimal(offset) + "-"
  }

  /** How a server reads an open-ended Range header back into its offset. */
  function ParseRangeHeader(h: string): Option<nat> {
    if |h| >= 8 && h[..6] == "bytes=" && h[|h| - 1] == '-' && IsDigits(h[6..|h| - 1]) then
      Some(DecimalValue(h[6..|h| - 1]))
    else
      None
  }

  /** The Range header names exactly the offset it was made from. */
  lemma RangeHeaderRoundTrip(offset: nat)
    ensures ParseRangeHeader(RangeHeader(offset)) == Some(offset)
  {
    var d := Decimal(offset);
    var h := RangeHeader(offset);
    assert h[..6] == "bytes=";
    assert h[6..|h| - 1] == d;
    DecimalRoundTrip(offset);
  }

  /** The first request, the file mode and the starting offset (lines 76-82). */
  datatype Plan = Plan(request: Request, mode: Mode, offset: nat)

  function Opening(existingSize: nat, resume: bool): (p: Plan)
    ensures p.mode == Append <==> resume && existingSize > 0
    ensures p.request.range.Some? <==> p.mode == Append
    ensures p.request.range.Some? ==> ParseRangeHeader(p.request.range.value) == Some(p.offset)
    ensures p.offset > 0 <==> p.mode == Append
    ensures p.mode == Append ==> p.offset == existingSize
    ensures p.offset <= existingSize
  {
    RangeHeaderRoundTrip(existingSize);
    if resume && existingSize > 0 then Plan(Request(Some(RangeHeader(existingSize))), Append, existingSize)
    else Plan(Request(None), Truncate, 0)
  }

  predicate IsRangeRefusal(r: Reply) {
    r.Response? && r.status == RANGE_NOT_SATISFIABLE
  }

  /** The requests sent, the reply kept, and the mode and offset after lines 85-94. */
  datatype Exchange = Exchange(sent: seq<Request>, reply: Reply, mode: Mode, offset: nat)

  /**
   * A refused range is answered by a second, plain GET whose reply replaces
   * the first, and the download restarts from zero in truncate mode; any
   * other reply (a 206, or a 200 that ignored the range) keeps the plan.
   */
  function Negotiate(p: Plan, get: Request -> Reply): (x: Exchange)
    ensures 1 <= |x.sent| <= 2 && x.sent[0] == p.request
    ensures x.reply == get(x.sent[|x.sent| - 1])
    ensures |x.sent| == 2 <==> IsRangeRefusal(get(p.request))
    ensures |x.sent| == 2 ==> x.sent[1].range == None && x.mode == Truncate && x.offset == 0
    ensures x.mode == Append ==> !IsRangeRefusal(get(p.request)) && x.offset == p.offset
    ensures |x.sent| == 1 ==> x.mode == p.mode && x.offset == p.offset
  {
    var first := get(p.request);
    if IsRangeRefusal(first) then Exchange([p.request, Request(None)], get(Request(None)), Truncate, 0)
    else Exchange([p.request], first, p.mode, p.offset)
  }

  /** Lines 99-101: the content-length (0 when absent), plus the offset for a 206. */
  function TotalSize(status: int, length: LengthHeader, offset: nat): Option<int> {
    match length
    case Absent => Some(if status == PARTIAL_CONTENT then offset else 0)
    case Declared(n) => Some(if status == PARTIAL_CONTENT then n + offset else n)
    case Malformed => None
  }

  /** The bytes of the chunks, in order. */
  function Concat(chunks: seq<seq<byte>>): seq<byte> {
    if chunks == [] then [] else Concat(chunks[..|chunks| - 1]) + chunks[|chunks| - 1]
  }

  function OutcomeOf(f: Fault): Outcome {
    if f == InterruptFault then Interrupted else Failed
  }

  /** A whole call of `download_file` on a file holding `existing`. */
  function Download(existing: seq<byte>, resume: bool, get: Request -> Reply): Transfer {
    var x := Negotiate(Opening(|existing|, resume), get);
    match x.reply
    case Raised(f) => Transfer(OutcomeOf(f), existing, x.sent, None)
    case Response(status, length, chunks, end) =>
      if IsErrorStatus(status) then Transfer(Failed, existing, x.sent, None)
      else
        match TotalSize(status, length, x.offset)
        case None => Transfer(Failed, existing, x.sent, None)
        case Some(total) =>
          if x.offset > 0 && x.offset >= total then Transfer(Succeeded, existing, x.sent, None)
          else
            var base := if x.mode == Append then existing else [];
            var outcome := if end.Finished? then Succeeded else OutcomeOf(end.fault);
            Transfer(outcome, base + Concat(chunks), x.sent, Some(Bar(total, x.offset + |Concat(chunks)|)))
  }

  /**
   * `download_file` as written, branch by branch (lines 68-134).
   */
  method DownloadFile(existing: seq<byte>, resume: bool, get: Request -> Reply) returns (t: Transfer)
    ensures t == Download(existing, resume, get)
  {
    var existingSize: nat := |existing|;
    var range: Option<string> := None;
    var mode: Mode;
    if resume && existingSize > 0 {
      range := Some(RangeHeader(existingSize));
      mode := Append;
    } else {
      mode := Truncate;
      existingSize := 0;
    }
    var sent := [Request(range)];
    var response := get(Request(range));
    if response.Response? && response.status == RANGE_NOT_SATISFIABLE {
      sent := sent + [Request(None)];
      response := get(Request(None));
      mode := Truncate;
      existingSize := 0;
    }
    assert Negotiate(Opening(|existing|, resume), get) == Exchange(sent, response, mode, existingSize);
    if response.Raised? {
      return Transfer(OutcomeOf(response.fault), existing, sent, None);
    }
    if IsErrorStatus(response.status) {
      return Transfer(Failed, existing, sent, None);
    }
    var totalSize: int;
    match response.length {
      case Absent => totalSize := 0;
      case Declared(n) => totalSize := n;
      case Malformed => return Transfer(Failed, existing, sent, None);
    }
    if response.status == PARTIAL_CONTENT {
      totalSize := totalSize + existingSize;
    }
    if existingSize > 0 && existingSize >= totalSize {
      return Transfer(Succeeded, existing, sent, None);
    }
    var file, position := WriteBody(if mode == Append then existing else [], existingSize, response.chunks);
    var outcome := if response.end.Finished? then Succeeded else OutcomeOf(response.end.fault);
    t := Transfer(outcome, file, sent, Some(Bar(totalSize, position)));
  }

  /**
   * The `with` block of lines 109-121: every non-empty chunk is written to
   * the file opened on `base`, and the counter that started at `initial`
   * advances by its length.
   */
  method WriteBody(base: seq<byte>, initial: nat, chunks: seq<seq<byte>>) returns (file: seq<byte>, position: nat)
    ensures file == base + Concat(chunks)
    ensures position == initial + |Concat(chunks)|
  {
    file := base;
    position := initial;
    var i := 0;
    while i < |chunks|
      invariant 0 <= i <= |chunks|
      invariant file == base + Concat(chunks[..i])
      invariant position == initial + |Concat(chunks[..i])|
    {
      var chunk := chunks[i];
      assert chunks[..i + 1][..i] == chunks[..i];
      if |chunk| > 0 {
        file := file + chunk;
        position := position + |chunk|;
      }
      i := i + 1;
    }
    assert chunks[..|chunks|] == chunks;
  }

  // Properties of a whole call

  /** The request sent for a resumed file asks for the missing tail, and a fresh one asks for everything. */
  lemma FirstRequestAsksForRemainder(existing: seq<byte>, resume: bool, get: Request -> Reply)
    ensures |Download(existing, resume, get).sent| >= 1
    ensures resume && |existing| > 0 ==>
      Download(existing, resume, get).sent[0].range.Some?
      && ParseRangeHeader(Download(existing, resume, get).sent[0].range.value) == Some(|existing|)
    ensures !(resume && |existing| > 0) ==> Download(existing, resume, get).sent[0].range == None
  {
    if resume && |existing| > 0 {
      RangeHeaderRoundTrip(|existing|);
    }
  }

  /** A second, plain request is sent exactly when the first is refused with 416. */
  lemma SecondRequestOnlyAfterRefusal(existing: seq<byte>, resume: bool, get: Request -> Reply)
    ensures |Download(existing, resume, get).sent| == 2 <==>
      IsRangeRefusal(get(Opening(|existing|, resume).request))
    ensures |Download(existing, resume, get).sent| == 2 ==>
      Download(existing, resume, get).sent[1] == Request(None)
  {
  }

  /**
   * Whenever the body was streamed, the progress counter stands at the size
   * of the file: it started at the bytes kept and advanced with each write.
   */
  lemma ProgressMatchesFile(existing: seq<byte>, resume: bool, get: Request -> Reply)
    ensures Download(existing, resume, get).bar.Some? ==>
      Download(existing, resume, get).bar.value.position == |Download(existing, resume, get).file|
  {
  }

  /** When nothing was streamed, the file is left as it was. */
  lemma NoBodyNoChange(existing: seq<byte>, resume: bool, get: Request -> Reply)
    ensures Download(existing, resume, get).bar.None? ==> Download(existing, resume, get).file == existing
  {
  }

  /**
   * Only a fresh download, or a restart after a refused range, can drop the
   * bytes already on disk: a resumed file keeps them as its prefix.
   */
  lemma ResumeKeepsExisting(existing: seq<byte>, get: Request -> Reply)
    requires |existing| > 0 && !IsRangeRefusal(get(Opening(|existing|, true).request))
    ensures existing <= Download(existing, true, get).file
  {
  }

  /** A failed `raise_for_status` fails the call and writes nothing. */
  lemma ErrorStatusFails(existing: seq<byte>, resume: bool, get: Request -> Reply)
    requires Negotiate(Opening(|existing|, resume), get).reply.Response?
    requires IsErrorStatus(Negotiate(Opening(|existing|, resume), get).reply.status)
    ensures Download(existing, resume, get).outcome == Failed
    ensures Download(existing, resume, get).file == existing
    ensures Download(existing, resume, get).bar == None
  {
  }

  /** The call reports an interrupt exactly when the user's interrupt was raised. */
  lemma InterruptPropagates(existing: seq<byte>, resume: bool, get: Request -> Reply)
    ensures Download(existing, resume, get).outcome == Interrupted <==>
      (Negotiate(Opening(|existing|, resume), get).reply == Raised(InterruptFault)
       || (Download(existing, resume, get).bar.Some?
           && Negotiate(Opening(|existing|, resume), get).reply.end == Broken(InterruptFault)))
  {
  }

  /**
   * A 206 declaring the `n` missing bytes, followed by exactly those bytes,
   * completes the file: the old bytes first, then the new ones, and the
   * progress bar ends at its total.
   */
  lemma ResumeCompletesFile(existing: seq<byte>, get: Request -> Reply, n: int, chunks: seq<seq<byte>>)
    requires |existing| > 0 && n > 0 && |Concat(chunks)| == n
    requires get(Request(Some(RangeHeader(|existing|)))) == Response(PARTIAL_CONTENT, Declared(n), chunks, Finished)
    ensures Download(existing, true, get).outcome == Succeeded
    ensures Download(existing, true, get).file == existing + Concat(chunks)
    ensures |Download(existing, true, get).file| == |existing| + n
    ensures Download(existing, true, get).bar == Some(Bar(|existing| + n, |existing| + n))
  {
  }

  /**
   * The skip test of lines 103-106: once a reply is accepted, the call
   * returns "already downloaded" without writing exactly when the offset is
   * positive and at least the total size; otherwise it streams the body.
   */
  lemma AlreadyDownloadedExactly(existing: seq<byte>, resume: bool, get: Request -> Reply)
    requires Negotiate(Opening(|existing|, resume), get).reply.Response?
    requires !IsErrorStatus(Negotiate(Opening(|existing|, resume), get).reply.status)
    requires !Negotiate(Opening(|existing|, resume), get).reply.length.Malformed?
    ensures Download(existing, resume, get).bar.None? <==>
      Negotiate(Opening(|existing|, resume), get).offset > 0
      && Negotiate(Opening(|existing|, resume), get).offset >=
         TotalSize(Negotiate(Opening(|existing|, resume), get).reply.status,
                   Negotiate(Opening(|existing|, resume), get).reply.length,
                   Negotiate(Opening(|existing|, resume), get).offset).value
    ensures Download(existing, resume, get).bar.None? ==>
      Download(existing, resume, get).outcome == Succeeded && Download(existing, resume, get).file == existing
  {
  }

  /**
   * A 206 that declares nothing left (a length of 0, or no length at all)
   * is an already-complete file.
   */
  lemma PartialWithNothingLeftSkips(existing: seq<byte>, get: Request -> Reply)
    requires |existing| > 0
    requires get(Request(Some(RangeHeader(|existing|)))).Response?
    requires get(Request(Some(RangeHeader(|existing|)))).status == PARTIAL_CONTENT
    requires get(Request(Some(RangeHeader(|existing|)))).length in {Absent, Declared(0)}
    ensures Download(existing, true, get) ==
      Transfer(Succeeded, existing, [Request(Some(RangeHeader(|existing|)))], None)
  {
  }

  /**
   * A server that ignores the Range header and answers 200 with a body
   * longer than the file gets that whole body appended after the bytes
   * already on disk.
   */
  lemma IgnoredRangeAppendsBody(existing: seq<byte>, get: Request -> Reply, n: int, chunks: seq<seq<byte>>)
    requires |existing| > 0 && n > |existing|
    requires get(Request(Some(RangeHeader(|existing|)))) == Response(200, Declared(n), chunks, Finished)
    ensures Download(existing, true, get).outcome == Succeeded
    ensures Download(existing, true, get).file == existing + Concat(chunks)
  {
  }

  /**
   * After a 416 the call behaves like a fresh download of the same URL: the
   * same outcome and progress, and a file holding only the new body once it
   * is streamed (if the plain request fails, the old bytes stay untouched).
   */
  lemma RestartAfterRangeNotSatisfiable(existing: seq<byte>, get: Request -> Reply)
    requires |existing| > 0 && IsRangeRefusal(get(Request(Some(RangeHeader(|existing|)))))
    ensures Download(existing, true, get).outcome == Download([], true, get).outcome
    ensures Download(existing, true, get).bar == Download([], true, get).bar
    ensures Download(existing, true, get).bar.Some? ==> Download(existing, true, get).file == Download([], true, get).file
    ensures Download(existing, true, get).sent == [Request(Some(RangeHeader(|existing|))), Request(None)]
  {
  }

  /** A fresh download streams every accepted body into an empty file and never skips it. */
  lemma FreshDownloadWritesBody(existing: seq<byte>, get: Request -> Reply)
    requires get(Request(None)).Response? && !IsErrorStatus(get(Request(None)).status)
    requires !get(Request(None)).length.Malformed?
    ensures Download(existing, false, get).file == Concat(get(Request(None)).chunks)
    ensures Download(existing, false, get).bar.Some?
    ensures Download(existing, false, get).outcome == Succeeded <==> get(Request(None)).end.Finished?
  {
  }
}
