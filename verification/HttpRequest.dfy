/** HttpRequestAnalyser: what one call takes off the stream and what request it builds. */
module HttpRequest {
  import opened Wrappers
  import opened Decimal
  import opened HttpConfig
  import opened SocketInput

  // size of the scratch buffer a body is read through
  const BFSIZE: nat := 512

  datatype Request = Request(verb: Method, uri: string, version: Version, header: map<string, string>, body: string)

  const EMPTY_REQUEST: Request := Request(UNKNOWN_REQUEST_METHOD, "", UNKNOWN_HTTP_VERSION, map[], "")

  datatype Fault =
    | PARSE_REQ_METHOD_FAILED | PARSE_REQ_URI_FAILED | PARSE_REQ_VERSION_FAILED | PARSE_TERMINATE_CH_FAILED
    | INVALID_REQ_HEADER_FORMAT | PARSE_REQ_HEADER_FAILED | PARSE_REQ_BODY_FAILED

  /** How a call ends. Throws: an exception of substr or stoul leaves the analyser.
      Hangs: the body loop repeats a read that can never deliver anything. */
  datatype Status = Ok | Failed(fault: Fault) | Throws | Hangs

  datatype Parsed = Parsed(status: Status, request: Request, stream: Stream)

  // ----- request line

  function SkipTerminateCH(s: Stream): (r: (Status, Stream))
    ensures r.0 == Ok || r.0 == Failed(PARSE_TERMINATE_CH_FAILED)
    ensures r.0 == Ok ==> r.1.Good()
    ensures s.fail ==> r.0 != Ok
    ensures s.Good() ==> (r.1.fail ==> r.1.eof)
    ensures Left(r.1) <= Left(s)
  {
    var (c, t) := GetChar(s);
    if c != Some('\r') then (Failed(PARSE_TERMINATE_CH_FAILED), t)
    else
      var (d, u) := GetChar(t);
      (if d == Some('\n') then Ok else Failed(PARSE_TERMINATE_CH_FAILED), u)
  }

  function ParseLine(s: Stream): (p: Parsed)
    ensures p.status == Ok ==> p.stream.Good() && Left(p.stream) < Left(s)
    ensures s.Good() ==> (p.stream.fail ==> p.stream.eof)
    ensures s.Good() ==> p.stream.eof || Left(p.stream) < Left(s)
  {
    var (verb, s1) := ReadWord(s);
    if s1.fail then Parsed(Failed(PARSE_REQ_METHOD_FAILED), EMPTY_REQUEST, s1)
    else
      var (uri, s2) := ReadWord(s1);
      if s2.fail then Parsed(Failed(PARSE_REQ_URI_FAILED), EMPTY_REQUEST, s2)
      else
        var (version, s3) := ReadWord(s2);
        if s3.fail then Parsed(Failed(PARSE_REQ_VERSION_FAILED), EMPTY_REQUEST, s3)
        else
          var (status, s4) := SkipTerminateCH(s3);
          Parsed(status, EMPTY_REQUEST.(verb := ToMethod(verb), uri := uri, version := ToVersion(version)), s4)
  }

  // ----- header lines

  function FindColon(s: string): (i: nat)
    ensures i <= |s|
    ensures i < |s| ==> s[i] == ':'
    ensures forall k :: 0 <= k < i ==> s[k] != ':'
  {
    if s == "" || s[0] == ':' then 0 else 1 + FindColon(s[1..])
  }

  function DropBlanks(s: string): string {
    if s != "" && s[0] == ' ' then DropBlanks(s[1..]) else s
  }

  datatype HeadLine = EndOfHead | NoColon | ColonLast | Field(key: string, value: string)

  /** One line of the head, its line feed already dropped; the last character is cut unseen. */
  function ReadHeadLine(line: string): (h: HeadLine)
    ensures h.EndOfHead? <==> |line| == 1
    ensures h.Field? ==> ':' !in h.key
  {
    if |line| == 1 then EndOfHead
    else
      var tok := FindColon(line);
      if tok == |line| then NoColon
      else if tok == |line| - 1 then ColonLast
      else Field(line[..tok], DropBlanks(line[tok + 1..|line| - 1]))
  }

  function ParseHead(s: Stream, request: Request): (p: Parsed)
    ensures p.status == Ok ==> !p.stream.fail
    ensures s.Good() ==> (p.stream.fail ==> p.stream.eof)
    ensures Left(p.stream) <= Left(s)
    ensures p.request == request.(header := p.request.header)
    decreases Left(s)
  {
    var (line, t) := GetLine(s);
    if t.fail then Parsed(Failed(PARSE_REQ_HEADER_FAILED), request, t)
    else
      match ReadHeadLine(line)
      case EndOfHead => Parsed(Ok, request, t)
      case NoColon => Parsed(Failed(INVALID_REQ_HEADER_FORMAT), request, t)
      case ColonLast => Parsed(Throws, request, t)
      case Field(key, value) => ParseHead(t, request.(header := request.header[key := value]))
  }

  // ----- body

  /** requestBodyLength; None is the exception of stoul. */
  function BodyLength(header: map<string, string>): Option<nat> {
    if "Content-Length" in header then Stoul(header["Content-Length"]) else Some(0)
  }

  function ReadBody(s: Stream, rest: nat): (r: (Status, string, Stream))
    ensures s.eof ==> r.2.eof
    ensures Left(r.2) <= Left(s)
    ensures (s.fail ==> s.eof) ==> (r.2.fail ==> r.2.eof)
    decreases rest
  {
    if rest == 0 then (Ok, "", s)
    else
      var (text, t) := ReadSome(s, Min(rest, BFSIZE));
      if t.fail then (Failed(PARSE_REQ_BODY_FAILED), text, t)
      else if text == "" then (Hangs, text, t)
      else
        var (status, more, u) := ReadBody(t, rest - |text|);
        (status, text + more, u)
  }

  function ParseBody(s: Stream, request: Request): (p: Parsed)
    ensures s.eof ==> p.stream.eof
    ensures Left(p.stream) <= Left(s)
    ensures (s.fail ==> s.eof) ==> (p.stream.fail ==> p.stream.eof)
  {
    match BodyLength(request.header)
    case None => Parsed(Throws, request, s)
    case Some(length) =>
      if length == 0 then Parsed(Ok, request, s)
      else
        var (status, body, t) := ReadBody(s, length);
        Parsed(status, if status == Ok then request.(body := body) else request, t)
  }

  // ----- one request

  /** Request line and head, the part that never uses readsome. */
  function ParseFront(s: Stream): (p: Parsed)
    ensures s.Good() ==> (p.stream.fail ==> p.stream.eof)
    ensures s.Good() ==> p.stream.eof || Left(p.stream) < Left(s)
    ensures p.status == Ok ==> !p.stream.fail
  {
    var line := ParseLine(s);
    if line.status != Ok then line else ParseHead(line.stream, line.request)
  }

  /** A stream in a good state loses at least one byte to a call, or ends in eof. */
  function GetOneHttpRequest(s: Stream): (p: Parsed)
    ensures s.Good() ==> (p.stream.fail ==> p.stream.eof)
    ensures s.Good() ==> p.stream.eof || Left(p.stream) < Left(s)
  {
    WithBody(ParseFront(s))
  }

  function WithBody(front: Parsed): (p: Parsed)
    ensures Left(p.stream) <= Left(front.stream)
    ensures (front.stream.fail ==> front.stream.eof) ==> (p.stream.fail ==> p.stream.eof)
    ensures front.stream.eof ==> p.stream.eof
  {
    if front.status != Ok then front else ParseBody(front.stream, front.request)
  }

  // ----- independence of how the bytes arrived

  lemma {:induction false} TerminateWhole(s: Stream)
    ensures SkipTerminateCH(s.Whole()) == (SkipTerminateCH(s).0, SkipTerminateCH(s).1.Whole())
  {
    hide GetChar, Stream.Whole;
    ReadsAreChunkIndependent(s);
    ReadsAreChunkIndependent(GetChar(s).1);
  }

  lemma {:induction false} WholeKeepsBits(s: Stream)
    ensures s.Whole().eof == s.eof && s.Whole().fail == s.fail
  {
  }

  lemma {:induction false} ParseLineWhole(s: Stream)
    ensures ParseLine(s.Whole()) == ParseLine(s).(stream := ParseLine(s).stream.Whole())
  {
    hide ReadWord, SkipTerminateCH, Stream.Whole, ToMethod, ToVersion;
    var s1 := ReadWord(s).1;
    var s2 := ReadWord(s1).1;
    var s3 := ReadWord(s2).1;
    ReadsAreChunkIndependent(s);
    ReadsAreChunkIndependent(s1);
    ReadsAreChunkIndependent(s2);
    TerminateWhole(s3);
    WholeKeepsBits(s1);
    WholeKeepsBits(s2);
    WholeKeepsBits(s3);
  }

  lemma {:induction false} ParseHeadWhole(s: Stream, request: Request)
    ensures ParseHead(s.Whole(), request) == ParseHead(s, request).(stream := ParseHead(s, request).stream.Whole())
    decreases Left(s)
  {
    ReadsAreChunkIndependent(s);
    var (line, t) := GetLine(s);
    if !t.fail {
      var h := ReadHeadLine(line);
      if h.Field? {
        ParseHeadWhole(t, request.(header := request.header[h.key := h.value]));
      }
    }
  }

  /** For every stream, however its bytes were split over receives, the line and head parsed, the
      outcome and the bytes left equal those of the flat sequence of reachable bytes. */
  lemma {:induction false} FrontIsChunkIndependent(s: Stream)
    ensures ParseFront(s.Whole()) == ParseFront(s).(stream := ParseFront(s).stream.Whole())
  {
    ParseLineWhole(s);
    var line := ParseLine(s);
    if line.status == Ok {
      ParseHeadWhole(line.stream, line.request);
    }
  }

  lemma {:induction false} TerminateHeld(s: Stream, k: nat)
    requires SkipTerminateCH(s).0 == Ok
    ensures var t := SkipTerminateCH(s).1;
            s.Good() && Consumed(s, t) > 0 && HeldIn(t, k) == HeldIn(s, k + Consumed(s, t))
  {
    var t := GetChar(s).1;
    GetCharHeld(t, k);
    GetCharHeld(s, k + Consumed(t, GetChar(t).1));
    assert Consumed(s, t) == 1;
    hide GetChar, Held;
  }

  lemma {:induction false} ParseLineHeld(s: Stream, k: nat)
    requires ParseLine(s).status == Ok
    ensures var t := ParseLine(s).stream; Consumed(s, t) >= 0 && HeldIn(t, k) == HeldIn(s, k + Consumed(s, t))
  {
    var s1 := ReadWord(s).1;
    var s2 := ReadWord(s1).1;
    var s3 := ReadWord(s2).1;
    var s4 := SkipTerminateCH(s3).1;
    hide ReadWord, SkipTerminateCH, Held, Stream.Visible;
    TerminateHeld(s3, k);
    assert s1.Good() && s2.Good() && s3.Good();
    ReadWordHeld(s2, k + Consumed(s3, s4));
    ReadWordHeld(s1, k + Consumed(s2, s4));
    ReadWordHeld(s, k + Consumed(s1, s4));
  }

  lemma {:induction false} ParseHeadHeld(s: Stream, request: Request, k: nat)
    requires ParseHead(s, request).status == Ok && !ParseHead(s, request).stream.eof
    ensures var t := ParseHead(s, request).stream; Consumed(s, t) >= 0 && HeldIn(t, k) == HeldIn(s, k + Consumed(s, t))
    decreases Left(s)
  {
    hide Held, GetLine, ReadHeadLine, Stream.Visible, Stream.Whole;
    var (line, t) := GetLine(s);
    var h := ReadHeadLine(line);
    if h.Field? {
      var next := request.(header := request.header[h.key := h.value]);
      var u := ParseHead(t, next).stream;
      EofStays(t, next);
      ParseHeadHeld(t, next, k);
      GetLineHeld(s, k + Consumed(t, u));
    } else {
      GetLineHeld(s, k);
    }
  }

  lemma {:induction false} EofStays(s: Stream, request: Request)
    ensures s.eof ==> ParseHead(s, request).stream.eof
  {
  }

  /** What the get area holds when the head is over: the rest of the received piece that brought the
      head's last byte. */
  lemma {:induction false} FrontHeld(s: Stream, k: nat)
    requires ParseFront(s).status == Ok && !ParseFront(s).stream.eof
    ensures var t := ParseFront(s).stream; Consumed(s, t) >= 0 && HeldIn(t, k) == HeldIn(s, k + Consumed(s, t))
  {
    var line := ParseLine(s);
    hide ParseLine, ParseHead;
    ParseHeadHeld(line.stream, line.request, k);
    ParseLineHeld(s, k + Consumed(line.stream, ParseFront(s).stream));
  }

  /** The body loop in closed form: it delivers the next n bytes of the get area exactly when the
      get area holds them, and otherwise empties the area and never ends. */
  lemma {:induction false} ReadBodyClosedForm(s: Stream, n: nat)
    requires s.Good()
    ensures n <= |s.area| ==> ReadBody(s, n) == (Ok, s.area[..n], s.(area := s.area[n..]))
    ensures |s.area| < n ==> ReadBody(s, n) == (Hangs, s.area, s.(area := ""))
    decreases n
  {
    if n != 0 {
      var k := Min(Min(n, BFSIZE), |s.area|);
      if k != 0 {
        ReadBodyClosedForm(s.(area := s.area[k..]), n - k);
        if n <= |s.area| {
          SliceSlice(s.area, k, n);
        } else {
          assert s.area[..k] + s.area[k..] == s.area;
        }
      } else {
        assert s.area == "";
      }
    }
  }

  lemma SliceSlice(a: string, k: nat, n: nat)
    requires k <= n <= |a|
    ensures a[..k] + a[k..][..n - k] == a[..n] && a[k..][n - k..] == a[n..]
  {
  }

  lemma SliceConcat(a: string, b: string, n: nat)
    requires n <= |a|
    ensures (a + b)[..n] == a[..n] && (a + b)[n..] == a[n..] + b
  {
  }

  /** The get area left by the head is enough for the body: there is none to read, or it is all
      there, or even all reachable bytes would not do. */
  predicate AreaDecides(front: Parsed) {
    || front.status != Ok
    || front.stream.eof
    || BodyLength(front.request.header).None?
    || BodyLength(front.request.header).value <= |front.stream.area|
    || |front.stream.Visible()| < BodyLength(front.request.header).value
  }

  lemma {:induction false} ParseBodyClosedForm(s: Stream, request: Request, n: nat)
    requires s.Good() && BodyLength(request.header) == Some(n)
    ensures n <= |s.area| ==>
      ParseBody(s, request) ==
      Parsed(Ok, if n == 0 then request else request.(body := s.area[..n]), s.(area := s.area[n..]))
    ensures |s.area| < n ==> ParseBody(s, request) == Parsed(Hangs, request, s.(area := ""))
  {
    ReadBodyClosedForm(s, n);
    assert s.area[0..] == s.area;
  }

  lemma {:induction false} SizedBodyAgrees(s: Stream, request: Request, n: nat)
    requires s.Good() && BodyLength(request.header) == Some(n)
    ensures
      var chunked, flat := ParseBody(s, request), ParseBody(s.Whole(), request);
      if n <= |s.area| then chunked.status == Ok && flat == chunked.(stream := chunked.stream.Whole())
      else
        && chunked.status == Hangs && chunked.request == request
        && if n <= |s.Visible()| then flat.status == Ok else flat.status == Hangs && flat.request == request
  {
    ParseBodyClosedForm(s, request, n);
    ParseBodyClosedForm(s.Whole(), request, n);
    if n <= |s.area| {
      SliceConcat(s.area, Reachable(s.pending), n);
    }
  }

  lemma {:induction false} BodyAgrees(front: Parsed)
    requires front.status == Ok ==> !front.stream.fail
    ensures
      var chunked, flat := WithBody(front), WithBody(front.(stream := front.stream.Whole()));
      && ((flat.status == chunked.status && flat.request == chunked.request) <==> AreaDecides(front))
      && (AreaDecides(front) && chunked.status != Hangs ==> flat.stream == chunked.stream.Whole())
  {
    var s, length := front.stream, BodyLength(front.request.header);
    if front.status == Ok && length.Some? {
      if s.eof {
        EofBodyAgrees(s, front.request);
      } else {
        SizedBodyAgrees(s, front.request, length.value);
      }
    }
  }

  lemma {:induction false} EofBodyAgrees(s: Stream, request: Request)
    requires s.eof
    ensures ParseBody(s.Whole(), request) == ParseBody(s, request).(stream := ParseBody(s, request).stream.Whole())
  {
  }

  /** A head that ended with the input leaves nothing to read a body from: one that is announced fails. */
  lemma {:induction false} BodyAtEofFails(s: Stream, request: Request)
    requires s.eof && !s.fail && BodyLength(request.header).Some?
    ensures ParseBody(s, request) ==
            if BodyLength(request.header) == Some(0) then Parsed(Ok, request, s)
            else Parsed(Failed(PARSE_REQ_BODY_FAILED), request, s.(fail := true))
  {
  }

  /** The length a request announces: none without the header, else what stoul reads. */
  lemma {:induction false} BodyLengthExactly(header: map<string, string>)
    ensures "Content-Length" !in header ==> BodyLength(header) == Some(0)
    ensures "Content-Length" in header ==> BodyLength(header) == Stoul(header["Content-Length"])
  {
  }

  /** Whole call: it ends as on the flat bytes, with the same request, if and only if the get area
      left by the head decides the body; then, if it returns, the same bytes are left. A request
      without a body is always decided. */
  lemma {:induction false} RequestIsChunkIndependent(s: Stream)
    ensures
      var flat, chunked := GetOneHttpRequest(s.Whole()), GetOneHttpRequest(s);
      && ((flat.status == chunked.status && flat.request == chunked.request) <==> AreaDecides(ParseFront(s)))
      && (AreaDecides(ParseFront(s)) && chunked.status != Hangs ==> flat == chunked.(stream := chunked.stream.Whole()))
    ensures BodyLength(ParseFront(s).request.header) == Some(0) ==> AreaDecides(ParseFront(s))
  {
    FrontIsChunkIndependent(s);
    BodyAgrees(ParseFront(s));
  }
}
