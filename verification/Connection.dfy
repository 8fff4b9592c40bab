/** IOEventHandler::handle: the loop that answers every request of a connection. */
module Connection {
  import opened Wrappers
  import opened Decimal
  import opened HttpConfig
  import opened SocketInput
  import opened SocketOutput
  import opened HttpRequest
  import opened HttpWire
  import opened Responsor
  import R = HttpResponse
  import A = RequestAnalyser

  /** Done: the loop saw end of file. Thrown: an exception left it. Stuck: a round never ends, or
      rounds repeat without moving. */
  datatype Ending = Done | Thrown | Stuck

  datatype Served = Served(requests: seq<Request>, ending: Ending)

  /** The requests the loop answers on a stream, in order, and how it ends. */
  function Serve(s: Stream): Served
    decreases !s.eof, Left(s)
  {
    if s.eof then Served([], Done)
    else if s.fail then Served([], Stuck)
    else
      var p := GetOneHttpRequest(s);
      match p.status
      case Throws => Served([], Thrown)
      case Hangs => Served([], Stuck)
      case Failed(_) => Serve(p.stream)
      case Ok =>
        var more := Serve(p.stream);
        Served([p.request] + more.requests, more.ending)
  }

  /** What each round of the loop gets from the analyser, up to one that never returns control. */
  function Rounds(s: Stream): seq<Parsed>
    decreases !s.eof, Left(s)
  {
    if !s.Good() then []
    else
      var p := GetOneHttpRequest(s);
      [p] + if p.status == Ok || p.status.Failed? then Rounds(p.stream) else []
  }

  /** On every input the loop makes at most one round per byte and one more, and it reaches end of
      file unless its last round is an exception or a body read that never ends: no input makes it
      repeat failing rounds without moving. */
  lemma {:induction false} LoopTerminates(s: Stream)
    requires s.Good()
    ensures var rounds := Rounds(s);
            && 1 <= |rounds| <= Left(s) + 1
            && Serve(s).ending == match rounds[|rounds| - 1].status
                                  case Throws => Thrown
                                  case Hangs => Stuck
                                  case _ => Done
    decreases Left(s)
  {
    hide GetOneHttpRequest, Left;
    var p := GetOneHttpRequest(s);
    if (p.status == Ok || p.status.Failed?) && !p.stream.eof {
      LoopTerminates(p.stream);
      LastOfMore(p, Rounds(p.stream));
    }
  }

  lemma {:induction false} LastOfMore(p: Parsed, more: seq<Parsed>)
    requires more != []
    ensures ([p] + more)[|[p] + more| - 1] == more[|more| - 1]
  {
  }

  lemma {:induction false} EmptyStreamFails(s: Stream)
    requires s.Good() && s.Visible() == ""
    ensures GetOneHttpRequest(s).status == Failed(PARSE_REQ_METHOD_FAILED) && GetOneHttpRequest(s).stream.eof
  {
    assert Peek(s).0.None?;
    assert SkipSpace(s).eof;
    assert ReadWord(s).1.fail;
  }

  // ----- independence of how the bytes arrived

  /** In every round the get area decides the body; so it is for requests without bodies. */
  predicate BodiesDecided(s: Stream)
    decreases !s.eof, Left(s)
  {
    s.Good() ==>
      && AreaDecides(ParseFront(s))
      && var p := GetOneHttpRequest(s);
         (p.status == Ok || p.status.Failed? ==> BodiesDecided(p.stream))
  }

  lemma {:induction false} UndecidedHangs(s: Stream)
    requires !AreaDecides(ParseFront(s))
    ensures GetOneHttpRequest(s).status == Hangs && GetOneHttpRequest(s.Whole()).status == Ok
  {
    FrontIsChunkIndependent(s);
    var front := ParseFront(s);
    hide ParseFront;
    SizedBodyAgrees(front.stream, front.request, BodyLength(front.request.header).value);
  }

  /** The requests answered and the ending are those of the flat bytes if and only if in every round
      the get area decides the body: an undecided body hangs in pieces and is read when flat. */
  lemma {:induction false} LoopIsChunkIndependent(s: Stream)
    ensures Serve(s) == Serve(s.Whole()) <==> BodiesDecided(s)
    decreases !s.eof, Left(s)
  {
    if s.Good() {
      RequestIsChunkIndependent(s);
      hide ParseFront, GetOneHttpRequest, AreaDecides;
      var p := GetOneHttpRequest(s);
      if !AreaDecides(ParseFront(s)) {
        UndecidedHangs(s);
      } else if p.status == Ok || p.status.Failed? {
        LoopIsChunkIndependent(p.stream);
        OneRequestMore(p.request, Serve(p.stream), Serve(p.stream.Whole()));
      }
    }
  }

  lemma {:induction false} OneRequestMore(r: Request, a: Served, b: Served)
    ensures Served([r] + a.requests, a.ending) == Served([r] + b.requests, b.ending) <==> a == b
  {
    assert ([r] + a.requests)[1..] == a.requests && ([r] + b.requests)[1..] == b.requests;
  }

  // ----- pipelining

  function Wires(ms: seq<Message>): string { if ms == [] then "" else Wire(ms[0]) + Wires(ms[1..]) }

  function Meanings(ms: seq<Message>): seq<Request> {
    seq(|ms|, i requires 0 <= i < |ms| => Meaning(ms[i]))
  }

  /** Messages sent back to back, the first of them offset bytes into the pieces: how many come before
      the first whose body is not all in the piece that brings the last byte of its head. */
  function Arrived(area: string, pending: seq<string>, offset: nat, ms: seq<Message>): (n: nat)
    ensures n <= |ms|
    decreases |ms|
  {
    if ms == [] || Held(area, pending, offset + |Front(ms[0])|) < |ms[0].body| then 0
    else 1 + Arrived(area, pending, offset + |Wire(ms[0])|, ms[1..])
  }

  /** On the wire forms of any well-formed messages, back to back and in any pieces, the loop answers
      exactly the messages before the first whose body came late, in order, and is stuck on that one;
      if there is none it answers them all and ends. */
  lemma {:induction false} Pipelining(s: Stream, ms: seq<Message>)
    requires s.Good() && s.Visible() == Wires(ms)
    requires forall i :: 0 <= i < |ms| ==> WellFormed(ms[i])
    ensures var n := Arrived(s.area, s.pending, 0, ms);
            Serve(s) == Served(Meanings(ms[..n]), if n == |ms| then Done else Stuck)
  {
    PipeliningFrom(s, s, 0, ms);
  }

  lemma {:induction false} PipeliningFrom(s: Stream, first: Stream, offset: nat, ms: seq<Message>)
    requires s.Good() && s.Visible() == Wires(ms)
    requires forall i :: 0 <= i < |ms| ==> WellFormed(ms[i])
    requires Ahead(s, first, offset)
    ensures var n := Arrived(first.area, first.pending, offset, ms);
            Serve(s) == Served(Meanings(ms[..n]), if n == |ms| then Done else Stuck)
    decreases |ms|
  {
    hide GetOneHttpRequest, Serve, Wire, Front, Meaning, WellFormed, Ahead, Held, Stream.Visible;
    if ms == [] {
      EmptyStreamEnds(s);
    } else {
      var m, tail := ms[0], Wires(ms[1..]);
      ServeMessage(s, m, tail);
      AheadNow(s, first, offset, |Front(m)|);
      var t := GetOneHttpRequest(s).stream;
      if |m.body| <= Held(s.area, s.pending, |Front(m)|) {
        AheadTwice(t, s, first, |Wire(m)|, offset);
        PipeliningFrom(t, first, offset + |Wire(m)|, ms[1..]);
        OneMeaningMore(ms, Arrived(first.area, first.pending, offset + |Wire(m)|, ms[1..]));
      } else {
        NoMeanings(ms);
      }
    }
  }

  lemma NoMeanings(ms: seq<Message>)
    ensures Meanings(ms[..0]) == []
  {
  }

  lemma {:induction false} ServeMessage(s: Stream, m: Message, tail: string)
    requires s.Good() && s.Visible() == Wire(m) + tail && WellFormed(m)
    ensures var t := GetOneHttpRequest(s).stream;
            if |m.body| <= Held(s.area, s.pending, |Front(m)|)
            then
              && Serve(s) == Served([Meaning(m)] + Serve(t).requests, Serve(t).ending)
              && t.Good() && t.Visible() == tail && Ahead(t, s, |Wire(m)|)
            else Serve(s) == Served([], Stuck)
  {
    hide GetOneHttpRequest, Wire, Front, Meaning, WellFormed, Ahead, Held, Stream.Visible;
    ParseInvertsWire(m, tail, s);
  }

  lemma {:induction false} EmptyStreamEnds(s: Stream)
    requires s.Good() && s.Visible() == ""
    ensures Serve(s) == Served([], Done)
  {
    EmptyStreamFails(s);
    hide GetOneHttpRequest;
  }

  lemma {:induction false} OneMeaningMore(ms: seq<Message>, n: nat)
    requires ms != [] && n <= |ms| - 1
    ensures Meanings(ms[..n + 1]) == [Meaning(ms[0])] + Meanings(ms[1..][..n])
  {
    hide Meaning;
  }

  /** A request that is refused does not end the connection: after a head line without a colon the loop
      goes on behind that line, and answers everything that follows. */
  lemma {:induction false} RefusedIsSkipped(l: LineParts, hs: seq<Header>, line: string, ms: seq<Message>)
    requires l.Valid() && l.rest == HeaderLines(hs) + (line + "\n" + Wires(ms))
    requires '\n' !in line && ':' !in line && |line| != 1
    requires forall i :: 0 <= i < |hs| ==> WellFormedHeader(hs[i])
    requires forall i :: 0 <= i < |ms| ==> WellFormed(ms[i])
    ensures Serve(Flat(l.Text())) == Served(Meanings(ms), Done)
  {
    hide WellFormed, Wires, HeaderLines, LineParts.Valid, LineParts.Text, Meanings, ParseHead, ParseLine;
    ParseLineParts(l);
    HeadRefused(hs, l.Request(), line, Wires(ms));
    ServeStep(Flat(l.Text()), []);
    OneReceiveBringsAll(Wires(ms), [], 0, ms);
    assert Flat(Wires(ms)).Visible() == Wires(ms) + "" == Wires(ms);
    Pipelining(Flat(Wires(ms)), ms);
    assert ms[..|ms|] == ms;
    assert After([], Serve(Flat(l.Text()))) == Serve(Flat(l.Text()));
    assert After([], Serve(Flat(Wires(ms)))) == Serve(Flat(Wires(ms)));
  }

  /** The failing split, for every message with a body: head in one piece, body in the next. */
  lemma {:induction false} SplitBodyHangs(m: Message)
    requires WellFormed(m) && m.body != ""
    ensures var s := Stream("", [Front(m), m.body], false, false);
            GetOneHttpRequest(s).status ==
              if Front(m)[0] == EOF_BYTE then Failed(PARSE_REQ_METHOD_FAILED) else Hangs
  {
    var s := Stream("", [Front(m), m.body], false, false);
    if Front(m)[0] == EOF_BYTE {
      EmptyStreamFails(s);
    } else {
      var rest := Reachable([m.body]);
      assert s.pending[1..] == [m.body];
      assert Held("", s.pending, |Front(m)|) == Held(Front(m), [m.body], |Front(m)|) == 0;
      assert s.Visible() == "" + (Front(m) + rest) == Front(m) + rest;
      hide Front, WellFormed;
      LateBodyHangs(m, rest, s);
    }
  }

  /** Three ways every body arrives in time: there are no bodies ... */
  lemma {:induction false} NoBodiesToArrive(area: string, pending: seq<string>, offset: nat, ms: seq<Message>)
    requires forall i :: 0 <= i < |ms| ==> ms[i].body == ""
    ensures Arrived(area, pending, offset, ms) == |ms|
    decreases |ms|
  {
    if ms != [] {
      NoBodiesToArrive(area, pending, offset + |Wire(ms[0])|, ms[1..]);
    }
  }

  /** ... or one receive brings everything ... */
  lemma {:induction false} OneReceiveBringsAll(area: string, pending: seq<string>, offset: nat, ms: seq<Message>)
    requires offset + |Wires(ms)| <= |area|
    ensures Arrived(area, pending, offset, ms) == |ms|
    decreases |ms|
  {
    if ms != [] {
      assert |Wire(ms[0])| == |Front(ms[0])| + |ms[0].body|;
      hide Wire, Front;
      OneReceiveBringsAll(area, pending, offset + |Wire(ms[0])|, ms[1..]);
    }
  }

  function Pieces(ms: seq<Message>): seq<string> { seq(|ms|, i requires 0 <= i < |ms| => Wire(ms[i])) }

  /** ... or each receive brings one message. */
  lemma {:induction false} OneReceiveEach(area: string, ms: seq<Message>)
    ensures Arrived(area, Pieces(ms), |area|, ms) == |ms|
    decreases |ms|
  {
    if ms != [] {
      var m, rest := ms[0], ms[1..];
      assert Pieces(ms)[0] == Wire(m) && Pieces(ms)[1..] == Pieces(rest);
      FrontAndWire(m);
      hide Wire, Front, Pieces;
      assert Held(area, Pieces(ms), |area| + |Front(m)|) == Held(Wire(m), Pieces(rest), |Front(m)|) == |m.body|;
      OneReceiveEach(Wire(m), rest);
      NextPiece(area, Pieces(ms), |Wire(m)|, rest);
    }
  }

  lemma {:induction false} PiecesAreWires(ms: seq<Message>)
    ensures Concat(Pieces(ms)) == Wires(ms)
    decreases |ms|
  {
    hide Wire;
    if ms != [] {
      PiecesAreWires(ms[1..]);
      assert Pieces(ms)[1..] == Pieces(ms[1..]);
    }
  }

  /** A well-formed message with a known method starts with a character of the ASCII set. */
  lemma {:induction false} KnownMethodIsAscii(m: Message)
    requires WellFormed(m) && ToMethod(m.verb) != UNKNOWN_REQUEST_METHOD
    ensures Wire(m) != "" && Wire(m)[0] as int < 0x80
  {
    MethodsExactly(m.verb);
    FrontAndWire(m);
    FirstByte(m);
    if m.lead != "" {
      CharactersExactly(m.lead[0]);
    } else {
      assert m.verb[0] in "GHPDCOT";
    }
  }

  lemma {:induction false} FirstByte(m: Message)
    requires m.verb != ""
    ensures Wire(m)[0] == if m.lead == "" then m.verb[0] else m.lead[0]
  {
  }

  /** Well-formed messages with known methods, received one by one, are all answered, in order, and the
      loop ends: nothing is asked of them. */
  lemma {:induction false} OneByOneIsServed(ms: seq<Message>)
    requires forall i :: 0 <= i < |ms| ==> WellFormed(ms[i]) && ToMethod(ms[i].verb) != UNKNOWN_REQUEST_METHOD
    ensures Reachable(Pieces(ms)) == Wires(ms)
    ensures Serve(Stream("", Pieces(ms), false, false)) == Served(Meanings(ms), Done)
  {
    hide Wire, WellFormed, Serve, Reachable, Meaning, Pieces, Wires, Arrived, ToMethod;
    var s := Stream("", Pieces(ms), false, false);
    PiecesAreAscii(ms);
    AsciiIsReachable(Pieces(ms));
    PiecesAreWires(ms);
    assert s.Visible() == "" + Wires(ms) == Wires(ms);
    OneReceiveEach("", ms);
    Pipelining(s, ms);
    assert ms[..|ms|] == ms;
  }

  lemma {:induction false} PiecesAreAscii(ms: seq<Message>)
    requires forall i :: 0 <= i < |ms| ==> WellFormed(ms[i]) && ToMethod(ms[i].verb) != UNKNOWN_REQUEST_METHOD
    ensures forall i :: 0 <= i < |Pieces(ms)| ==> Pieces(ms)[i] != "" && Pieces(ms)[i][0] as int < 0x80
  {
    hide Wire, WellFormed, ToMethod;
    forall i | 0 <= i < |ms| ensures Pieces(ms)[i] != "" && Pieces(ms)[i][0] as int < 0x80 {
      KnownMethodIsAscii(ms[i]);
    }
  }

  lemma FrontAndWire(m: Message)
    ensures |Wire(m)| == |Front(m)| + |m.body| && |Front(m)| > 0
  {
  }

  lemma {:induction false} NextPiece(area: string, pending: seq<string>, n: nat, ms: seq<Message>)
    requires pending != [] && n > 0
    ensures Arrived(area, pending, |area| + n, ms) == Arrived(pending[0], pending[1..], n, ms)
    decreases |ms|
  {
    if ms != [] {
      FrontAndWire(ms[0]);
      hide Wire, Front;
      NextPiece(area, pending, n + |Wire(ms[0])|, ms[1..]);
    }
  }

  // ----- what the loop sends

  /** What requests are answered from: routes, and for the i-th request what the accessor gives and how
      the reads of its page go. */
  datatype Site = Site(router: Router, accesses: nat -> Accesses, reading: nat -> seq<R.Read>)

  function AnswerTo(site: Site, request: Request, i: nat): Option<Answer> {
    Respond(site.router, site.accesses(i), request)
  }

  /** The response to the i-th request. */
  function ResponseTo(site: Site, request: Request, i: nat): R.Response
    requires AnswerTo(site, request, i).Some?
  {
    AsResponse(AnswerTo(site, request, i).value, site.reading(i))
  }

  /** Answering never ends: an access does not return, or the page goes silent while it is copied. */
  predicate GoesSilent(site: Site, request: Request, i: nat) {
    var a := AnswerTo(site, request, i);
    a.None? || PageCopy(a.value.page, site.reading(i)).status == R.Stalls
  }

  /** What is written for the i-th request. */
  function TextTo(site: Site, request: Request, i: nat): string {
    if AnswerTo(site, request, i).None? then "" else R.Text(ResponseTo(site, request, i))
  }

  function TextsTo(site: Site, requests: seq<Request>): seq<string> {
    seq(|requests|, i requires 0 <= i < |requests| => TextTo(site, requests[i], i))
  }

  predicate PagesEnd(site: Site, requests: seq<Request>) {
    forall i :: 0 <= i < |requests| ==> !GoesSilent(site, requests[i], i)
  }

  /** The first request whose answer never ends, or the number of requests. */
  function FirstSilent(site: Site, requests: seq<Request>): (k: nat)
    ensures k <= |requests| && PagesEnd(site, requests[..k])
    ensures k < |requests| ==> GoesSilent(site, requests[k], k)
  {
    if requests == [] then 0
    else
      var n := |requests| - 1;
      var k := FirstSilent(site, requests[..n]);
      assert requests[..n][..k] == requests[..k];
      if k < n || GoesSilent(site, requests[n], n) then k else n + 1
  }

  /** What is written last, for the request the loop never comes back from. */
  function LastText(site: Site, requests: seq<Request>): string {
    var k := FirstSilent(site, requests);
    if k < |requests| then TextTo(site, requests[k], k) else ""
  }

  /** All that is ever written for the requests. */
  function AllSent(site: Site, requests: seq<Request>): string {
    Concat(TextsTo(site, requests[..FirstSilent(site, requests)])) + LastText(site, requests)
  }

  /** The output once the requests are answered: each response written and flushed, the last one, if its
      answer never ends, written only. */
  ghost function OutputFor(o: Output, site: Site, requests: seq<Request>): Output
    requires o.Sound()
  {
    Puts(Sent(o, TextsTo(site, requests[..FirstSilent(site, requests)])), LastText(site, requests))
  }

  lemma {:induction false} SilentOneMore(site: Site, requests: seq<Request>, request: Request)
    ensures var k, n := FirstSilent(site, requests), |requests|;
            FirstSilent(site, requests + [request]) == if k < n || GoesSilent(site, request, n) then k else n + 1
  {
    hide GoesSilent;
    assert (requests + [request])[..|requests|] == requests;
  }

  lemma {:induction false} SilentStays(site: Site, requests: seq<Request>, more: seq<Request>)
    requires FirstSilent(site, requests) < |requests|
    ensures FirstSilent(site, requests + more) == FirstSilent(site, requests)
    decreases |more|
  {
    hide GoesSilent;
    if more == [] {
      assert requests + more == requests;
    } else {
      var n := |more| - 1;
      SilentStays(site, requests, more[..n]);
      assert requests + more == (requests + more[..n]) + [more[n]];
      SilentOneMore(site, requests + more[..n], more[n]);
    }
  }

  lemma {:induction false} OutputStays(o: Output, site: Site, requests: seq<Request>, more: seq<Request>)
    requires o.Sound() && FirstSilent(site, requests) < |requests|
    ensures OutputFor(o, site, requests + more) == OutputFor(o, site, requests)
  {
    hide Puts, Sent, TextTo, TextsTo, GoesSilent, FirstSilent;
    SilentStays(site, requests, more);
    var k := FirstSilent(site, requests);
    assert (requests + more)[..k] == requests[..k] && (requests + more)[k] == requests[k];
  }

  lemma {:induction false} TextsOneMore(site: Site, requests: seq<Request>, request: Request)
    ensures TextsTo(site, requests + [request]) == TextsTo(site, requests) + [TextTo(site, request, |requests|)]
  {
    hide TextTo;
  }

  /** One more request on an output that has not met a silent answer. */
  lemma {:induction false} OutputOneMore(o: Output, site: Site, requests: seq<Request>, request: Request)
    requires o.Sound() && FirstSilent(site, requests) == |requests|
    ensures var written := Puts(OutputFor(o, site, requests), TextTo(site, request, |requests|));
            OutputFor(o, site, requests + [request]) ==
              if GoesSilent(site, request, |requests|) then written else Synced(written)
  {
    hide Puts, Sent, Synced, TextTo, TextsTo, GoesSilent, FirstSilent;
    var n, texts, text := |requests|, TextsTo(site, requests), TextTo(site, request, |requests|);
    SilentOneMore(site, requests, request);
    assert requests[..n] == requests && (requests + [request])[..n] == requests;
    assert (requests + [request])[..n + 1] == requests + [request];
    PutsNothing(Sent(o, texts));
    TextsOneMore(site, requests, request);
    SentAppend(o, texts, text);
    PutsNothing(Sent(o, texts + [text]));
  }

  // ----- what the client receives

  function Answers(site: Site, requests: seq<Request>): seq<R.Response>
    requires PagesEnd(site, requests)
  {
    seq(|requests|, i requires 0 <= i < |requests| =>
      assert !GoesSilent(site, requests[i], i);
      ResponseTo(site, requests[i], i))
  }

  /** The methods a client sent. */
  function Verbs(ms: seq<Message>): seq<Method> { seq(|ms|, i requires 0 <= i < |ms| => ToMethod(ms[i].verb)) }

  /** Reading by its methods, the client finds one reply per message, in order, each the reply to that
      message's request, and is left with exactly these bytes. */
  ghost predicate OneReplyEach(site: Site, ms: seq<Message>, bytes: string, left: string)
    requires PagesEnd(site, Meanings(ms))
  {
    R.ReadReplies(Verbs(ms), bytes) == Some((R.RepliesTo(Verbs(ms), Answers(site, Meanings(ms))), left))
  }

  predicate OpensTunnel(site: Site, m: Message, i: nat) {
    var a := AnswerTo(site, Meaning(m), i);
    ToMethod(m.verb) == CONNECT && a.Some? && a.value.code == 200
  }

  predicate EmptyPage(site: Site, m: Message, i: nat) {
    var a := AnswerTo(site, Meaning(m), i);
    a.Some? && a.value.page == ""
  }

  /** The reply to the i-th message is to have no body, whatever its head says. */
  predicate HeadOnly(site: Site, m: Message, i: nat) { ToMethod(m.verb) == HEAD || OpensTunnel(site, m, i) }

  /** Every HEAD, and every CONNECT answered 200, gets an empty page, and no message before the last is
      a CONNECT answered 200. */
  predicate KeepsStep(site: Site, ms: seq<Message>) {
    && (forall i :: 0 <= i < |ms| ==> HeadOnly(site, ms[i], i) ==> EmptyPage(site, ms[i], i))
    && (forall i :: 0 <= i < |ms| - 1 ==> !OpensTunnel(site, ms[i], i))
  }

  lemma {:induction false} CodesDecide(verb: Method, code: nat)
    requires code in {200, 404, 500, 501, 505}
    ensures R.Tunnels(verb, ToDecimal(code)) <==> verb == CONNECT && code == 200
    ensures R.Bodyless(verb, ToDecimal(code)) <==> verb == HEAD || (verb == CONNECT && code == 200)
  {
  }

  lemma {:induction false} ReplyFacts(site: Site, m: Message, i: nat)
    requires AnswerTo(site, Meaning(m), i).Some?
    ensures var r, verb := ResponseTo(site, Meaning(m), i), ToMethod(m.verb);
            && (R.Tunnels(verb, ToDecimal(r.code)) <==> OpensTunnel(site, m, i))
            && (R.Bodyless(verb, ToDecimal(r.code)) <==> HeadOnly(site, m, i))
            && (!GoesSilent(site, Meaning(m), i) ==> R.Framed(r) && (r.body == "" <==> EmptyPage(site, m, i)))
  {
    hide R.Tunnels, R.Bodyless, R.Framed, R.Filled, Meaning, ToMethod, ToDecimal, Respond;
    var a := AnswerTo(site, Meaning(m), i).value;
    CodesDecide(ToMethod(m.verb), a.code);
    AnswersAreFramed(a, site.reading(i));
  }

  lemma {:induction false} StepsAgree(site: Site, ms: seq<Message>)
    requires PagesEnd(site, Meanings(ms))
    ensures R.InStep(Verbs(ms), Answers(site, Meanings(ms))) <==> KeepsStep(site, ms)
    ensures forall i :: 0 <= i < |ms| ==> R.Framed(Answers(site, Meanings(ms))[i])
  {
    hide R.Framed, R.Tunnels, R.Bodyless, Meaning, OpensTunnel, HeadOnly, EmptyPage, ResponseTo, AnswerTo, ToDecimal;
    forall i | 0 <= i < |ms|
      ensures var r, verb := Answers(site, Meanings(ms))[i], Verbs(ms)[i];
              && R.Framed(r) && (r.body == "" <==> EmptyPage(site, ms[i], i))
              && (R.Tunnels(verb, ToDecimal(r.code)) <==> OpensTunnel(site, ms[i], i))
              && (R.Bodyless(verb, ToDecimal(r.code)) <==> HeadOnly(site, ms[i], i))
    {
      assert !GoesSilent(site, Meanings(ms)[i], i);
      ReplyFacts(site, ms[i], i);
    }
  }

  lemma {:induction false} TextsAreAnswers(site: Site, requests: seq<Request>)
    requires PagesEnd(site, requests)
    ensures Concat(TextsTo(site, requests)) == R.Texts(Answers(site, requests))
  {
    var rs := Answers(site, requests);
    forall i | 0 <= i < |requests| ensures TextsTo(site, requests)[i] == R.Text(rs[i]) {
      assert !GoesSilent(site, requests[i], i);
    }
    hide TextsTo, Answers, R.Text;
    TextsConcat(TextsTo(site, requests), rs);
  }

  lemma {:induction false} TextsConcat(texts: seq<string>, rs: seq<R.Response>)
    requires |texts| == |rs| && forall i :: 0 <= i < |rs| ==> texts[i] == R.Text(rs[i])
    ensures Concat(texts) == R.Texts(rs)
    decreases |rs|
  {
    hide R.Text;
    if rs != [] {
      assert forall i :: 0 <= i < |rs| - 1 ==> texts[1..][i] == texts[i + 1] && rs[1..][i] == rs[i + 1];
      TextsConcat(texts[1..], rs[1..]);
    }
  }

  lemma {:induction false} ClientReads(site: Site, ms: seq<Message>, left: string)
    requires PagesEnd(site, Meanings(ms))
    ensures OneReplyEach(site, ms, Concat(TextsTo(site, Meanings(ms))) + left, left) <==> KeepsStep(site, ms)
  {
    hide PagesEnd, KeepsStep, TextsTo, Verbs, Answers, Meanings, R.ReadReplies, R.Texts, R.InStep, R.Framed;
    StepsAgree(site, ms);
    TextsAreAnswers(site, Meanings(ms));
    SameLengths(site, ms);
    R.ClientKeepsStep(Verbs(ms), Answers(site, Meanings(ms)), left);
  }

  lemma SameLengths(site: Site, ms: seq<Message>)
    requires PagesEnd(site, Meanings(ms))
    ensures |Verbs(ms)| == |ms| == |Answers(site, Meanings(ms))|
  {
  }

  /** Of a reply that is to have a body, a client that got less than all of it finds nothing. */
  lemma {:induction false} NextReplyIncomplete(site: Site, m: Message, i: nat, part: string)
    requires part <= TextTo(site, Meaning(m), i) && !HeadOnly(site, m, i)
    requires GoesSilent(site, Meaning(m), i) || part != TextTo(site, Meaning(m), i)
    ensures R.ReadReply(ToMethod(m.verb), part).None?
  {
    hide Meaning, R.Bodyless, ToMethod, Respond;
    var a := AnswerTo(site, Meaning(m), i);
    if a.None? {
      NothingRead(ToMethod(m.verb));
    } else {
      var r := ResponseTo(site, Meaning(m), i);
      ReplyFacts(site, m, i);
      LengthAnnounced(a.value, site.reading(i));
      hide R.ReadReply, R.Text, R.Framed, R.Printable, HeadOnly;
      R.CutReply(ToMethod(m.verb), r, part);
    }
  }

  lemma NothingRead(verb: Method)
    ensures R.ReadReply(verb, "").None?
  {
  }

  lemma {:induction false} LengthAnnounced(a: Answer, script: seq<R.Read>)
    ensures var r := AsResponse(a, script);
            && R.Printable(r.headers) && R.ContentLength(r.headers) == Some(|a.page|)
            && (PageCopy(a.page, script).status == R.Stalls ==> |r.body| < |a.page|)
  {
    R.DecimalIsPlain(|a.page|);
  }

  /** A prefix of texts and a last one ends within one of them. */
  lemma {:induction false} EndsWithin(texts: seq<string>, last: string, bytes: string)
    returns (found: nat, part: string)
    requires bytes <= Concat(texts) + last
    ensures found <= |texts| && bytes == Concat(texts[..found]) + part
    ensures if found < |texts| then part <= texts[found] && part != texts[found] else part <= last
    ensures |bytes| >= |Concat(texts)| ==> found == |texts|
    decreases |texts|
  {
    if texts == [] {
      found, part := 0, bytes;
      assert Concat([]) + last == last && Concat(texts[..0]) + part == part;
    } else if |bytes| < |texts[0]| {
      found, part := 0, bytes;
      Associate(texts[0], Concat(texts[1..]), last);
      assert texts[..0] == [] && "" + part == part;
      assert bytes == (texts[0] + (Concat(texts[1..]) + last))[..|bytes|] == texts[0][..|bytes|];
    } else {
      Associate(texts[0], Concat(texts[1..]), last);
      var rest := bytes[|texts[0]|..];
      var more := Concat(texts[1..]) + last;
      DropCommon(texts[0], more, bytes);
      var f, p := EndsWithin(texts[1..], last, rest);
      found, part := f + 1, p;
      assert texts[..found] == [texts[0]] + texts[1..][..f];
      assert ([texts[0]] + texts[1..][..f])[1..] == texts[1..][..f];
      Associate(texts[0], Concat(texts[1..][..f]), p);
    }
  }

  lemma {:induction false} DropCommon(a: string, more: string, bytes: string)
    requires bytes <= a + more && |bytes| >= |a|
    ensures bytes == a + bytes[|a|..] && bytes[|a|..] <= more
  {
    assert bytes[..|a|] == (a + more)[..|a|] == a;
    assert bytes[|a|..] == (a + more)[..|bytes|][|a|..] == more[..|bytes| - |a|];
  }

  /** End to end: a client sends well-formed messages back to back, in any pieces, and has got some
      part, or all, of the bytes the server sends. Reading them by its methods it finds exactly one
      reply to each of its first messages, in order, and is left with part of the next, if and only if
      every HEAD, and every CONNECT answered 200, among these got an empty page, and no CONNECT before
      the last of them was answered 200. The next reply, if it is to have a body, is incomplete. When
      all is sent these are the messages before the first whose body came late or whose answer never
      ends; a page that breaks off is padded to its length and keeps the client in step. */
  lemma {:induction false} EndToEnd(site: Site, ms: seq<Message>, s: Stream, bytes: string)
    returns (found: nat, part: string)
    requires s.Good() && s.Visible() == Wires(ms)
    requires forall i :: 0 <= i < |ms| ==> WellFormed(ms[i])
    requires bytes <= AllSent(site, Serve(s).requests)
    ensures var answered := ms[..Arrived(s.area, s.pending, 0, ms)];
            var k := FirstSilent(site, Meanings(answered));
            && found <= k && PagesEnd(site, Meanings(answered[..found]))
            && (OneReplyEach(site, answered[..found], bytes, part) <==> KeepsStep(site, answered[..found]))
            && (|bytes| >= |Concat(TextsTo(site, Meanings(answered)[..k]))| ==> found == k)
            && (if found < |answered|
                then
                  && part <= TextTo(site, Meaning(answered[found]), found)
                  && (!HeadOnly(site, answered[found], found) ==>
                       R.ReadReply(ToMethod(answered[found].verb), part).None?)
                else part == "")
  {
    hide Serve, WellFormed, Wires, Arrived, Meaning, Meanings, FirstSilent, TextTo, TextsTo, PagesEnd, GoesSilent,
      OneReplyEach, KeepsStep, HeadOnly, R.ReadReply, Concat;
    Pipelining(s, ms);
    found, part := AnsweredPart(site, ms[..Arrived(s.area, s.pending, 0, ms)], bytes);
  }

  lemma {:induction false} AnsweredPart(site: Site, ms: seq<Message>, bytes: string) returns (found: nat, part: string)
    requires bytes <= AllSent(site, Meanings(ms))
    ensures var k := FirstSilent(site, Meanings(ms));
            && found <= k && PagesEnd(site, Meanings(ms[..found]))
            && (OneReplyEach(site, ms[..found], bytes, part) <==> KeepsStep(site, ms[..found]))
            && (|bytes| >= |Concat(TextsTo(site, Meanings(ms)[..k]))| ==> found == k)
            && (if found < |ms|
                then
                  && part <= TextTo(site, Meaning(ms[found]), found)
                  && (!HeadOnly(site, ms[found], found) ==> R.ReadReply(ToMethod(ms[found].verb), part).None?)
                else part == "")
  {
    hide Meaning, TextTo, GoesSilent, OneReplyEach, KeepsStep, HeadOnly, R.ReadReply, Concat, FirstSilent;
    var requests := Meanings(ms);
    var k := FirstSilent(site, requests);
    var texts := TextsTo(site, requests[..k]);
    found, part := EndsWithin(texts, LastText(site, requests), bytes);
    assert Meanings(ms[..found]) == requests[..found];
    assert requests[..found] == requests[..k][..found];
    assert texts[..found] == TextsTo(site, requests[..found]);
    assert PagesEnd(site, requests[..found]) by {
      assert forall i :: 0 <= i < found ==> requests[..k][i] == requests[..found][i];
    }
    ClientReads(site, ms[..found], part);
    if found < |ms| {
      assert found < k ==> texts[found] == TextTo(site, requests[found], found);
      if !HeadOnly(site, ms[found], found) {
        NextReplyIncomplete(site, ms[found], found, part);
      }
    }
  }

  // ----- the loop itself

  lemma {:induction false} OneHeader(hs: seq<Entry>, n: nat)
    requires Lists(hs, map["Content-Length" := LengthHeader(n).value])
    ensures hs == [LengthHeader(n)]
  {
    var m := map["Content-Length" := LengthHeader(n).value];
    assert "Content-Length" in m && forall k :: k in m ==> k == "Content-Length";
    assert forall j :: 0 <= j < |hs| ==> hs[j].key in m;
    var i :| 0 <= i < |hs| && hs[i].key == "Content-Length";
    forall j | 0 <= j < |hs| ensures hs[j].key == hs[i].key && j == i {
      assert hs[j].key in m && hs[i].key == hs[j].key;
    }
    assert hs[0].key == hs[i].key && hs[|hs| - 1].key == hs[i].key;
    assert |hs| == 1 && hs[0].value == m[hs[0].key];
  }

  /** Sending one answer: its response is written and flushed, whatever the calls to send accept.
      stalled: the program is still copying a page that went silent. */
  method SendAnswer(out: OutputStream, answer: Answer, script: seq<R.Read>, scratch: array<char>)
    returns (stalled: bool)
    requires out.Valid() && scratch.Length == R.BLOCK && scratch != out.data
    modifies out, out.data, scratch
    ensures out.Valid() && stalled == (PageCopy(answer.page, script).status == R.Stalls && !out.bad)
    ensures var written := Puts(old(out.State()), R.Text(AsResponse(answer, script)));
            out.State() == if PageCopy(answer.page, script).status == R.Stalls then written else Synced(written)
  {
    hide Puts, Synced, R.CopyBody, R.Filled, R.Delivered, R.Ends, Lists, R.Printed;
    var body := new BodyStream(script, Some(|answer.page|));
    var res := new Responsor.HttpResponse(answer.version, answer.code, body);
    R.CopyBodyClosedForm(body.State(), |answer.page|, scratch[..]);
    var status, hs := WriteResponse(out, res, scratch);
    OneHeader(hs, |answer.page|);
    stalled := status == R.Stalls;
  }

  /** Answering the i-th request. stalled: the program never comes back from it. */
  method AnswerRequest(out: OutputStream, site: Site, request: Request, i: nat, scratch: array<char>)
    returns (stalled: bool)
    requires out.Valid() && scratch.Length == R.BLOCK && scratch != out.data
    modifies out, out.data, scratch
    ensures out.Valid()
    ensures stalled == (GoesSilent(site, request, i) && (!out.bad || AnswerTo(site, request, i).None?))
    ensures var written := Puts(old(out.State()), TextTo(site, request, i));
            out.State() == if GoesSilent(site, request, i) then written else Synced(written)
  {
    hide Puts, Synced, R.Text;
    var answer := Respond(site.router, site.accesses(i), request);
    if answer.None? {
      PutsNothing(out.State());
      return true; // the access never returns
    }
    stalled := SendAnswer(out, answer.value, site.reading(i), scratch);
  }

  lemma {:induction false} BadStaysBad(o: Output, text: string)
    requires o.Sound()
    ensures Puts(o, text).bad ==> Synced(Puts(o, text)) == Puts(o, text)
    ensures o.bad ==> Puts(o, text) == o && Synced(Puts(o, text)) == o
  {
    if o.bad {
      PutsOnBad(o, text);
    }
  }

  /** One answer of the loop: the output moves on to everything answered and one more. Once an answer
      that goes silent was passed, because the output had failed, nothing changes the output. */
  method AnswerNext(out: OutputStream, site: Site, requests: seq<Request>, request: Request, scratch: array<char>,
                    ghost start: Output)
    returns (stalled: bool)
    requires out.Valid() && scratch.Length == R.BLOCK && scratch != out.data && start.Sound()
    requires out.State() == OutputFor(start, site, requests)
    requires FirstSilent(site, requests) < |requests| ==> out.bad
    modifies out, out.data, scratch
    ensures out.Valid() && out.State() == OutputFor(start, site, requests + [request])
    ensures stalled || out.bad || FirstSilent(site, requests + [request]) == |requests| + 1
    ensures stalled ==> FirstSilent(site, requests + [request]) <= |requests|
    ensures stalled && !out.bad ==> FirstSilent(site, requests + [request]) == |requests|
  {
    hide Puts, Synced, TextTo, GoesSilent, OutputFor, FirstSilent, AnswerTo, Respond;
    ghost var text := TextTo(site, request, |requests|);
    BadStaysBad(out.State(), text);
    SilentOneMore(site, requests, request);
    if FirstSilent(site, requests) < |requests| {
      OutputStays(start, site, requests, [request]);
    } else {
      OutputOneMore(start, site, requests, request);
    }
    stalled := AnswerRequest(out, site, request, |requests|, scratch);
  }

  /** handle: the requests the stream holds are answered in order, each exactly once, and the output is
      left as by writing and flushing exactly their responses, whatever the calls to send accept, up
      to the first answer that never ends. Unless the output failed, that one keeps the loop from the
      rest. */
  method Handle(input: InputStream, out: OutputStream, site: Site, scratch: array<char>)
    returns (requests: seq<Request>, ending: Ending)
    requires out.Valid() && scratch.Length == R.BLOCK && scratch != out.data && input.State().Good()
    modifies input, out, out.data, scratch
    ensures out.Valid() && out.State() == OutputFor(old(out.State()), site, Serve(old(input.State())).requests)
    ensures var all := Serve(old(input.State()));
            var k := FirstSilent(site, all.requests);
            && requests <= all.requests
            && (!out.bad ==>
                 requests == all.requests[..k] && ending == if k < |all.requests| then Stuck else all.ending)
  {
    hide Serve, GetOneHttpRequest, OutputFor, FirstSilent, GoesSilent, AnswerTo;
    requests := [];
    ghost var start, all := out.State(), Serve(input.State());
    assert all == After(requests, all);
    NothingSent(start, site);
    while !input.eof
      invariant out.Valid() && (input.fail ==> input.eof)
      invariant all == After(requests, Serve(input.State()))
      invariant out.State() == OutputFor(start, site, requests)
      invariant FirstSilent(site, requests) < |requests| ==> out.bad
      decreases !input.eof, Left(input.State())
    {
      ServeStep(input.State(), requests);
      var status, request := A.Analyse(input);
      if status == Throws || status == Hangs {
        assert requests[..|requests|] == requests;
        return requests, if status == Throws then Thrown else Stuck;
      }
      if status == Ok {
        var stalled := AnswerNext(out, site, requests, request, scratch, start);
        if stalled {
          ghost var more := Serve(input.State()).requests;
          NextOf(requests, request, Serve(input.State()));
          OutputStays(start, site, requests + [request], more);
          SilentStays(site, requests + [request], more);
          return requests, Stuck; // the program is still in this answer
        }
        requests := requests + [request];
      }
    }
    ServeAtEof(input.State());
    assert requests + [] == requests && requests[..|requests|] == requests;
    ending := Done;
  }

  lemma NothingSent(o: Output, site: Site)
    requires o.Sound()
    ensures OutputFor(o, site, []) == o && FirstSilent(site, []) == 0
  {
    PutsNothing(o);
  }

  lemma {:induction false} NextOf(requests: seq<Request>, request: Request, more: Served)
    ensures var all := After(requests + [request], more).requests;
            && requests <= all && all[..|requests|] == requests && |requests| < |all|
            && all == (requests + [request]) + more.requests
  {
  }

  /** The whole path, as run: from the pieces the client's bytes arrive in to the bytes on the wire when
      the loop is over, or stuck. If each flush has its first send take all it is offered, up to a send
      that fails, a client finds its first replies, in order and nothing else, exactly when its methods
      keep it in step; unless a send failed, these are all replies before an answer that never ends. */
  method ServeClient(chunks: seq<string>, sends: seq<nat>, site: Site, ghost ms: seq<Message>)
    returns (wire: string, failed: bool, ghost found: nat, ghost part: string)
    requires Reachable(chunks) == Wires(ms) && forall i :: 0 <= i < |ms| ==> WellFormed(ms[i])
    ensures
      var answered := ms[..Arrived("", chunks, 0, ms)];
      var k := FirstSilent(site, Meanings(answered));
      var texts := TextsTo(site, Meanings(answered)[..k]);
      SendsWhole(SizesWith(Lengths(texts), |LastText(site, Meanings(answered))|), sends) ==>
        && found <= k && (!failed ==> found == k) && PagesEnd(site, Meanings(answered[..found]))
        && (OneReplyEach(site, answered[..found], wire, part) <==> KeepsStep(site, answered[..found]))
        && (if found < |answered|
            then
              && part <= TextTo(site, Meaning(answered[found]), found)
              && (!HeadOnly(site, answered[found], found) ==>
                   R.ReadReply(ToMethod(answered[found].verb), part).None?)
            else part == "")
  {
    hide Serve, WellFormed, Wires, Arrived, Meaning, Meanings, FirstSilent, TextTo, TextsTo, PagesEnd, GoesSilent,
      OneReplyEach, KeepsStep, HeadOnly, R.ReadReply, Concat, Puts, Sent, SendsWhole, SizesWith, Lengths, LastText;
    var input := new InputStream(chunks);
    var out := new OutputStream(sends);
    var scratch := new char[R.BLOCK](_ => ' ');
    ghost var s := input.State();
    assert s.Visible() == "" + Reachable(chunks) == Wires(ms);
    Pipelining(s, ms);
    var _, _ := Handle(input, out, site, scratch);
    wire, failed := out.wire, out.bad;
    ghost var requests := Meanings(ms[..Arrived("", chunks, 0, ms)]);
    ghost var texts := TextsTo(site, requests[..FirstSilent(site, requests)]);
    if SendsWhole(SizesWith(Lengths(texts), |LastText(site, requests)|), sends) {
      WholeSendsSuffice(texts, LastText(site, requests), sends);
      PrefixOf(out.State().wire, out.State().buffer);
      found, part := EndToEnd(site, ms, s, wire);
    } else {
      found, part := 0, "";
    }
  }

  lemma ServeAtEof(s: Stream)
    requires s.eof
    ensures Serve(s) == Served([], Done)
  {
  }

  ghost function After(requests: seq<Request>, served: Served): Served {
    served.(requests := requests + served.requests)
  }

  lemma {:induction false} ServeStep(s: Stream, requests: seq<Request>)
    requires s.Good()
    ensures
      var p := GetOneHttpRequest(s);
      After(requests, Serve(s)) ==
        match p.status
        case Throws => Served(requests, Thrown)
        case Hangs => Served(requests, Stuck)
        case Failed(_) => After(requests, Serve(p.stream))
        case Ok => After(requests + [p.request], Serve(p.stream))
  {
    hide GetOneHttpRequest;
    var p := GetOneHttpRequest(s);
    var more := Serve(p.stream).requests;
    assert requests + [] == requests;
    assert requests + ([p.request] + more) == (requests + [p.request]) + more;
  }
}
