/** HttpResponsor as the program runs it: the choice of status and page, and the printing of a
    response onto an output stream. */
module Responsor {
  import opened Wrappers
  import opened Decimal
  import opened HttpConfig
  import opened SocketOutput
  import opened HttpRequest
  import opened CacheAside
  import R = HttpResponse

  // ----- which response a request gets

  /** Static routes only: uri to path, and status code to error page path. */
  datatype Router = Router(pages: map<string, string>, errors: map<nat, string>)

  datatype Answer = Answer(version: Version, code: nat, page: string)

  function DefaultErrorPage(code: nat): string {
    var info := ToDecimal(code) + " " + StatusDetail(code);
    "<html><head><title>" + info + "</title></head><body><h1>" + info + "</h1></body></html>"
  }

  /** What the accessor gives for the routed page and for the error page, where it is asked for them. */
  datatype Accesses = Accesses(page: Result, fallback: Result)

  function ErrorAnswer(router: Router, got: Accesses, version: Version, code: nat): Option<Answer> {
    if code !in router.errors then Some(Answer(version, code, DefaultErrorPage(code)))
    else
      match got.fallback
      case Page(bytes) => Some(Answer(version, code, bytes))
      case NeverReturns => None
      case _ => Some(Answer(version, code, DefaultErrorPage(code)))
  }

  /** getResponseFromRequest: an unknown version outranks an unknown method, which outranks the route;
      a page is the routed one, or else the error page, or else the default. None: an access that was
      needed never returns. */
  function Respond(router: Router, got: Accesses, request: Request): (r: Option<Answer>)
    ensures
      var known := request.version != UNKNOWN_HTTP_VERSION && request.verb != UNKNOWN_REQUEST_METHOD;
      var routed := known && request.uri in router.pages;
      var code := if request.version == UNKNOWN_HTTP_VERSION then 505 else if !known then 501
                  else if !routed then 404 else 500;
      r.None? <==> if routed && (got.page.Page? || got.page == NeverReturns) then got.page == NeverReturns
                   else code in router.errors && got.fallback == NeverReturns
    ensures r.Some? ==>
      var a := r.value;
      && a.version == (if request.version == UNKNOWN_HTTP_VERSION then HTTP_1_0 else request.version)
      && (a.code == 505 <==> request.version == UNKNOWN_HTTP_VERSION)
      && (a.code == 501 <==> a.code != 505 && request.verb == UNKNOWN_REQUEST_METHOD)
      && (a.code == 404 <==> a.code !in {501, 505} && request.uri !in router.pages)
      && (a.code == 500 <==> a.code !in {404, 501, 505} && !got.page.Page?)
      && a.code in {200, 404, 500, 501, 505}
      && (a.code == 200 ==> a.page == got.page.bytes)
      && (a.code != 200 ==> a.page == if a.code in router.errors && got.fallback.Page? then got.fallback.bytes
                                      else DefaultErrorPage(a.code))
  {
    if request.version == UNKNOWN_HTTP_VERSION then ErrorAnswer(router, got, HTTP_1_0, 505)
    else if request.verb == UNKNOWN_REQUEST_METHOD then ErrorAnswer(router, got, request.version, 501)
    else if request.uri !in router.pages then ErrorAnswer(router, got, request.version, 404)
    else
      match got.page
      case Page(bytes) => Some(Answer(request.version, 200, bytes))
      case NeverReturns => None
      case _ => ErrorAnswer(router, got, request.version, 500)
  }

  /** Answered from files, a routed request gets its file, and 500 exactly when there is none. With the
      cached accessor, whose result differs from the file's only where a read fails, that read gives
      500 too. */
  lemma {:induction false} RespondFromFiles(router: Router, files: Files, got: Accesses, request: Request)
    requires got.fallback != NeverReturns && request.uri in router.pages
    requires got.page == AccessFile(files, router.pages[request.uri]) || got.page == FILE_READ_ABORT
    ensures var r := Respond(router, got, request);
            && r.Some?
            && (r.value.code !in {501, 505} ==>
                 if got.page == FILE_READ_ABORT || router.pages[request.uri] !in files then r.value.code == 500
                 else r.value.code == 200 && r.value.page == files[router.pages[request.uri]])
  {
  }

  /** The one header `response` sets. */
  function LengthHeader(n: nat): Entry { Entry("Content-Length", ToDecimal(n)) }

  /** The bytes copied of a page whose reads go by script, and how the copy ends. */
  function PageCopy(page: string, script: seq<R.Read>): (c: R.Copied)
    ensures c.status != R.Stalls ==> |c.text| == |page|
  {
    R.Filled(R.Delivered(script), R.Ends(script), |page|)
  }

  /** The response to an answer whose page is read by script: its length is announced before it is read. */
  function AsResponse(a: Answer, script: seq<R.Read>): R.Response {
    R.Response(a.version, a.code, [LengthHeader(|a.page|)], PageCopy(a.page, script).text)
  }

  /** Unless the page goes silent, the response is framed by its length, however badly the page reads;
      and a page that reads back whole is sent as it is. */
  lemma {:induction false} AnswersAreFramed(a: Answer, script: seq<R.Read>)
    ensures PageCopy(a.page, script).status != R.Stalls ==> R.Framed(AsResponse(a, script))
    ensures a.page <= R.Delivered(script) ==>
              AsResponse(a, script).body == a.page && PageCopy(a.page, script).status == R.Ok
  {
    R.DecimalIsPlain(|a.page|);
    assert R.ContentLength([LengthHeader(|a.page|)]) == Some(|a.page|);
  }

  lemma {:induction false} ThreeDigits(a: nat, b: nat, c: nat)
    requires 0 < a < 10 && b < 10 && c < 10
    ensures ToDecimal(100 * a + 10 * b + c) ==
            [('0' as int + a) as char, ('0' as int + b) as char, ('0' as int + c) as char]
  {
    var n := 100 * a + 10 * b + c;
    assert n / 10 == 10 * a + b && n % 10 == c;
    assert (10 * a + b) / 10 == a && (10 * a + b) % 10 == b;
    assert ToDecimal(a) == [('0' as int + a) as char];
    assert ToDecimal(10 * a + b) == [('0' as int + a) as char, ('0' as int + b) as char];
  }

  /** The status codes the server sends, as printed. */
  lemma {:induction false} CodesExactly(code: nat)
    requires code in {200, 404, 500, 501, 505}
    ensures ToDecimal(code) == match code
                               case 200 => "200"
                               case 404 => "404"
                               case 500 => "500"
                               case 501 => "501"
                               case _ => "505"
  {
    hide ToDecimal;
    ThreeDigits(2, 0, 0);
    ThreeDigits(4, 0, 4);
    ThreeDigits(5, 0, 0);
    ThreeDigits(5, 0, 1);
    ThreeDigits(5, 0, 5);
  }

  /** Code and detail a client finds in the reply, for every status the server sends. */
  lemma {:induction false} RepliesExactly(a: Answer, script: seq<R.Read>)
    requires a.code in {200, 404, 500, 501, 505}
    ensures var reply := R.ReplyOf(AsResponse(a, script));
            (reply.code, reply.detail) == match a.code
                                          case 200 => ("200", "OK")
                                          case 404 => ("404", "Not Found")
                                          case 500 => ("500", "Internal Server Error")
                                          case 501 => ("501", "Not Implemented")
                                          case _ => ("505", "HTTP Version not supported")
  {
    hide ToDecimal, StatusDetail;
    CodesExactly(a.code);
    DetailsExactly(a.code);
  }

  /** The bytes of every response: status line, one header, blank line, page. */
  lemma {:induction false} ResponseExactly(a: Answer, script: seq<R.Read>)
    requires a.version != UNKNOWN_HTTP_VERSION
    ensures
      var version := if a.version == HTTP_1_0 then "HTTP/1.0" else "HTTP/1.1";
      R.Text(AsResponse(a, script)) ==
      version + " " + ToDecimal(a.code) + " " + StatusDetail(a.code) + "\n" +
      "Content-Length: " + ToDecimal(|a.page|) + "\n" +
      "\n" + PageCopy(a.page, script).text
  {
    hide ToDecimal, StatusDetail, PageCopy;
    var h := LengthHeader(|a.page|);
    assert R.HeadText([h]) == R.HeaderText(h) + "" == R.HeaderText(h);
    TextParts(VersionText(a.version), ToDecimal(a.code), StatusDetail(a.code), ToDecimal(|a.page|),
              PageCopy(a.page, script).text);
  }

  lemma {:induction false} TextParts(version: string, code: string, detail: string, n: string, body: string)
    ensures
      version + (" " + (code + (" " + detail))) + "\n" + (("Content-Length" + ": " + n + "\n") + ("\n" + body)) ==
      version + " " + code + " " + detail + "\n" + "Content-Length: " + n + "\n" + "\n" + body
  {
    assert "Content-Length" + ": " == "Content-Length: ";
  }

  /** The page sent when there is no error page. */
  lemma {:induction false} DefaultPageExactly(code: nat)
    ensures var info := ToDecimal(code) + " " + StatusDetail(code);
            && "<html><head><title>" + info <= DefaultErrorPage(code)
            && DefaultErrorPage(code)[19 + |info|..] == "</title></head><body><h1>" + info + "</h1></body></html>"
  {
    var info := ToDecimal(code) + " " + StatusDetail(code);
    hide ToDecimal, StatusDetail;
    var rest := "</title></head><body><h1>" + info + "</h1></body></html>";
    assert DefaultErrorPage(code) == ("<html><head><title>" + info) + rest;
  }

  // ----- printing it

  class BodyStream {
    var script: seq<R.Read>
    var eof: bool
    var fail: bool
    const length: Option<nat> // tellg at the end; None when the stream cannot tell

    function State(): R.Body
      reads this
    {
      R.Body(script, eof, fail)
    }

    constructor (script: seq<R.Read>, length: Option<nat>)
      ensures State() == R.Body(script, false, false) && this.length == length
    {
      this.script, this.length, eof, fail := script, length, false, false;
    }

    method ReadAvailable(n: nat) returns (text: string)
      modifies this
      ensures (text, State()) == R.ReadSome(old(State()), n)
    {
      var (t, b) := R.ReadSome(State(), n);
      text, script, eof, fail := t, b.script, b.eof, b.fail;
    }
  }

  method Overwrite(scratch: array<char>, text: string)
    requires |text| <= scratch.Length
    modifies scratch
    ensures scratch[..] == text + old(scratch[..])[|text|..]
  {
    forall i | 0 <= i < |text| {
      scratch[i] := text[i];
    }
  }

  /** The reading half of a round of the copy loop. */
  method Fetch(body: BodyStream, want: nat, scratch: array<char>) returns (text: string)
    requires want <= scratch.Length
    modifies body, scratch
    ensures (text, body.State()) == R.Fetched(old(body.State()), want, old(scratch[..]))
    ensures |text| <= scratch.Length && scratch[..] == text + old(scratch[..])[|text|..]
  {
    if body.fail {
      text := scratch[..want];
    } else {
      text := body.ReadAvailable(want);
      Overwrite(scratch, text);
    }
  }

  lemma {:induction false} CopyUnfolds(b: R.Body, rest: nat, scratch: string, status: R.Status)
    requires |scratch| == R.BLOCK && rest > 0
    ensures
      var (text, b') := R.Fetched(b, Min(rest, R.BLOCK), scratch);
      var padding := rest > |text| && b'.fail;
      if text == "" && b' == b then R.CopyBody(b, rest, scratch, status) == R.Copied("", R.Stalls)
      else
        && R.CopyBody(b, rest, scratch, status) ==
           R.Prepend(text, R.CopyBody(b', rest - |text|, if padding then R.Zeros(R.BLOCK) else text + scratch[|text|..],
                                      if padding then R.GEN_RESPONSE_BODY_FAILED else status))
        && (text != "" || |b'.script| < |b.script| || (b'.script == b.script && b'.fail && !b.fail))
  {
  }

  /** One round: read, write, and set up zero padding if the body has failed short of its length. */
  method CopyRound(out: OutputStream, body: BodyStream, rest: nat, scratch: array<char>, status: R.Status)
    returns (text: string, next: R.Status, stalled: bool)
    requires out.Valid() && scratch.Length == R.BLOCK && scratch != out.data && rest > 0
    modifies out, out.data, body, scratch
    ensures out.Valid() && out.State() == Puts(old(out.State()), text) && |text| <= rest
    ensures
      var before, after := old(body.State()), body.State();
      if stalled then text == "" && R.CopyBody(before, rest, old(scratch[..]), status) == R.Copied("", R.Stalls)
      else
        && R.CopyBody(before, rest, old(scratch[..]), status) ==
           R.Prepend(text, R.CopyBody(after, rest - |text|, scratch[..], next))
        && (|| text != "" || |after.script| < |before.script|
            || (after.script == before.script && after.fail && !before.fail))
  {
    CopyUnfolds(body.State(), rest, scratch[..], status);
    hide Puts, R.CopyBody, R.Fetched;
    var before := body.State();
    text := Fetch(body, Min(rest, R.BLOCK), scratch);
    out.Write(text);
    stalled := text == "" && body.State() == before;
    var padding := rest > |text| && body.fail;
    next := if padding then R.GEN_RESPONSE_BODY_FAILED else status;
    if padding {
      Overwrite(scratch, R.Zeros(R.BLOCK));
      assert scratch[..] == R.Zeros(R.BLOCK);
    }
  }

  /** The copy loop writes what CopyBody says; a failing output breaks it off, with its own error. */
  method GenResponseBody(out: OutputStream, body: BodyStream, length: nat, scratch: array<char>)
    returns (status: R.Status)
    requires out.Valid() && scratch.Length == R.BLOCK && scratch != out.data
    modifies out, out.data, body, scratch
    ensures out.Valid()
    ensures
      var c := R.CopyBody(old(body.State()), length, old(scratch[..]), R.Ok);
      && out.State() == Puts(old(out.State()), c.text)
      && status == if out.bad && length > 0 then R.GEN_RESPONSE_BODY_FAILED else c.status
  {
    hide R.CopyBody, Puts;
    status := R.Ok;
    var rest: nat := length;
    ghost var start, written := out.State(), "";
    ghost var all := R.CopyBody(body.State(), length, scratch[..], R.Ok);
    assert written + all.text == all.text;
    PutsNothing(start);
    while rest > 0
      invariant out.Valid() && out.State() == Puts(start, written) && (out.bad && length > 0 ==> rest == length)
      invariant all == R.Prepend(written, R.CopyBody(body.State(), rest, scratch[..], status))
      decreases rest, |body.script|, !body.fail
    {
      var text, next, stalled := CopyRound(out, body, rest, scratch, status);
      ghost var more := if stalled then R.Copied("", R.Stalls)
                        else R.CopyBody(body.State(), rest - |text|, scratch[..], next);
      PutsAppend(start, written, text);
      PrependTwice(written, text, more);
      if out.bad {
        PutsPastBad(start, written + text, more.text);
        return R.GEN_RESPONSE_BODY_FAILED;
      }
      if stalled {
        assert (written + "") + "" == written && written + "" == written;
        return R.Stalls; // the program repeats this round for ever
      }
      rest, status, written := rest - |text|, next, written + text;
    }
    R.CopyNothing(body.State(), scratch[..], status);
    assert written + "" == written;
  }

  lemma PrependTwice(s: string, t: string, c: R.Copied)
    ensures R.Prepend(s, R.Prepend(t, c)) == R.Prepend(s + t, c)
  {
    assert s + (t + c.text) == (s + t) + c.text;
  }

  class HttpResponse {
    var version: Version
    var code: nat
    var header: map<string, string>
    const body: BodyStream

    constructor (version: Version, code: nat, body: BodyStream)
      ensures this.version == version && this.code == code && this.header == map[] && this.body == body
    {
      this.version, this.code, this.header, this.body := version, code, map[], body;
    }
  }

  lemma {:induction false} HeadTextAppend(hs: seq<Entry>, h: Entry)
    ensures R.HeadText(hs + [h]) == R.HeadText(hs) + R.HeaderText(h)
  {
    HeadTextConcat(hs, [h]);
    assert R.HeaderText(h) + "" == R.HeaderText(h);
  }

  /** The header map in whatever order its iteration gives; broken off when the output fails, after
      which nothing written counts. */
  method GenResponseHead(out: OutputStream, header: map<string, string>)
    returns (status: R.Status, ghost hs: seq<Entry>)
    requires out.Valid()
    modifies out, out.data
    ensures out.Valid() && Lists(hs, header) && out.State() == Puts(old(out.State()), R.HeadText(hs))
    ensures status == if out.bad && header != map[] then R.GEN_RESPONSE_HEAD_FAILED else R.Ok
  {
    status, hs := R.Ok, [];
    var todo := header.Keys;
    ghost var start := out.State();
    PutsNothing(start);
    ListsNothing(header);
    assert header == map[] <==> todo == {};
    hide Lists, R.HeadText, Puts;
    while todo != {}
      invariant out.Valid() && out.State() == Puts(start, R.HeadText(hs)) && (out.bad ==> todo == header.Keys)
      invariant todo <= header.Keys && Lists(hs, header - todo)
      decreases |todo|
    {
      var key :| key in todo;
      var h := Entry(key, header[key]);
      out.Write(R.HeaderText(h));
      ghost var done := R.HeadText(hs);
      HeadTextAppend(hs, h);
      PutsAppend(start, done, R.HeaderText(h));
      ListsOneMore(hs, header, todo, key);
      hs, todo := hs + [h], todo - {key};
      if out.bad {
        ghost var more := ListRest(hs, header, todo);
        HeadTextConcat(hs, more);
        PutsPastBad(start, R.HeadText(hs), R.HeadText(more));
        return R.GEN_RESPONSE_HEAD_FAILED, hs + more;
      }
    }
    assert header - todo == header;
  }

  lemma {:induction false} HeadTextConcat(hs: seq<Entry>, more: seq<Entry>)
    ensures R.HeadText(hs + more) == R.HeadText(hs) + R.HeadText(more)
  {
    if hs == [] {
      assert hs + more == more;
    } else {
      assert (hs + more)[1..] == hs[1..] + more;
      HeadTextConcat(hs[1..], more);
      Associate(R.HeaderText(hs[0]), R.HeadText(hs[1..]), R.HeadText(more));
    }
  }

  lemma {:induction false} ListRest(hs: seq<Entry>, header: map<string, string>, todo: set<string>)
    returns (more: seq<Entry>)
    requires todo <= header.Keys && Lists(hs, header - todo)
    ensures Lists(hs + more, header)
    decreases |todo|
  {
    if todo == {} {
      more := [];
      assert hs + more == hs && header - todo == header;
    } else {
      var key :| key in todo;
      var h := Entry(key, header[key]);
      ListsOneMore(hs, header, todo, key);
      var rest := ListRest(hs + [h], header, todo - {key});
      more := [h] + rest;
      Associate(hs, [h], rest);
    }
  }

  lemma ListsNothing(header: map<string, string>)
    ensures Lists([], header - header.Keys)
  {
  }

  lemma ListsOneMore(hs: seq<Entry>, header: map<string, string>, todo: set<string>, key: string)
    requires todo <= header.Keys && key in todo && Lists(hs, header - todo)
    ensures Lists(hs + [Entry(key, header[key])], header - (todo - {key}))
  {
    var more := hs + [Entry(key, header[key])];
    assert more[|hs|].key == key;
    assert forall i :: 0 <= i < |hs| ==> more[i] == hs[i] && hs[i].key != key;
    forall k | k in header - (todo - {key}) ensures exists i :: 0 <= i < |more| && more[i].key == k {
      if k != key {
        assert k in header - todo;
        var i :| 0 <= i < |hs| && hs[i].key == k;
        assert more[i].key == k;
      }
    }
  }

  /** What `response` reports: the part of the response during which the output failed, if it did, or else
      how the copy of the body ended. A final flush that fails is not reported. */
  ghost function SendStatus(o: Output, line: string, head: string, n: nat, c: R.Copied): R.Status
    requires o.Sound()
  {
    if Puts(o, line).bad then R.GEN_RESPONSE_LINE_FAILED
    else if Puts(o, line + head).bad then R.GEN_RESPONSE_HEAD_FAILED
    else if Puts(o, line + head + "\n").bad then R.GEN_RESPONSE_BODY_FAILED
    else if n > 0 && Puts(o, line + head + "\n" + c.text).bad then R.GEN_RESPONSE_BODY_FAILED
    else c.status
  }

  /** `response`: status line, Content-Length from the stream's own length, head, blank line, body, and
      a flush. Whatever the calls to send accept, the output is left as by writing the printed
      response and flushing, or as by writing it alone if the body goes silent, for then the copy never
      ends; hs is the order its headers came in. */
  method WriteResponse(out: OutputStream, res: HttpResponse, scratch: array<char>)
    returns (status: R.Status, ghost hs: seq<Entry>)
    requires out.Valid() && scratch.Length == R.BLOCK && scratch != out.data
    modifies out, out.data, res`header, res.body, scratch
    ensures out.Valid()
    ensures res.body.length.Some? ==>
      var n := res.body.length.value;
      var c := R.CopyBody(old(res.body.State()), n, old(scratch[..]), R.Ok);
      var header := old(res.header)["Content-Length" := ToDecimal(n)];
      var written := Puts(old(out.State()), R.Printed(res.version, res.code, hs, c.text));
      && Lists(hs, header)
      && out.State() == (if c.status == R.Stalls then written else Synced(written))
      && status == SendStatus(old(out.State()), R.StatusLine(res.version, res.code) + "\n", R.HeadText(hs), n, c)
      && (out.bad || res.header == header) && (status == R.Stalls <==> c.status == R.Stalls && !out.bad)
    ensures res.body.length.None? ==>
      && res.header == old(res.header)
      && var line := R.StatusLine(res.version, res.code) + "\n";
         && out.State() == Synced(Puts(old(out.State()), line))
         && status == if Puts(old(out.State()), line).bad then R.GEN_RESPONSE_LINE_FAILED else R.INVALID_CONTENT_LENGTH
  {
    hide Puts, Synced, R.CopyBody, R.HeadText, R.StatusLine, Lists;
    ghost var start := out.State();
    var line := R.StatusLine(res.version, res.code) + "\n";
    out.Write(line);
    if out.bad {
      status := R.GEN_RESPONSE_LINE_FAILED;
      hs := AnyListing(if res.body.length.None? then res.header
                       else res.header["Content-Length" := ToDecimal(res.body.length.value)]);
      if res.body.length.Some? {
        ghost var text := R.CopyBody(res.body.State(), res.body.length.value, scratch[..], R.Ok).text;
        PutsPastBad(start, line, R.HeadText(hs) + ("\n" + text));
      }
    } else if res.body.length.None? {
      status, hs := R.INVALID_CONTENT_LENGTH, [];
    } else {
      var n := res.body.length.value;
      res.header := res.header["Content-Length" := ToDecimal(n)];
      ghost var text := R.CopyBody(res.body.State(), n, scratch[..], R.Ok).text;
      assert "Content-Length" in res.header;
      status, hs := GenResponseHead(out, res.header);
      PutsAppend(start, line, R.HeadText(hs));
      if out.bad {
        PutsPastBad(start, line + R.HeadText(hs), "\n" + text);
      } else {
        out.Write("\n");
        PutsAppend(start, line + R.HeadText(hs), "\n");
        if out.bad {
          status := R.GEN_RESPONSE_BODY_FAILED;
          PutsPastBad(start, line + R.HeadText(hs) + "\n", text);
        } else {
          R.CopyNothing(res.body.State(), scratch[..], R.Ok);
          status := GenResponseBody(out, res.body, n, scratch);
          PutsAppend(start, line + R.HeadText(hs) + "\n", text);
        }
      }
      Reassociate(line, R.HeadText(hs), text);
      if status == R.Stalls {
        return; // the copy never ends, so nothing is flushed
      }
    }
    ghost var before := out.State();
    out.Sync();
    StaysBad(before);
  }

  lemma StaysBad(o: Output)
    requires o.Sound()
    ensures o.bad ==> Synced(o) == o
  {
  }

  lemma {:induction false} AnyListing(header: map<string, string>) returns (hs: seq<Entry>)
    ensures Lists(hs, header)
  {
    ListsNothing(header);
    hs := ListRest([], header, header.Keys);
    assert [] + hs == hs;
  }

  lemma Reassociate(line: string, head: string, body: string)
    ensures line + head + "\n" + body == line + (head + ("\n" + body))
    ensures line + head + ("\n" + body) == line + (head + ("\n" + body))
  {
  }
}
