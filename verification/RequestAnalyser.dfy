/** The analyser as the program runs it: loops over an input stream object, filling a builder. */
module RequestAnalyser {
  import opened Wrappers
  import opened HttpConfig
  import opened SocketInput
  import opened HttpRequest

  class HttpRequestBuilder {
    var verb: Method
    var uri: string
    var version: Version
    var header: map<string, string>
    var body: string

    function Build(): Request
      reads this
    {
      Request(verb, uri, version, header, body)
    }

    constructor ()
      ensures Build() == EMPTY_REQUEST
    {
      verb, uri, version, header, body := UNKNOWN_REQUEST_METHOD, "", UNKNOWN_HTTP_VERSION, map[], "";
    }
  }

  method SkipTerminate(input: InputStream) returns (status: Status)
    modifies input
    ensures (status, input.State()) == SkipTerminateCH(old(input.State()))
  {
    var c := input.Get();
    if c != Some('\r') {
      return Failed(PARSE_TERMINATE_CH_FAILED);
    }
    c := input.Get();
    status := if c == Some('\n') then Ok else Failed(PARSE_TERMINATE_CH_FAILED);
  }

  method AnalyseLine(input: InputStream, builder: HttpRequestBuilder) returns (status: Status)
    requires builder.Build() == EMPTY_REQUEST
    modifies input, builder
    ensures Parsed(status, builder.Build(), input.State()) == ParseLine(old(input.State()))
  {
    hide ReadWord, SkipTerminateCH;
    var verb := input.ReadToken();
    if input.fail {
      return Failed(PARSE_REQ_METHOD_FAILED);
    }
    var uri := input.ReadToken();
    if input.fail {
      return Failed(PARSE_REQ_URI_FAILED);
    }
    var version := input.ReadToken();
    if input.fail {
      return Failed(PARSE_REQ_VERSION_FAILED);
    }
    builder.verb, builder.uri, builder.version := ToMethod(verb), uri, ToVersion(version);
    status := SkipTerminate(input);
  }

  /** The position scan over one header line, and the loop that skips blanks after the colon. */
  method SplitHeadLine(line: string) returns (h: HeadLine)
    ensures h == ReadHeadLine(line)
  {
    if |line| == 1 {
      return EndOfHead;
    }
    var tok := FindColon(line);
    if tok == |line| {
      return NoColon;
    }
    var cur := line[..|line| - 1];
    var key := line[..tok];
    tok := tok + 1;
    if tok > |cur| {
      return ColonLast;
    }
    ghost var start := tok;
    assert line[start..|line| - 1] == cur[start..];
    while tok < |cur| && cur[tok] == ' '
      invariant start <= tok <= |cur|
      invariant DropBlanks(cur[tok..]) == DropBlanks(cur[start..])
    {
      assert cur[tok..][1..] == cur[tok + 1..];
      tok := tok + 1;
    }
    h := Field(key, cur[tok..]);
  }

  method AnalyseHead(input: InputStream, builder: HttpRequestBuilder) returns (status: Status)
    modifies input, builder
    ensures Parsed(status, builder.Build(), input.State()) == ParseHead(old(input.State()), old(builder.Build()))
  {
    while true
      invariant ParseHead(input.State(), builder.Build()) == ParseHead(old(input.State()), old(builder.Build()))
      decreases Left(input.State())
    {
      var line := input.ReadLine();
      if input.fail {
        return Failed(PARSE_REQ_HEADER_FAILED);
      }
      var h := SplitHeadLine(line);
      match h {
        case EndOfHead => return Ok;
        case NoColon => return Failed(INVALID_REQ_HEADER_FORMAT);
        case ColonLast => return Throws;
        case Field(key, value) => builder.header := builder.header[key := value];
      }
    }
  }

  ghost function After(taken: string, r: (Status, string, Stream)): (Status, string, Stream) {
    (r.0, taken + r.1, r.2)
  }

  lemma {:induction false} ReadBodyStep(s: Stream, rest: nat, taken: string)
    requires rest != 0
    ensures var (text, t) := ReadSome(s, Min(rest, BFSIZE));
            ReadBody(s, rest) == if t.fail then (Failed(PARSE_REQ_BODY_FAILED), text, t)
                                 else if text == "" then (Hangs, text, t)
                                 else After(text, ReadBody(t, rest - |text|))
    ensures var (text, t) := ReadSome(s, Min(rest, BFSIZE));
            !t.fail && text != "" ==>
              After(taken, ReadBody(s, rest)) == After(taken + text, ReadBody(t, rest - |text|))
  {
    var (text, t) := ReadSome(s, Min(rest, BFSIZE));
    if !t.fail && text != "" {
      var more := ReadBody(t, rest - |text|).1;
      assert taken + (text + more) == (taken + text) + more;
    }
  }

  method AnalyseBody(input: InputStream, builder: HttpRequestBuilder) returns (status: Status)
    requires !input.fail
    modifies input, builder
    ensures Parsed(status, builder.Build(), input.State()) == ParseBody(old(input.State()), old(builder.Build()))
  {
    var length := BodyLength(builder.header);
    if length.None? {
      return Throws;
    }
    var rest: nat, body := length.value, "";
    ghost var all := ReadBody(input.State(), rest);
    assert body + all.1 == all.1;
    while rest != 0
      invariant builder.Build() == old(builder.Build())
      invariant all == After(body, ReadBody(input.State(), rest))
    {
      ReadBodyStep(input.State(), rest, body);
      var text := input.ReadAvailable(Min(rest, BFSIZE));
      if input.fail {
        return Failed(PARSE_REQ_BODY_FAILED);
      }
      if text == "" {
        return Hangs; // the program repeats this round for ever, on an unchanged stream
      }
      body := body + text;
      rest := rest - |text|;
    }
    assert body + "" == body;
    if length.value != 0 {
      builder.body := body;
    }
    status := Ok;
  }

  /** getOneHttpRequest leaves on the stream and in the builder what the parser function says. */
  method Analyse(input: InputStream) returns (status: Status, request: Request)
    modifies input
    ensures Parsed(status, request, input.State()) == GetOneHttpRequest(old(input.State()))
  {
    var builder := new HttpRequestBuilder();
    status := AnalyseLine(input, builder);
    if status == Ok {
      status := AnalyseHead(input, builder);
    }
    if status == Ok {
      status := AnalyseBody(input, builder);
    }
    request := builder.Build();
  }
}
