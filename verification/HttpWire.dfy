/** The CRLF wire form of a request (section 3 of RFC 7230) and the proof that parsing inverts it. */
module HttpWire {
  import opened Wrappers
  import opened Decimal
  import opened HttpConfig
  import opened SocketInput
  import opened HttpRequest

  /** A header line with the number of blanks its sender put after the colon. */
  datatype Header = Header(key: string, blanks: nat, value: string)

  /** A message as its sender sees it. lead: white space before the request line, which section 3.5
      of RFC 7230 asks a server to skip. */
  datatype Message = Message(
    lead: string, verb: string, uri: string, version: string, headers: seq<Header>, body: string)

  function Blanks(n: nat): string { seq(n, _ => ' ') }

  function HeaderLine(h: Header): string { h.key + ":" + Blanks(h.blanks) + h.value + "\r" }

  function HeaderLines(hs: seq<Header>): string {
    if hs == [] then "" else HeaderLine(hs[0]) + "\n" + HeaderLines(hs[1..])
  }

  function Front(m: Message): string {
    m.lead + (m.verb + (" " + (m.uri + (" " + (m.version + ("\r\n" + (HeaderLines(m.headers) + "\r\n")))))))
  }

  function Wire(m: Message): string { Front(m) + m.body }

  // ----- well-formedness

  predicate Token(s: string) { s != "" && forall i :: 0 <= i < |s| ==> !IsSpace(s[i]) }

  predicate WellFormedHeader(h: Header) {
    && ':' !in h.key && '\n' !in h.key
    && '\n' !in h.value && (h.value != "" ==> h.value[0] != ' ')
  }

  /** The header map: a later line overrides an earlier one with the same key. */
  function HeaderMap(hs: seq<Header>, m: map<string, string>): map<string, string> {
    if hs == [] then m else HeaderMap(hs[1..], m[hs[0].key := hs[0].value])
  }

  predicate WellFormed(m: Message) {
    && AllSpace(m.lead) && Token(m.verb) && Token(m.uri) && Token(m.version)
    && (forall i :: 0 <= i < |m.headers| ==> WellFormedHeader(m.headers[i]))
    && BodyLength(HeaderMap(m.headers, map[])) == Some(|m.body|)
  }

  /** The request a message means. */
  function Meaning(m: Message): Request {
    Request(ToMethod(m.verb), m.uri, ToVersion(m.version), HeaderMap(m.headers, map[]), m.body)
  }

  // ----- reading flat bytes

  function Flat(bytes: string): Stream { Stream(bytes, [], false, false) }

  lemma {:induction false} SkipSpaceOn(w: string, rest: string)
    requires AllSpace(w) && rest != "" && !IsSpace(rest[0])
    ensures SkipSpace(Flat(w + rest)) == Flat(rest)
  {
    if w == "" {
      assert w + rest == rest;
    } else {
      assert (w + rest)[1..] == w[1..] + rest;
      SkipSpaceOn(w[1..], rest);
    }
  }

  lemma {:induction false} TakeWordOn(w: string, rest: string)
    requires (forall i :: 0 <= i < |w| ==> !IsSpace(w[i])) && rest != "" && IsSpace(rest[0])
    ensures TakeWord(Flat(w + rest)) == (w, Flat(rest))
  {
    if w == "" {
      assert w + rest == rest;
    } else {
      assert (w + rest)[1..] == w[1..] + rest;
      TakeWordOn(w[1..], rest);
      assert [w[0]] + w[1..] == w;
    }
  }

  lemma {:induction false} ReadWordOn(lead: string, w: string, rest: string)
    requires AllSpace(lead) && Token(w) && rest != "" && IsSpace(rest[0])
    ensures ReadWord(Flat(lead + (w + rest))) == (w, Flat(rest))
  {
    SkipSpaceOn(lead, w + rest);
    TakeWordOn(w, rest);
  }

  lemma {:induction false} TakeLineOn(l: string, rest: string)
    requires '\n' !in l
    ensures TakeLine(Flat(l + "\n" + rest)) == (l, Flat(rest))
  {
    var s := l + "\n" + rest;
    if l == "" {
      assert s[1..] == rest;
    } else {
      assert s[1..] == l[1..] + "\n" + rest;
      TakeLineOn(l[1..], rest);
      assert [l[0]] + l[1..] == l;
    }
  }

  lemma {:induction false} ParseLineOn(m: Message, rest: string)
    requires WellFormed(m)
    ensures ParseLine(Flat(m.lead + (m.verb + (" " + (m.uri + (" " + (m.version + ("\r\n" + rest)))))))) ==
            Parsed(Ok, EMPTY_REQUEST.(verb := ToMethod(m.verb), uri := m.uri, version := ToVersion(m.version)),
                   Flat(rest))
  {
    var end := "\r\n" + rest;
    var tail := " " + (m.version + end);
    ReadWordOn(m.lead, m.verb, " " + (m.uri + tail));
    ReadWordOn(" ", m.uri, tail);
    ReadWordOn(" ", m.version, end);
    CrlfOn(rest);
    hide ReadWord, SkipTerminateCH, WellFormed;
  }

  lemma {:induction false} CrlfOn(rest: string)
    ensures SkipTerminateCH(Flat("\r\n" + rest)) == (Ok, Flat(rest))
  {
    var end := "\r\n" + rest;
    assert end[1..] == "\n" + rest;
    assert end[1..][1..] == rest;
  }

  lemma {:induction false} DropBlanksOn(n: nat, v: string)
    requires v != "" ==> v[0] != ' '
    ensures DropBlanks(Blanks(n) + v) == v
  {
    var s := Blanks(n) + v;
    if n == 0 {
      assert s == v;
    } else {
      assert s[1..] == Blanks(n - 1) + v;
      DropBlanksOn(n - 1, v);
    }
  }

  lemma {:induction false} ReadHeadLineOn(h: Header)
    requires WellFormedHeader(h)
    ensures ReadHeadLine(HeaderLine(h)) == Field(h.key, h.value) && '\n' !in HeaderLine(h)
  {
    var line := HeaderLine(h);
    assert line[|h.key|] == ':';
    assert line[..|h.key|] == h.key;
    assert forall k :: 0 <= k < |h.key| ==> line[k] == h.key[k];
    assert FindColon(line) == |h.key|;
    assert line[|h.key| + 1..|line| - 1] == Blanks(h.blanks) + h.value;
    DropBlanksOn(h.blanks, h.value);
  }

  lemma {:induction false} ParseHeadOn(hs: seq<Header>, r: Request, rest: string)
    requires forall i :: 0 <= i < |hs| ==> WellFormedHeader(hs[i])
    ensures ParseHead(Flat(HeaderLines(hs) + "\r\n" + rest), r) ==
            Parsed(Ok, r.(header := HeaderMap(hs, r.header)), Flat(rest))
    decreases |hs|
  {
    var s := HeaderLines(hs) + "\r\n" + rest;
    if hs == [] {
      assert s == "\r" + "\n" + rest;
      TakeLineOn("\r", rest);
    } else {
      var line, more := HeaderLine(hs[0]), HeaderLines(hs[1..]) + "\r\n" + rest;
      assert s == line + "\n" + more;
      ReadHeadLineOn(hs[0]);
      TakeLineOn(line, more);
      assert GetLine(Flat(s)) == (line, Flat(more));
      ParseHeadOn(hs[1..], r.(header := r.header[hs[0].key := hs[0].value]), rest);
    }
  }

  /** The front of a well-formed message, followed by anything, parses to what it means and leaves
      exactly what follows it. */
  lemma {:induction false} ParseFrontOn(m: Message, rest: string)
    requires WellFormed(m)
    ensures ParseFront(Flat(Front(m) + rest)) == Parsed(Ok, Meaning(m).(body := ""), Flat(rest))
  {
    var after := HeaderLines(m.headers) + "\r\n" + rest;
    assert Front(m) + rest ==
      m.lead + (m.verb + (" " + (m.uri + (" " + (m.version + ("\r\n" + after))))));
    ParseLineOn(m, after);
    ParseHeadOn(m.headers, ParseLine(Flat(Front(m) + rest)).request, rest);
  }

  lemma {:induction false} BodyOn(front: Parsed, body: string, tail: string)
    requires front.status == Ok && front.stream.Good() && front.stream.Visible() == body + tail
    requires BodyLength(front.request.header) == Some(|body|) && front.request.body == ""
    ensures var p := WithBody(front);
            if |body| <= |front.stream.area|
            then
              && p.status == Ok && p.request == front.request.(body := body)
              && p.stream.Good() && p.stream.Visible() == tail
              && p.stream == front.stream.(area := front.stream.area[|body|..])
            else p.status == Hangs
  {
    ParseBodyClosedForm(front.stream, front.request, |body|);
    if |body| <= |front.stream.area| {
      SplitConcat(front.stream.area, Reachable(front.stream.pending), body, tail);
    }
  }

  lemma {:induction false} SplitConcat(a: string, b: string, c: string, d: string)
    requires a + b == c + d && |c| <= |a|
    ensures a[..|c|] == c && a[|c|..] + b == d
  {
    assert (a + b)[..|c|] == a[..|c|] && (a + b)[|c|..] == a[|c|..] + b;
    assert (c + d)[..|c|] == c && (c + d)[|c|..] == d;
  }

  /** The same of any pieces: the front parses to what it means, and the get area is left with the
      rest of the piece that brought the front's last byte. */
  lemma {:induction false} FrontOfPieces(m: Message, rest: string, s: Stream)
    requires WellFormed(m) && s.Good() && s.Visible() == Front(m) + rest
    ensures var p := ParseFront(s);
            && p.status == Ok && p.request == Meaning(m).(body := "") && p.stream.Good() && p.stream.Visible() == rest
            && Ahead(p.stream, s, |Front(m)|)
  {
    FrontIsChunkIndependent(s);
    ParseFrontOn(m, rest);
    hide ParseFront, Front, WellFormed, Meaning, Held;
    assert s.Whole() == Flat(Front(m) + rest);
    var t := ParseFront(s).stream;
    assert t.Whole() == Flat(rest);
    forall k: nat ensures HeldIn(t, k) == HeldIn(s, |Front(m)| + k) {
      FrontHeld(s, k);
    }
  }

  lemma HeldNow(s: Stream)
    ensures Held(s.area, s.pending, 0) == |s.area|
  {
  }

  lemma {:induction false} HeldPast(s: Stream, n: nat)
    requires n <= |s.area|
    ensures Ahead(s.(area := s.area[n..]), s, n)
  {
  }

  /** Round trip: any well-formed message followed by any tail, arriving in any pieces, parses to
      exactly its meaning and leaves exactly the tail, if and only if the piece that brings the last
      byte of its head brings its body too. */
  lemma {:induction false} ParseInvertsWire(m: Message, tail: string, s: Stream)
    requires WellFormed(m) && s.Good() && s.Visible() == Wire(m) + tail
    ensures var p := GetOneHttpRequest(s);
            if |m.body| <= Held(s.area, s.pending, |Front(m)|)
            then
              && p.status == Ok && p.request == Meaning(m) && p.stream.Good() && p.stream.Visible() == tail
              && Ahead(p.stream, s, |Wire(m)|)
            else p.status == Hangs
  {
    hide Ahead, ParseFront, WithBody, Front, Wire, WellFormed, BodyLength, Meaning, Held, Reachable, Stream.Visible,
      HeaderMap;
    WireParts(m, tail);
    FrontOfPieces(m, m.body + tail, s);
    var front := ParseFront(s);
    AheadNow(front.stream, s, |Front(m)|, 0);
    HeldNow(front.stream);
    BodyOn(front, m.body, tail);
    if |m.body| <= |front.stream.area| {
      HeldPast(front.stream, |m.body|);
      AheadTwice(WithBody(front).stream, front.stream, s, |m.body|, |Front(m)|);
    }
  }

  lemma {:induction false} WireParts(m: Message, tail: string)
    ensures Wire(m) + tail == Front(m) + (m.body + tail) && |Wire(m)| == |Front(m)| + |m.body|
    ensures WellFormed(m) ==> BodyLength(Meaning(m).header) == Some(|m.body|) && Meaning(m).body == m.body
  {
    hide Front;
  }

  /** Whatever follows the head, a body that the piece with the head's last byte does not bring makes
      the call hang: even if it arrives next. */
  lemma {:induction false} LateBodyHangs(m: Message, rest: string, s: Stream)
    requires WellFormed(m) && s.Good() && s.Visible() == Front(m) + rest
    requires Held(s.area, s.pending, |Front(m)|) < |m.body|
    ensures GetOneHttpRequest(s).status == Hangs
  {
    hide ParseFront, Front, Wire, WellFormed, BodyLength, Ahead, Meaning, Held, Reachable, Stream.Visible;
    WireParts(m, rest);
    FrontOfPieces(m, rest, s);
    var front := ParseFront(s);
    AheadNow(front.stream, s, |Front(m)|, 0);
    HeldNow(front.stream);
    ParseBodyClosedForm(front.stream, front.request, |m.body|);
  }

  // ----- the wire form of a header map

  function Entries(hs: seq<Header>): seq<Entry> {
    seq(|hs|, i requires 0 <= i < |hs| => Entry(hs[i].key, hs[i].value))
  }

  /** hs lists the entries of a map once each, in some order, with any blanks. */
  predicate Enumerates(hs: seq<Header>, m: map<string, string>) { Lists(Entries(hs), m) }

  predicate DistinctKeys(hs: seq<Header>) {
    forall i, j :: 0 <= i < j < |hs| ==> hs[i].key != hs[j].key
  }

  lemma {:induction false} HeaderMapLookup(hs: seq<Header>, m: map<string, string>)
    requires DistinctKeys(hs)
    ensures forall i :: 0 <= i < |hs| ==> hs[i].key in HeaderMap(hs, m) && HeaderMap(hs, m)[hs[i].key] == hs[i].value
    ensures forall k :: k in HeaderMap(hs, m) <==> k in m || exists i :: 0 <= i < |hs| && hs[i].key == k
    ensures forall k :: k in m && (forall i :: 0 <= i < |hs| ==> hs[i].key != k) ==> HeaderMap(hs, m)[k] == m[k]
    decreases |hs|
  {
    if hs != [] {
      var rest, m' := hs[1..], m[hs[0].key := hs[0].value];
      HeaderMapLookup(rest, m');
      assert forall i :: 0 < i < |hs| ==> hs[i] == rest[i - 1];
      assert forall i :: 0 <= i < |rest| ==> rest[i] == hs[i + 1];
    }
  }

  /** Headers in any order: whichever order a map is listed in, the parsed map is that map. */
  lemma {:induction false} HeaderOrderIrrelevant(hs: seq<Header>, m: map<string, string>)
    requires Enumerates(hs, m)
    ensures HeaderMap(hs, map[]) == m
  {
    var es := Entries(hs);
    assert forall i :: 0 <= i < |hs| ==> es[i] == Entry(hs[i].key, hs[i].value);
    HeaderMapLookup(hs, map[]);
    var h := HeaderMap(hs, map[]);
    forall k | k in m ensures k in h && h[k] == m[k] {
      var i :| 0 <= i < |es| && es[i].key == k;
      assert hs[i].key == k;
    }
    forall k | k in h ensures k in m {
      var i :| 0 <= i < |hs| && hs[i].key == k;
      assert es[i].key in m;
    }
  }

  /** Sending a request value: any listing of its header map, any blanks, the decimal body length in
      Content-Length; parsing returns the same request. */
  lemma {:induction false} RequestRoundTrip(r: Request, m: Message, tail: string)
    requires Enumerates(m.headers, r.header) && AllSpace(m.lead)
    requires forall i :: 0 <= i < |m.headers| ==> WellFormedHeader(m.headers[i])
    requires m.verb == MethodText(r.verb) && m.version == VersionText(r.version) && m.uri == r.uri && m.body == r.body
    requires Token(r.uri)
    requires if "Content-Length" in r.header
             then r.header["Content-Length"] == ToDecimal(|r.body|) && |r.body| < ULONG_RANGE
             else r.body == ""
    ensures GetOneHttpRequest(Flat(Wire(m) + tail)) == Parsed(Ok, r, Flat(tail))
  {
    HeaderOrderIrrelevant(m.headers, r.header);
    NamesRoundTrip(r.verb, r.version);
    StoulOfToDecimal(|r.body|);
    NamesAreTokens(r.verb, r.version);
    FlatRoundTrip(m, tail);
  }

  /** All bytes in one get area, as after a single receive. */
  lemma {:induction false} FlatRoundTrip(m: Message, tail: string)
    requires WellFormed(m)
    ensures ParseFront(Flat(Wire(m) + tail)).stream == Flat(m.body + tail)
    ensures GetOneHttpRequest(Flat(Wire(m) + tail)) == Parsed(Ok, Meaning(m), Flat(tail))
  {
    WireParts(m, tail);
    ParseFrontOn(m, m.body + tail);
    hide ParseFront, WithBody, Front, Wire, WellFormed, BodyLength;
    FlatBody(Parsed(Ok, Meaning(m).(body := ""), Flat(m.body + tail)), m.body, tail);
  }

  lemma {:induction false} FlatBody(front: Parsed, body: string, tail: string)
    requires front.status == Ok && front.stream == Flat(body + tail)
    requires BodyLength(front.request.header) == Some(|body|) && front.request.body == ""
    ensures WithBody(front) == Parsed(Ok, front.request.(body := body), Flat(tail))
  {
    ParseBodyClosedForm(front.stream, front.request, |body|);
    assert (body + tail)[..|body|] == body && (body + tail)[|body|..] == tail;
  }

  lemma NamesAreTokens(v: Method, w: Version)
    ensures Token(MethodText(v)) && Token(VersionText(w))
  {
  }

  // ----- input that is not a message

  const AT_EOF: Stream := Stream("", [], true, false)

  lemma {:induction false} SkipSpaceAtEnd(w: string)
    requires AllSpace(w)
    ensures SkipSpace(Flat(w)) == AT_EOF.(fail := true)
  {
    if w != "" {
      SkipSpaceAtEnd(w[1..]);
    }
  }

  lemma {:induction false} TakeWordAtEnd(w: string)
    requires forall i :: 0 <= i < |w| ==> !IsSpace(w[i])
    ensures TakeWord(Flat(w)) == (w, AT_EOF)
  {
    if w != "" {
      TakeWordAtEnd(w[1..]);
      assert [w[0]] + w[1..] == w;
    }
  }

  lemma {:induction false} ReadWordAtEnd(lead: string, w: string)
    requires AllSpace(lead) && Token(w)
    ensures ReadWord(Flat(lead + w)) == (w, AT_EOF)
  {
    SkipSpaceOn(lead, w);
    TakeWordAtEnd(w);
  }

  /** A request line cut short fails with the error of the part that is missing, and so does one that
      does not end in CRLF. */
  lemma {:induction false} RequestLineErrors(m: Message, end: string)
    requires WellFormed(m) && end != "" && IsSpace(end[0]) && !("\r\n" <= end)
    ensures ParseLine(Flat(m.lead)).status == Failed(PARSE_REQ_METHOD_FAILED)
    ensures ParseLine(Flat(m.lead + m.verb)).status == Failed(PARSE_REQ_URI_FAILED)
    ensures ParseLine(Flat(m.lead + (m.verb + (" " + m.uri)))).status == Failed(PARSE_REQ_VERSION_FAILED)
    ensures ParseLine(Flat(m.lead + (m.verb + (" " + (m.uri + (" " + m.version)))))).status ==
            Failed(PARSE_TERMINATE_CH_FAILED)
    ensures ParseLine(Flat(m.lead + (m.verb + (" " + (m.uri + (" " + (m.version + end))))))).status ==
            Failed(PARSE_TERMINATE_CH_FAILED)
  {
    SkipSpaceAtEnd(m.lead);
    ReadWordAtEnd(m.lead, m.verb);
    ReadWordOn(m.lead, m.verb, " " + m.uri);
    ReadWordAtEnd(" ", m.uri);
    ReadWordOn(m.lead, m.verb, " " + (m.uri + (" " + m.version)));
    ReadWordOn(" ", m.uri, " " + m.version);
    ReadWordAtEnd(" ", m.version);
    ReadWordOn(m.lead, m.verb, " " + (m.uri + (" " + (m.version + end))));
    ReadWordOn(" ", m.uri, " " + (m.version + end));
    ReadWordOn(" ", m.version, end);
    NoCrlf(end);
    hide ReadWord, SkipTerminateCH, WellFormed;
  }

  lemma {:induction false} NoCrlf(end: string)
    requires !("\r\n" <= end)
    ensures SkipTerminateCH(Flat(end)).0 == Failed(PARSE_TERMINATE_CH_FAILED)
    ensures SkipTerminateCH(AT_EOF).0 == Failed(PARSE_TERMINATE_CH_FAILED)
  {
    if |end| >= 2 {
      assert end[..2] == [end[0], end[1]];
      assert end[1..][0] == end[1];
    }
  }

  /** A head that ends without its blank line is a header error. */
  lemma {:induction false} HeadCutShort(hs: seq<Header>, r: Request)
    requires forall i :: 0 <= i < |hs| ==> WellFormedHeader(hs[i])
    ensures ParseHead(Flat(HeaderLines(hs)), r).status == Failed(PARSE_REQ_HEADER_FAILED)
    decreases |hs|
  {
    if hs != [] {
      ReadHeadLineOn(hs[0]);
      TakeLineOn(HeaderLine(hs[0]), HeaderLines(hs[1..]));
      HeadCutShort(hs[1..], r.(header := r.header[hs[0].key := hs[0].value]));
    }
  }

  /** A line without a colon ends the head with an error, and is itself consumed. */
  lemma {:induction false} HeadRefused(hs: seq<Header>, r: Request, line: string, rest: string)
    requires (forall i :: 0 <= i < |hs| ==> WellFormedHeader(hs[i])) && '\n' !in line && ':' !in line && |line| != 1
    ensures ParseHead(Flat(HeaderLines(hs) + (line + "\n" + rest)), r) ==
            Parsed(Failed(INVALID_REQ_HEADER_FORMAT), r.(header := HeaderMap(hs, r.header)), Flat(rest))
    decreases |hs|
  {
    var tail := line + "\n" + rest;
    if hs == [] {
      assert HeaderLines(hs) + tail == tail;
      TakeLineOn(line, rest);
    } else {
      var first, more := HeaderLine(hs[0]), HeaderLines(hs[1..]);
      ReadHeadLineOn(hs[0]);
      TakeLineOn(first, more + tail);
      assert HeaderLines(hs) + tail == first + "\n" + (more + tail);
      HeadRefused(hs[1..], r.(header := r.header[hs[0].key := hs[0].value]), line, rest);
    }
  }

  // ----- exactly which bytes are which outcome

  /** The lines of a head as getline delivers them; the last may lack its line feed. */
  function Lines(bytes: string): (ls: seq<string>)
    ensures bytes != "" ==> ls != []
  {
    if bytes == "" then []
    else if bytes[0] == '\n' then [""] + Lines(bytes[1..])
    else if |bytes| == 1 then [bytes]
    else
      var ls := Lines(bytes[1..]);
      [[bytes[0]] + ls[0]] + ls[1..]
  }

  /** A header line that lets the head go on: a colon before its last character. */
  predicate Continues(line: string) { line != "" && ':' in line[..|line| - 1] }

  /** What a line that does not continue the head makes of it. */
  function Verdict(line: string): Status {
    if |line| == 1 then Ok else if ':' in line then Throws else Failed(INVALID_REQ_HEADER_FORMAT)
  }

  /** The first line that does not continue the head, or the number of lines. */
  function Deciding(ls: seq<string>): (k: nat)
    ensures k <= |ls| && (k < |ls| ==> !Continues(ls[k]))
    ensures forall j :: 0 <= j < k ==> Continues(ls[j])
  {
    if ls == [] || !Continues(ls[0]) then 0 else 1 + Deciding(ls[1..])
  }

  /** The map that lines which continue the head build, a later line overriding an earlier one. */
  function Fields(ls: seq<string>, m: map<string, string>): map<string, string>
    decreases |ls|
  {
    if ls == [] then m
    else
      match ReadHeadLine(ls[0])
      case Field(key, value) => Fields(ls[1..], m[key := value])
      case _ => m
  }

  lemma {:induction false} ClassifyLine(line: string)
    ensures Continues(line) <==> ReadHeadLine(line).Field?
    ensures !Continues(line) ==>
              Verdict(line) == match ReadHeadLine(line)
                               case EndOfHead => Ok
                               case NoColon => Failed(INVALID_REQ_HEADER_FORMAT)
                               case _ => Throws
  {
    if line != "" {
      var tok, n := FindColon(line), |line| - 1;
      assert forall k :: 0 <= k < n ==> line[k] == line[..n][k];
      if tok < n {
        assert line[..n][tok] == ':';
      }
    }
  }

  lemma {:induction false} TakeLineLines(b: string)
    requires b != ""
    ensures var (l, t) := TakeLine(Flat(b));
            && l == Lines(b)[0] && (t.eof ==> l != "" && t == AT_EOF && Lines(b)[1..] == [])
            && (!t.eof ==> t == Flat(t.area) && Lines(t.area) == Lines(b)[1..])
  {
    if b[0] != '\n' {
      if |b| == 1 {
        assert TakeLine(Flat(b[1..])) == ("", AT_EOF);
      } else {
        TakeLineLines(b[1..]);
      }
    }
  }

  lemma {:induction false} DecidingStep(ls: seq<string>, m: map<string, string>)
    requires ls != [] && Continues(ls[0])
    ensures var h, k := ReadHeadLine(ls[0]), Deciding(ls);
            && h.Field? && k == 1 + Deciding(ls[1..])
            && Fields(ls[..k], m) == Fields(ls[1..][..k - 1], m[h.key := h.value])
  {
    ClassifyLine(ls[0]);
    var k := Deciding(ls);
    assert ls[..k][1..] == ls[1..][..k - 1] && ls[..k][0] == ls[0];
    hide ReadHeadLine, Continues;
  }

  lemma {:induction false} HeadAtEof(r: Request)
    ensures ParseHead(AT_EOF, r) == Parsed(Failed(PARSE_REQ_HEADER_FAILED), r, AT_EOF.(fail := true))
  {
  }

  /** For all bytes: the head ends as its first line without a colon before its last character says,
      with the map built by the lines before; without such a line it is a header error. */
  lemma {:induction false} HeadExactly(b: string, r: Request)
    ensures var ls, p := Lines(b), ParseHead(Flat(b), r);
            var k := Deciding(ls);
            && p.request == r.(header := Fields(ls[..k], r.header))
            && p.status == if k == |ls| then Failed(PARSE_REQ_HEADER_FAILED) else Verdict(ls[k])
    decreases |b|
  {
    var ls := Lines(b);
    if b != "" {
      TakeLineLines(b);
      ClassifyLine(ls[0]);
      var (line, t) := GetLine(Flat(b));
      var h := ReadHeadLine(line);
      hide ReadHeadLine, GetLine, TakeLine, Lines, Verdict, Continues;
      if Continues(ls[0]) {
        DecidingStep(ls, r.header);
        var next := r.(header := r.header[h.key := h.value]);
        if t.eof {
          HeadAtEof(next);
        } else {
          HeadExactly(t.area, next);
        }
      }
    }
  }

  /** The first colon is the last character, and not the only one. */
  predicate ColonEnds(line: string) {
    |line| > 1 && line[|line| - 1] == ':' && ':' !in line[..|line| - 1]
  }

  lemma {:induction false} ColonEndsThrows(line: string)
    ensures ColonEnds(line) <==> !Continues(line) && Verdict(line) == Throws
  {
    if line != "" {
      assert line == line[..|line| - 1] + [line[|line| - 1]];
    }
  }

  /** A head throws exactly when some line has its first colon as its last character and every line
      before it has a colon before its last character. */
  lemma {:induction false} HeadThrows(b: string, r: Request)
    ensures var ls := Lines(b);
            ParseHead(Flat(b), r).status == Throws <==>
            exists k :: 0 <= k < |ls| && ColonEnds(ls[k]) && forall j :: 0 <= j < k ==> Continues(ls[j])
  {
    hide ParseHead, Lines, Verdict, Continues, ColonEnds;
    HeadExactly(b, r);
    var ls := Lines(b);
    var k := Deciding(ls);
    if k < |ls| {
      ColonEndsThrows(ls[k]);
    }
    forall i | 0 <= i < |ls| && ColonEnds(ls[i]) && forall j :: 0 <= j < i ==> Continues(ls[j]) ensures i == k {
      ColonEndsThrows(ls[i]);
    }
  }

  // ----- request lines, exactly

  /** A request line cut into words and the white space before them, and what follows it. */
  datatype LineParts = LineParts(lead: string, verb: string, gap: string, uri: string, space: string, version: string,
                                 rest: string) {
    predicate Valid() {
      && AllSpace(lead) && Token(verb) && AllSpace(gap) && gap != "" && Token(uri)
      && AllSpace(space) && space != "" && Token(version)
    }

    function Text(): string { lead + (verb + (gap + (uri + (space + (version + ("\r\n" + rest)))))) }

    function Request(): Request {
      EMPTY_REQUEST.(verb := ToMethod(verb), uri := uri, version := ToVersion(version))
    }
  }

  lemma {:induction false} ParseLineParts(l: LineParts)
    requires l.Valid()
    ensures ParseLine(Flat(l.Text())) == Parsed(Ok, l.Request(), Flat(l.rest))
  {
    var end := "\r\n" + l.rest;
    var tail := l.space + (l.version + end);
    assert tail[0] == l.space[0] && (l.gap + (l.uri + tail))[0] == l.gap[0];
    ReadWordOn(l.lead, l.verb, l.gap + (l.uri + tail));
    ReadWordOn(l.gap, l.uri, tail);
    ReadWordOn(l.space, l.version, end);
    CrlfOn(l.rest);
    hide ReadWord, SkipTerminateCH, Token, AllSpace;
  }

  lemma {:induction false} SplitSpace(b: string) returns (w: string, rest: string)
    ensures b == w + rest && AllSpace(w) && (rest != "" ==> !IsSpace(rest[0]))
  {
    w, rest := "", b;
    if b != "" && IsSpace(b[0]) {
      var v, r := SplitSpace(b[1..]);
      w, rest := [b[0]] + v, r;
      assert b == [b[0]] + (v + r);
    }
  }

  lemma {:induction false} SplitWord(b: string) returns (w: string, rest: string)
    ensures b == w + rest && (forall i :: 0 <= i < |w| ==> !IsSpace(w[i])) && (rest != "" ==> IsSpace(rest[0]))
  {
    w, rest := "", b;
    if b != "" && !IsSpace(b[0]) {
      var v, r := SplitWord(b[1..]);
      w, rest := [b[0]] + v, r;
      assert b == [b[0]] + (v + r);
    }
  }

  lemma {:induction false} SkipSpaceParts(b: string) returns (w: string, rest: string)
    requires !SkipSpace(Flat(b)).eof
    ensures AllSpace(w) && b == w + rest && SkipSpace(Flat(b)) == Flat(rest) && rest != "" && !IsSpace(rest[0])
  {
    hide SkipSpace;
    w, rest := SplitSpace(b);
    if rest == "" {
      assert b == w;
      SkipSpaceAtEnd(w);
    } else {
      SkipSpaceOn(w, rest);
    }
  }

  lemma {:induction false} TakeWordParts(b: string) returns (w: string, rest: string)
    requires !TakeWord(Flat(b)).1.eof
    ensures b == w + rest && TakeWord(Flat(b)) == (w, Flat(rest)) && (forall i :: 0 <= i < |w| ==> !IsSpace(w[i]))
    ensures rest != "" && IsSpace(rest[0])
  {
    hide TakeWord;
    w, rest := SplitWord(b);
    if rest == "" {
      assert b == w;
      TakeWordAtEnd(w);
    } else {
      TakeWordOn(w, rest);
    }
  }

  lemma {:induction false} ReadWordParts(b: string) returns (lead: string, w: string, rest: string)
    requires ReadWord(Flat(b)).1.Good()
    ensures b == lead + (w + rest) && ReadWord(Flat(b)) == (w, Flat(rest)) && AllSpace(lead) && Token(w)
    ensures rest != "" && IsSpace(rest[0])
    ensures b != "" && IsSpace(b[0]) ==> lead != ""
  {
    var after;
    lead, after := SkipSpaceParts(b);
    w, rest := TakeWordParts(after);
    hide SkipSpace, TakeWord;
    assert b[0] == if lead == "" then after[0] else lead[0];
  }

  lemma {:induction false} CrlfParts(b: string)
    requires SkipTerminateCH(Flat(b)).0 == Ok
    ensures |b| >= 2 && b == "\r\n" + b[2..]
  {
    assert b[0] == '\r' && b[1..] != "" && b[1..][0] == '\n';
  }

  lemma {:induction false} LineGoesOn(s: Stream)
    requires ParseLine(s).status == Ok
    ensures var s1 := ReadWord(s).1;
            var s2 := ReadWord(s1).1;
            var s3 := ReadWord(s2).1;
            s1.Good() && s2.Good() && s3.Good() && SkipTerminateCH(s3).0 == Ok
  {
    var s3 := ReadWord(ReadWord(ReadWord(s).1).1).1;
    assert SkipTerminateCH(s3).0 == Ok ==> s3.Good();
    hide ReadWord, SkipTerminateCH;
  }

  lemma {:induction false} LinePartsOf(b: string) returns (l: LineParts)
    requires ParseLine(Flat(b)).status == Ok
    ensures l.Valid() && l.Text() == b
  {
    LineGoesOn(Flat(b));
    hide ReadWord, SkipTerminateCH, Token, AllSpace, ParseLine, IsSpace;
    var lead, verb, b1 := ReadWordParts(b);
    var gap, uri, b2 := ReadWordParts(b1);
    var space, version, b3 := ReadWordParts(b2);
    CrlfParts(b3);
    l := LineParts(lead, verb, gap, uri, space, version, b3[2..]);
  }

  /** Exactly which bytes are accepted as a request line. */
  lemma {:induction false} LineExactly(b: string)
    ensures ParseLine(Flat(b)).status == Ok <==> exists l: LineParts :: l.Valid() && l.Text() == b
  {
    if ParseLine(Flat(b)).status == Ok {
      var l := LinePartsOf(b);
      assert l.Valid() && l.Text() == b;
    } else if l: LineParts :| l.Valid() && l.Text() == b {
      ParseLineParts(l);
      assert false;
    }
  }

  // ----- exactly when a call throws

  /** A head that throws: at the line that ends it, or, when it ends well, because its Content-Length
      does not start with a numeral in range. */
  predicate ThrowingHead(bytes: string) {
    var ls := Lines(bytes);
    var k := Deciding(ls);
    k < |ls| &&
    (Verdict(ls[k]) == Throws ||
     (Verdict(ls[k]) == Ok &&
      var fields := Fields(ls[..k], map[]);
      "Content-Length" in fields && Stoul(fields["Content-Length"]).None?))
  }

  lemma {:induction false} BodyThrows(front: Parsed)
    ensures WithBody(front).status == Throws <==>
            front.status == Throws || (front.status == Ok && BodyLength(front.request.header).None?)
  {
    if front.status == Ok && BodyLength(front.request.header).Some? {
      ReadBodyNeverThrows(front.stream, BodyLength(front.request.header).value);
    }
  }

  lemma {:induction false} ReadBodyNeverThrows(s: Stream, n: nat)
    ensures ReadBody(s, n).0 != Throws
    decreases n
  {
    if n != 0 {
      var (text, t) := ReadSome(s, Min(n, HttpRequest.BFSIZE));
      if !t.fail && text != "" {
        ReadBodyNeverThrows(t, n - |text|);
      }
    }
  }

  lemma {:induction false} FrontThrows(l: LineParts)
    requires l.Valid()
    ensures WithBody(ParseFront(Flat(l.Text()))).status == Throws <==> ThrowingHead(l.rest)
  {
    ParseLineParts(l);
    HeadExactly(l.rest, l.Request());
    BodyThrows(ParseFront(Flat(l.Text())));
    hide ParseLine, ParseHead, Lines, Verdict, WithBody, Fields, Stoul, ToMethod, ToVersion, LineParts.Text;
  }

  /** For every stream, in any pieces: a call throws if and only if its bytes are a request line
      followed by a throwing head. */
  lemma {:induction false} ThrowsExactly(s: Stream)
    ensures GetOneHttpRequest(s).status == Throws <==>
            s.Good() && exists l: LineParts :: l.Valid() && l.Text() == s.Visible() && ThrowingHead(l.rest)
  {
    FrontIsChunkIndependent(s);
    BodyThrows(ParseFront(s));
    BodyThrows(ParseFront(s.Whole()));
    var b := s.Visible();
    if s.Good() {
      assert s.Whole() == Flat(b);
      hide ParseFront, WithBody, ThrowingHead;
      if GetOneHttpRequest(s).status == Throws {
        FrontNeedsLine(Flat(b));
        var l := LinePartsOf(b);
        FrontThrows(l);
        assert l.Valid() && l.Text() == b;
      }
      forall l: LineParts | l.Valid() && l.Text() == b && ThrowingHead(l.rest)
        ensures GetOneHttpRequest(s).status == Throws
      {
        FrontThrows(l);
      }
    }
  }

  lemma {:induction false} FrontNeedsLine(s: Stream)
    requires ParseFront(s).status == Ok || ParseFront(s).status == Throws
    ensures ParseLine(s).status == Ok
  {
  }
}
