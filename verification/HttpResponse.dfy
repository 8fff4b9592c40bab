/** HttpResponsor: the bytes a response prints, the body copy loop, and how a client splits the
    printed bytes back into responses. */
module HttpResponse {
  import opened Wrappers
  import opened Decimal
  import opened HttpConfig
  import SocketOutput

  // size of the scratch block a body is copied through; it equals the put area's
  const BLOCK: nat := SocketOutput.BFSIZE

  datatype Status = Ok | GEN_RESPONSE_LINE_FAILED | GEN_RESPONSE_HEAD_FAILED | GEN_RESPONSE_BODY_FAILED
                  | INVALID_CONTENT_LENGTH | Stalls

  // ----- the body stream

  /** What the next readsome on a body meets: bytes, the end of the file, or a read error. */
  datatype Read = Data(bytes: string) | EndOfFile | Broken

  /** A body stream: the reads to come, after which it has nothing and reports nothing. */
  datatype Body = Body(script: seq<Read>, eof: bool, fail: bool)

  function ReadSome(b: Body, n: nat): (string, Body) {
    if b.eof || b.fail then ("", b.(fail := true))
    else if b.script == [] then ("", b)
    else
      match b.script[0]
      case Data(bytes) =>
        var k := Min(n, |bytes|);
        (bytes[..k], b.(script := if k < |bytes| then [Data(bytes[k..])] + b.script[1..] else b.script[1..]))
      case EndOfFile => ("", b.(script := b.script[1..], eof := true))
      case Broken => ("", b.(script := b.script[1..], fail := true))
  }

  /** All bytes the stream will ever deliver. */
  function Delivered(script: seq<Read>): string {
    if script == [] || !script[0].Data? then "" else script[0].bytes + Delivered(script[1..])
  }

  /** The stream reports its end or a fault, rather than going silent. */
  predicate Ends(script: seq<Read>) { EndOfFile in script || Broken in script }

  function Zeros(n: nat): (s: string)
    ensures |s| == n && forall i :: 0 <= i < n ==> s[i] as int == 0
  {
    seq(n, _ => '\0')
  }

  datatype Copied = Copied(text: string, status: Status)

  function Prepend(s: string, c: Copied): Copied { c.(text := s + c.text) }

  /** What one round writes: bytes read through the scratch block, or the block itself once the body
      has failed. */
  function Fetched(b: Body, want: nat, scratch: string): (r: (string, Body))
    requires want <= |scratch|
    ensures |r.0| <= want
  {
    if b.fail then (scratch[..want], b) else ReadSome(b, want)
  }

  /** genResponseBody on an output that accepts everything: one round of the copy loop after another.
      scratch is the block every read goes through, whatever it holds beforehand. */
  function CopyBody(b: Body, rest: nat, scratch: string, status: Status): Copied
    requires |scratch| == BLOCK
    decreases rest, |b.script|, !b.fail
  {
    if rest == 0 then Copied("", status)
    else
      var want := Min(rest, BLOCK);
      var (text, b') := Fetched(b, want, scratch);
      if text == "" && b' == b then Copied("", Stalls)
      else
        var padding := rest > |text| && b'.fail;
        Prepend(text, CopyBody(b', rest - |text|,
                               if padding then Zeros(BLOCK) else text + scratch[|text|..],
                               if padding then GEN_RESPONSE_BODY_FAILED else status))
  }

  lemma CopyNothing(b: Body, scratch: string, status: Status)
    requires |scratch| == BLOCK
    ensures CopyBody(b, 0, scratch, status) == Copied("", status)
  {
  }

  lemma {:induction false} PaddingIsZero(b: Body, rest: nat, status: Status)
    requires b.fail && status == GEN_RESPONSE_BODY_FAILED
    ensures CopyBody(b, rest, Zeros(BLOCK), status) == Copied(Zeros(rest), status)
    decreases rest
  {
    if rest != 0 {
      var want := Min(rest, BLOCK);
      var text := Zeros(BLOCK)[..want];
      assert text == Zeros(want);
      assert text + Zeros(BLOCK)[want..] == Zeros(BLOCK);
      PaddingIsZero(b, rest - want, status);
      assert Zeros(want) + Zeros(rest - want) == Zeros(rest);
    }
  }

  /** What is copied of a body that delivers got: cut at the length, or followed by zeros up to it when
      the body reports an early end; the loop stalls exactly when the body goes silent before that. */
  function Filled(got: string, ends: bool, rest: nat): (c: Copied)
    ensures c.status != Stalls ==> |c.text| == rest
  {
    if rest <= |got| then Copied(got[..rest], Ok)
    else if ends then Copied(got + Zeros(rest - |got|), GEN_RESPONSE_BODY_FAILED)
    else Copied(got, Stalls)
  }

  lemma {:induction false} FilledPrepend(got: string, ends: bool, rest: nat, text: string)
    ensures Prepend(text, Filled(got, ends, rest)) == Filled(text + got, ends, |text| + rest)
  {
    if rest <= |got| {
      assert text + got[..rest] == (text + got)[..|text| + rest];
    } else {
      assert text + (got + Zeros(rest - |got|)) == (text + got) + Zeros(rest - |got|);
    }
  }

  lemma {:induction false} DeliveredStep(script: seq<Read>, n: nat)
    requires script != [] && script[0].Data?
    ensures var (text, b') := ReadSome(Body(script, false, false), n);
            && |text| <= n && b' == Body(b'.script, false, false)
            && Delivered(script) == text + Delivered(b'.script) && Ends(script) == Ends(b'.script)
            && (n != 0 ==> |b'.script| < |script| || text != "")
  {
    var bytes := script[0].bytes;
    var k := Min(n, |bytes|);
    assert bytes[..k] + bytes[k..] == bytes;
    if k < |bytes| {
      var script' := [Data(bytes[k..])] + script[1..];
      assert script'[1..] == script[1..];
      assert bytes[..k] + (bytes[k..] + Delivered(script[1..])) == bytes + Delivered(script[1..]);
      assert script == [script[0]] + script[1..];
    } else {
      assert bytes[..k] == bytes;
      assert script == [script[0]] + script[1..];
    }
  }

  /** The copy loop in closed form, for a body that has not failed when the loop starts. */
  lemma {:induction false} CopyBodyClosedForm(b: Body, rest: nat, scratch: string)
    requires |scratch| == BLOCK && !b.fail && !b.eof
    ensures CopyBody(b, rest, scratch, Ok) == Filled(Delivered(b.script), Ends(b.script), rest)
    decreases rest, |b.script|
  {
    if rest != 0 && b.script != [] {
      var want := Min(rest, BLOCK);
      var (text, b') := ReadSome(b, want);
      match b.script[0] {
        case Data(_) =>
          DeliveredStep(b.script, want);
          CopyBodyClosedForm(b', rest - |text|, text + scratch[|text|..]);
          FilledPrepend(Delivered(b'.script), Ends(b'.script), rest - |text|, text);
        case EndOfFile =>
          assert EndOfFile in b.script;
          EarlyEof(b', rest, "" + scratch[0..]);
        case Broken =>
          assert Broken in b.script;
          EarlyEnd(b', rest);
      }
    }
  }

  lemma {:induction false} EarlyEnd(b: Body, rest: nat)
    requires b.fail && rest != 0
    ensures Prepend("", CopyBody(b, rest, Zeros(BLOCK), GEN_RESPONSE_BODY_FAILED)) ==
            Copied("" + Zeros(rest), GEN_RESPONSE_BODY_FAILED)
  {
    PaddingIsZero(b, rest, GEN_RESPONSE_BODY_FAILED);
  }

  lemma {:induction false} EarlyEof(b: Body, rest: nat, scratch: string)
    requires b.eof && !b.fail && rest != 0 && |scratch| == BLOCK
    ensures Prepend("", CopyBody(b, rest, scratch, Ok)) == Copied("" + Zeros(rest), GEN_RESPONSE_BODY_FAILED)
  {
    EarlyEnd(b.(fail := true), rest);
    assert "" + ("" + Zeros(rest)) == "" + Zeros(rest);
  }

  /** Framing: unless the loop stalls, exactly the declared number of bytes is written. */
  lemma {:induction false} CopyBodyLength(b: Body, rest: nat, scratch: string, status: Status)
    requires |scratch| == BLOCK && status != Stalls
    ensures var c := CopyBody(b, rest, scratch, status); c.status != Stalls ==> |c.text| == rest
    decreases rest, |b.script|, !b.fail
  {
    if rest != 0 {
      var want := Min(rest, BLOCK);
      var (text, b') := Fetched(b, want, scratch);
      if !(text == "" && b' == b) {
        if rest > |text| && b'.fail {
          CopyBodyLength(b', rest - |text|, Zeros(BLOCK), GEN_RESPONSE_BODY_FAILED);
        } else {
          CopyBodyLength(b', rest - |text|, text + scratch[|text|..], status);
        }
      }
    }
  }

  /** A body that has already failed on entry is not read: its first block is whatever the scratch
      block held, and a body of at most one block is even reported as a success. */
  lemma {:induction false} FailedOnEntry(b: Body, rest: nat, scratch: string)
    requires |scratch| == BLOCK && b.fail
    ensures CopyBody(b, rest, scratch, Ok) ==
            if rest <= 4096 then Copied(scratch[..rest], Ok)
            else Copied(scratch + Zeros(rest - 4096), GEN_RESPONSE_BODY_FAILED)
  {
    if rest > BLOCK {
      assert scratch[..BLOCK] == scratch;
      PaddingIsZero(b, rest - BLOCK, GEN_RESPONSE_BODY_FAILED);
    } else if rest != 0 {
      assert scratch[..rest] + "" == scratch[..rest];
    }
  }

  /** "The bytes read, then zeros": true of every content of the scratch block if and only if the
      body has not failed when the loop starts, for a body that does not go silent and a length above 0. */
  lemma {:induction false} PaddingIsExact(b: Body, rest: nat)
    requires 0 < rest && !b.eof && (rest <= |Delivered(b.script)| || Ends(b.script))
    ensures
      var got := if b.fail then "" else Delivered(b.script);
      (forall scratch: string | |scratch| == BLOCK ::
        CopyBody(b, rest, scratch, Ok).text == got[..Min(rest, |got|)] + Zeros(rest - Min(rest, |got|)))
      <==> !b.fail
  {
    hide CopyBody;
    if b.fail {
      var scratch := seq(BLOCK, _ => 'x');
      FailedOnEntry(b, rest, scratch);
      assert CopyBody(b, rest, scratch, Ok).text[0] == 'x';
      assert Zeros(rest)[0] == '\0';
      assert ""[..0] + Zeros(rest) == Zeros(rest);
    } else {
      var got := Delivered(b.script);
      forall scratch: string | |scratch| == BLOCK
        ensures CopyBody(b, rest, scratch, Ok).text == got[..Min(rest, |got|)] + Zeros(rest - Min(rest, |got|))
      {
        CopyBodyClosedForm(b, rest, scratch);
        if rest <= |got| {
          assert got[..rest] + Zeros(0) == got[..rest];
        } else {
          assert got[..|got|] == got;
        }
      }
    }
  }

  // ----- printing

  function StatusLine(version: Version, code: nat): string {
    VersionText(version) + (" " + (ToDecimal(code) + (" " + StatusDetail(code))))
  }

  function HeaderText(h: Entry): string { h.key + ": " + h.value + "\n" }

  function HeadText(hs: seq<Entry>): string {
    if hs == [] then "" else HeaderText(hs[0]) + HeadText(hs[1..])
  }

  /** A response as printed; hs lists its header map in the order of the iteration. */
  function Printed(version: Version, code: nat, hs: seq<Entry>, body: string): string {
    StatusLine(version, code) + "\n" + (HeadText(hs) + ("\n" + body))
  }

  // ----- reading it back

  /** Position of the first c, or the length. */
  function Find(s: string, c: char): (i: nat)
    ensures i <= |s| && c !in s[..i]
    ensures i < |s| ==> s[i] == c
  {
    if s == "" || s[0] == c then 0 else
      var i := 1 + Find(s[1..], c);
      assert s[..i] == [s[0]] + s[1..][..i - 1];
      i
  }

  datatype Reply = Reply(version: string, code: string, detail: string, headers: seq<Entry>, body: string)

  /** The text up to the next line feed, and what follows it. */
  function CutLine(s: string): (r: Option<(string, string)>)
    ensures r.Some? ==> |r.value.1| < |s|
  {
    var i := Find(s, '\n');
    if i == |s| then None else Some((s[..i], s[i + 1..]))
  }

  /** A header line split at its first colon and the blank after it. */
  function SplitField(line: string): Option<Entry> {
    var k := Find(line, ':');
    if k + 2 > |line| then None else Some(Entry(line[..k], line[k + 2..]))
  }

  /** Header lines up to the empty line. */
  function SplitHead(s: string): Option<(seq<Entry>, string)>
    decreases |s|
  {
    match CutLine(s)
    case None => None
    case Some((line, rest)) =>
      if line == "" then Some(([], rest))
      else
        match (SplitField(line), SplitHead(rest))
        case (Some(h), Some((hs, after))) => Some(([h] + hs, after))
        case _ => None
  }

  function ContentLength(hs: seq<Entry>): Option<nat> {
    if hs == [] then None
    else if hs[0].key == "Content-Length" then
      if hs[0].value != "" && AllDigits(hs[0].value) then Some(ValueOf(hs[0].value)) else None
    else ContentLength(hs[1..])
  }

  /** Version, code and detail of a status line, split at its first two blanks. */
  function SplitStatus(line: string): Option<(string, string, string)> {
    var a := Find(line, ' ');
    if a == |line| then None
    else
      var more := line[a + 1..];
      var b := Find(more, ' ');
      if b == |more| then None else Some((line[..a], more[..b], more[b + 1..]))
  }

  /** A status line and header lines, ended by bare line feeds (section 3.5 of RFC 7230), as a reply
      without its body, and what follows the blank line. */
  function SplitFront(s: string): Option<(Reply, string)> {
    match CutLine(s)
    case None => None
    case Some((line, more)) =>
      match (SplitStatus(line), SplitHead(more))
      case (Some((version, code, detail)), Some((hs, rest))) => Some((Reply(version, code, detail, hs, ""), rest))
      case _ => None
  }

  /** A reply with a body of Content-Length bytes. */
  function SplitReply(s: string): Option<(Reply, string)> {
    match SplitFront(s)
    case None => None
    case Some((r, rest)) =>
      match ContentLength(r.headers)
      case Some(n) => if n > |rest| then None else Some((r.(body := rest[..n]), rest[n..]))
      case None => None
  }

  function SplitReplies(s: string): Option<seq<Reply>>
    decreases |s|
  {
    if s == "" then Some([])
    else
      match SplitReply(s)
      case None => None
      case Some((r, rest)) =>
        if |rest| >= |s| then None
        else
          match SplitReplies(rest)
          case None => None
          case Some(rs) => Some([r] + rs)
  }

  predicate Printable(hs: seq<Entry>) {
    forall i :: 0 <= i < |hs| ==> ':' !in hs[i].key && '\n' !in hs[i].key && '\n' !in hs[i].value
  }

  lemma {:induction false} FindOn(s: string, c: char, rest: string)
    requires c !in s
    ensures Find(s + [c] + rest, c) == |s|
  {
    var whole := s + [c] + rest;
    var i := Find(whole, c);
    assert whole[|s|] == c;
    assert forall k :: 0 <= k < |s| ==> whole[k] == s[k] && s[k] != c;
    assert forall k :: 0 <= k < i ==> whole[..i][k] == whole[k];
  }

  lemma {:induction false} CutLineOn(line: string, rest: string)
    requires '\n' !in line
    ensures CutLine(line + "\n" + rest) == Some((line, rest))
  {
    var s := line + "\n" + rest;
    assert s == line + ['\n'] + rest;
    FindOn(line, '\n', rest);
    assert s[..|line|] == line && s[|line| + 1..] == rest;
  }

  lemma {:induction false} SplitFieldOn(key: string, value: string)
    requires ':' !in key
    ensures SplitField(key + ": " + value) == Some(Entry(key, value))
  {
    var line := key + ": " + value;
    assert line == key + [':'] + (" " + value);
    FindOn(key, ':', " " + value);
    assert line[..|key|] == key && line[|key| + 2..] == value;
  }

  lemma {:induction false} SplitHeadOn(hs: seq<Entry>, rest: string)
    requires Printable(hs)
    ensures SplitHead(HeadText(hs) + ("\n" + rest)) == Some((hs, rest))
    decreases |hs|
  {
    hide CutLine, SplitField;
    var s := HeadText(hs) + ("\n" + rest);
    if hs == [] {
      assert s == "" + "\n" + rest;
      CutLineOn("", rest);
    } else {
      var h, more := hs[0], HeadText(hs[1..]) + ("\n" + rest);
      var line := h.key + ": " + h.value;
      assert s == line + "\n" + more;
      CutLineOn(line, more);
      SplitFieldOn(h.key, h.value);
      SplitHeadOn(hs[1..], rest);
      assert [h] + hs[1..] == hs;
    }
  }

  lemma DetailIsOneLine(code: nat)
    ensures '\n' !in StatusDetail(code)
  {
    if code in STATUS_DETAIL {
      assert code in {200, 206, 400, 403, 404, 500, 501, 502, 505};
    }
  }

  lemma {:induction false} SplitStatusParts(v: string, d: string, t: string)
    requires ' ' !in v && ' ' !in d
    ensures SplitStatus(v + (" " + (d + (" " + t)))) == Some((v, d, t))
  {
    var line, more := v + (" " + (d + (" " + t))), d + (" " + t);
    assert line == v + [' '] + more;
    FindOn(v, ' ', more);
    assert line[..|v|] == v && line[|v| + 1..] == more;
    assert more == d + [' '] + t;
    FindOn(d, ' ', t);
    assert more[..|d|] == d && more[|d| + 1..] == t;
  }

  predicate Plain(s: string) { ' ' !in s && '\n' !in s }

  lemma {:induction false} DecimalIsPlain(n: nat)
    ensures Plain(ToDecimal(n))
  {
    var d := ToDecimal(n);
    assert forall i :: 0 <= i < |d| ==> IsDigit(d[i]);
  }

  lemma VersionIsPlain(version: Version)
    ensures Plain(VersionText(version))
  {
  }

  lemma {:induction false} OneLine(v: string, d: string, t: string)
    requires Plain(v) && Plain(d) && '\n' !in t
    ensures '\n' !in v + (" " + (d + (" " + t)))
  {
    var more := d + (" " + t);
    assert '\n' !in more;
  }

  lemma {:induction false} SplitStatusOn(version: Version, code: nat)
    ensures '\n' !in StatusLine(version, code)
    ensures SplitStatus(StatusLine(version, code)) == Some((VersionText(version), ToDecimal(code), StatusDetail(code)))
  {
    var v, d, t := VersionText(version), ToDecimal(code), StatusDetail(code);
    assert StatusLine(version, code) == v + (" " + (d + (" " + t)));
    DecimalIsPlain(code);
    VersionIsPlain(version);
    DetailIsOneLine(code);
    OneLine(v, d, t);
    SplitStatusParts(v, d, t);
  }

  /** The reply a printed response reads back as. */
  function AsReply(version: Version, code: nat, hs: seq<Entry>, body: string): Reply {
    Reply(VersionText(version), ToDecimal(code), StatusDetail(code), hs, body)
  }

  lemma {:induction false} SplitFrontOn(version: Version, code: nat, hs: seq<Entry>, body: string, tail: string)
    requires Printable(hs)
    ensures SplitFront(Printed(version, code, hs, body) + tail) == Some((AsReply(version, code, hs, ""), body + tail))
  {
    var line, after := StatusLine(version, code), HeadText(hs) + ("\n" + (body + tail));
    var s := Printed(version, code, hs, body) + tail;
    SplitStatusOn(version, code);
    hide StatusLine, CutLine, SplitStatus, SplitHead;
    assert s == line + "\n" + after;
    CutLineOn(line, after);
    SplitHeadOn(hs, body + tail);
  }

  lemma {:induction false} SplitReplyOn(version: Version, code: nat, hs: seq<Entry>, body: string, tail: string)
    requires Printable(hs) && ContentLength(hs) == Some(|body|)
    ensures SplitReply(Printed(version, code, hs, body) + tail) == Some((AsReply(version, code, hs, body), tail))
  {
    SplitFrontOn(version, code, hs, body, tail);
    hide SplitFront, Printed;
    assert (body + tail)[..|body|] == body && (body + tail)[|body|..] == tail;
  }

  // ----- many responses on one connection

  datatype Response = Response(version: Version, code: nat, headers: seq<Entry>, body: string)

  function Text(r: Response): string { Printed(r.version, r.code, r.headers, r.body) }

  function Texts(rs: seq<Response>): string { if rs == [] then "" else Text(rs[0]) + Texts(rs[1..]) }

  predicate Framed(r: Response) { Printable(r.headers) && ContentLength(r.headers) == Some(|r.body|) }

  function ReplyOf(r: Response): Reply { AsReply(r.version, r.code, r.headers, r.body) }

  function Replies(rs: seq<Response>): seq<Reply> {
    if rs == [] then [] else [ReplyOf(rs[0])] + Replies(rs[1..])
  }

  /** A client splits any run of framed responses back into exactly their statuses, headers and
      bodies, in order. */
  lemma {:induction false} RepliesSplitBack(rs: seq<Response>)
    requires forall i :: 0 <= i < |rs| ==> Framed(rs[i])
    ensures SplitReplies(Texts(rs)) == Some(Replies(rs))
    decreases |rs|
  {
    if rs != [] {
      var r, rest := rs[0], Texts(rs[1..]);
      SplitReplyOn(r.version, r.code, r.headers, r.body, rest);
      RepliesSplitBack(rs[1..]);
      SplitOneMore(Text(r) + rest, ReplyOf(r), rest);
    }
  }

  lemma {:induction false} SplitOneMore(s: string, r: Reply, rest: string)
    requires SplitReply(s) == Some((r, rest)) && |rest| < |s| && SplitReplies(rest).Some?
    ensures SplitReplies(s) == Some([r] + SplitReplies(rest).value)
  {
  }

  /** The split is unique: two runs of responses with the same bytes carry the same replies. */
  lemma {:induction false} SplitIsUnique(rs: seq<Response>, qs: seq<Response>)
    requires forall i :: 0 <= i < |rs| ==> Framed(rs[i])
    requires forall i :: 0 <= i < |qs| ==> Framed(qs[i])
    requires Texts(rs) == Texts(qs)
    ensures Replies(rs) == Replies(qs)
  {
    RepliesSplitBack(rs);
    RepliesSplitBack(qs);
  }

  // ----- a client that knows what it asked

  predicate InRange(code: string, lo: nat, hi: nat) { AllDigits(code) && lo <= ValueOf(code) < hi }

  /** A successful reply to CONNECT: what follows its head is a tunnel (section 3.3.3 of RFC 7230). */
  predicate Tunnels(verb: Method, code: string) { verb == CONNECT && InRange(code, 200, 300) }

  /** Replies that end at the blank line whatever their headers say (section 3.3.3 of RFC 7230). */
  predicate Bodyless(verb: Method, code: string) {
    verb == HEAD || Tunnels(verb, code) || InRange(code, 100, 200) || InRange(code, 204, 205) || InRange(code, 304, 305)
  }

  /** One reply as read by a client that sent a request with this method. */
  function ReadReply(verb: Method, s: string): Option<(Reply, string)> {
    match SplitFront(s)
    case None => None
    case Some((r, rest)) => if Bodyless(verb, r.code) then Some((r, rest)) else SplitReply(s)
  }

  /** The replies a client finds to requests with these methods, and the bytes it is left with. Once a
      tunnel opens there are no more replies. */
  function ReadReplies(verbs: seq<Method>, s: string): Option<(seq<Reply>, string)> {
    if verbs == [] then Some(([], s))
    else
      match ReadReply(verbs[0], s)
      case None => None
      case Some((r, rest)) =>
        if Tunnels(verbs[0], r.code) then Some(([r], rest))
        else
          match ReadReplies(verbs[1..], rest)
          case None => None
          case Some((rs, left)) => Some(([r] + rs, left))
  }

  /** The reply such a client should find. */
  function ReplyTo(verb: Method, r: Response): Reply {
    if Bodyless(verb, ToDecimal(r.code)) then ReplyOf(r).(body := "") else ReplyOf(r)
  }

  function RepliesTo(verbs: seq<Method>, rs: seq<Response>): (replies: seq<Reply>)
    requires |verbs| == |rs|
    ensures |replies| == |rs| && forall i :: 0 <= i < |rs| ==> replies[i] == ReplyTo(verbs[i], rs[i])
  {
    if rs == [] then [] else [ReplyTo(verbs[0], rs[0])] + RepliesTo(verbs[1..], rs[1..])
  }

  /** No reply that must not have a body was sent with one, and none before the last opens a tunnel. */
  predicate InStep(verbs: seq<Method>, rs: seq<Response>)
    requires |verbs| == |rs|
  {
    && (forall i :: 0 <= i < |rs| ==> Bodyless(verbs[i], ToDecimal(rs[i].code)) ==> rs[i].body == "")
    && (forall i :: 0 <= i < |rs| - 1 ==> !Tunnels(verbs[i], ToDecimal(rs[i].code)))
  }

  // the length of what a client reads is determined by what it reads

  function HeadLength(hs: seq<Entry>): nat {
    if hs == [] then 1 else |hs[0].key| + |hs[0].value| + 3 + HeadLength(hs[1..])
  }

  function ReplyLength(r: Reply): nat { |r.version| + |r.code| + |r.detail| + 3 + HeadLength(r.headers) + |r.body| }

  function TotalLength(rs: seq<Reply>): nat { if rs == [] then 0 else ReplyLength(rs[0]) + TotalLength(rs[1..]) }

  lemma {:induction false} SplitHeadLength(s: string)
    requires SplitHead(s).Some?
    ensures |s| == HeadLength(SplitHead(s).value.0) + |SplitHead(s).value.1|
    decreases |s|
  {
    var (line, rest) := CutLine(s).value;
    if line != "" {
      SplitHeadLength(rest);
      var h, hs := SplitField(line).value, SplitHead(rest).value.0;
      assert ([h] + hs)[1..] == hs;
    }
  }

  lemma {:induction false} SplitFrontLength(s: string)
    requires SplitFront(s).Some?
    ensures SplitFront(s).value.0.body == "" && |s| == ReplyLength(SplitFront(s).value.0) + |SplitFront(s).value.1|
  {
    SplitHeadLength(CutLine(s).value.1);
    hide SplitHead, HeadLength, Find;
  }

  lemma {:induction false} ReadReplyLength(verb: Method, s: string)
    requires ReadReply(verb, s).Some?
    ensures |s| == ReplyLength(ReadReply(verb, s).value.0) + |ReadReply(verb, s).value.1|
  {
    SplitFrontLength(s);
    hide SplitFront, HeadLength, Bodyless, ContentLength;
  }

  lemma {:induction false} ReadRepliesLength(verbs: seq<Method>, s: string)
    requires ReadReplies(verbs, s).Some?
    ensures |s| == TotalLength(ReadReplies(verbs, s).value.0) + |ReadReplies(verbs, s).value.1|
    decreases |verbs|
  {
    hide ReadReply, Tunnels, ReplyLength;
    if verbs != [] {
      ReadReplyLength(verbs[0], s);
      var (r, rest) := ReadReply(verbs[0], s).value;
      assert [r][1..] == [];
      if !Tunnels(verbs[0], r.code) {
        ReadRepliesLength(verbs[1..], rest);
        var more := ReadReplies(verbs[1..], rest).value.0;
        assert ([r] + more)[1..] == more;
      }
    }
  }

  lemma {:induction false} TunnelIsLast(verbs: seq<Method>, s: string)
    requires ReadReplies(verbs, s).Some? && |ReadReplies(verbs, s).value.0| == |verbs|
    ensures forall i :: 0 <= i < |verbs| - 1 ==> !Tunnels(verbs[i], ReadReplies(verbs, s).value.0[i].code)
    decreases |verbs|
  {
    hide ReadReply, Tunnels;
    if verbs != [] {
      var (r, rest) := ReadReply(verbs[0], s).value;
      if !Tunnels(verbs[0], r.code) {
        TunnelIsLast(verbs[1..], rest);
      }
    }
  }

  lemma {:induction false} TextLength(verb: Method, r: Response)
    requires Framed(r)
    ensures |Text(r)| >= ReplyLength(ReplyTo(verb, r))
    ensures |Text(r)| == ReplyLength(ReplyTo(verb, r)) <==> (Bodyless(verb, ToDecimal(r.code)) ==> r.body == "")
  {
    SplitFrontOn(r.version, r.code, r.headers, r.body, "");
    SplitFrontLength(Text(r) + "");
    hide SplitFront, Bodyless, Printed;
  }

  lemma {:induction false} TextsLength(verbs: seq<Method>, rs: seq<Response>)
    requires |verbs| == |rs| && forall i :: 0 <= i < |rs| ==> Framed(rs[i])
    ensures |Texts(rs)| >= TotalLength(RepliesTo(verbs, rs))
    decreases |rs|
  {
    if rs != [] {
      TextLength(verbs[0], rs[0]);
      TextsLength(verbs[1..], rs[1..]);
      hide Framed, Text, Bodyless, ReplyTo, ReplyLength, ToDecimal;
      assert RepliesTo(verbs, rs)[1..] == RepliesTo(verbs[1..], rs[1..]);
    }
  }

  lemma {:induction false} NothingExtra(verbs: seq<Method>, rs: seq<Response>, i: nat)
    requires |verbs| == |rs| && i < |rs| && forall i :: 0 <= i < |rs| ==> Framed(rs[i])
    requires |Texts(rs)| == TotalLength(RepliesTo(verbs, rs))
    ensures Bodyless(verbs[i], ToDecimal(rs[i].code)) ==> rs[i].body == ""
    decreases |rs|
  {
    TextLength(verbs[0], rs[0]);
    TextsLength(verbs[1..], rs[1..]);
    hide Framed, Text, Bodyless, ReplyTo, ReplyLength, ToDecimal;
    assert RepliesTo(verbs, rs)[1..] == RepliesTo(verbs[1..], rs[1..]);
    if i > 0 {
      NothingExtra(verbs[1..], rs[1..], i - 1);
    }
  }

  lemma {:induction false} ReadReplyOn(verb: Method, r: Response, tail: string)
    requires Framed(r) && (Bodyless(verb, ToDecimal(r.code)) ==> r.body == "")
    ensures ReadReply(verb, Text(r) + tail) == Some((ReplyTo(verb, r), tail))
  {
    SplitFrontOn(r.version, r.code, r.headers, r.body, tail);
    SplitReplyOn(r.version, r.code, r.headers, r.body, tail);
    hide SplitFront, SplitReply, Printed, Bodyless;
    assert "" + tail == tail;
  }

  lemma {:induction false} InStepTail(verbs: seq<Method>, rs: seq<Response>)
    requires |verbs| == |rs| && rs != [] && InStep(verbs, rs)
    ensures InStep(verbs[1..], rs[1..])
    ensures Tunnels(verbs[0], ToDecimal(rs[0].code)) ==> rs[1..] == []
  {
    hide Bodyless, Tunnels, ToDecimal;
    assert forall i :: 0 <= i < |rs| - 1 ==> rs[1..][i] == rs[i + 1] && verbs[1..][i] == verbs[i + 1];
  }

  lemma {:induction false} ReadOneMore(verbs: seq<Method>, s: string, r: Reply, rest: string)
    requires verbs != [] && ReadReply(verbs[0], s) == Some((r, rest))
    ensures Tunnels(verbs[0], r.code) ==> ReadReplies(verbs, s) == Some(([r], rest))
    ensures var more := ReadReplies(verbs[1..], rest);
            !Tunnels(verbs[0], r.code) && more.Some? ==>
              ReadReplies(verbs, s) == Some(([r] + more.value.0, more.value.1))
  {
  }

  lemma {:induction false} StepByStep(verbs: seq<Method>, rs: seq<Response>, left: string)
    requires |verbs| == |rs| && InStep(verbs, rs) && forall i :: 0 <= i < |rs| ==> Framed(rs[i])
    ensures ReadReplies(verbs, Texts(rs) + left) == Some((RepliesTo(verbs, rs), left))
    decreases |rs|
  {
    if rs == [] {
      assert Texts(rs) + left == left;
    } else {
      var tail, r := Texts(rs[1..]) + left, ReplyTo(verbs[0], rs[0]);
      Associate(Text(rs[0]), Texts(rs[1..]), left);
      assert Bodyless(verbs[0], ToDecimal(rs[0].code)) ==> rs[0].body == "";
      ReadReplyOn(verbs[0], rs[0], tail);
      InStepTail(verbs, rs);
      assert r.code == ToDecimal(rs[0].code);
      ReadOneMore(verbs, Texts(rs) + left, r, tail);
      StepByStep(verbs[1..], rs[1..], left);
      assert rs[1..] == [] ==> tail == "" + left == left;
      hide *;
      assert RepliesTo(verbs, rs) == [r] + RepliesTo(verbs[1..], rs[1..]);
      if rs[1..] == [] {
        assert RepliesTo(verbs, rs) == [r];
      }
    }
  }

  /** A client that frames replies by what it asked finds exactly the replies to its requests, in order,
      and is left with exactly what follows them, if and only if no HEAD and no CONNECT that opened a
      tunnel was answered with a non-empty page, and no tunnel was opened before the last. */
  lemma {:induction false} ClientKeepsStep(verbs: seq<Method>, rs: seq<Response>, left: string)
    requires |verbs| == |rs| && forall i :: 0 <= i < |rs| ==> Framed(rs[i])
    ensures ReadReplies(verbs, Texts(rs) + left) == Some((RepliesTo(verbs, rs), left)) <==> InStep(verbs, rs)
  {
    if InStep(verbs, rs) {
      StepByStep(verbs, rs, left);
    } else if ReadReplies(verbs, Texts(rs) + left) == Some((RepliesTo(verbs, rs), left)) {
      ReadRepliesLength(verbs, Texts(rs) + left);
      forall i | 0 <= i < |rs| ensures Bodyless(verbs[i], ToDecimal(rs[i].code)) ==> rs[i].body == "" {
        NothingExtra(verbs, rs, i);
      }
      TunnelIsLast(verbs, Texts(rs) + left);
      assert false;
    }
  }

  // ----- a reply cut short

  lemma {:induction false} FindExtends(s: string, c: char, more: string)
    requires Find(s, c) < |s|
    ensures Find(s + more, c) == Find(s, c)
  {
    if s[0] != c {
      assert (s + more)[1..] == s[1..] + more;
      FindExtends(s[1..], c, more);
    }
  }

  lemma {:induction false} CutLineExtends(s: string, more: string)
    requires CutLine(s).Some?
    ensures CutLine(s + more) == Some((CutLine(s).value.0, CutLine(s).value.1 + more))
  {
    FindExtends(s, '\n', more);
    var i := Find(s, '\n');
    assert (s + more)[..i] == s[..i] && (s + more)[i + 1..] == s[i + 1..] + more;
  }

  lemma {:induction false} SplitHeadExtends(s: string, more: string)
    requires SplitHead(s).Some?
    ensures SplitHead(s + more) == Some((SplitHead(s).value.0, SplitHead(s).value.1 + more))
    decreases |s|
  {
    CutLineExtends(s, more);
    hide CutLine, SplitField;
    var (line, rest) := CutLine(s).value;
    if line != "" {
      SplitHeadExtends(rest, more);
    }
  }

  lemma {:induction false} SplitFrontExtends(s: string, more: string)
    requires SplitFront(s).Some?
    ensures SplitFront(s + more) == Some((SplitFront(s).value.0, SplitFront(s).value.1 + more))
  {
    CutLineExtends(s, more);
    hide CutLine, SplitStatus, SplitHead;
    SplitHeadExtends(CutLine(s).value.1, more);
  }

  lemma {:induction false} SplitReplyExtends(s: string, more: string)
    requires SplitReply(s).Some?
    ensures SplitReply(s + more) == Some((SplitReply(s).value.0, SplitReply(s).value.1 + more))
  {
    hide SplitFront, ContentLength;
    SplitFrontExtends(s, more);
    var (r, rest) := SplitFront(s).value;
    CutExtends(rest, more, ContentLength(r.headers).value);
  }

  lemma CutExtends(s: string, more: string, n: nat)
    requires n <= |s|
    ensures (s + more)[..n] == s[..n] && (s + more)[n..] == s[n..] + more
  {
  }

  /** A response whose announced length is not all there. */
  lemma {:induction false} ShortReply(r: Response)
    requires Printable(r.headers) && ContentLength(r.headers).Some? && ContentLength(r.headers).value > |r.body|
    ensures SplitReply(Text(r)).None?
  {
    SplitFrontOn(r.version, r.code, r.headers, r.body, "");
    assert Text(r) + "" == Text(r) && |r.body + ""| == |r.body|;
    hide SplitFront, Printed;
  }

  /** Of a response that is to have a body, a client that got less than all of it finds nothing. */
  lemma {:induction false} CutReply(verb: Method, r: Response, part: string)
    requires Printable(r.headers) && part <= Text(r) && !Bodyless(verb, ToDecimal(r.code))
    requires ContentLength(r.headers).Some?
    requires ContentLength(r.headers).value > |r.body| || (Framed(r) && part != Text(r))
    ensures ReadReply(verb, part).None?
  {
    var more := Text(r)[|part|..];
    assert part + more == Text(r) && Text(r) + "" == Text(r);
    if ReadReply(verb, part).Some? {
      SplitFrontOn(r.version, r.code, r.headers, r.body, "");
      SplitFrontExtends(part, more);
      hide SplitFront, SplitReply, Printed, Bodyless, ContentLength, Printable, ToDecimal;
      assert SplitFront(part).value.0.code == ToDecimal(r.code);
      SplitReplyExtends(part, more);
      if ContentLength(r.headers).value > |r.body| {
        ShortReply(r);
      } else {
        SplitReplyOn(r.version, r.code, r.headers, r.body, "");
      }
      assert false;
    }
  }
}
