/** `std::istream` over `SocketStreamBuffer`, reading side: a get area refilled by `underflow`,
    and the formatted and unformatted reads the request parser uses. A byte is the character
    with that code. */
module SocketInput {
  import opened Wrappers
  import opened Decimal

  // `underflow` returns *gptr() as a signed char, so this byte at the front of a chunk reads as EOF
  const EOF_BYTE: char := '\U{FF}'

  /** area: unread part of the get area. pending: what the next `recv` calls will deliver, one
      string per call, the empty string standing for a call that returns no bytes. */
  datatype Stream = Stream(area: string, pending: seq<string>, eof: bool, fail: bool) {
    predicate Good() { !eof && !fail }

    /** Every byte a reader can still reach: up to the first `recv` that yields EOF. */
    function Visible(): string { area + Reachable(pending) }

    /** The same stream with all reachable bytes already in one get area. */
    function Whole(): Stream {
      Stream(if eof then "" else Visible(), [], eof, fail)
    }

    function Bump(): Stream
      requires area != ""
    {
      this.(area := area[1..])
    }
  }

  predicate ReadsAsEof(chunk: string) { chunk == "" || chunk[0] == EOF_BYTE }

  function Reachable(chunks: seq<string>): string {
    if chunks == [] || ReadsAsEof(chunks[0]) then "" else chunks[0] + Reachable(chunks[1..])
  }

  /** When every `recv` delivers something, all of it can be read exactly when no chunk starts
      with byte 0xFF. */
  lemma {:induction false} ReachableIsEverything(chunks: seq<string>)
    requires forall i :: 0 <= i < |chunks| ==> chunks[i] != ""
    ensures Reachable(chunks) == Concat(chunks) <==> forall i :: 0 <= i < |chunks| ==> chunks[i][0] as int != 0xFF
  {
    if chunks != [] && !ReadsAsEof(chunks[0]) {
      ReachableIsEverything(chunks[1..]);
      var head, rest := chunks[0], chunks[1..];
      assert (head + Reachable(rest))[|head|..] == Reachable(rest);
      assert (head + Concat(rest))[|head|..] == Concat(rest);
      assert forall i :: 0 < i < |chunks| ==> chunks[i] == rest[i - 1];
    }
  }

  /** So chunks that start with a character of the ASCII set are all reachable. */
  lemma {:induction false} AsciiIsReachable(chunks: seq<string>)
    requires forall i :: 0 <= i < |chunks| ==> chunks[i] != "" && chunks[i][0] as int < 0x80
    ensures Reachable(chunks) == Concat(chunks)
  {
    ReachableIsEverything(chunks);
  }

  /** sgetc: the next byte without consuming it, refilling an empty get area with one `recv`. */
  function Peek(s: Stream): (r: (Option<char>, Stream))
    ensures r.1.eof == s.eof && r.1.fail == s.fail
    ensures r.0 == if s.Visible() == "" then None else Some(s.Visible()[0])
    ensures r.0.Some? ==> r.1.area != "" && r.1.area[0] == r.0.value && r.1.Visible() == s.Visible()
    ensures r.0.Some? ==> r.1.Bump().Visible() == s.Visible()[1..]
  {
    if s.area != "" then
      assert s.Bump().Visible() == s.Visible()[1..];
      (Some(s.area[0]), s)
    else if s.pending == [] then
      (None, s)
    else
      var chunk := s.pending[0];
      var t := s.(area := chunk, pending := s.pending[1..]);
      if ReadsAsEof(chunk) then (None, t)
      else
        assert t.Bump().Visible() == s.Visible()[1..];
        (Some(chunk[0]), t)
  }

  /** The bytes left for a reader that respects the stream state. */
  function Left(s: Stream): nat { |s.Whole().area| }

  /** The white-space skip of the input sentry. */
  function SkipSpace(s: Stream): (t: Stream)
    requires s.Good()
    ensures t.eof <==> t.fail
    ensures !t.eof ==> t.area != "" && !IsSpace(t.area[0]) && |t.Visible()| <= |s.Visible()|
    decreases |s.Visible()|
  {
    var (c, t) := Peek(s);
    if c.None? then t.(eof := true, fail := true)
    else if IsSpace(c.value) then SkipSpace(t.Bump())
    else t
  }

  function TakeWord(s: Stream): (r: (string, Stream))
    requires s.Good()
    ensures !r.1.fail
    ensures s.Visible() != "" && !IsSpace(s.Visible()[0]) ==> r.0 != ""
    ensures Left(r.1) <= |s.Visible()| - |r.0|
    decreases |s.Visible()|
  {
    var (c, t) := Peek(s);
    if c.None? then ("", t.(eof := true))
    else if IsSpace(c.value) then ("", t)
    else var (w, u) := TakeWord(t.Bump()); ([c.value] + w, u)
  }

  /** operator>> into a string. */
  function ReadWord(s: Stream): (r: (string, Stream))
    ensures s.Good() ==> (r.1.fail ==> r.1.eof)
    ensures !r.1.fail ==> s.Good() && r.0 != "" && Left(r.1) < Left(s)
    ensures Left(r.1) <= Left(s)
  {
    if !s.Good() then ("", s.(fail := true))
    else
      var t := SkipSpace(s);
      if t.eof then ("", t) else TakeWord(t)
  }

  /** istream::get. */
  function GetChar(s: Stream): (r: (Option<char>, Stream))
    ensures r.1.fail <==> r.0.None?
    ensures s.Good() ==> (r.1.fail ==> r.1.eof)
    ensures Left(r.1) <= Left(s)
  {
    if !s.Good() then (None, s.(fail := true))
    else
      var (c, t) := Peek(s);
      if c.None? then (None, t.(eof := true, fail := true)) else (c, t.Bump())
  }

  function TakeLine(s: Stream): (r: (string, Stream))
    requires s.Good()
    ensures !r.1.fail
    ensures r.1.eof || Left(r.1) < |s.Visible()|
    ensures r.0 != "" ==> Left(r.1) < |s.Visible()|
    decreases |s.Visible()|
  {
    var (c, t) := Peek(s);
    if c.None? then ("", t.(eof := true))
    else if c.value == '\n' then ("", t.Bump())
    else var (l, u) := TakeLine(t.Bump()); ([c.value] + l, u)
  }

  /** std::getline up to a line feed, which is consumed and dropped. */
  function GetLine(s: Stream): (r: (string, Stream))
    ensures s.Good() ==> (r.1.fail ==> r.1.eof)
    ensures !r.1.fail ==> s.Good() && Left(r.1) < Left(s)
    ensures Left(r.1) <= Left(s)
  {
    if !s.Good() then ("", s.(fail := true))
    else
      var (l, t) := TakeLine(s);
      if t.eof && l == "" then ("", t.(fail := true)) else (l, t)
  }

  /** istream::readsome: only what the get area already holds; it never refills. */
  function ReadSome(s: Stream, n: nat): (string, Stream) {
    if !s.Good() then ("", s.(fail := true))
    else
      var k := Min(n, |s.area|);
      (s.area[..k], s.(area := s.area[k..]))
  }

  // How the bytes were split over recv calls is invisible to every read but readsome.

  lemma {:induction false} SkipSpaceWhole(s: Stream)
    requires s.Good()
    ensures SkipSpace(s.Whole()) == SkipSpace(s).Whole()
    decreases |s.Visible()|
  {
    var (c, t) := Peek(s);
    if c.Some? && IsSpace(c.value) {
      assert s.Whole().Bump() == t.Bump().Whole();
      SkipSpaceWhole(t.Bump());
    }
  }

  lemma {:induction false} TakeWordWhole(s: Stream)
    requires s.Good()
    ensures TakeWord(s.Whole()) == (TakeWord(s).0, TakeWord(s).1.Whole())
    decreases |s.Visible()|
  {
    var (c, t) := Peek(s);
    if c.Some? && !IsSpace(c.value) {
      assert s.Whole().Bump() == t.Bump().Whole();
      TakeWordWhole(t.Bump());
    }
  }

  lemma {:induction false} TakeLineWhole(s: Stream)
    requires s.Good()
    ensures TakeLine(s.Whole()) == (TakeLine(s).0, TakeLine(s).1.Whole())
    decreases |s.Visible()|
  {
    var (c, t) := Peek(s);
    if c.Some? && c.value != '\n' {
      assert s.Whole().Bump() == t.Bump().Whole();
      TakeLineWhole(t.Bump());
    }
  }

  /** The refilled get area refines the flat sequence of reachable bytes. */
  lemma {:induction false} ReadsAreChunkIndependent(s: Stream)
    ensures ReadWord(s.Whole()) == (ReadWord(s).0, ReadWord(s).1.Whole())
    ensures GetLine(s.Whole()) == (GetLine(s).0, GetLine(s).1.Whole())
    ensures GetChar(s.Whole()) == (GetChar(s).0, GetChar(s).1.Whole())
  {
    if s.Good() {
      SkipSpaceWhole(s);
      var t := SkipSpace(s);
      if !t.eof {
        TakeWordWhole(t);
      }
      TakeLineWhole(s);
      var (c, u) := Peek(s);
      if c.Some? {
        assert s.Whole().Bump() == u.Bump().Whole();
      }
    }
  }

  // How much of the pieces received is in the get area.

  /** What the get area still holds once n bytes are consumed: the rest of the piece that brought the
      last of them. */
  function Held(area: string, pending: seq<string>, n: nat): nat
    decreases |pending|
  {
    if n <= |area| then |area| - n
    else if pending == [] then 0
    else Held(pending[0], pending[1..], n - |area|)
  }

  function HeldIn(s: Stream, n: nat): nat { Held(s.area, s.pending, n) }

  /** t is what s comes to once n bytes are consumed, as far as what the get area will hold goes. */
  ghost predicate Ahead(t: Stream, s: Stream, n: nat) {
    forall k: nat :: HeldIn(t, k) == HeldIn(s, n + k)
  }

  lemma {:induction false} AheadNow(t: Stream, s: Stream, n: nat, k: nat)
    requires Ahead(t, s, n)
    ensures Held(t.area, t.pending, k) == Held(s.area, s.pending, n + k)
  {
    assert HeldIn(t, k) == HeldIn(s, n + k);
  }

  lemma {:induction false} AheadTwice(u: Stream, t: Stream, s: Stream, m: nat, n: nat)
    requires Ahead(u, t, m) && Ahead(t, s, n)
    ensures Ahead(u, s, n + m)
  {
    hide HeldIn;
    forall k: nat ensures HeldIn(u, k) == HeldIn(s, n + m + k) {
      assert HeldIn(t, m + k) == HeldIn(s, n + (m + k));
    }
  }

  /** Bytes consumed between two states of a stream. */
  function Consumed(s: Stream, t: Stream): int { |s.Visible()| - |t.Visible()| }

  lemma {:induction false} PeekHeld(s: Stream, k: nat)
    requires Peek(s).0.Some?
    ensures k > 0 ==> HeldIn(Peek(s).1, k) == HeldIn(s, k)
    ensures HeldIn(Peek(s).1.Bump(), k) == HeldIn(s, k + 1)
    ensures Consumed(s, Peek(s).1) == 0 && Consumed(s, Peek(s).1.Bump()) == 1
  {
    var t := Peek(s).1;
    assert HeldIn(t, k + 1) == HeldIn(s, k + 1);
    assert |t.Bump().area| == |t.area| - 1;
  }

  lemma {:induction false} SkipSpaceHeld(s: Stream, k: nat)
    requires s.Good() && !SkipSpace(s).eof && k > 0
    ensures Consumed(s, SkipSpace(s)) >= 0 && HeldIn(SkipSpace(s), k) == HeldIn(s, k + Consumed(s, SkipSpace(s)))
    decreases |s.Visible()|
  {
    var (c, t) := Peek(s);
    PeekHeld(s, k);
    hide Held;
    if IsSpace(c.value) {
      SkipSpaceHeld(t.Bump(), k);
      PeekHeld(s, k + Consumed(t.Bump(), SkipSpace(s)));
    }
  }

  lemma {:induction false} TakeWordHeld(s: Stream, k: nat)
    requires s.Good() && !TakeWord(s).1.eof && k > 0
    ensures var t := TakeWord(s).1; Consumed(s, t) >= 0 && HeldIn(t, k) == HeldIn(s, k + Consumed(s, t))
    decreases |s.Visible()|
  {
    var (c, t) := Peek(s);
    PeekHeld(s, k);
    if !IsSpace(c.value) {
      TakeWordHeld(t.Bump(), k);
      PeekHeld(s, k + Consumed(t.Bump(), TakeWord(s).1));
    }
  }

  lemma {:induction false} TakeLineHeld(s: Stream, k: nat)
    requires s.Good() && !TakeLine(s).1.eof
    ensures var t := TakeLine(s).1; Consumed(s, t) >= 0 && HeldIn(t, k) == HeldIn(s, k + Consumed(s, t))
    decreases |s.Visible()|
  {
    var (c, t) := Peek(s);
    PeekHeld(s, k);
    if c.value != '\n' {
      TakeLineHeld(t.Bump(), k);
      PeekHeld(s, k + Consumed(t.Bump(), TakeLine(s).1));
    }
  }

  // A read that does not meet the end leaves in the get area what the bytes it consumed leave of the
  // pieces received; a word read stops in front of the byte that ended it.

  lemma {:induction false} ReadWordHeld(s: Stream, k: nat)
    requires !ReadWord(s).1.fail && !ReadWord(s).1.eof && k > 0
    ensures var t := ReadWord(s).1; Consumed(s, t) >= 0 && HeldIn(t, k) == HeldIn(s, k + Consumed(s, t))
  {
    var t := SkipSpace(s);
    hide SkipSpace, TakeWord, Held;
    TakeWordHeld(t, k);
    SkipSpaceHeld(s, k + Consumed(t, TakeWord(t).1));
  }

  lemma {:induction false} GetLineHeld(s: Stream, k: nat)
    requires !GetLine(s).1.fail && !GetLine(s).1.eof
    ensures var t := GetLine(s).1; Consumed(s, t) >= 0 && HeldIn(t, k) == HeldIn(s, k + Consumed(s, t))
  {
    hide TakeLine, Held;
    TakeLineHeld(s, k);
  }

  lemma {:induction false} GetCharHeld(s: Stream, k: nat)
    requires GetChar(s).0.Some?
    ensures var t := GetChar(s).1; Consumed(s, t) >= 0 && HeldIn(t, k) == HeldIn(s, k + Consumed(s, t))
  {
    hide Held;
    PeekHeld(s, k);
  }

  // One round of the extraction loops, with the text taken so far in front.

  function Prefixed(taken: string, r: (string, Stream)): (string, Stream) { (taken + r.0, r.1) }

  lemma {:induction false} TakeWordStep(s: Stream, w: string)
    requires s.Good() && s.area != "" && !IsSpace(s.area[0])
    ensures var t := s.Bump(); var (c, u) := Peek(t);
            Prefixed(w, TakeWord(s)) ==
            if c.Some? then Prefixed(w + [s.area[0]], TakeWord(u)) else (w + [s.area[0]], u.(eof := true))
  {
    var (c, u) := Peek(s.Bump());
    var taken := w + [s.area[0]];
    assert TakeWord(s) == Prefixed([s.area[0]], TakeWord(s.Bump()));
    assert w + TakeWord(s).0 == taken + TakeWord(s.Bump()).0;
    if c.Some? {
      assert Peek(u) == (c, u);
      assert TakeWord(u) == TakeWord(s.Bump());
    } else {
      assert taken + "" == taken;
    }
  }

  lemma {:induction false} TakeLineStep(s: Stream, l: string)
    requires s.Good() && s.area != "" && s.area[0] != '\n'
    ensures var t := s.Bump(); var (c, u) := Peek(t);
            Prefixed(l, TakeLine(s)) ==
            if c.Some? then Prefixed(l + [s.area[0]], TakeLine(u)) else (l + [s.area[0]], u.(eof := true))
  {
    var (c, u) := Peek(s.Bump());
    var taken := l + [s.area[0]];
    assert TakeLine(s) == Prefixed([s.area[0]], TakeLine(s.Bump()));
    assert l + TakeLine(s).0 == taken + TakeLine(s.Bump()).0;
    if c.Some? {
      assert Peek(u) == (c, u);
      assert TakeLine(u) == TakeLine(s.Bump());
    } else {
      assert taken + "" == taken;
    }
  }

  /** The reader object: the same operations as in-place updates, loop for loop. */
  class InputStream {
    var area: string
    var pending: seq<string>
    var eof: bool
    var fail: bool

    function State(): Stream
      reads this
    {
      Stream(area, pending, eof, fail)
    }

    constructor (chunks: seq<string>)
      ensures State() == Stream("", chunks, false, false)
    {
      area, pending, eof, fail := "", chunks, false, false;
    }

    // sgetc with SocketStreamBuffer::underflow inlined
    method Sgetc() returns (c: Option<char>)
      modifies this
      ensures (c, State()) == Peek(old(State()))
    {
      if area == "" {
        if pending == [] {
          return None;
        }
        var chunk := pending[0];
        area, pending := chunk, pending[1..];
        if ReadsAsEof(chunk) {
          return None;
        }
      }
      c := Some(area[0]);
    }

    // the sentry's white-space loop; c is the byte it stopped on
    method SkipWhite() returns (c: Option<char>)
      requires State().Good()
      modifies this
      ensures c.Some? ==> State() == SkipSpace(old(State())) && Peek(State()) == (c, State()) && State().Good()
      ensures c.None? ==> State().(eof := true, fail := true) == SkipSpace(old(State()))
    {
      c := Sgetc();
      while c.Some? && IsSpace(c.value)
        invariant State().Good()
        invariant c.Some? ==> Peek(State()) == (c, State()) && SkipSpace(old(State())) == SkipSpace(State())
        invariant c.None? ==> SkipSpace(old(State())) == State().(eof := true, fail := true)
        decreases c.Some?, |State().Visible()|
      {
        area := area[1..];
        c := Sgetc();
      }
    }

    method ReadToken() returns (w: string)
      modifies this
      ensures (w, State()) == ReadWord(old(State()))
    {
      w := "";
      if eof || fail {
        fail := true;
        return;
      }
      var c := SkipWhite();
      if c.None? {
        eof, fail := true, true;
        return;
      }
      ghost var word := TakeWord(State());
      assert w + word.0 == word.0 && Prefixed(w, word) == word;
      while c.Some? && !IsSpace(c.value)
        invariant State().Good()
        invariant c.Some? ==> Peek(State()) == (c, State()) && word == Prefixed(w, TakeWord(State()))
        invariant c.None? ==> word == (w, State().(eof := true))
        decreases c.Some?, |State().Visible()|
      {
        TakeWordStep(State(), w);
        w := w + [c.value];
        area := area[1..];
        c := Sgetc();
      }
      assert w + "" == w;
      if c.None? {
        eof := true;
      }
    }

    method Get() returns (c: Option<char>)
      modifies this
      ensures (c, State()) == GetChar(old(State()))
    {
      if eof || fail {
        fail := true;
        return None;
      }
      c := Sgetc();
      if c.None? {
        eof, fail := true, true;
      } else {
        area := area[1..];
      }
    }

    method ReadLine() returns (l: string)
      modifies this
      ensures (l, State()) == GetLine(old(State()))
    {
      l := "";
      if eof || fail {
        fail := true;
        return;
      }
      ghost var line := TakeLine(State());
      var c := Sgetc();
      assert l + line.0 == line.0 && Prefixed(l, line) == line;
      while c.Some? && c.value != '\n'
        invariant State().Good()
        invariant c.Some? ==> Peek(State()) == (c, State()) && line == Prefixed(l, TakeLine(State()))
        invariant c.None? ==> line == (l, State().(eof := true))
        decreases c.Some?, |State().Visible()|
      {
        TakeLineStep(State(), l);
        l := l + [c.value];
        area := area[1..];
        c := Sgetc();
      }
      assert l + "" == l;
      if c.Some? {
        area := area[1..];
      } else {
        eof := true;
        fail := l == "";
      }
    }

    method ReadAvailable(n: nat) returns (text: string)
      modifies this
      ensures (text, State()) == ReadSome(old(State()), n)
    {
      if eof || fail {
        fail := true;
        return "";
      }
      var k := Min(n, |area|);
      text := area[..k];
      area := area[k..];
    }
  }
}
