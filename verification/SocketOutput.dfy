/** `std::ostream` over `SocketStreamBuffer`, writing side: a put area flushed by `send`. */
module SocketOutput {
  import opened Wrappers

  const BFSIZE: nat := 4096

  /** flush: the send loop on a put area. sends lists what the next calls accept, 0 for a call that
      fails; an exhausted list fails too. Every call is handed the area from its start, so a later
      call of the same loop repeats bytes an earlier one took. */
  datatype Flushed = Flushed(wire: string, rest: nat, sends: seq<nat>)

  function Flush(area: string, rest: nat, sends: seq<nat>): (f: Flushed)
    requires rest <= |area|
    ensures f.rest <= rest
    ensures |f.wire| + f.rest == rest
    decreases rest
  {
    if rest == 0 then Flushed("", 0, sends)
    else if sends == [] then Flushed("", rest, [])
    else if sends[0] == 0 then Flushed("", rest, sends[1..])
    else
      var taken := Min(sends[0], rest);
      var f := Flush(area, rest - taken, sends[1..]);
      Flushed(area[..taken] + f.wire, f.rest, f.sends)
  }

  /** The first call takes all it is offered, or nothing. */
  predicate TakesWhole(n: nat, sends: seq<nat>) {
    n == 0 || sends == [] || sends[0] == 0 || sends[0] >= n
  }

  /** An area in which a byte repeated from its start shows. */
  function Marked(n: nat): string { seq(n, i => if i % BFSIZE == 0 then 'a' else 'b') }

  lemma {:induction false} FlushStartsAtTheFront(area: string, rest: nat, sends: seq<nat>)
    requires rest <= |area| && Flush(area, rest, sends).wire != ""
    ensures Flush(area, rest, sends).wire[0] == area[0]
  {
  }

  lemma {:induction false} FlushTakesWhole(area: string, sends: seq<nat>)
    requires TakesWhole(|area|, sends)
    ensures Flush(area, |area|, sends) ==
            if area == "" then Flushed("", 0, sends)
            else if sends == [] then Flushed("", |area|, [])
            else if sends[0] == 0 then Flushed("", |area|, sends[1..])
            else Flushed(area, 0, sends[1..])
  {
    assert area[..|area|] + "" == area;
  }

  /** When the first call takes some but not all, the byte after those is the area's first again. */
  lemma {:induction false} FlushRepeats(area: string, sends: seq<nat>)
    requires !TakesWhole(|area|, sends)
    ensures var f, k := Flush(area, |area|, sends), sends[0];
            && 0 < k < |area| && |f.wire + area[..f.rest]| == |area| && (f.wire + area[..f.rest])[k] == area[0]
            && (f.rest == 0 ==> f.wire[k] == area[0])
  {
    var k := sends[0];
    var more := Flush(area, |area| - k, sends[1..]);
    if more.wire != "" {
      FlushStartsAtTheFront(area, |area| - k, sends[1..]);
    }
  }

  /** Bytes put on the wire, then bytes kept, are the area, whatever its bytes, exactly when the first
      call takes the whole area or nothing: complete and incomplete flushes alike. */
  lemma {:induction false} FlushIsFaithful(n: nat, sends: seq<nat>)
    requires 0 < n <= BFSIZE
    ensures (forall area: string | |area| == n :: var f := Flush(area, n, sends); f.wire + area[..f.rest] == area)
            <==> sends == [] || sends[0] == 0 || sends[0] >= n
  {
    if TakesWhole(n, sends) {
      forall area: string | |area| == n
        ensures var f := Flush(area, n, sends); f.wire + area[..f.rest] == area
      {
        FlushTakesWhole(area, sends);
        assert area + area[..0] == area && "" + area[..n] == area;
      }
    } else {
      var area := Marked(n);
      FlushRepeats(area, sends);
      assert area[sends[0]] == 'b';
    }
  }

  ghost function After(sent: string, f: Flushed): Flushed { f.(wire := sent + f.wire) }

  lemma {:induction false} FlushRound(area: string, rest: nat, sends: seq<nat>, sent: string)
    requires 0 < rest <= |area| && sends != [] && sends[0] != 0
    ensures var taken := Min(sends[0], rest);
            After(sent, Flush(area, rest, sends)) == After(sent + area[..taken], Flush(area, rest - taken, sends[1..]))
  {
    var taken := Min(sends[0], rest);
    Associate(sent, area[..taken], Flush(area, rest - taken, sends[1..]).wire);
  }

  lemma {:induction false} FlushStops(area: string, rest: nat, sends: seq<nat>, sent: string)
    requires rest <= |area| && (rest == 0 || sends == [] || sends[0] == 0)
    ensures After(sent, Flush(area, rest, sends)) ==
            Flushed(sent, rest, if rest != 0 && sends != [] then sends[1..] else sends)
  {
    assert sent + "" == sent;
  }

  /** The loop of flush over the calls to send. */
  method SendLoop(area: string, sends: seq<nat>) returns (f: Flushed)
    ensures f == Flush(area, |area|, sends)
  {
    hide Flush;
    var rest: nat, calls, sent := |area|, sends, "";
    ghost var all := Flush(area, rest, calls);
    assert sent + all.wire == all.wire;
    while rest != 0 && calls != [] && calls[0] != 0
      invariant rest <= |area|
      invariant all == After(sent, Flush(area, rest, calls))
      decreases rest
    {
      FlushRound(area, rest, calls, sent);
      var taken := Min(calls[0], rest);
      sent := sent + area[..taken];
      rest, calls := rest - taken, calls[1..];
    }
    FlushStops(area, rest, calls, sent);
    f := Flushed(sent, rest, if rest != 0 && calls != [] then calls[1..] else calls);
  }

  // ----- the stream as a value

  /** buffer: the put area's content. bad: a flush failed; the stream takes nothing more. */
  datatype Output = Output(wire: string, buffer: string, sends: seq<nat>, bad: bool) {
    predicate Sound() { |buffer| <= BFSIZE && (|buffer| == BFSIZE ==> bad) }

    /** Bytes on the wire followed by bytes still buffered. */
    function Text(): string { wire + buffer }
  }

  function Fresh(sends: seq<nat>): Output { Output("", "", sends, false) }

  function FlushOut(o: Output): (p: Output)
    ensures |p.buffer| <= |o.buffer| && (p.bad <==> o.bad || p.buffer != "")
    ensures o.wire <= p.wire
  {
    var f := Flush(o.buffer, |o.buffer|, o.sends);
    Output(o.wire + f.wire, o.buffer[..f.rest], f.sends, o.bad || f.rest != 0)
  }

  /** sputc, with overflow when the put area is full. */
  function Put(o: Output, c: char): (p: Output)
    requires o.Sound()
    ensures p.Sound()
  {
    if o.bad then o
    else
      var p := o.(buffer := o.buffer + [c]);
      if |p.buffer| < BFSIZE then p else FlushOut(p)
  }

  /** ostream::write: byte by byte, and nothing on a bad stream. */
  function Puts(o: Output, s: string): (p: Output)
    requires o.Sound()
    ensures p.Sound()
  {
    if s == "" then o else Put(Puts(o, s[..|s| - 1]), s[|s| - 1])
  }

  /** ostream::flush, reaching sync. */
  function Synced(o: Output): (p: Output)
    requires o.Sound()
    ensures p.Sound() && (!p.bad ==> p.buffer == "")
  {
    if o.bad then o else FlushOut(o)
  }

  lemma {:induction false} PutsAppend(o: Output, a: string, b: string)
    requires o.Sound()
    ensures Puts(o, a + b) == Puts(Puts(o, a), b)
    decreases |b|
  {
    if b == "" {
      assert a + b == a;
    } else {
      var n := |b| - 1;
      assert (a + b)[..|a + b| - 1] == a + b[..n] && (a + b)[|a + b| - 1] == b[n];
      PutsAppend(o, a, b[..n]);
    }
  }

  lemma {:induction false} PutsOnBad(o: Output, s: string)
    requires o.Sound() && o.bad
    ensures Puts(o, s) == o
    decreases |s|
  {
    if s != "" {
      PutsOnBad(o, s[..|s| - 1]);
    }
  }

  lemma {:induction false} PutsPastBad(o: Output, a: string, b: string)
    requires o.Sound() && Puts(o, a).bad
    ensures Puts(o, a + b) == Puts(o, a)
  {
    PutsAppend(o, a, b);
    PutsOnBad(Puts(o, a), b);
  }

  /** Texts written one after another, each followed by a flush. */
  function Sent(o: Output, texts: seq<string>): (p: Output)
    requires o.Sound()
    ensures p.Sound()
    decreases |texts|
  {
    if texts == [] then o else Sent(Synced(Puts(o, texts[0])), texts[1..])
  }

  lemma {:induction false} SentAppend(o: Output, texts: seq<string>, text: string)
    requires o.Sound()
    ensures Sent(o, texts + [text]) == Synced(Puts(Sent(o, texts), text))
    decreases |texts|
  {
    if texts == [] {
      assert texts + [text] == [text] && [text][1..] == [];
    } else {
      assert (texts + [text])[1..] == texts[1..] + [text];
      SentAppend(Synced(Puts(o, texts[0])), texts[1..], text);
    }
  }

  // ----- when everything written reaches the wire

  /** The areas the flushes of one text are handed: full ones, then what is left. */
  function Blocks(s: string): seq<string>
    decreases |s|
  {
    if s == "" then [] else if |s| < BFSIZE then [s] else [s[..BFSIZE]] + Blocks(s[BFSIZE..])
  }

  function AllBlocks(texts: seq<string>): seq<string> {
    if texts == [] then [] else Blocks(texts[0]) + AllBlocks(texts[1..])
  }

  /** The sizes of those areas, from the lengths of the texts alone. */
  function FlushSizes(lengths: seq<nat>): seq<nat>
    decreases |lengths|, if lengths == [] then 0 else lengths[0]
  {
    if lengths == [] then []
    else if lengths[0] == 0 then FlushSizes(lengths[1..])
    else if lengths[0] < BFSIZE then [lengths[0]] + FlushSizes(lengths[1..])
    else [BFSIZE] + FlushSizes([lengths[0] - BFSIZE] + lengths[1..])
  }

  /** Each flush has its first call take the whole area, up to one whose first call fails. */
  predicate SendsWhole(sizes: seq<nat>, sends: seq<nat>)
    decreases |sizes|
  {
    || sizes == [] || sends == [] || sends[0] == 0
    || (sends[0] >= sizes[0] && SendsWhole(sizes[1..], sends[1..]))
  }

  function Lengths(texts: seq<string>): (ns: seq<nat>)
    ensures |ns| == |texts| && forall i :: 0 <= i < |texts| ==> ns[i] == |texts[i]|
  {
    if texts == [] then [] else [|texts[0]|] + Lengths(texts[1..])
  }

  /** Flushing areas one after another. */
  function SendAll(o: Output, blocks: seq<string>): (p: Output)
    ensures o.wire <= p.wire
    decreases |blocks|
  {
    if o.bad || blocks == [] then o else SendAll(FlushOut(o.(buffer := blocks[0])), blocks[1..])
  }

  lemma {:induction false} FillBuffer(o: Output, s: string)
    requires !o.bad && o.buffer == "" && |s| < BFSIZE
    ensures Puts(o, s) == o.(buffer := s)
    decreases |s|
  {
    if s != "" {
      FillBuffer(o, s[..|s| - 1]);
      assert s[..|s| - 1] + [s[|s| - 1]] == s;
    }
  }

  lemma {:induction false} FillAndFlush(o: Output, s: string)
    requires !o.bad && o.buffer == "" && |s| == BFSIZE
    ensures Puts(o, s) == FlushOut(o.(buffer := s))
  {
    FillBuffer(o, s[..BFSIZE - 1]);
    assert s[..BFSIZE - 1] + [s[BFSIZE - 1]] == s;
  }

  /** Writing a text and flushing is flushing its blocks. */
  lemma {:induction false} TextAsBlocks(o: Output, s: string)
    requires o.Sound() && (!o.bad ==> o.buffer == "")
    ensures Synced(Puts(o, s)) == SendAll(o, Blocks(s))
    decreases |s|
  {
    if o.bad {
      PutsOnBad(o, s);
    } else if s == "" {
      assert o.wire + "" == o.wire && o.buffer[..0] == "";
    } else if |s| < BFSIZE {
      FillBuffer(o, s);
      assert SendAll(FlushOut(o.(buffer := s)), [s][1..]) == FlushOut(o.(buffer := s));
    } else {
      var block, more := s[..BFSIZE], s[BFSIZE..];
      FillAndFlush(o, block);
      assert block + more == s;
      PutsAppend(o, block, more);
      hide FlushOut, Puts, Synced;
      assert ([block] + Blocks(more))[1..] == Blocks(more);
      TextAsBlocks(FlushOut(o.(buffer := block)), more);
    }
  }

  lemma {:induction false} SendAllAppend(o: Output, a: seq<string>, b: seq<string>)
    ensures SendAll(o, a + b) == SendAll(SendAll(o, a), b)
    decreases |a|
  {
    if a == [] {
      assert a + b == b;
    } else if !o.bad {
      assert (a + b)[1..] == a[1..] + b;
      SendAllAppend(FlushOut(o.(buffer := a[0])), a[1..], b);
    }
  }

  lemma {:induction false} TextsAsBlocks(o: Output, texts: seq<string>)
    requires o.Sound() && (!o.bad ==> o.buffer == "")
    ensures Sent(o, texts) == SendAll(o, AllBlocks(texts))
    decreases |texts|
  {
    if texts != [] {
      TextAsBlocks(o, texts[0]);
      TextsAsBlocks(Synced(Puts(o, texts[0])), texts[1..]);
      SendAllAppend(o, Blocks(texts[0]), AllBlocks(texts[1..]));
    }
  }

  lemma {:induction false} BlocksAreText(s: string)
    ensures Concat(Blocks(s)) == s
    decreases |s|
  {
    if |s| >= BFSIZE {
      BlocksAreText(s[BFSIZE..]);
      assert s[..BFSIZE] + s[BFSIZE..] == s;
    } else if s != "" {
      assert Concat([s]) == s + "" == s;
    }
  }

  lemma {:induction false} AllBlocksAreText(texts: seq<string>)
    ensures Concat(AllBlocks(texts)) == Concat(texts)
  {
    if texts != [] {
      BlocksAreText(texts[0]);
      AllBlocksAreText(texts[1..]);
      ConcatAppend(Blocks(texts[0]), AllBlocks(texts[1..]));
    }
  }

  lemma {:induction false} LengthsAppend(a: seq<string>, b: seq<string>)
    ensures Lengths(a + b) == Lengths(a) + Lengths(b)
  {
  }

  lemma {:induction false} FirstBlock(s: string, more: seq<string>)
    requires |s| >= BFSIZE
    ensures AllBlocks([s] + more) == [s[..BFSIZE]] + AllBlocks([s[BFSIZE..]] + more)
  {
    assert ([s] + more)[1..] == more && ([s[BFSIZE..]] + more)[1..] == more;
    Associate([s[..BFSIZE]], Blocks(s[BFSIZE..]), AllBlocks(more));
  }

  lemma {:induction false} BlockSizes(texts: seq<string>)
    ensures Lengths(AllBlocks(texts)) == FlushSizes(Lengths(texts))
    decreases |texts|, if texts == [] then 0 else |texts[0]|
  {
    if texts != [] {
      var s, more := texts[0], texts[1..];
      assert Lengths(texts) == [|s|] + Lengths(more);
      if |s| < BFSIZE {
        BlockSizes(more);
        LengthsAppend(Blocks(s), AllBlocks(more));
        assert Lengths(texts)[1..] == Lengths(more);
      } else {
        var next := [s[BFSIZE..]] + more;
        BlockSizes(next);
        assert texts == [s] + more && next[1..] == more;
        FirstBlock(s, more);
        LengthsAppend([s[..BFSIZE]], AllBlocks(next));
        hide Blocks, AllBlocks;
        assert Lengths(next) == [|s| - BFSIZE] + Lengths(more);
        assert Lengths(texts)[1..] == Lengths(more);
      }
    }
  }

  lemma {:induction false} FlushOneWhole(o: Output, block: string)
    requires !o.bad && block != "" && TakesWhole(|block|, o.sends)
    ensures FlushOut(o.(buffer := block)) ==
            if o.sends == [] then o.(buffer := block, bad := true)
            else if o.sends[0] == 0 then o.(buffer := block, sends := o.sends[1..], bad := true)
            else Output(o.wire + block, "", o.sends[1..], false)
  {
    FlushTakesWhole(block, o.sends);
    assert block[..|block|] == block && block[..0] == "" && o.wire + "" == o.wire;
  }

  lemma PrefixOf(a: string, b: string)
    ensures a <= a + b
  {
  }

  /** If each flush has its first call take the whole area, what is on the wire and in the buffer is
      always a prefix of what was written, and all of it is on the wire unless a flush failed. */
  lemma {:induction false} WholeSendsArrive(o: Output, blocks: seq<string>)
    requires !o.bad && o.buffer == "" && "" !in blocks && SendsWhole(Lengths(blocks), o.sends)
    ensures var p := SendAll(o, blocks);
            p.Text() <= o.wire + Concat(blocks) && (!p.bad ==> p.wire == o.wire + Concat(blocks))
    decreases |blocks|
  {
    if blocks == [] {
      assert o.wire + "" == o.wire;
    } else {
      var block, rest := blocks[0], blocks[1..];
      FlushOneWhole(o, block);
      Associate(o.wire, block, Concat(rest));
      hide FlushOut;
      var p := FlushOut(o.(buffer := block));
      if p.bad {
        PrefixOf(o.wire + block, Concat(rest));
      } else {
        assert Lengths(blocks)[1..] == Lengths(rest);
        WholeSendsArrive(p, rest);
      }
    }
  }

  predicate MarkedBlock(s: string) { s != "" && s[0] == 'a' && forall i :: 0 < i < |s| ==> s[i] == 'b' }

  lemma {:induction false} At(a: string, b: string, k: nat)
    requires k < |b|
    ensures (a + b)[|a| + k] == b[k]
  {
  }

  lemma {:induction false} PartialFlush(o: Output, block: string)
    requires !o.bad && MarkedBlock(block) && !TakesWhole(|block|, o.sends)
    ensures var p, k := FlushOut(o.(buffer := block)), |o.wire| + o.sends[0];
            && 0 < o.sends[0] < |block| && k < |p.Text()| && p.Text()[k] == 'a'
            && (!p.bad ==> k < |p.wire| && p.wire[k] == 'a')
  {
    var f := Flush(block, |block|, o.sends);
    var sent := f.wire + block[..f.rest];
    FlushRepeats(block, o.sends);
    At(o.wire, sent, o.sends[0]);
    Associate(o.wire, f.wire, block[..f.rest]);
    hide Flush;
    assert FlushOut(o.(buffer := block)).Text() == o.wire + sent;
  }

  lemma {:induction false} PartialSendShows(o: Output, block: string, rest: seq<string>, tail: string)
    requires !o.bad && MarkedBlock(block) && !TakesWhole(|block|, o.sends)
    ensures !(SendAll(o, [block] + rest).Text() <= o.wire + (block + Concat(rest)) + tail)
  {
    PartialFlush(o, block);
    hide FlushOut, Concat;
    var p, k := FlushOut(o.(buffer := block)), o.sends[0];
    assert ([block] + rest)[1..] == rest;
    var q := SendAll(p, rest);
    assert q == SendAll(o, [block] + rest);
    At(o.wire, block + Concat(rest), k);
    var all := o.wire + (block + Concat(rest));
    assert (all + tail)[|o.wire| + k] == all[|o.wire| + k];
    if !p.bad {
      assert q.Text()[|o.wire| + k] == q.wire[|o.wire| + k];
    }
  }

  lemma {:induction false} OnlyWholeSendsArrive(o: Output, blocks: seq<string>, tail: string)
    requires !o.bad && o.buffer == "" && !SendsWhole(Lengths(blocks), o.sends)
    requires forall i :: 0 <= i < |blocks| ==> MarkedBlock(blocks[i])
    ensures !(SendAll(o, blocks).Text() <= o.wire + Concat(blocks) + tail)
    decreases |blocks|
  {
    var block, rest := blocks[0], blocks[1..];
    assert blocks == [block] + rest;
    if TakesWhole(|block|, o.sends) {
      FlushOneWhole(o, block);
      Associate(o.wire, block, Concat(rest));
      assert Lengths(blocks)[1..] == Lengths(rest);
      hide FlushOut;
      OnlyWholeSendsArrive(FlushOut(o.(buffer := block)), rest, tail);
    } else {
      PartialSendShows(o, block, rest, tail);
    }
  }

  lemma {:induction false} MarkedBlocks(n: nat)
    ensures forall b :: b in Blocks(Marked(n)) ==> MarkedBlock(b)
    decreases n
  {
    var s := Marked(n);
    if n >= BFSIZE {
      assert forall i :: 0 <= i < n - BFSIZE ==> s[BFSIZE..][i] == Marked(n - BFSIZE)[i];
      assert s[BFSIZE..] == Marked(n - BFSIZE);
      MarkedBlocks(n - BFSIZE);
    }
  }

  function MarkedTexts(lengths: seq<nat>): (texts: seq<string>)
    ensures Lengths(texts) == lengths
  {
    if lengths == [] then [] else
      var texts := [Marked(lengths[0])] + MarkedTexts(lengths[1..]);
      assert texts[1..] == MarkedTexts(lengths[1..]);
      texts
  }

  lemma {:induction false} MarkedTextBlocks(lengths: seq<nat>)
    ensures forall b :: b in AllBlocks(MarkedTexts(lengths)) ==> MarkedBlock(b)
  {
    if lengths != [] {
      MarkedBlocks(lengths[0]);
      MarkedTextBlocks(lengths[1..]);
      assert MarkedTexts(lengths)[1..] == MarkedTexts(lengths[1..]);
    }
  }

  lemma {:induction false} NoEmptyBlocks(texts: seq<string>)
    ensures "" !in AllBlocks(texts)
  {
    if texts != [] {
      NoEmptyBlock(texts[0]);
      NoEmptyBlocks(texts[1..]);
    }
  }

  lemma {:induction false} NoEmptyBlock(s: string)
    ensures "" !in Blocks(s)
    decreases |s|
  {
    if |s| >= BFSIZE {
      NoEmptyBlock(s[BFSIZE..]);
    }
  }

  lemma {:induction false} FlushedSuffice(texts: seq<string>, sends: seq<nat>)
    requires SendsWhole(FlushSizes(Lengths(texts)), sends)
    ensures var p := Sent(Fresh(sends), texts); p.Text() <= Concat(texts) && (!p.bad ==> p.wire == Concat(texts))
  {
    TextsAsBlocks(Fresh(sends), texts);
    AllBlocksAreText(texts);
    BlockSizes(texts);
    NoEmptyBlocks(texts);
    WholeSendsArrive(Fresh(sends), AllBlocks(texts));
    assert "" + Concat(texts) == Concat(texts);
  }

  lemma {:induction false} OnlyWholeFlushed(lengths: seq<nat>, sends: seq<nat>, tail: string)
    requires !SendsWhole(FlushSizes(lengths), sends)
    ensures var texts := MarkedTexts(lengths); !(Sent(Fresh(sends), texts).Text() <= Concat(texts) + tail)
  {
    var texts := MarkedTexts(lengths);
    TextsAsBlocks(Fresh(sends), texts);
    AllBlocksAreText(texts);
    BlockSizes(texts);
    MarkedTextBlocks(lengths);
    hide AllBlocks, MarkedTexts, Sent, FlushSizes;
    OnlyWholeSendsArrive(Fresh(sends), AllBlocks(texts), tail);
    assert "" + Concat(texts) == Concat(texts);
  }

  // ----- any calls of write and flush

  datatype Call = WriteCall(text: string) | SyncCall

  function Calls(o: Output, calls: seq<Call>): (p: Output)
    requires o.Sound()
    ensures p.Sound()
  {
    if calls == [] then o
    else
      var p := Calls(o, calls[..|calls| - 1]);
      match calls[|calls| - 1]
      case WriteCall(text) => Puts(p, text)
      case SyncCall => Synced(p)
  }

  /** Everything the calls write. */
  function AllText(calls: seq<Call>): string {
    if calls == [] then ""
    else
      AllText(calls[..|calls| - 1]) + match calls[|calls| - 1] case WriteCall(text) => text case SyncCall => ""
  }

  /** The texts between flushes, and the text after the last one. */
  function Segments(calls: seq<Call>): (seq<string>, string) {
    if calls == [] then ([], "")
    else
      var (texts, last) := Segments(calls[..|calls| - 1]);
      match calls[|calls| - 1]
      case WriteCall(text) => (texts, last + text)
      case SyncCall => (texts + [last], "")
  }

  lemma {:induction false} CallsAsSegments(o: Output, calls: seq<Call>)
    requires o.Sound()
    ensures var (texts, last) := Segments(calls);
            Calls(o, calls) == Puts(Sent(o, texts), last) && AllText(calls) == Concat(texts) + last
    decreases |calls|
  {
    if calls != [] {
      var most := calls[..|calls| - 1];
      CallsAsSegments(o, most);
      var (texts, last) := Segments(most);
      hide Puts, Synced, Sent, Concat;
      match calls[|calls| - 1] {
        case WriteCall(text) =>
          PutsAppend(Sent(o, texts), last, text);
          Associate(Concat(texts), last, text);
        case SyncCall =>
          SentAppend(o, texts, last);
          PutsNothing(Sent(o, texts + [last]));
          ConcatOneMore(texts, last);
      }
    } else {
      PutsNothing(o);
    }
  }

  lemma PutsNothing(o: Output)
    requires o.Sound()
    ensures Puts(o, "") == o
  {
  }

  lemma {:induction false} ConcatOneMore(texts: seq<string>, text: string)
    ensures Concat(texts + [text]) + "" == Concat(texts) + text
  {
    ConcatAppend(texts, [text]);
    assert Concat([text]) == text + "" == text;
  }

  /** The part of an unflushed text that full buffers have sent. */
  function Full(n: nat): (m: nat)
    ensures m <= n < m + BFSIZE && m % BFSIZE == 0 && m == n / 4096 * 4096
  {
    n - n % BFSIZE
  }

  lemma {:induction false} FullBuffersFlushThemselves(o: Output, s: string)
    requires o.Sound() && (!o.bad ==> o.buffer == "") && |s| % BFSIZE == 0
    ensures Synced(Puts(o, s)) == Puts(o, s) && (!Puts(o, s).bad ==> Puts(o, s).buffer == "")
    decreases |s|
  {
    if o.bad {
      PutsOnBad(o, s);
    } else if s == "" {
      assert o.wire + "" == o.wire && o.buffer[..0] == "";
    } else {
      var block, more := s[..BFSIZE], s[BFSIZE..];
      assert block + more == s;
      FillAndFlush(o, block);
      PutsAppend(o, block, more);
      hide FlushOut, Puts, Synced;
      FullBuffersFlushThemselves(FlushOut(o.(buffer := block)), more);
    }
  }

  /** Texts flushed and a last one not: the same as flushing its full buffers and buffering the rest. */
  lemma {:induction false} LastTextBuffered(o: Output, texts: seq<string>, last: string)
    requires o.Sound() && (!o.bad ==> o.buffer == "")
    ensures var q, rest := Sent(o, texts + [last[..Full(|last|)]]), last[Full(|last|)..];
            Puts(Sent(o, texts), last) == (if q.bad then q else q.(buffer := rest)) && (!q.bad ==> q.buffer == "")
  {
    var head, rest := last[..Full(|last|)], last[Full(|last|)..];
    assert head + rest == last;
    hide Puts, Synced, Sent, FlushOut;
    SentIsFlushed(o, texts);
    FullBuffersFlushThemselves(Sent(o, texts), head);
    SentAppend(o, texts, head);
    PutsAppend(Sent(o, texts), head, rest);
    var q := Puts(Sent(o, texts), head);
    if q.bad {
      PutsOnBad(q, rest);
    } else {
      FillBuffer(q, rest);
    }
  }

  lemma {:induction false} SentIsFlushed(o: Output, texts: seq<string>)
    requires o.Sound() && (!o.bad ==> o.buffer == "")
    ensures !Sent(o, texts).bad ==> Sent(o, texts).buffer == ""
    decreases |texts|
  {
    if texts != [] {
      SentIsFlushed(Synced(Puts(o, texts[0])), texts[1..]);
    }
  }

  /** The flushes texts and an unflushed last text of these lengths bring about. */
  function SizesWith(lengths: seq<nat>, last: nat): seq<nat> { FlushSizes(lengths + [Full(last)]) }

  lemma {:induction false} LengthsWith(texts: seq<string>, last: string)
    ensures Lengths(texts + [last]) == Lengths(texts) + [|last|]
  {
    LengthsAppend(texts, [last]);
    assert Lengths([last]) == [|last|];
  }

  /** If each flush has its first call take the whole area: what is on the wire, followed by what is
      still buffered, is a prefix of what was written, all of it unless a flush failed; and then the
      wire is short of it by less than one buffer. */
  lemma {:induction false} WholeSendsSuffice(texts: seq<string>, last: string, sends: seq<nat>)
    requires SendsWhole(SizesWith(Lengths(texts), |last|), sends)
    ensures var p := Puts(Sent(Fresh(sends), texts), last);
            && p.Text() <= Concat(texts) + last
            && (!p.bad ==> p.Text() == Concat(texts) + last && p.wire == Concat(texts) + last[..Full(|last|)])
  {
    var head, rest := last[..Full(|last|)], last[Full(|last|)..];
    hide Puts, Sent, FlushSizes, SendsWhole, Concat;
    LengthsWith(texts, head);
    FlushedSuffice(texts + [head], sends);
    LastTextBuffered(Fresh(sends), texts, last);
    ConcatOneMore(texts, head);
    assert head + rest == last;
    Associate(Concat(texts), head, rest);
    assert Concat(texts + [head]) + "" == Concat(texts + [head]);
    PrefixOf(Concat(texts) + head, rest);
  }

  /** Texts of given lengths, each written and flushed, and a last one written: whatever they say, the
      wire followed by the buffer is a prefix of them, if and only if each flush, of a full buffer or
      asked for, has its first call take the whole area, up to a flush whose first call fails. */
  lemma {:induction false} OutputIsFaithful(lengths: seq<nat>, n: nat, sends: seq<nat>)
    ensures (forall texts: seq<string>, last: string | Lengths(texts) == lengths && |last| == n ::
               Puts(Sent(Fresh(sends), texts), last).Text() <= Concat(texts) + last)
            <==> SendsWhole(SizesWith(lengths, n), sends)
  {
    hide Puts, Sent, SendsWhole, Concat;
    if SendsWhole(SizesWith(lengths, n), sends) {
      forall texts: seq<string>, last: string | Lengths(texts) == lengths && |last| == n
        ensures Puts(Sent(Fresh(sends), texts), last).Text() <= Concat(texts) + last
      {
        WholeSendsSuffice(texts, last, sends);
      }
    } else {
      var texts, last := PartialSends(lengths, n, sends);
    }
  }

  lemma {:induction false} PartialSends(lengths: seq<nat>, n: nat, sends: seq<nat>)
    returns (texts: seq<string>, last: string)
    requires !SendsWhole(SizesWith(lengths, n), sends)
    ensures Lengths(texts) == lengths && |last| == n
    ensures !(Puts(Sent(Fresh(sends), texts), last).Text() <= Concat(texts) + last)
  {
    hide Puts, Sent, SendsWhole, FlushSizes, Concat;
    var rest := seq(n - Full(n), _ => 'b');
    var marked := MarkedTexts(lengths + [Full(n)]);
    texts := marked[..|lengths|];
    var head := marked[|lengths|];
    last := head + rest;
    assert marked == texts + [head];
    LengthsWith(texts, head);
    assert Lengths(texts) == lengths && |head| == Full(n);
    assert last[..Full(|last|)] == head && last[Full(|last|)..] == rest;
    OnlyWholeFlushed(lengths + [Full(n)], sends, rest);
    ConcatOneMore(texts, head);
    assert Concat(marked) + "" == Concat(marked);
    Associate(Concat(texts), head, rest);
    LastTextBuffered(Fresh(sends), texts, last);
    ShorterToo(Sent(Fresh(sends), marked), rest, Concat(texts) + last);
  }

  lemma {:induction false} ShorterToo(q: Output, rest: string, all: string)
    requires !(q.Text() <= all) && (!q.bad ==> q.buffer == "")
    ensures !((if q.bad then q else q.(buffer := rest)).Text() <= all)
  {
    assert q.buffer == "" ==> q.Text() == q.wire;
  }

  /** Across any calls of write and flush: wire followed by buffer is everything written, unless a flush
      failed, if each flush the calls bring about has its first call take the whole area. */
  lemma {:induction false} CallsAreFaithful(calls: seq<Call>, sends: seq<nat>)
    requires var (texts, last) := Segments(calls); SendsWhole(SizesWith(Lengths(texts), |last|), sends)
    ensures var p := Calls(Fresh(sends), calls);
            p.Text() <= AllText(calls) && (!p.bad ==> p.Text() == AllText(calls))
  {
    var (texts, last) := Segments(calls);
    CallsAsSegments(Fresh(sends), calls);
    WholeSendsSuffice(texts, last, sends);
  }

  // ----- the stream object

  class OutputStream {
    const data: array<char>
    var pptr: nat
    var wire: string
    var sends: seq<nat>
    var bad: bool

    // a full buffer has failed to flush
    ghost predicate Valid()
      reads this
    {
      data.Length == BFSIZE && pptr <= BFSIZE && (pptr == BFSIZE ==> bad)
    }

    ghost function State(): (o: Output)
      requires Valid()
      reads this, data
      ensures o.Sound()
    {
      Output(wire, data[..pptr], sends, bad)
    }

    constructor (sends: seq<nat>)
      ensures Valid() && State() == Fresh(sends) && fresh(data)
    {
      data := new char[BFSIZE](_ => ' ');
      pptr, wire, bad := 0, "", false;
      this.sends := sends;
    }

    /** SocketStreamBuffer::flush, and the failure its caller records. */
    method FlushBuffer()
      requires data.Length == BFSIZE && pptr <= BFSIZE
      modifies this
      ensures Valid() && State() == FlushOut(Output(old(wire), old(data[..pptr]), old(sends), old(bad)))
    {
      var area := data[..pptr];
      var f := SendLoop(area, sends);
      assert data[..f.rest] == area[..f.rest];
      wire, pptr, sends, bad := wire + f.wire, f.rest, f.sends, bad || f.rest != 0;
    }

    /** sputc, with overflow when the put area is full. */
    method PutByte(c: char)
      requires Valid() && !bad
      modifies this, data
      ensures Valid() && State() == Put(old(State()), c)
    {
      data[pptr] := c;
      pptr := pptr + 1;
      assert data[..pptr] == old(data[..pptr]) + [c];
      if pptr == BFSIZE {
        FlushBuffer();
      }
    }

    /** ostream::write. */
    method Write(s: string)
      requires Valid()
      modifies this, data
      ensures Valid() && State() == Puts(old(State()), s)
    {
      var i := 0;
      assert s[..0] == "";
      while i < |s| && !bad
        invariant i <= |s| && Valid() && State() == Puts(old(State()), s[..i])
      {
        PutByte(s[i]);
        assert s[..i + 1][..i] == s[..i];
        i := i + 1;
      }
      assert s[..i] + s[i..] == s;
      PutsAppend(old(State()), s[..i], s[i..]);
      if bad {
        PutsOnBad(State(), s[i..]);
      }
    }

    /** ostream::flush, reaching sync. */
    method Sync()
      requires Valid()
      modifies this
      ensures Valid() && State() == Synced(old(State()))
    {
      if !bad {
        FlushBuffer();
      }
    }

    /** The buffer's destructor: one more flush, whatever the stream's state. */
    method Destruct()
      requires Valid()
      modifies this
      ensures Valid() && State() == FlushOut(old(State()))
    {
      FlushBuffer();
    }
  }
}
