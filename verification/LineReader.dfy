/** Streaming line splitting and the replay buffer (packages/atrium/src/ui/server.ts). */
module LineReaders {
  import opened Common
  import opened Lines

  /** What `parseLogLine` makes of a line, or the closing event of a run. */
  type Event = string

  const CAP := 500

  function LastOf(events: seq<Event>, n: nat): seq<Event> {
    if |events| <= n then events else events[|events| - n..]
  }

  function NonEmpty(lines: seq<string>): seq<string> {
    if lines == [] then [] else (if lines[0] != "" then [lines[0]] else []) + NonEmpty(lines[1..])
  }

  /** `kept` is `all` without its empty lines: what stands at the increasing positions
      `places`, which are those of all non-empty lines. */
  ghost predicate PicksNonEmpty(all: seq<string>, kept: seq<string>, places: seq<nat>) {
    && |places| == |kept|
    && (forall i, j :: 0 <= i < j < |places| ==> places[i] < places[j])
    && (forall i :: 0 <= i < |places| ==> places[i] < |all| && all[places[i]] == kept[i] != "")
    && (forall k :: 0 <= k < |all| && all[k] != "" ==> k in places)
  }

  lemma {:induction false} NonEmptyPicks(all: seq<string>) returns (places: seq<nat>)
    ensures PicksNonEmpty(all, NonEmpty(all), places)
  {
    if all == [] {
      places := [];
    } else {
      var front := Front(all);
      assert all == front + [Last(all)];
      NonEmptyConcat(front, [Last(all)]);
      places := NonEmptyPicks(front);
      if Last(all) != "" {
        places := places + [|front|];
      }
      assert NonEmpty([Last(all)]) == if Last(all) != "" then [Last(all)] else [];
    }
  }

  lemma {:induction false} NonEmptyConcat(a: seq<string>, b: seq<string>)
    ensures NonEmpty(a + b) == NonEmpty(a) + NonEmpty(b)
    decreases |a|
  {
    if a == [] {
      assert a + b == b;
    } else {
      NonEmptyConcat(a[1..], b);
      assert (a + b)[1..] == a[1..] + b;
    }
  }

  /** The first piece of y continues the last piece of x. */
  ghost function Glue(x: seq<string>, y: seq<string>): seq<string>
    requires x != [] && y != []
  {
    x[..|x| - 1] + [x[|x| - 1] + y[0]] + y[1..]
  }

  ghost function PrefixFirst(c: char, x: seq<string>): seq<string>
    requires x != []
  {
    [[c] + x[0]] + x[1..]
  }

  lemma GlueCons(e: string, x: seq<string>, y: seq<string>)
    requires x != [] && y != []
    ensures Glue([e] + x, y) == [e] + Glue(x, y)
  {
    assert ([e] + x)[..|x|] == [e] + x[..|x| - 1];
  }

  lemma GluePrefix(c: char, x: seq<string>, y: seq<string>)
    requires x != [] && y != []
    ensures Glue(PrefixFirst(c, x), y) == PrefixFirst(c, Glue(x, y))
  {
    if |x| == 1 {
      assert [c] + x[0] + y[0] == [c] + (x[0] + y[0]);
      assert Glue(x, y) == [x[0] + y[0]] + y[1..];
      assert PrefixFirst(c, x) == [[c] + x[0]];
      assert Glue([[c] + x[0]], y) == [[c] + x[0] + y[0]] + y[1..];
    } else {
      GlueCons([c] + x[0], x[1..], y);
      GlueCons(x[0], x[1..], y);
      assert x == [x[0]] + x[1..];
      assert ([x[0]] + Glue(x[1..], y))[1..] == Glue(x[1..], y);
    }
  }

  /** Splitting a concatenation glues the two splits. */
  lemma {:induction false} SplitConcat(a: string, b: string)
    ensures Split(a + b) == Glue(Split(a), Split(b))
    decreases |a|
  {
    var y := Split(b);
    if a == "" {
      assert a + b == b;
      assert Glue([""], y) == [y[0]] + y[1..] by {
        assert "" + y[0] == y[0];
      }
      assert y == [y[0]] + y[1..];
    } else {
      SplitConcat(a[1..], b);
      assert (a + b)[1..] == a[1..] + b;
      var t := Split(a[1..]);
      hide Glue, PrefixFirst;
      if a[0] == '\n' {
        GlueCons("", t, y);
      } else {
        GluePrefix(a[0], t, y);
        PrefixFirstIs(a[0], t);
        PrefixFirstIs(a[0], Glue(t, y));
      }
    }
  }

  lemma PrefixFirstIs(c: char, x: seq<string>)
    requires x != []
    ensures PrefixFirst(c, x) == [[c] + x[0]] + x[1..]
  {
  }

  /** Cutting at the first newline. */
  lemma {:induction false} SplitAtNewline(s: string, i: nat)
    requires i < |s| && s[i] == '\n' && '\n' !in s[..i]
    ensures Split(s) == [s[..i]] + Split(s[i + 1..])
    decreases i
  {
    if i == 0 {
      assert s[..0] == "";
    } else {
      assert s[..i][0] == s[0] && s[..i][1..] == s[1..][..i - 1];
      assert s[0] in s[..i];
      forall c | c in s[1..][..i - 1] ensures c in s[..i] {}
      SplitAtNewline(s[1..], i - 1);
      assert s[1..][i..] == s[i + 1..];
      assert [s[0]] + s[1..][..i - 1] == s[..i];
    }
  }

  lemma {:induction false} SplitNoNewline(s: string)
    requires '\n' !in s
    ensures Split(s) == [s]
  {
    if s != "" {
      assert s[0] in s;
      forall c | c in s[1..] ensures c in s {}
      SplitNoNewline(s[1..]);
      assert [s[0]] + s[1..] == s;
    }
  }

  /** `indexOf('\n')`. */
  function IndexOfNewline(s: string): (r: int)
    ensures r == -1 <==> '\n' !in s
    ensures r != -1 ==> 0 <= r < |s| && s[r] == '\n' && '\n' !in s[..r]
  {
    if s == "" then -1
    else if s[0] == '\n' then 0
    else
      var k := IndexOfNewline(s[1..]);
      InSplit(s, '\n');
      if k == -1 then -1
      else
        assert s[..k + 1] == [s[0]] + s[1..][..k];
        k + 1
  }

  /** The handle of a run: every event is appended, and only the last 500 are kept. */
  class RunHandle {
    var buffered: seq<Event>
    ghost var events: seq<Event>

    ghost predicate Valid()
      reads this
    {
      buffered == LastOf(events, CAP)
    }

    constructor ()
      ensures Valid() && events == [] && buffered == []
    {
      buffered, events := [], [];
    }

    method Emit(e: Event)
      requires Valid()
      modifies this
      ensures Valid() && events == old(events) + [e]
      ensures |buffered| == if |events| < 500 then |events| else 500
      ensures buffered == events[|events| - |buffered|..]
    {
      buffered := buffered + [e];
      if |buffered| > CAP {
        buffered := buffered[|buffered| - CAP..];
      }
      events := events + [e];
    }
  }

  function ParseAll(parse: string -> Event, lines: seq<string>): seq<Event> {
    if lines == [] then [] else [parse(lines[0])] + ParseAll(parse, lines[1..])
  }

  lemma {:induction false} ParseAllConcat(parse: string -> Event, a: seq<string>, b: seq<string>)
    ensures ParseAll(parse, a + b) == ParseAll(parse, a) + ParseAll(parse, b)
    decreases |a|
  {
    if a == [] {
      assert a + b == b;
    } else {
      ParseAllConcat(parse, a[1..], b);
      assert (a + b)[1..] == a[1..] + b && (a + b)[0] == a[0];
      Assoc([parse(a[0])], ParseAll(parse, a[1..]), ParseAll(parse, b));
    }
  }

  lemma {:induction false} ParseAllAt(parse: string -> Event, lines: seq<string>)
    ensures |ParseAll(parse, lines)| == |lines|
    ensures forall i :: 0 <= i < |lines| ==> ParseAll(parse, lines)[i] == parse(lines[i])
  {
    if lines != [] {
      ParseAllAt(parse, lines[1..]);
    }
  }

  /** The last 500 of the parsed lines, or all of them. */
  ghost predicate LastParsed(parse: string -> Event, lines: seq<string>, buffered: seq<Event>) {
    && |buffered| == (if |lines| < 500 then |lines| else 500)
    && forall i :: 0 <= i < |buffered| ==> buffered[i] == parse(lines[|lines| - |buffered| + i])
  }

  ghost predicate LastOfStream(parse: string -> Event, stream: string, buffered: seq<Event>) {
    exists lines, places ::
      PicksNonEmpty(Split(stream), lines, places) && LastParsed(parse, lines, buffered)
  }

  lemma BufferIsLast(parse: string -> Event, stream: string, buffered: seq<Event>)
    requires buffered == LastOf(ParseAll(parse, NonEmpty(Split(stream))), CAP)
    ensures LastOfStream(parse, stream, buffered)
  {
    var lines := NonEmpty(Split(stream));
    var places := NonEmptyPicks(Split(stream));
    ParseAllAt(parse, lines);
    assert LastParsed(parse, lines, buffered);
  }

  /** One attached stream. `stream` is everything received so far, `lines` what was
      handed to the parser. */
  class LineReader {
    const parse: string -> Event
    const handle: RunHandle
    var pending: string
    ghost var stream: string
    ghost var lines: seq<string>

    /** All complete lines were handed over, except empty ones; the rest is pending. */
    ghost predicate Valid()
      reads this
    {
      var all := Split(stream);
      pending == all[|all| - 1] && lines == NonEmpty(all[..|all| - 1]) && '\n' !in pending
    }

    constructor (handle: RunHandle, parse: string -> Event)
      ensures Valid() && this.handle == handle && this.parse == parse && stream == "" && lines == []
    {
      this.handle, this.parse := handle, parse;
      pending, stream, lines := "", "", [];
    }

    /** Hand one line over, if it is not empty. */
    method Deliver(line: string)
      requires handle.Valid()
      modifies handle, this`lines
      ensures handle.Valid() && lines == old(lines) + NonEmpty([line])
      ensures handle.events == old(handle.events) + ParseAll(parse, NonEmpty([line]))
    {
      if |line| > 0 {
        handle.Emit(parse(line));
        lines := lines + [line];
      }
    }

    /** What the loop of `OnData` keeps: `done` holds the complete pieces so far. */
    ghost predicate Draining(all: seq<string>, done: seq<string>)
      reads this
    {
      all == done + Split(pending) && lines == NonEmpty(done)
    }

    /** Cut the pending text at its first newline and hand the line over. */
    method DeliverFirst(idx: nat, ghost all: seq<string>, ghost done: seq<string>)
      requires handle.Valid() && Draining(all, done)
      requires idx < |pending| && pending[idx] == '\n' && '\n' !in pending[..idx]
      modifies this`pending, this`lines, handle
      ensures handle.Valid() && Draining(all, done + [old(pending)[..idx]])
      ensures |pending| < |old(pending)|
      ensures lines == old(lines) + NonEmpty([old(pending)[..idx]])
      ensures handle.events == old(handle.events) + ParseAll(parse, NonEmpty([old(pending)[..idx]]))
    {
      hide Split, NonEmpty, ParseAll;
      var line := pending[..idx];
      SplitAtNewline(pending, idx);
      assert done + ([line] + Split(pending[idx + 1..])) == done + [line] + Split(pending[idx + 1..]);
      NonEmptyConcat(done, [line]);
      pending := pending[idx + 1..];
      Deliver(line);
    }

    method OnData(chunk: string)
      requires Valid() && handle.Valid()
      modifies this, handle
      ensures Valid() && handle.Valid() && stream == old(stream) + chunk
      ensures exists new' :: lines == old(lines) + new' && handle.events == old(handle.events) + ParseAll(parse, new')
    {
      hide NonEmpty, ParseAll, Split;
      ghost var old', all := Split(stream), Split(stream + chunk);
      ghost var new': seq<string> := [];
      GluedPending(stream, chunk, pending);
      NothingParsed();
      pending := pending + chunk;
      stream := stream + chunk;
      ghost var done := old'[..|old'| - 1];
      var idx := IndexOfNewline(pending);
      while idx != -1
        invariant handle.Valid() && Draining(all, done)
        invariant idx == IndexOfNewline(pending)
        invariant stream == old(stream) + chunk
        invariant lines == old(lines) + new' && handle.events == old(handle.events) + ParseAll(parse, new')
        decreases |pending|
      {
        ghost var line := pending[..idx];
        DeliverFirst(idx, all, done);
        ParseAllConcat(parse, new', NonEmpty([line]));
        done := done + [line];
        new' := new' + NonEmpty([line]);
        idx := IndexOfNewline(pending);
      }
      SplitNoNewline(pending);
      assert all[..|all| - 1] == done;
    }

    lemma NothingParsed()
      ensures ParseAll(parse, []) == []
    {
    }

    /** At the end of the stream the pending piece is the last line. */
    method OnEnd()
      requires Valid() && handle.Valid()
      modifies this, handle
      ensures handle.Valid() && stream == old(stream) && lines == NonEmpty(Split(stream))
      ensures exists new' :: lines == old(lines) + new' && handle.events == old(handle.events) + ParseAll(parse, new')
    {
      ghost var all := Split(stream);
      assert all == all[..|all| - 1] + [pending];
      NonEmptyConcat(all[..|all| - 1], [pending]);
      Deliver(pending);
    }
  }

  lemma GluedPending(stream: string, chunk: string, pending: string)
    requires var all := Split(stream); pending == all[|all| - 1] && '\n' !in pending
    ensures var all := Split(stream); Split(stream + chunk) == all[..|all| - 1] + Split(pending + chunk)
  {
    hide Split;
    SplitConcat(stream, chunk);
    SplitConcat(pending, chunk);
    SplitNoNewline(pending);
    var all, y := Split(stream), Split(chunk);
    assert [pending][..0] == [];
    assert Split(pending + chunk) == [pending + y[0]] + y[1..];
    assert all[..|all| - 1] + ([pending + y[0]] + y[1..]) == all[..|all| - 1] + [pending + y[0]] + y[1..];
  }

  function Concat(chunks: seq<string>): string {
    if chunks == [] then "" else Concat(chunks[..|chunks| - 1]) + chunks[|chunks| - 1]
  }

  /** However a stream is divided into chunks, the events are those of its non-empty
      lines in order, and the replay buffer holds the last 500 of them. */
  method ReadStream(chunks: seq<string>, parse: string -> Event) returns (buffered: seq<Event>)
    ensures buffered == LastOf(ParseAll(parse, NonEmpty(Split(Concat(chunks)))), CAP)
    ensures LastOfStream(parse, Concat(chunks), buffered)
  {
    hide LastOfStream, PicksNonEmpty;
    var handle := new RunHandle();
    var reader := new LineReader(handle, parse);
    for i := 0 to |chunks|
      invariant reader.Valid() && handle.Valid() && reader.handle == handle && reader.parse == parse
      invariant reader.stream == Concat(chunks[..i])
      invariant handle.events == ParseAll(parse, reader.lines)
    {
      assert chunks[..i + 1][..i] == chunks[..i];
      ghost var before := reader.lines;
      reader.OnData(chunks[i]);
      ghost var new' :| reader.lines == before + new' &&
                        handle.events == ParseAll(parse, before) + ParseAll(parse, new');
      ParseAllConcat(parse, before, new');
    }
    assert chunks[..|chunks|] == chunks;
    ghost var before := reader.lines;
    reader.OnEnd();
    ghost var new' :| reader.lines == before + new' && handle.events == ParseAll(parse, before) + ParseAll(parse, new');
    ParseAllConcat(parse, before, new');
    buffered := handle.buffered;
    BufferIsLast(parse, Concat(chunks), buffered);
  }
}
