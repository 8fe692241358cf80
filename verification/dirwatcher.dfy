/**
 The log follower (src/dirwatcher.rs): it picks the newest combat log of the
 watch directory, opens it at its end, and on every modification reads what
 was appended, hands it with the unconsumed bytes of earlier reads to the
 parser, and keeps what the parser leaves. A newly created log file replaces
 the followed one and is read from its beginning.

 The file system and inotify are not modelled: the directory listing, the
 contents a read sees and the outcome of opening a file are inputs.
 */
module Dirwatcher {
  import opened Wrappers
  import opened Scan
  import opened Events
  import opened Parser
  import opened ParserProps
  import opened CompleteLines

  /** `PREFIX` of src/lib.rs: the names of combat logs start with "W". */
  const PREFIX: seq<byte> := [87]

  predicate StartsWith(s: seq<byte>, p: seq<byte>) {
    |p| <= |s| && s[..|p|] == p
  }

  /** The metadata of a directory entry: whether it is a regular file, and its modification time. */
  datatype Meta = Meta(isFile: bool, modified: int)

  /**
   One item of the directory listing: an entry the listing failed to
   produce (dropped by `flatten`), or a named entry whose metadata may be
   unavailable.
   */
  datatype DirItem = Unreadable | Entry(name: seq<byte>, meta: Option<Meta>)

  /** The filter of `get_newest_file`: a regular file, with metadata, whose name carries the prefix. */
  predicate Qualifies(d: DirItem) {
    d.Entry? && d.meta.Some? && d.meta.value.isFile && StartsWith(d.name, PREFIX)
  }

  function MTime(d: DirItem): int
    requires Qualifies(d)
  {
    d.meta.value.modified
  }

  const NOT_FOUND: IoError := IoError(Ascii("Could not find newest logfile"))

  /**
   Among the first `n` items, `k` is the one `max_by_key` returns: it
   qualifies, no qualifying item is newer, and every later qualifying item
   is strictly older (of equally new items the last one wins).
   */
  predicate NewestAmong(items: seq<DirItem>, n: nat, k: nat) {
    && k < n <= |items| && Qualifies(items[k])
    && (forall j | 0 <= j < n && Qualifies(items[j]) :: MTime(items[j]) <= MTime(items[k]))
    && (forall j | k < j < n && Qualifies(items[j]) :: MTime(items[j]) < MTime(items[k]))
  }

  predicate IsNewest(items: seq<DirItem>, k: nat) {
    NewestAmong(items, |items|, k)
  }

  /** `get_newest_file`: the name of the newest qualifying entry, or an error when there is none. */
  method NewestFile(items: seq<DirItem>) returns (r: Result<seq<byte>, IoError>)
    ensures r.Err? <==> forall j | 0 <= j < |items| :: !Qualifies(items[j])
    ensures r.Err? ==> r.error == NOT_FOUND
    ensures r.Ok? ==> exists k: nat :: IsNewest(items, k) && items[k].name == r.value
  {
    var best: Option<nat> := None;
    var i := 0;
    while i < |items|
      invariant 0 <= i <= |items|
      invariant best.None? <==> forall j | 0 <= j < i :: !Qualifies(items[j])
      invariant best.Some? ==> NewestAmong(items, i, best.value)
    {
      if Qualifies(items[i]) && (best.None? || MTime(items[best.value]) <= MTime(items[i])) {
        best := Some(i);
      }
      i := i + 1;
    }
    match best {
      case None => r := Err(NOT_FOUND);
      case Some(k) => r := Ok(items[k].name);
    }
  }

  /** The newest entry is well defined: at most one item is the newest. */
  lemma NewestUnique(items: seq<DirItem>, k1: nat, k2: nat)
    requires IsNewest(items, k1) && IsNewest(items, k2)
    ensures k1 == k2
  {
  }

  /**
   The follower: the followed file, the position of its descriptor, the
   bytes read but not yet consumed by the parser, and whether its task still
   runs.
   */
  datatype Watcher = Watcher(file: seq<byte>, offset: nat, parsebuf: seq<byte>, alive: bool)

  /** How `DirWatcher::at` ends: following a file, with an I/O error, or by a panic because the directory cannot be listed. */
  datatype Started = Watching(watcher: Watcher) | Failed(error: IoError) | ListPanic

  /** A file opened at its end (`SeekFrom::End(0)`), with nothing read yet. */
  function OpenedAtEnd(name: seq<byte>, content: seq<byte>): (w: Watcher)
    ensures w.file == name && w.parsebuf == [] && w.alive
    ensures Read(content, w.offset) == []
  {
    Watcher(name, |content|, [], true)
  }

  /**
   `DirWatcher::at`: `listing` is the directory listing (`None` when the
   directory cannot be read), `open` what opening a file gives: its contents
   or the error.
   */
  method At(listing: Option<seq<DirItem>>, open: seq<byte> -> Result<seq<byte>, IoError>) returns (s: Started)
    ensures listing.None? <==> s.ListPanic?
    ensures listing.Some? && (forall j | 0 <= j < |listing.value| :: !Qualifies(listing.value[j])) ==> s == Failed(NOT_FOUND)
    ensures listing.Some? && (exists j | 0 <= j < |listing.value| :: Qualifies(listing.value[j])) ==>
      exists k: nat :: IsNewest(listing.value, k) &&
        var name := listing.value[k].name;
        if open(name).Err? then s == Failed(open(name).error) else s == Watching(OpenedAtEnd(name, open(name).value))
  {
    if listing.None? {
      return ListPanic;
    }
    var newest := NewestFile(listing.value);
    match newest {
      case Err(e) => s := Failed(e);
      case Ok(name) =>
        match open(name) {
          case Err(e) => s := Failed(e);
          case Ok(content) => s := Watching(OpenedAtEnd(name, content));
        }
    }
  }

  /** `read_to_end` from position `offset` of a file holding `content`; past the end nothing is read. */
  function Read(content: seq<byte>, offset: nat): seq<byte> {
    if offset <= |content| then content[offset..] else []
  }

  /** The position after `read_to_end`. */
  function After(content: seq<byte>, offset: nat): (n: nat)
    ensures offset <= n
    ensures Read(content, n) == []
  {
    if offset <= |content| then |content| else offset
  }

  /**
   Reading a growing file twice reads what one read of the grown file from
   the first position would, and ends at the same position: nothing appended
   in between is lost or read twice.
   */
  lemma ReadGrowing(c1: seq<byte>, more: seq<byte>, offset: nat)
    requires offset <= |c1|
    ensures Read(c1, offset) + Read(c1 + more, After(c1, offset)) == Read(c1 + more, offset)
    ensures After(c1 + more, After(c1, offset)) == After(c1 + more, offset)
  {
    assert (c1 + more)[offset..] == c1[offset..] + more;
    assert (c1 + more)[|c1|..] == more;
  }

  /**
   The end of `on_modify`: when the parser leaves a non-empty slice, the
   bytes before it are drained; otherwise the buffer is cleared. When the
   slice is a suffix of the buffer, what is kept is exactly that slice.
   */
  function Drain(buf: seq<byte>, slice: seq<byte>): (r: seq<byte>)
    requires |slice| <= |buf|
    ensures IsSuffix(r, buf)
    ensures IsSuffix(slice, buf) ==> r == slice
  {
    if slice != [] then buf[|buf| - |slice|..] else []
  }

  /** A parse leaves a suffix of its buffer, unless it panics. */
  predicate KeepsSuffix(p: Parsed, buf: seq<byte>) {
    p.end.Remainder? ==> IsSuffix(p.end.rest, buf)
  }

  /**
   The parse `on_modify` hands its buffer to. The parser only ever advances
   the start of the slice it is given, so what it leaves is a suffix of the
   buffer; that is all the follower relies on.
   */
  type BufferParse = f: seq<byte> -> Parsed | forall buf :: KeepsSuffix(f(buf), buf)
    witness (buf: seq<byte>) => Parsed([], Remainder(buf))

  /** `Parser::parse` of src/parser/mod.rs, as the follower calls it. */
  function AsWritten(pt: TimeParser): (parse: BufferParse)
    ensures forall buf :: parse(buf) == Parse(Current, buf, pt)
  {
    AsWrittenKeepsSuffix(pt);
    (buf: seq<byte>) => Parse(Current, buf, pt)
  }

  /** The same parser on the complete lines only (see CompleteLines). */
  function Corrected(pt: TimeParser): (parse: BufferParse)
    ensures forall buf :: parse(buf) == ParseComplete(Current, buf, pt)
  {
    CorrectedKeepsSuffix(pt);
    (buf: seq<byte>) => ParseComplete(Current, buf, pt)
  }

  lemma AsWrittenKeepsSuffix(pt: TimeParser)
    ensures forall buf :: KeepsSuffix(Parse(Current, buf, pt), buf)
  {
    forall buf | Parse(Current, buf, pt).end.Remainder?
      ensures IsSuffix(Parse(Current, buf, pt).end.rest, buf)
    {
      ParseRemainderIsSuffix(Current, buf, pt);
    }
  }

  lemma CorrectedKeepsSuffix(pt: TimeParser)
    ensures forall buf :: KeepsSuffix(ParseComplete(Current, buf, pt), buf)
  {
    forall buf | ParseComplete(Current, buf, pt).end.Remainder?
      ensures IsSuffix(ParseComplete(Current, buf, pt).end.rest, buf)
    {
      ParseCompleteSuffix(Current, buf, pt);
    }
  }

  lemma SuffixAppend(a: seq<byte>, b: seq<byte>, c: seq<byte>)
    requires IsSuffix(a, b)
    ensures IsSuffix(a + c, b + c)
  {
    assert (b + c)[|b + c| - |a + c|..] == b[|b| - |a|..] + c;
  }

  /** What the corrected parse keeps is a suffix of its input, as the slice `parse` leaves is. */
  lemma ParseCompleteSuffix(v: Version, buf: seq<byte>, pt: TimeParser)
    requires ParseComplete(v, buf, pt).end.Remainder?
    ensures IsSuffix(ParseComplete(v, buf, pt).end.rest, buf)
  {
    var cut := Cut(buf);
    ParseCompleteRest(v, buf, pt);
    ParseRemainderIsSuffix(v, buf[..cut], pt);
    SuffixOfCut(Parse(v, buf[..cut], pt).end.rest, buf, cut);
  }

  /** A suffix of the part before a cut, followed by the part after it, is a suffix of the whole. */
  lemma SuffixOfCut(r: seq<byte>, buf: seq<byte>, cut: nat)
    requires cut <= |buf| && IsSuffix(r, buf[..cut])
    ensures IsSuffix(r + buf[cut..], buf)
  {
    SuffixAppend(r, buf[..cut], buf[cut..]);
    assert buf[..cut] + buf[cut..] == buf;
  }

  /**
   `on_modify`: the appended bytes are read onto the buffer, the buffer is
   parsed, and the rest is kept; a panicking parse ends the follower.
   */
  function OnModify(w: Watcher, content: seq<byte>, parse: BufferParse): (res: (Watcher, seq<Event>)) {
    var buf := w.parsebuf + Read(content, w.offset);
    var p := parse(buf);
    var w1 := w.(offset := After(content, w.offset));
    match p.end
    case Remainder(rest) => (w1.(parsebuf := Drain(buf, rest)), p.events)
    case Panicked(_) => (w1.(alive := false), p.events)
  }

  /**
   After `on_modify` the file has been read to its end; the events are those
   the parse of the unconsumed bytes plus the new ones reports, and the
   buffer keeps exactly what that parse left, or the follower has ended.
   */
  lemma OnModifySpec(w: Watcher, content: seq<byte>, parse: BufferParse)
    ensures var (w', es) := OnModify(w, content, parse);
      var buf := w.parsebuf + Read(content, w.offset);
      var p := parse(buf);
      && w'.file == w.file && Read(content, w'.offset) == [] && w.offset <= w'.offset
      && es == p.events
      && (p.end.Remainder? ==> w'.alive == w.alive && w'.parsebuf == p.end.rest && IsSuffix(w'.parsebuf, buf))
      && (p.end.Panicked? ==> !w'.alive)
  {
  }

  /**
   What the follower is told: a file was created in the directory (with
   what opening it gives), the followed file was modified (with its
   contents now), or setting up the watches failed.
   */
  datatype Input =
    | Created(name: seq<byte>, outcome: Result<seq<byte>, IoError>)
    | Modified(content: seq<byte>)
    | WatchFailed(error: IoError)

  /** One inotify event, or the failure to re-create the watches, and the events sent for it. */
  function Feed(w: Watcher, input: Input, parse: BufferParse): (Watcher, seq<Event>) {
    if !w.alive then (w, [])
    else match input
      case Created(name, outcome) =>
        if !StartsWith(name, PREFIX) then (w, [])
        else (match outcome
          case Err(e) => (w.(file := name, alive := false), [IoErr(e)])
          case Ok(content) => OnModify(w.(file := name, offset := 0), content, parse))
      case Modified(content) => OnModify(w, content, parse)
      case WatchFailed(e) => (w.(alive := false), [IoErr(e)])
  }

  /** Inputs handled in order by `feed`; the events are sent in the order they arise. */
  function Steps<S, I, E>(feed: (S, I) -> (S, seq<E>), s: S, inputs: seq<I>): (S, seq<E>)
    decreases |inputs|
  {
    if inputs == [] then (s, [])
    else
      var (s1, e1) := feed(s, inputs[0]);
      var (s2, e2) := Steps(feed, s1, inputs[1..]);
      (s2, e1 + e2)
  }

  /** The follower's task over a sequence of inputs. */
  function Watch(w: Watcher, inputs: seq<Input>, parse: BufferParse): (Watcher, seq<Event>) {
    Steps((w': Watcher, i: Input) => Feed(w', i, parse), w, inputs)
  }

  /** Handling two batches is handling the first, then the second from where the first left off. */
  lemma {:induction false} StepsAppend<S, I, E>(feed: (S, I) -> (S, seq<E>), s: S, a: seq<I>, b: seq<I>)
    ensures var (s1, e1) := Steps(feed, s, a);
      var (s2, e2) := Steps(feed, s1, b);
      Steps(feed, s, a + b) == (s2, e1 + e2)
    decreases |a|
  {
    if a == [] {
      assert a + b == b;
      var (s2, e2) := Steps(feed, s, b);
      assert [] + e2 == e2;
    } else {
      assert (a + b)[0] == a[0];
      assert (a + b)[1..] == a[1..] + b;
      var (s1, e1) := feed(s, a[0]);
      StepsAppend(feed, s1, a[1..], b);
      var (s2, e2) := Steps(feed, s1, a[1..]);
      var (s3, e3) := Steps(feed, s2, b);
      assert e1 + (e2 + e3) == e1 + e2 + e3;
    }
  }

  /** A state that every input leaves alone, without events, stays so over any inputs. */
  lemma {:induction false} StepsFixed<S, I, E>(feed: (S, I) -> (S, seq<E>), s: S, inputs: seq<I>)
    requires forall i: I :: feed(s, i) == (s, [])
    ensures Steps(feed, s, inputs) == (s, [])
    decreases |inputs|
  {
    if inputs != [] {
      StepsFixed(feed, s, inputs[1..]);
      assert feed(s, inputs[0]) == (s, []);
      var none: seq<E> := [];
      assert none + none == none;
    }
  }

  /** The first modification after `at` parses only what was appended since the file was opened. */
  lemma FirstModifySkipsOld(name: seq<byte>, initial: seq<byte>, more: seq<byte>, parse: BufferParse)
    ensures Feed(OpenedAtEnd(name, initial), Modified(initial + more), parse).1 == parse(more).events
  {
    var w := OpenedAtEnd(name, initial);
    assert (initial + more)[|initial|..] == more;
    assert w.parsebuf + Read(initial + more, w.offset) == more;
  }

  /**
   A new log file is followed from its beginning: all of it is parsed, behind
   the bytes the previous file left unconsumed, and the descriptor ends at its end.
   */
  lemma CreatedReadsAll(w: Watcher, name: seq<byte>, content: seq<byte>, parse: BufferParse)
    requires w.alive && StartsWith(name, PREFIX)
    ensures var (w', es) := Feed(w, Created(name, Ok(content)), parse);
      && w'.file == name && w'.offset == |content|
      && es == parse(w.parsebuf + content).events
  {
    assert content[0..] == content;
  }

  /** A file created without the prefix is ignored. */
  lemma CreatedIgnored(w: Watcher, name: seq<byte>, outcome: Result<seq<byte>, IoError>, parse: BufferParse)
    requires !StartsWith(name, PREFIX)
    ensures Feed(w, Created(name, outcome), parse) == (w, [])
  {
  }

  /** Failing to open the new file, or to set up the watches, sends that error alone and ends the follower. */
  lemma ErrorsEndTask(w: Watcher, input: Input, parse: BufferParse)
    requires w.alive
    requires input.WatchFailed? || (input.Created? && StartsWith(input.name, PREFIX) && input.outcome.Err?)
    ensures var (w', es) := Feed(w, input, parse);
      && !w'.alive && es == [IoErr(if input.WatchFailed? then input.error else input.outcome.error)]
  {
  }

  /** An ended task sends nothing more. */
  lemma DeadStaysSilent(w: Watcher, inputs: seq<Input>, parse: BufferParse)
    requires !w.alive
    ensures Watch(w, inputs, parse) == (w, [])
  {
    StepsFixed((w': Watcher, i: Input) => Feed(w', i, parse), w, inputs);
  }

  /** Inputs are handled one after the other: watching two batches is watching the first, then the second. */
  lemma WatchAppend(w: Watcher, a: seq<Input>, b: seq<Input>, parse: BufferParse)
    ensures var (w1, e1) := Watch(w, a, parse);
      var (w2, e2) := Watch(w1, b, parse);
      Watch(w, a + b, parse) == (w2, e1 + e2)
  {
    StepsAppend((w': Watcher, i: Input) => Feed(w', i, parse), w, a, b);
  }

  /**
   An error on the way ends the stream of events with it: the events are
   those sent before, then the error, and nothing after.
   */
  lemma ErrorEndsStream(w: Watcher, a: seq<Input>, err: IoError, b: seq<Input>, parse: BufferParse)
    requires Watch(w, a, parse).0.alive
    ensures var (w', es) := Watch(w, a + [WatchFailed(err)] + b, parse);
      !w'.alive && es == Watch(w, a, parse).1 + [IoErr(err)]
  {
    var (w1, e1) := Watch(w, a, parse);
    assert a + [WatchFailed(err)] + b == a + ([WatchFailed(err)] + b);
    WatchAppend(w, a, [WatchFailed(err)] + b, parse);
    WatchAppend(w1, [WatchFailed(err)], b, parse);
    var w2 := w1.(alive := false);
    WatchOne(w1, WatchFailed(err), parse);
    DeadStaysSilent(w2, b, parse);
    assert [IoErr(err)] + [] == [IoErr(err)];
  }

  lemma WatchOne(w: Watcher, input: Input, parse: BufferParse)
    ensures Watch(w, [input], parse) == Feed(w, input, parse)
  {
    var feed := (w': Watcher, i: Input) => Feed(w', i, parse);
    var (w1, e1) := feed(w, input);
    assert [input][1..] == [];
    assert Steps(feed, w1, []) == (w1, []);
    assert e1 + [] == e1;
  }

  /** Two modifications in a row, as two inputs. */
  lemma WatchTwo(w: Watcher, c1: seq<byte>, c2: seq<byte>, parse: BufferParse)
    ensures var (w1, e1) := Feed(w, Modified(c1), parse);
      var (w2, e2) := Feed(w1, Modified(c2), parse);
      Watch(w, [Modified(c1), Modified(c2)], parse) == (w2, e1 + e2)
  {
    var (w1, e1) := Feed(w, Modified(c1), parse);
    assert [Modified(c1), Modified(c2)] == [Modified(c1)] + [Modified(c2)];
    WatchAppend(w, [Modified(c1)], [Modified(c2)], parse);
    WatchOne(w, Modified(c1), parse);
    WatchOne(w1, Modified(c2), parse);
  }

  /**
   A line that the parse keeps whole, reporting `es`, is parsed again on the
   next modification even when nothing was appended: the follower reports
   `es` twice and still holds the line.
   */
  lemma ReparsesKept(name: seq<byte>, initial: seq<byte>, line: seq<byte>, parse: BufferParse, es: seq<Event>)
    requires parse(line) == Parsed(es, Remainder(line))
    ensures var (w', out) := Watch(OpenedAtEnd(name, initial), [Modified(initial + line), Modified(initial + line)], parse);
      && w'.alive && w'.parsebuf == line && out == es + es
  {
    var w := OpenedAtEnd(name, initial);
    var content := initial + line;
    WatchTwo(w, content, content, parse);
    assert content[|initial|..] == line;
    assert w.parsebuf + Read(content, w.offset) == line;
    var w1 := Feed(w, Modified(content), parse).0;
    assert w1.parsebuf == line && w1.offset == |content|;
    assert w1.parsebuf + Read(content, w1.offset) == line;
  }

  /**
   As written, the follower reports a death twice: a death line appended
   without its newline is reported by the next modification, kept whole, and
   reported again by the one after it, even when nothing was appended in between.
   */
  lemma FollowerReportsTwice(name: seq<byte>, initial: seq<byte>, line: seq<byte>, pt: TimeParser)
    requires NoByte(line, NL) && !Contains(line, START) && !Contains(line, END)
    requires HandleDeaths(Current, line, pt).panic.None? && HandleDeaths(Current, line, pt).events != []
    ensures var (w', es) := Watch(OpenedAtEnd(name, initial), [Modified(initial + line), Modified(initial + line)], AsWritten(pt));
      var deaths := HandleDeaths(Current, line, pt).events;
      && w'.alive && w'.parsebuf == line && deaths != [] && es == deaths + deaths
  {
    IncompleteDeathReported(Current, line, pt);
    var deaths := HandleDeaths(Current, line, pt).events;
    assert AsWritten(pt)(line) == Parsed(deaths, Remainder(line));
    ReparsesKept(name, initial, line, AsWritten(pt), deaths);
  }

  /**
   Corrected, the same line is not reported while its newline is missing:
   both modifications report nothing, and the line waits in the buffer.
   */
  lemma FollowerWaits(name: seq<byte>, initial: seq<byte>, line: seq<byte>, pt: TimeParser)
    requires NoByte(line, NL)
    ensures var (w', es) := Watch(OpenedAtEnd(name, initial), [Modified(initial + line), Modified(initial + line)], Corrected(pt));
      && w'.alive && w'.parsebuf == line && es == []
  {
    ParseCompleteWaits(Current, line, pt);
    assert Corrected(pt)(line) == Parsed([], Remainder(line));
    ReparsesKept(name, initial, line, Corrected(pt), []);
  }
}
