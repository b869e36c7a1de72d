/**
 Splitting container log streams into lines (`append_log_chunk`, `flush_partial` and
 `stream_container_logs` in crates/clustershell-bootstrap/src/runtime.rs).
 */
module LogStreams {
  import opened Text

  // ------------------------------------------------------------ lines of a whole text

  /** The text cut at every newline; the last piece is what no newline has ended yet. */
  ghost function Pieces(s: string): (pieces: seq<string>)
    ensures pieces != []
  {
    SplitOn(s, '\n')
  }

  /** Carriage returns at the end of a line are dropped, and so are empty lines. */
  ghost function Tidy(lines: seq<string>): seq<string> {
    if lines == [] then []
    else
      var line := TrimEndMatches(lines[0], '\r');
      (if line == "" then [] else [line]) + Tidy(lines[1..])
  }

  /** The lines that a text ends, tidied. */
  ghost function Ended(s: string): seq<string> {
    var pieces := Pieces(s);
    Tidy(pieces[..|pieces| - 1])
  }

  /** What follows the last newline. */
  ghost function Open(s: string): string {
    var pieces := Pieces(s);
    pieces[|pieces| - 1]
  }

  /** What flushing an unended line sends: the trimmed line, unless nothing is left of it. */
  ghost function Flushed(partial: string): seq<string> {
    if Trim(partial) == "" then [] else [Trim(partial)]
  }

  lemma {:induction false} SinglePiece(s: string)
    requires |Pieces(s)| == 1
    ensures Pieces(s) == [s]
  {
    if s == "" {
    } else {
      SinglePiece(s[1..]);
      assert [s[0]] + s[1..] == s;
    }
  }

  /** Later text only continues the last piece. */
  lemma {:induction false} PiecesAppend(a: string, b: string)
    ensures Pieces(a + b) == Pieces(a)[..|Pieces(a)| - 1] + Pieces(Open(a) + b)
  {
    if a == "" {
      assert a + b == b;
    } else {
      var tail := a[1..];
      assert (a + b)[1..] == tail + b;
      PiecesAppend(tail, b);
      if a[0] != '\n' && |Pieces(tail)| == 1 {
        SinglePiece(tail);
        assert Pieces(a) == [[a[0]] + tail] && [a[0]] + tail == a;
      }
    }
  }

  lemma {:induction false} TidyAppend(a: seq<string>, b: seq<string>)
    ensures Tidy(a + b) == Tidy(a) + Tidy(b)
  {
    if a == [] {
      assert a + b == b;
    } else {
      TidyAppend(a[1..], b);
      assert (a + b)[0] == a[0] && (a + b)[1..] == a[1..] + b;
      var line := TrimEndMatches(a[0], '\r');
      var first := if line == "" then [] else [line];
      assert Tidy(a + b) == first + Tidy(a[1..] + b);
      assert first + (Tidy(a[1..]) + Tidy(b)) == (first + Tidy(a[1..])) + Tidy(b);
    }
  }

  /** Carrying the open line over to the next chunk loses nothing and repeats nothing. */
  lemma EndedAppend(a: string, b: string)
    ensures Ended(a + b) == Ended(a) + Ended(Open(a) + b)
    ensures Open(a + b) == Open(Open(a) + b)
  {
    PiecesAppend(a, b);
    var first, more := Pieces(a)[..|Pieces(a)| - 1], Pieces(Open(a) + b);
    var all := Pieces(a + b);
    assert all[..|all| - 1] == first + more[..|more| - 1];
    TidyAppend(first, more[..|more| - 1]);
  }

  lemma OpenHasNoNewline(s: string)
    ensures '\n' !in Open(s)
  {
    SplitKeepsCharacters(s, '\n');
  }

  /** `line[..n]` is the line without the carriage returns at its end. */
  ghost predicate IsLineOf(line: string, n: nat) {
    n <= |line| && (forall i | n <= i < |line| :: line[i] == '\r') && (n > 0 ==> line[n - 1] != '\r')
  }

  /** What is sent for a text: its first line without carriage returns, if not empty, then the lines of the rest. */
  lemma EndedMeaning(line: string, n: nat, rest: string)
    requires '\n' !in line && IsLineOf(line, n)
    ensures Ended(line + "\n" + rest) == (if n > 0 then [line[..n]] else []) + Ended(rest)
    ensures Open(line + "\n" + rest) == Open(rest)
    ensures Ended(line) == [] && Open(line) == line
  {
    var s := line + "\n" + rest;
    assert s[..|line|] == line && s[|line| + 1..] == rest;
    FirstPiece(s, |line|);
    TrimEndMatchesMeaning(line, '\r', n);
    assert Tidy([line]) == if n > 0 then [line[..n]] else [];
    NothingEnded(line);
  }

  /** What is sent for a text that no newline has ended: all but the white space around it, if anything. */
  lemma FlushedMeaning(partial: string, a: nat, b: nat)
    requires IsTrimmedTo(partial, a, b)
    ensures Flushed(partial) == if a < b then [partial[a..b]] else []
  {
    TrimMeaning(partial, a, b);
  }

  // -------------------------------------------------------------- chunk by chunk

  ghost function Concat(chunks: seq<string>): string {
    if chunks == [] then "" else chunks[0] + Concat(chunks[1..])
  }

  /** The carried text and everything sent, after feeding the chunks one by one. */
  ghost function Feed(partial: string, chunks: seq<string>): (string, seq<string>)
    decreases chunks
  {
    if chunks == [] then
      (partial, [])
    else
      var text := partial + chunks[0];
      var (last, sent) := Feed(Open(text), chunks[1..]);
      (last, Ended(text) + sent)
  }

  /** Feeding a stream in pieces is feeding it whole. */
  lemma {:induction false} FeedIsWhole(partial: string, chunks: seq<string>)
    requires '\n' !in partial
    ensures Feed(partial, chunks) == (Open(partial + Concat(chunks)), Ended(partial + Concat(chunks)))
    decreases chunks
  {
    if chunks == [] {
      assert partial + "" == partial;
      NothingEnded(partial);
    } else {
      var text, rest := partial + chunks[0], Concat(chunks[1..]);
      assert partial + Concat(chunks) == text + rest;
      OpenHasNoNewline(text);
      FeedIsWhole(Open(text), chunks[1..]);
      EndedAppend(text, rest);
    }
  }

  lemma NothingEnded(s: string)
    requires '\n' !in s
    ensures Pieces(s) == [s]
  {
    SplitRun(s, "", '\n');
    assert s + "" == s;
  }

  /** However a stream is cut into chunks, the same lines come out, also when it ends. */
  lemma ChunkingIndependence(chunks: seq<string>, others: seq<string>)
    requires Concat(chunks) == Concat(others)
    ensures Feed("", chunks) == Feed("", others)
    ensures '\n' !in Feed("", chunks).0
    ensures Feed("", chunks).1 + Flushed(Feed("", chunks).0) ==
            Ended(Concat(chunks)) + Flushed(Open(Concat(chunks)))
  {
    FeedIsWhole("", chunks);
    FeedIsWhole("", others);
    assert "" + Concat(chunks) == Concat(chunks) && "" + Concat(others) == Concat(others);
    OpenHasNoNewline(Concat(chunks));
  }

  // ---------------------------------------------------------------- the code's loops

  /** Which stream of the container a line came from; errors of the log stream itself are their own. */
  datatype Origin = StdOut | StdErr | Console | StreamError

  /** The sending half of the channel. `origins` remembers where each line came from. */
  class Sender {
    var sent: seq<string>
    ghost var origins: seq<Origin>

    ghost predicate Valid()
      reads this
    {
      |origins| == |sent|
    }

    method Send(line: string, ghost origin: Origin)
      requires Valid()
      modifies this
      ensures Valid()
      ensures sent == old(sent) + [line] && origins == old(origins) + [origin]
    {
      sent := sent + [line];
      origins := origins + [origin];
    }
  }

  class Partial {
    var text: string

    constructor ()
      ensures text == ""
    {
      text := "";
    }
  }

  ghost function Same(origin: Origin, n: nat): seq<Origin> {
    seq(n, _ => origin)
  }

  method FindNewline(s: string) returns (pos: int)
    ensures -1 <= pos < |s|
    ensures pos == -1 ==> '\n' !in s
    ensures pos >= 0 ==> s[pos] == '\n' && '\n' !in s[..pos]
  {
    pos := 0;
    while pos < |s|
      invariant 0 <= pos <= |s|
      invariant '\n' !in s[..pos]
    {
      if s[pos] == '\n' {
        return;
      }
      pos := pos + 1;
    }
    assert s[..|s|] == s;
    pos := -1;
  }

  /** Cutting at the first newline takes the first piece off. */
  lemma FirstPiece(s: string, pos: nat)
    requires pos < |s| && s[pos] == '\n' && '\n' !in s[..pos]
    ensures Ended(s) == Tidy([s[..pos]]) + Ended(s[pos + 1..]) && Open(s) == Open(s[pos + 1..])
  {
    var line, rest := s[..pos], s[pos + 1..];
    assert s == line + ("\n" + rest);
    NothingEnded(line);
    EndedAppend(line, "\n" + rest);
    var more := line + "\n";
    assert s == more + rest && line + ("\n" + rest) == s;
    PiecesAppend(line, "\n");
    PieceBreak(line);
    EndedAppend(more, rest);
    assert "" + rest == rest;
  }

  lemma PieceBreak(line: string)
    requires '\n' !in line
    ensures Pieces(line + "\n") == [line, ""]
  {
    SplitRun(line, "\n", '\n');
    assert Pieces("\n") == ["", ""] && line + "" == line;
  }

  method AppendLogChunk(tx: Sender, partial: Partial, chunk: string, ghost origin: Origin)
    requires tx.Valid()
    modifies tx, partial
    ensures tx.Valid()
    ensures partial.text == Open(old(partial.text) + chunk)
    ensures tx.sent == old(tx.sent) + Ended(old(partial.text) + chunk)
    ensures tx.origins == old(tx.origins) + Same(origin, |tx.sent| - |old(tx.sent)|)
  {
    partial.text := partial.text + chunk;
    ghost var text, before, emitted := partial.text, tx.sent, [];
    var pos := FindNewline(partial.text);
    while pos >= 0
      invariant -1 <= pos < |partial.text|
      invariant pos == -1 ==> '\n' !in partial.text
      invariant pos >= 0 ==> partial.text[pos] == '\n' && '\n' !in partial.text[..pos]
      invariant tx.Valid() && tx.sent == before + emitted
      invariant tx.origins == old(tx.origins) + Same(origin, |emitted|)
      invariant Ended(text) == emitted + Ended(partial.text) && Open(text) == Open(partial.text)
      decreases |partial.text|
    {
      FirstPiece(partial.text, pos);
      ghost var line, rest := Tidy([partial.text[..pos]]), Ended(partial.text[pos + 1..]);
      SendTidied(tx, partial.text[..pos], origin);
      assert emitted + (line + rest) == (emitted + line) + rest;
      assert before + emitted + line == before + (emitted + line);
      assert Same(origin, |emitted|) + Same(origin, |line|) == Same(origin, |emitted + line|);
      emitted := emitted + line;
      partial.text := partial.text[pos + 1..];
      pos := FindNewline(partial.text);
    }
    NothingEnded(partial.text);
  }

  /** Sends a line that a newline has ended, if anything is left of it. */
  method SendTidied(tx: Sender, piece: string, ghost origin: Origin)
    requires tx.Valid()
    modifies tx
    ensures tx.Valid() && tx.sent == old(tx.sent) + Tidy([piece])
    ensures tx.origins == old(tx.origins) + Same(origin, |Tidy([piece])|)
  {
    var line := TrimEndMatches(piece, '\r');
    assert [piece][1..] == [];
    if line != "" {
      tx.Send(line, origin);
    }
  }

  method FlushPartial(tx: Sender, partial: Partial, ghost origin: Origin)
    requires tx.Valid()
    modifies tx, partial
    ensures tx.Valid() && partial.text == ""
    ensures tx.sent == old(tx.sent) + Flushed(old(partial.text))
    ensures tx.origins == old(tx.origins) + Same(origin, |tx.sent| - |old(tx.sent)|)
  {
    var line := Trim(partial.text);
    if line != "" {
      tx.Send(line, origin);
    }
    partial.text := "";
  }

  // ------------------------------------------------------------- interleaved streams

  /** One item of the container's log stream. */
  datatype Item =
    | Chunk(origin: Origin, message: string)
    | StdIn(message: string)
    | Failure(error: string)

  ghost predicate IsLogItem(item: Item) {
    item.Chunk? ==> item.origin != StreamError
  }

  /** The text of one stream among the first `n` items. */
  ghost function TextTo(items: seq<Item>, n: nat, origin: Origin): string
    requires n <= |items|
  {
    if n == 0 then ""
    else if items[n - 1].Chunk? && items[n - 1].origin == origin then
      TextTo(items, n - 1, origin) + items[n - 1].message
    else TextTo(items, n - 1, origin)
  }

  /** Of the first `n` lines sent, those that came from one stream. */
  ghost function LinesTo(sent: seq<string>, origins: seq<Origin>, n: nat, origin: Origin): seq<string>
    requires n <= |sent| && |origins| == |sent|
  {
    if n == 0 then []
    else if origins[n - 1] == origin then LinesTo(sent, origins, n - 1, origin) + [sent[n - 1]]
    else LinesTo(sent, origins, n - 1, origin)
  }

  ghost function LinesOf(sent: seq<string>, origins: seq<Origin>, origin: Origin): seq<string>
    requires |origins| == |sent|
  {
    LinesTo(sent, origins, |sent|, origin)
  }

  lemma {:induction false} LinesOfAppend(sent: seq<string>, origins: seq<Origin>, more: seq<string>, n: nat,
                                         from: Origin, origin: Origin)
    requires |origins| == |sent| && n <= |sent| + |more|
    ensures LinesTo(sent + more, origins + Same(from, |more|), n, origin) ==
            if n <= |sent| then LinesTo(sent, origins, n, origin)
            else LinesOf(sent, origins, origin) + if from == origin then more[..n - |sent|] else []
  {
    if n == 0 {
    } else {
      LinesOfAppend(sent, origins, more, n - 1, from, origin);
      if n > |sent| {
        var k := n - |sent|;
        assert more[..k - 1] + [more[k - 1]] == more[..k];
      }
    }
  }

  lemma LinesOfMore(sent: seq<string>, origins: seq<Origin>, more: seq<string>, from: Origin)
    requires |origins| == |sent|
    ensures forall origin :: LinesOf(sent + more, origins + Same(from, |more|), origin) ==
              LinesOf(sent, origins, origin) + if from == origin then more else []
  {
    forall origin
      ensures LinesOf(sent + more, origins + Same(from, |more|), origin) ==
              LinesOf(sent, origins, origin) + if from == origin then more else []
    {
      LinesOfAppend(sent, origins, more, |sent| + |more|, from, origin);
      assert more[..|more|] == more;
      if more == [] {
        assert sent + more == sent && origins + Same(from, 0) == origins;
      }
    }
  }

  /** The state of one stream after the first `n` items. */
  ghost predicate InStep(tx: Sender, partial: Partial, items: seq<Item>, n: nat, origin: Origin)
    reads tx, partial
    requires tx.Valid() && n <= |items|
  {
    && LinesOf(tx.sent, tx.origins, origin) == Ended(TextTo(items, n, origin))
    && partial.text == Open(TextTo(items, n, origin))
  }

  /** Everything one stream sends: its ended lines and, unless reading failed, its flushed last line. */
  ghost function StreamLines(text: string, flushed: bool): seq<string> {
    if flushed then Ended(text) + Flushed(Open(text)) else Ended(text)
  }

  method HandleChunk(tx: Sender, partial: Partial, items: seq<Item>, i: nat, ghost origin: Origin)
    requires i < |items| && items[i].Chunk? && items[i].origin == origin
    requires tx.Valid() && InStep(tx, partial, items, i, origin)
    modifies tx, partial
    ensures tx.Valid() && InStep(tx, partial, items, i + 1, origin)
    ensures forall other | other != origin ::
              LinesOf(tx.sent, tx.origins, other) == LinesOf(old(tx.sent), old(tx.origins), other)
  {
    ghost var sent, origins, text := tx.sent, tx.origins, TextTo(items, i, origin);
    AppendLogChunk(tx, partial, items[i].message, origin);
    ghost var more := Ended(Open(text) + items[i].message);
    EndedAppend(text, items[i].message);
    LinesOfMore(sent, origins, more, origin);
  }

  method HandleFlush(tx: Sender, partial: Partial, ghost origin: Origin)
    requires tx.Valid()
    modifies tx, partial
    ensures tx.Valid()
    ensures LinesOf(tx.sent, tx.origins, origin) ==
            LinesOf(old(tx.sent), old(tx.origins), origin) + Flushed(old(partial.text))
    ensures forall other | other != origin ::
              LinesOf(tx.sent, tx.origins, other) == LinesOf(old(tx.sent), old(tx.origins), other)
  {
    ghost var sent, origins, more := tx.sent, tx.origins, Flushed(partial.text);
    FlushPartial(tx, partial, origin);
    LinesOfMore(sent, origins, more, origin);
  }

  function ErrorLine(error: string): string {
    "[log stream error] " + error
  }

  method SendError(tx: Sender, error: string)
    requires tx.Valid()
    modifies tx
    ensures tx.Valid() && tx.sent == old(tx.sent) + [ErrorLine(error)]
    ensures LinesOf(tx.sent, tx.origins, StreamError) ==
            LinesOf(old(tx.sent), old(tx.origins), StreamError) + [ErrorLine(error)]
    ensures forall other | other != StreamError ::
              LinesOf(tx.sent, tx.origins, other) == LinesOf(old(tx.sent), old(tx.origins), other)
  {
    ghost var sent, origins := tx.sent, tx.origins;
    var line := ErrorLine(error);
    tx.Send(line, StreamError);
    assert Same(StreamError, 1) == [StreamError];
    LinesOfMore(sent, origins, [line], StreamError);
  }

  /** Where reading stops, looking from item `i` on: at the first failure, or at the end. */
  ghost function StopsAt(items: seq<Item>, i: nat): (n: nat)
    requires i <= |items|
    ensures i <= n <= |items|
    ensures n < |items| ==> items[n].Failure?
    decreases |items| - i
  {
    if i < |items| && !items[i].Failure? then StopsAt(items, i + 1) else i
  }

  /** What has been sent and carried for all three streams agrees with the first `n` items. */
  ghost predicate AllInStep(tx: Sender, stdout: Partial, stderr: Partial, console: Partial, items: seq<Item>, n: nat)
    reads tx, stdout, stderr, console
    requires tx.Valid() && n <= |items|
  {
    && InStep(tx, stdout, items, n, StdOut)
    && InStep(tx, stderr, items, n, StdErr)
    && InStep(tx, console, items, n, Console)
    && LinesOf(tx.sent, tx.origins, StreamError) == []
  }

  method HandleItem(tx: Sender, stdout: Partial, stderr: Partial, console: Partial, items: seq<Item>, i: nat)
    requires i < |items| && IsLogItem(items[i]) && !items[i].Failure?
    requires stdout != stderr && stderr != console && console != stdout
    requires tx.Valid() && AllInStep(tx, stdout, stderr, console, items, i)
    modifies tx, stdout, stderr, console
    ensures tx.Valid() && AllInStep(tx, stdout, stderr, console, items, i + 1)
  {
    if items[i].Chunk? {
      match items[i].origin
      case StdOut => HandleChunk(tx, stdout, items, i, StdOut);
      case StdErr => HandleChunk(tx, stderr, items, i, StdErr);
      case Console => HandleChunk(tx, console, items, i, Console);
    }
  }

  /** Each stream has sent exactly the lines of its own text among the first `n` items, and an error its line. */
  ghost predicate StreamsSent(tx: Sender, items: seq<Item>, n: nat, flushed: bool)
    reads tx
    requires tx.Valid() && n <= |items|
  {
    && LinesOf(tx.sent, tx.origins, StdOut) == StreamLines(TextTo(items, n, StdOut), flushed)
    && LinesOf(tx.sent, tx.origins, StdErr) == StreamLines(TextTo(items, n, StdErr), flushed)
    && LinesOf(tx.sent, tx.origins, Console) == StreamLines(TextTo(items, n, Console), flushed)
    && LinesOf(tx.sent, tx.origins, StreamError) ==
       if n < |items| && items[n].Failure? then [ErrorLine(items[n].error)] else []
  }

  method FlushAll(tx: Sender, stdout: Partial, stderr: Partial, console: Partial, ghost items: seq<Item>)
    requires stdout != stderr && stderr != console && console != stdout
    requires tx.Valid() && AllInStep(tx, stdout, stderr, console, items, |items|)
    modifies tx, stdout, stderr, console
    ensures tx.Valid() && StreamsSent(tx, items, |items|, true)
  {
    HandleFlush(tx, stdout, StdOut);
    HandleFlush(tx, stderr, StdErr);
    HandleFlush(tx, console, Console);
  }

  /** The reading loop: handles items up to the first failure or the end. */
  method ReadItems(tx: Sender, stdout: Partial, stderr: Partial, console: Partial, items: seq<Item>) returns (i: nat)
    requires forall k | 0 <= k < |items| :: IsLogItem(items[k])
    requires stdout != stderr && stderr != console && console != stdout
    requires tx.Valid() && AllInStep(tx, stdout, stderr, console, items, 0)
    modifies tx, stdout, stderr, console
    ensures i == StopsAt(items, 0)
    ensures tx.Valid() && AllInStep(tx, stdout, stderr, console, items, i)
  {
    i := 0;
    while i < |items| && !items[i].Failure?
      invariant 0 <= i <= |items|
      invariant tx.Valid() && AllInStep(tx, stdout, stderr, console, items, i)
      invariant StopsAt(items, i) == StopsAt(items, 0)
    {
      HandleItem(tx, stdout, stderr, console, items, i);
      i := i + 1;
    }
  }

  /**
   Reads the items until they end or one reports an error. Each stream's lines depend only on that
   stream's own text, however the three are interleaved and cut.
   */
  method StreamContainerLogs(items: seq<Item>, tx: Sender)
    requires forall i | 0 <= i < |items| :: IsLogItem(items[i])
    requires tx.Valid() && tx.sent == []
    modifies tx
    ensures tx.Valid()
    ensures StreamsSent(tx, items, StopsAt(items, 0), StopsAt(items, 0) == |items|)
  {
    var stdout := new Partial();
    var stderr := new Partial();
    var console := new Partial();
    var i := ReadItems(tx, stdout, stderr, console, items);
    if i < |items| {
      SendError(tx, items[i].error);
    } else {
      FlushAll(tx, stdout, stderr, console, items);
    }
  }
}
