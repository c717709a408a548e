/** The line reassembly of the SSE smoke client: chunks of text in, complete lines and flags out. */
module SseLines {

  /** JavaScript's split at newlines. */
  function Split(s: string): (lines: seq<string>)
    ensures |lines| >= 1
  {
    if s == "" then [""]
    else
      var rest := Split(s[1..]);
      if s[0] == '\n' then [""] + rest else [[s[0]] + rest[0]] + rest[1..]
  }

  function Join(lines: seq<string>): string
    requires |lines| >= 1
  {
    if |lines| == 1 then lines[0] else lines[0] + "\n" + Join(lines[1..])
  }

  lemma {:induction false} JoinSplit(s: string)
    ensures Join(Split(s)) == s
    ensures forall l :: l in Split(s) ==> '\n' !in l
  {
    if s != "" {
      var rest := Split(s[1..]);
      JoinSplit(s[1..]);
      if s[0] == '\n' {
        assert ([""] + rest)[1..] == rest;
        assert Join([""] + rest) == "" + "\n" + Join(rest);
      } else {
        var lines := [[s[0]] + rest[0]] + rest[1..];
        assert lines[1..] == rest[1..] && rest[0] in rest && forall l :: l in rest[1..] ==> l in rest;
        if |rest| > 1 {
          assert Join(lines) == [s[0]] + rest[0] + "\n" + Join(rest[1..]);
        }
      }
    }
  }

  lemma {:induction false} SplitLine(l: string, s: string)
    requires '\n' !in l
    ensures Split(l + "\n" + s) == [l] + Split(s)
    ensures Split(l) == [l]
  {
    var t := l + "\n" + s;
    if l == "" {
      assert t[1..] == s;
    } else {
      assert t[0] == l[0] && t[1..] == l[1..] + "\n" + s;
      SplitLine(l[1..], s);
      assert [l[0]] + l[1..] == l;
      assert ([l[1..]] + Split(s))[1..] == Split(s);
    }
  }

  /** Splitting is the only way to cut a text into newline-free lines that join to it. */
  lemma {:induction false} SplitIsUnique(lines: seq<string>)
    requires |lines| >= 1 && forall l :: l in lines ==> '\n' !in l
    ensures Split(Join(lines)) == lines
  {
    assert lines[0] in lines;
    if |lines| == 1 {
      SplitLine(lines[0], "");
    } else {
      assert forall l :: l in lines[1..] ==> l in lines;
      SplitIsUnique(lines[1..]);
      SplitLine(lines[0], Join(lines[1..]));
      assert lines == [lines[0]] + lines[1..];
    }
  }

  function Complete(lines: seq<string>): seq<string>
    requires |lines| >= 1
  {
    lines[..|lines| - 1]
  }

  function Last(lines: seq<string>): string
    requires |lines| >= 1
  {
    lines[|lines| - 1]
  }

  /** A character in front of the first line, whether or not that line is also the last. */
  lemma PrependChar(c: char, rest: seq<string>, b: string)
    requires |rest| >= 1 && c != '\n'
    ensures var lines, more := [[c] + rest[0]] + rest[1..], Complete(rest) + Split(Last(rest) + b);
      [[c] + more[0]] + more[1..] == Complete(lines) + Split(Last(lines) + b)
  {
    var lines := [[c] + rest[0]] + rest[1..];
    if |rest| == 1 {
      var t := [c] + (rest[0] + b);
      assert Last(lines) + b == t && t[1..] == rest[0] + b;
      assert Complete(lines) == [] && Complete(rest) == [];
    } else {
      assert Complete(lines) == [[c] + rest[0]] + Complete(rest)[1..];
    }
  }

  /** More text only continues the last line: the complete lines stay as they are. */
  lemma {:induction false} SplitAppend(a: string, b: string)
    ensures Split(a + b) == Complete(Split(a)) + Split(Last(Split(a)) + b)
  {
    if a == "" {
      assert a + b == b && Complete([""]) == [];
    } else {
      var rest := Split(a[1..]);
      assert (a + b)[0] == a[0] && (a + b)[1..] == a[1..] + b;
      SplitAppend(a[1..], b);
      if a[0] == '\n' {
        assert Complete([""] + rest) == [""] + Complete(rest);
      } else {
        PrependChar(a[0], rest, b);
      }
    }
  }

  predicate IsConnected(line: string) {
    "event: spine.connected" <= line
  }

  predicate IsHeartbeat(line: string) {
    line == ": heartbeat"
  }

  /** An empty expectation means that no event is expected. */
  predicate IsExpected(expected: string, line: string) {
    expected != "" && line == "event: " + expected
  }

  function Concat(chunks: seq<string>): string {
    if chunks == [] then "" else Concat(chunks[..|chunks| - 1]) + chunks[|chunks| - 1]
  }

  predicate SawConnected(lines: seq<string>) {
    exists l :: l in lines && IsConnected(l)
  }

  predicate SawHeartbeat(lines: seq<string>) {
    exists l :: l in lines && IsHeartbeat(l)
  }

  predicate SawExpected(expected: string, lines: seq<string>) {
    exists l :: l in lines && IsExpected(expected, l)
  }

  lemma SawMore(expected: string, lines: seq<string>, line: string)
    ensures SawConnected(lines + [line]) <==> SawConnected(lines) || IsConnected(line)
    ensures SawHeartbeat(lines + [line]) <==> SawHeartbeat(lines) || IsHeartbeat(line)
    ensures SawExpected(expected, lines + [line]) <==> SawExpected(expected, lines) || IsExpected(expected, line)
  {
  }

  lemma ContinuesSplit(received: seq<string>, chunk: string, handled: seq<string>, buffer: string)
    requires handled + [buffer] == Split(Concat(received))
    ensures Split(Concat(received + [chunk])) == handled + Split(buffer + chunk)
  {
    assert (received + [chunk])[..|received|] == received;
    SplitAppend(Concat(received), chunk);
    var lines := handled + [buffer];
    assert Last(lines) == buffer && Complete(lines) == handled;
  }

  /** The reader's state; `handled` are the lines passed to the log so far, `received` the chunks read. */
  class LineReader {
    const expected: string
    var buffer: string
    var gotConnected: bool
    var gotHeartbeat: bool
    var gotExpectedEvent: bool
    ghost var handled: seq<string>
    ghost var received: seq<string>

    /** Each flag says whether a handled line set it. */
    ghost predicate FlagsAgree()
      reads this
    {
      && gotConnected == SawConnected(handled)
      && gotHeartbeat == SawHeartbeat(handled)
      && gotExpectedEvent == SawExpected(expected, handled)
    }

    /** Whatever the chunking: the handled lines and the buffer are the newline split of all text received. */
    ghost predicate Valid()
      reads this
    {
      handled + [buffer] == Split(Concat(received)) && FlagsAgree()
    }

    constructor (expected: string)
      ensures Valid() && received == [] && this.expected == expected
    {
      this.expected := expected;
      buffer, handled, received := "", [], [];
      gotConnected, gotHeartbeat, gotExpectedEvent := false, false, false;
    }

    /** The loop over the complete lines of one read. */
    method HandleLines(lines: seq<string>)
      requires FlagsAgree()
      modifies this`gotConnected, this`gotHeartbeat, this`gotExpectedEvent, this`handled
      ensures FlagsAgree() && handled == old(handled) + lines
    {
      for i := 0 to |lines|
        invariant handled == old(handled) + lines[..i] && FlagsAgree()
      {
        var line := lines[i];
        SawMore(expected, handled, line);
        handled := handled + [line];
        if IsConnected(line) {
          gotConnected := true;
        }
        if IsHeartbeat(line) {
          gotHeartbeat := true;
        }
        if IsExpected(expected, line) {
          gotExpectedEvent := true;
        }
      }
    }

    method Feed(chunk: string)
      requires Valid()
      modifies this
      ensures Valid() && received == old(received) + [chunk] && old(handled) <= handled
    {
      ContinuesSplit(received, chunk, handled, buffer);
      received := received + [chunk];
      buffer := buffer + chunk;
      var lines := Split(buffer);
      buffer := Last(lines);
      HandleLines(Complete(lines));
      assert old(handled) + (Complete(lines) + [buffer]) == handled + [buffer];
    }
  }

  /** What the flags report of the text received: a line that starts so, a line that is this, the line expected. */
  lemma FlagsReport(r: LineReader)
    requires r.Valid()
    ensures r.gotConnected <==> exists i :: 0 <= i < |r.handled| && "event: spine.connected" <= r.handled[i]
    ensures r.gotHeartbeat <==> ": heartbeat" in r.handled
    ensures r.gotExpectedEvent <==> r.expected != "" && ("event: " + r.expected) in r.handled
  {
    if r.gotConnected {
      var l :| l in r.handled && IsConnected(l);
      var i :| 0 <= i < |r.handled| && r.handled[i] == l;
    }
    if i :| 0 <= i < |r.handled| && "event: spine.connected" <= r.handled[i] {
      assert r.handled[i] in r.handled && IsConnected(r.handled[i]);
    }
  }

  lemma SameLines(a: seq<string>, x: string, b: seq<string>, y: string)
    requires a + [x] == b + [y]
    ensures a == b && x == y
  {
    assert a == Complete(a + [x]) && b == Complete(b + [y]);
    assert x == Last(a + [x]) && y == Last(b + [y]);
  }

  /** Two readers that received the same text in different chunks have handled the same lines and set the same flags. */
  lemma ChunkingIsIrrelevant(a: LineReader, b: LineReader)
    requires a.Valid() && b.Valid() && a.expected == b.expected && Concat(a.received) == Concat(b.received)
    ensures a.handled == b.handled && a.buffer == b.buffer
    ensures a.gotConnected == b.gotConnected && a.gotHeartbeat == b.gotHeartbeat
      && a.gotExpectedEvent == b.gotExpectedEvent
  {
    SameLines(a.handled, a.buffer, b.handled, b.buffer);
  }
}
