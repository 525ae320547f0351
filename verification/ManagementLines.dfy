/** The line assembler of the management interface (manage.c): what arrives in any chunks comes out in lines. */
module ManagementLines {
  import opened Sequences
  import opened Wrappers

  /** What command_line_add lets through. */
  predicate Kept(c: char) {
    ' ' <= c <= '~' || c == '\n'
  }

  ghost predicate AllKept(s: string) {
    forall j :: 0 <= j < |s| ==> Kept(s[j])
  }

  function Filtered(s: string): (r: string)
    ensures AllKept(r)
  {
    if s == [] then []
    else if Kept(s[0]) then [s[0]] + Filtered(s[1..])
    else Filtered(s[1..])
  }

  lemma {:induction false} FilteredConcat(a: string, b: string)
    ensures Filtered(a + b) == Filtered(a) + Filtered(b)
  {
    if a == [] {
      assert a + b == b;
    } else {
      assert (a + b)[1..] == a[1..] + b;
      FilteredConcat(a[1..], b);
      assert [a[0]] + (Filtered(a[1..]) + Filtered(b)) == [a[0]] + Filtered(a[1..]) + Filtered(b);
    }
  }

  /** Where the first newline is, or the length without one. */
  function Newline(s: string): (i: nat)
    ensures i <= |s| && (i < |s| ==> s[i] == '\n') && (forall j :: 0 <= j < i ==> s[j] != '\n')
  {
    if s == [] || s[0] == '\n' then 0 else 1 + Newline(s[1..])
  }

  /** The text split at its newlines, and what follows the last one. */
  function Lines(s: string): seq<string>
    decreases |s|
  {
    var i := Newline(s);
    if i == |s| then [] else [s[..i]] + Lines(s[i + 1..])
  }

  function Rest(s: string): (r: string)
    ensures |r| <= |s| && Newline(r) == |r|
    decreases |s|
  {
    var i := Newline(s);
    if i == |s| then s else Rest(s[i + 1..])
  }

  /** The whole text again, with a newline after each line. */
  function Joined(lines: seq<string>): string {
    if lines == [] then [] else lines[0] + "\n" + Joined(lines[1..])
  }

  lemma SplitAt(s: string, i: nat)
    requires i < |s| && s[i] == '\n'
    ensures s == s[..i] + "\n" + s[i + 1..]
  {
  }

  /** The first line, and what the others and the rest are made of. */
  lemma FirstLine(s: string)
    ensures
      var i := Newline(s);
      if i == |s| then Lines(s) == [] && Rest(s) == s
      else Lines(s) == [s[..i]] + Lines(s[i + 1..]) && Rest(s) == Rest(s[i + 1..]) && s == s[..i] + "\n" + s[i + 1..]
  {
    hide Newline;
    if Newline(s) < |s| {
      SplitAt(s, Newline(s));
    }
  }

  lemma JoinedFirst(line: string, lines: seq<string>)
    ensures Joined([line] + lines) == line + "\n" + Joined(lines)
  {
    assert ([line] + lines)[1..] == lines;
  }

  lemma {:induction false} LinesJoin(s: string)
    ensures Joined(Lines(s)) + Rest(s) == s
    decreases |s|
  {
    hide Newline, Lines, Rest, Joined;
    var i := Newline(s);
    FirstLine(s);
    if i < |s| {
      var t, first := s[i + 1..], s[..i] + "\n";
      LinesJoin(t);
      JoinedFirst(s[..i], Lines(t));
      Assoc(first, Joined(Lines(t)), Rest(t));
    } else {
      NothingJoined();
      WithEmpty(s);
    }
  }

  lemma NothingJoined()
    ensures Joined([]) == []
  {
  }

  lemma {:induction false} NewlineConcat(a: string, b: string)
    ensures Newline(a) < |a| ==> Newline(a + b) == Newline(a)
    ensures Newline(a) == |a| ==> Newline(a + b) == |a| + Newline(b)
  {
    if a == [] {
      assert a + b == b;
    } else {
      assert (a + b)[1..] == a[1..] + b;
      NewlineConcat(a[1..], b);
    }
  }

  lemma {:induction false} LinesConcat(a: string, b: string)
    ensures Lines(a + b) == Lines(a) + Lines(Rest(a) + b)
    ensures Rest(a + b) == Rest(Rest(a) + b)
    decreases |a|
  {
    hide Newline, Lines, Rest;
    var i := Newline(a);
    FirstLine(a);
    if i < |a| {
      var c := a[i + 1..];
      NewlineConcat(a, b);
      Cut(a, b, i);
      FirstLine(a + b);
      LinesConcat(c, b);
      Assoc([a[..i]], Lines(c), Lines(Rest(c) + b));
    } else {
      WithEmpty(Lines(a + b));
    }
  }

  // ----- the buffer -----

  /** The bytes of s written one by one: one that finds the buffer full is lost, and clears it (command_line_add). */
  function Written(buf: string, s: string, capacity: nat): (r: string)
    requires |buf| <= capacity
    ensures |r| <= capacity
    ensures |buf| + |s| <= capacity ==> r == buf + s
    decreases |s|
  {
    if s == [] then buf
    else Written(if |buf| < capacity then buf + [s[0]] else [], s[1..], capacity)
  }

  lemma WrittenFirst(buf: string, c: char, s: string, capacity: nat)
    requires |buf| <= capacity
    ensures Written(buf, [c] + s, capacity) == Written(if |buf| < capacity then buf + [c] else [], s, capacity)
  {
    assert ([c] + s)[1..] == s;
  }

  /** Without its trailing line ends and nulls. */
  function Chomped(s: string): string {
    if s != [] && s[|s| - 1] in "\r\n\0" then Chomped(s[..|s| - 1]) else s
  }

  /** All that goes are line ends and nulls, and none is left at the end. */
  lemma {:induction false} ChompedEnds(s: string)
    ensures Chomped(s) <= s
    ensures forall j :: |Chomped(s)| <= j < |s| ==> s[j] in ['\r', '\n', '\0']
    ensures Chomped(s) != "" ==> Chomped(s)[|Chomped(s)| - 1] !in ['\r', '\n', '\0']
    decreases |s|
  {
    if s != [] && s[|s| - 1] in "\r\n\0" {
      ChompedEnds(s[..|s| - 1]);
    }
  }

  /** buf_null_terminate, on a text that does not end in a null: on a full buffer the last byte makes room. */
  function Terminated(s: string, capacity: nat): string
    requires |s| <= capacity && capacity > 0
  {
    (if |s| < capacity then s else s[..|s| - 1]) + "\0"
  }

  /** struct command_line */
  class CommandLine {
    const capacity: nat
    var buf: string
    var residual: string

    ghost predicate Valid()
      reads this
    {
      |buf| <= capacity && |residual| <= capacity
    }

    constructor (bufLen: nat)
      ensures Valid() && capacity == bufLen && buf == residual == []
    {
      capacity, buf, residual := bufLen, [], [];
    }

    /** command_line_add */
    method Add(s: string)
      requires Valid()
      modifies this`buf
      ensures Valid() && buf == Written(old(buf), Filtered(s), capacity)
    {
      for i := 0 to |s|
        invariant Valid() && Written(buf, Filtered(s[i..]), capacity) == Written(old(buf), Filtered(s), capacity)
      {
        assert s[i..][0] == s[i] && s[i..][1..] == s[i + 1..];
        if s[i] != '\0' && Kept(s[i]) {
          WrittenFirst(buf, s[i], Filtered(s[i + 1..]), capacity);
          buf := if |buf| < capacity then buf + [s[i]] else [];
        }
      }
    }

    /** buf_substring_len on buf: the length up to and with the first newline. */
    method SubstringLen() returns (n: int)
      ensures n == if Newline(buf) < |buf| then Newline(buf) + 1 else -1
    {
      var i := 0;
      while i < |buf|
        invariant i <= |buf| && (forall j :: 0 <= j < i ==> buf[j] != '\n')
        decreases |buf| - i
      {
        i := i + 1;
        if buf[i - 1] == '\n' {
          return i;
        }
      }
      return -1;
    }

    /** buf_chomp on buf */
    method Chomp()
      requires Valid() && capacity > 0
      modifies this`buf
      ensures Valid() && |Chomped(old(buf))| <= capacity && buf == Terminated(Chomped(old(buf)), capacity)
    {
      while buf != [] && buf[|buf| - 1] in "\r\n\0"
        invariant Valid() && Chomped(buf) == Chomped(old(buf))
        decreases |buf|
      {
        buf := buf[..|buf| - 1];
      }
      if |buf| >= capacity {
        buf := buf[..|buf| - 1];
      }
      buf := buf + "\0";
    }

    /** command_line_get: the first line without its end, if there is a whole one; what follows it is set aside. */
    method Get() returns (line: Option<string>)
      requires Valid() && residual == [] && AllKept(buf)
      modifies this
      ensures Valid()
      ensures line == None <==> Lines(old(buf)) == []
      ensures line == None ==> buf == old(buf) && residual == []
      ensures line.Some? ==> [line.value] + Lines(residual) == Lines(old(buf)) && Rest(residual) == Rest(old(buf))
      ensures line.Some? ==> |line.value| < |old(buf)| && residual == old(buf)[|line.value| + 1..]
    {
      ghost var b, n := buf, Newline(buf);
      var i := SubstringLen();
      if i < 0 {
        return None;
      }
      residual := buf[i..];
      buf := buf[..i];
      assert buf == b[..n] + "\n";
      ChompedLine(b[..n]);
      Chomp();
      assert buf[..|buf| - 1] == b[..n];
      return Some(buf[..|buf| - 1]);
    }

    /** command_line_next */
    method Next()
      requires Valid()
      modifies this
      ensures Valid() && buf == old(residual) && residual == []
    {
      buf := residual;
      residual := [];
    }

    /** The part of man_read that takes in what arrived and hands out the whole lines. */
    method Receive(chunk: string) returns (lines: seq<string>)
      requires Valid() && capacity > 0 && residual == [] && AllKept(buf)
      modifies this
      ensures Valid() && residual == [] && AllKept(buf)
      ensures (lines, buf) == Taken(old(buf), chunk, capacity)
    {
      Add(chunk);
      WrittenKept(old(buf), Filtered(chunk), capacity);
      ghost var all := buf;
      lines := [];
      while true
        invariant Valid() && residual == [] && AllKept(buf)
        invariant lines + Lines(buf) == Lines(all) && Rest(buf) == Rest(all)
        decreases |buf|
      {
        ghost var left := buf;
        var line := Get();
        if line == None {
          RestAlone(buf);
          assert lines + [] == lines;
          return;
        }
        lines := lines + [line.value];
        Next();
      }
    }
  }

  lemma {:induction false} ChompedLine(line: string)
    requires forall j :: 0 <= j < |line| ==> Kept(line[j]) && line[j] != '\n'
    ensures Chomped(line + "\n") == line
  {
    assert (line + "\n")[..|line|] == line;
  }

  lemma RestAlone(s: string)
    requires Lines(s) == []
    ensures Rest(s) == s
  {
  }

  /** What one read hands out, and what it leaves in the buffer. */
  function Taken(pending: string, chunk: string, capacity: nat): (seq<string>, string)
    requires |pending| <= capacity
  {
    var all := Written(pending, Filtered(chunk), capacity);
    (Lines(all), Rest(all))
  }

  lemma {:induction false} WrittenKept(buf: string, s: string, capacity: nat)
    requires |buf| <= capacity && AllKept(buf)
    requires AllKept(s)
    ensures AllKept(Written(buf, s, capacity))
    decreases |s|
  {
    if s != [] {
      WrittenKept(if |buf| < capacity then buf + [s[0]] else [], s[1..], capacity);
    }
  }

  // ----- any number of reads -----

  function Session(pending: string, chunks: seq<string>, capacity: nat): (seq<string>, string)
    requires |pending| <= capacity
    decreases |chunks|
  {
    if chunks == [] then ([], pending)
    else
      var (lines, rest) := Taken(pending, chunks[0], capacity);
      var (more, last) := Session(rest, chunks[1..], capacity);
      (lines + more, last)
  }

  /** Nothing ever runs over: what waits and what comes in next have room together. */
  predicate Fits(pending: string, chunks: seq<string>, capacity: nat)
    requires |pending| <= capacity
    decreases |chunks|
  {
    chunks == [] ||
    (&& |pending| + |Filtered(chunks[0])| <= capacity
     && Fits(Taken(pending, chunks[0], capacity).1, chunks[1..], capacity))
  }

  function Concat(chunks: seq<string>): string {
    if chunks == [] then [] else chunks[0] + Concat(chunks[1..])
  }

  /** The lines are those of the whole filtered stream, however it was cut into chunks. */
  lemma {:induction false} ChunkingIndependent(pending: string, chunks: seq<string>, capacity: nat)
    requires |pending| <= capacity && Newline(pending) == |pending| && Fits(pending, chunks, capacity)
    ensures
      var all := pending + Filtered(Concat(chunks));
      Session(pending, chunks, capacity) == (Lines(all), Rest(all))
    decreases |chunks|
  {
    if chunks == [] {
      assert pending + Filtered(Concat(chunks)) == pending;
    } else {
      var first := pending + Filtered(chunks[0]);
      var later := Filtered(Concat(chunks[1..]));
      ChunkingIndependent(Rest(first), chunks[1..], capacity);
      FilteredConcat(chunks[0], Concat(chunks[1..]));
      LinesConcat(first, later);
      assert first + later == pending + Filtered(Concat(chunks));
    }
  }

  lemma {:induction false} LinesKept(s: string, i: nat)
    requires AllKept(s) && i < |Lines(s)|
    ensures forall j :: 0 <= j < |Lines(s)[i]| ==> ' ' <= Lines(s)[i][j] <= '~'
    decreases |s|
  {
    hide Lines, Rest;
    FirstLine(s);
    var n := Newline(s);
    if i > 0 {
      LinesKept(s[n + 1..], i - 1);
    } else {
      assert forall j :: 0 <= j < n ==> Kept(s[j]) && s[j] != '\n';
    }
  }

  /** Whatever comes in, no line that is handed out holds anything but printable characters. */
  lemma {:induction false} LinesArePrintable(pending: string, chunks: seq<string>, capacity: nat, i: nat)
    requires |pending| <= capacity && AllKept(pending) && i < |Session(pending, chunks, capacity).0|
    ensures
      var line := Session(pending, chunks, capacity).0[i];
      forall j :: 0 <= j < |line| ==> ' ' <= line[j] <= '~'
    decreases |chunks|
  {
    if chunks != [] {
      var all := Written(pending, Filtered(chunks[0]), capacity);
      WrittenKept(pending, Filtered(chunks[0]), capacity);
      if i < |Lines(all)| {
        LinesKept(all, i);
      } else {
        RestKept(all);
        LinesArePrintable(Rest(all), chunks[1..], capacity, i - |Lines(all)|);
      }
    }
  }

  lemma {:induction false} RestKept(s: string)
    requires AllKept(s)
    ensures AllKept(Rest(s))
    decreases |s|
  {
    FirstLine(s);
    if Newline(s) < |s| {
      RestKept(s[Newline(s) + 1..]);
    }
  }

  /** Two ways to cut the same stream, both of which fit. */
  lemma SameLines(xs: seq<string>, ys: seq<string>, capacity: nat)
    requires Concat(xs) == Concat(ys) && Fits("", xs, capacity) && Fits("", ys, capacity)
    ensures Session("", xs, capacity) == Session("", ys, capacity)
  {
    ChunkingIndependent("", xs, capacity);
    ChunkingIndependent("", ys, capacity);
  }

  /** Without room chunking matters: a full buffer that meets one more byte is emptied. */
  lemma OverflowDrops(capacity: nat, pending: string, c: char)
    requires |pending| == capacity && Newline(pending) == |pending| && Kept(c)
    ensures Session(pending, [[c]], capacity) == ([], [])
  {
    assert Filtered([c]) == [c] && [c][1..] == [];
    assert Written(pending, [c], capacity) == Written([], [], capacity);
    assert Taken(pending, [c], capacity) == ([], []);
    assert [[c]][1..] == [];
  }
}
