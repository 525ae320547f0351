/** Reading a static key file (read_key_file in crypto.c), and the round trip with what write_key_file prints. */
module KeyParser {
  import opened Bytes
  import opened KeyFiles
  import opened Wrappers

  datatype State = Initial | Head | Data | DataComplete | Foot | Finished

  /** The variables of read_key_file; pending is what hex_byte holds. */
  datatype Parser = Parser(state: State, pending: string, lineNum: nat, lineIndex: nat, matched: nat, out: seq<Byte>)

  const START := Parser(Initial, "", 1, 0, 0, [])

  /** One character; None for a character that does not belong into a key (M_FATAL). */
  function Feed(p: Parser, c: char): Option<Parser> {
    if c == '\n' then Some(p.(lineIndex := 0, matched := 0, lineNum := p.lineNum + 1))
    else
      var p1 := p.(state := Opened(p, c));
      var p2 := MatchLine(p1, c, Initial, StaticKeyHead(), Head);
      var p3 := MatchLine(p2, c, Foot, StaticKeyFoot(), Finished);
      if p3.state != Data then Some(p3.(lineIndex := p.lineIndex + 1))
      else
        match ReadDigit(p3, c)
        case None => None
        case Some(p4) => Some(p4.(lineIndex := p.lineIndex + 1))
  }

  /** What the first character of a line says. */
  function Opened(p: Parser, c: char): State {
    var s := if p.lineIndex == 0 && p.state == Head then Data else p.state;
    if p.lineIndex == 0 && (s == Data || s == DataComplete) && c == '-' then Foot else s
  }

  function MatchLine(p: Parser, c: char, during: State, line: string, after: State): Parser {
    if p.state == during && p.lineIndex < |line| && c == line[p.lineIndex]
    then p.(matched := p.matched + 1, state := if p.matched + 1 == |line| then after else p.state)
    else p
  }

  function ReadDigit(p: Parser, c: char): Option<Parser> {
    if IsHexDigit(c) then
      if |p.pending| == 1 && IsHexDigit(p.pending[0]) then
        var out := p.out + [16 * HexValue(p.pending[0]) + HexValue(c)];
        Some(p.(pending := "", out := out, state := if |out| == KEYS_SIZE then DataComplete else p.state))
      else Some(p.(pending := p.pending + [c]))
    else if IsSpace(c) then Some(p)
    else None
  }

  function Parse(p: Parser, s: string): Option<Parser>
    decreases |s|
  {
    if s == [] then Some(p)
    else
      match Feed(p, s[0])
      case None => None
      case Some(q) => Parse(q, s[1..])
  }

  lemma {:induction false} ParseConcat(p: Parser, s: string, t: string)
    ensures Parse(p, s + t) == match Parse(p, s) { case None => None case Some(q) => Parse(q, t) }
    decreases |s|
  {
    if s == [] {
      assert s + t == t;
    } else {
      assert (s + t)[1..] == s[1..] + t;
      if Feed(p, s[0]).Some? {
        ParseConcat(Feed(p, s[0]).value, s[1..], t);
      }
    }
  }

  // ----- the lines of a key file -----

  /** A line before the header that does not begin like it. */
  lemma {:induction false} CommentLine(p: Parser, s: string)
    requires p.state == Initial && p.matched <= p.lineIndex && (p.lineIndex > 0 ==> p.matched < p.lineIndex)
    requires '\n' !in s && (p.lineIndex == 0 && s != [] ==> s[0] != StaticKeyHead()[0])
    ensures Parse(p, s).Some?
    ensures
      var q := Parse(p, s).value;
      && q.state == Initial && q.pending == p.pending && q.out == p.out
      && q.matched <= q.lineIndex && (q.lineIndex > 0 ==> q.matched < q.lineIndex)
    decreases |s|
  {
    hide StaticKeyHead, StaticKeyFoot;
    if s != [] {
      CommentLine(Feed(p, s[0]).value, s[1..]);
    }
  }

  /** A header or footer line, from its i-th character on. */
  lemma {:induction false} MarkerLine(p: Parser, line: string, during: State, after: State, i: nat)
    requires (during, line, after) in {(Initial, StaticKeyHead(), Head), (Foot, StaticKeyFoot(), Finished)}
    requires i < |line| && p.lineIndex == p.matched == i
    requires p.state == during || (during == Foot && i == 0 && p.state in {Data, DataComplete})
    ensures Parse(p, line[i..]).Some?
    ensures
      var q := Parse(p, line[i..]).value;
      q.state == after && q.pending == p.pending && q.out == p.out
    decreases |line| - i
  {
    hide StaticKeyHead, StaticKeyFoot;
    var c := line[i];
    assert line[i..] == [c] + line[i + 1..];
    var q := Feed(p, c).value;
    if i + 1 < |line| {
      MarkerLine(q, line, during, after, i + 1);
    }
  }

  lemma FirstDigit(p: Parser, n: nat)
    requires n < 16 && p.pending == "" && (p.state == Data || (p.state == Head && p.lineIndex == 0))
    ensures Feed(p, HexDigit(n)) == Some(Parser(Data, [HexDigit(n)], p.lineNum, p.lineIndex + 1, p.matched, p.out))
  {
    hide StaticKeyHead, StaticKeyFoot, HexValue;
    var c := HexDigit(n);
    assert Opened(p, c) == Data && "" + [c] == [c];
  }

  lemma SecondDigit(p: Parser, m: nat, n: nat)
    requires m < 16 && n < 16 && p.pending == [HexDigit(m)] && p.state == Data && p.lineIndex > 0 && |p.out| < KEYS_SIZE
    ensures Feed(p, HexDigit(n)) == Some(Parser(
      if |p.out| + 1 == KEYS_SIZE then DataComplete else Data,
      "", p.lineNum, p.lineIndex + 1, p.matched, p.out + [16 * m + n]))
  {
    hide StaticKeyHead, StaticKeyFoot, HexValue;
    var c := HexDigit(n);
    assert Opened(p, c) == Data;
  }

  lemma TwoDigitsParsed(p: Parser, b: Byte)
    requires p.pending == "" && |p.out| < KEYS_SIZE && (p.state == Data || (p.state == Head && p.lineIndex == 0))
    ensures Parse(p, TwoDigits(b)) == Some(Parser(
      if |p.out| + 1 == KEYS_SIZE then DataComplete else Data, "", p.lineNum, p.lineIndex + 2, p.matched, p.out + [b]))
  {
    hide Feed, HexDigit;
    var m, n := b as int / 16, b as int % 16;
    FirstDigit(p, m);
    var q := Feed(p, HexDigit(m)).value;
    SecondDigit(q, m, n);
    var s := TwoDigits(b);
    assert s[1..] == [HexDigit(n)] && [HexDigit(n)][1..] == [];
    assert Parse(p, s) == Parse(q, [HexDigit(n)]) == Parse(Feed(q, HexDigit(n)).value, []);
  }

  lemma NewLine(p: Parser)
    ensures Parse(p, "\n") == Some(p.(lineIndex := 0, matched := 0, lineNum := p.lineNum + 1))
      && Parse(p, "") == Some(p)
  {
    assert "\n"[1..] == [];
  }

  /** The parser at the end of a dump reads its bytes back. */
  lemma {:induction false} DumpParsed(p: Parser, data: seq<Byte>, n: nat)
    requires n <= |data| && p.pending == "" && p.lineIndex == 0 && p.state in {Head, Data}
    requires |p.out| + n <= KEYS_SIZE
    ensures Parse(p, HexDump(data, n, BYTES_PER_LINE, "\n")).Some?
    ensures
      var q := Parse(p, HexDump(data, n, BYTES_PER_LINE, "\n")).value;
      && q.pending == "" && q.out == p.out + data[..n]
      && (if n == 0 then q == p else q.state == if |q.out| == KEYS_SIZE then DataComplete else Data)
  {
    hide Feed, HexDigit, TwoDigits;
    if n > 0 {
      var i := n - 1;
      DumpParsed(p, data, i);
      var dump := HexDump(data, i, BYTES_PER_LINE, "\n");
      var q := Parse(p, dump).value;
      var sep := if i > 0 && i % BYTES_PER_LINE == 0 then "\n" else "";
      NewLine(q);
      ParseConcat(p, dump, sep);
      ParseConcat(p, dump + sep, TwoDigits(data[i]));
      TwoDigitsParsed(Parse(q, sep).value, data[i]);
      assert data[..n] == data[..i] + [data[i]];
    }
  }

  function KeyBytes(keys: seq<Key>): (s: seq<Byte>)
    ensures |s| == KEY_SIZE * |keys|
  {
    if keys == [] then [] else keys[0] + KeyBytes(keys[1..])
  }

  lemma {:induction false} KeysParsed(p: Parser, keys: seq<Key>)
    requires p.pending == "" && p.lineIndex == p.matched == 0 && p.state in {Head, Data}
    requires keys != [] && |p.out| + KEY_SIZE * |keys| <= KEYS_SIZE
    ensures Parse(p, KeyLines(keys)).Some?
    ensures
      var q := Parse(p, KeyLines(keys)).value;
      && q.pending == "" && q.lineIndex == q.matched == 0 && q.out == p.out + KeyBytes(keys)
      && q.state == if |q.out| == KEYS_SIZE then DataComplete else Data
    decreases |keys|
  {
    hide Feed, HexDump, Parse;
    var dump := HexDump(keys[0], KEY_SIZE, BYTES_PER_LINE, "\n");
    DumpParsed(p, keys[0], KEY_SIZE);
    var q := Parse(p, dump).value;
    NewLine(q);
    var r := Parse(q, "\n").value;
    ParseConcat(p, dump, "\n");
    ParseConcat(p, dump + "\n", KeyLines(keys[1..]));
    assert keys[0][..KEY_SIZE] == keys[0];
    if |keys| == 1 {
      NewLine(r);
      assert KeyBytes(keys) == keys[0] + [] == keys[0];
    } else {
      KeysParsed(r, keys[1..]);
      assert p.out + KeyBytes(keys) == r.out + KeyBytes(keys[1..]);
    }
  }

  lemma Comment(p: Parser, s: string)
    requires p.state == Initial && p.lineIndex == p.matched == 0 && '\n' !in s && s != [] && s[0] != '-'
    ensures Parse(p, s + "\n").Some?
    ensures
      var q := Parse(p, s + "\n").value;
      q.state == Initial && q.lineIndex == q.matched == 0 && q.pending == p.pending && q.out == p.out
  {
    hide Feed, Parse, StaticKeyHead;
    CommentLine(p, s);
    ParseConcat(p, s, "\n");
    NewLine(Parse(p, s).value);
  }

  lemma CommentsParsed(nbits: nat)
    ensures Parse(START, "#\n" + BitsLine(nbits) + "\n" + "#\n").Some?
    ensures
      var q := Parse(START, "#\n" + BitsLine(nbits) + "\n" + "#\n").value;
      q.state == Initial && q.lineIndex == q.matched == 0 && q.pending == "" && q.out == []
  {
    hide Feed, Parse, Decimal;
    var s, t := "#" + "\n", BitsLine(nbits) + "\n";
    Comment(START, "#");
    var p := Parse(START, s).value;
    Comment(p, BitsLine(nbits));
    ParseConcat(START, s, t);
    Comment(Parse(p, t).value, "#");
    ParseConcat(START, s + t, s);
    assert s + t + s == "#\n" + BitsLine(nbits) + "\n" + "#\n";
  }

  lemma KeysPartParsed(p: Parser, keys: seq<Key>)
    requires p.state == Initial && p.lineIndex == p.matched == 0 && p.pending == "" && p.out == []
    requires 1 <= |keys| <= 2
    ensures Parse(p, StaticKeyHead() + "\n" + KeyLines(keys) + StaticKeyFoot() + "\n").Some?
    ensures
      var q := Parse(p, StaticKeyHead() + "\n" + KeyLines(keys) + StaticKeyFoot() + "\n").value;
      q.state == Finished && q.out == KeyBytes(keys)
  {
    hide Feed, Parse, KeyLines, StaticKeyHead, StaticKeyFoot;
    var head, foot, lines := StaticKeyHead(), StaticKeyFoot(), KeyLines(keys);
    assert head[0..] == head && foot[0..] == foot;
    MarkerLine(p, head, Initial, Head, 0);
    var p1 := Parse(p, head).value;
    NewLine(p1);
    ParseConcat(p, head, "\n");
    var p2 := Parse(p1, "\n").value;
    KeysParsed(p2, keys);
    ParseConcat(p, head + "\n", lines);
    var p3 := Parse(p2, lines).value;
    MarkerLine(p3, foot, Foot, Finished, 0);
    ParseConcat(p, head + "\n" + lines, foot);
    NewLine(Parse(p3, foot).value);
    ParseConcat(p, head + "\n" + lines + foot, "\n");
    assert [] + KeyBytes(keys) == KeyBytes(keys);
  }

  // ----- what read_key_file makes of a file -----

  /** struct key2 */
  datatype Key2 = Key2(n: nat, keys: seq<Byte>)

  /** The digits kept so far, and room for the bytes still to come. */
  ghost predicate Sane(p: Parser) {
    && |p.pending| <= 1 && (p.pending != "" ==> IsHexDigit(p.pending[0]))
    && |p.out| <= KEYS_SIZE && (p.state in {Initial, Head, Data} ==> |p.out| < KEYS_SIZE)
  }

  lemma FeedSane(p: Parser, c: char)
    requires Sane(p)
    ensures Feed(p, c).Some? ==> Sane(Feed(p, c).value)
  {
    hide StaticKeyHead, StaticKeyFoot;
  }

  lemma {:induction false} ParseSane(p: Parser, s: string)
    requires Sane(p)
    ensures Parse(p, s).Some? ==> Sane(Parse(p, s).value)
    decreases |s|
  {
    hide Feed;
    if s != [] {
      FeedSane(p, s[0]);
      if Feed(p, s[0]).Some? {
        ParseSane(Feed(p, s[0]).value, s[1..]);
      }
    }
  }

  function Padded(s: seq<Byte>): (r: seq<Byte>)
    ensures |s| <= KEYS_SIZE ==> |r| == KEYS_SIZE && r[..|s|] == s
  {
    if |s| >= KEYS_SIZE then s else s + seq(KEYS_SIZE - |s|, i => 0)
  }

  /** What is done at the end of the file; None for a fatal message. */
  function Conclude(p: Option<Parser>, mustSucceed: bool): Option<Key2> {
    if p == None then None
    else if mustSucceed && (|p.value.out| < KEY_SIZE || p.value.state != Finished) then None
    else Some(Key2(|p.value.out| / KEY_SIZE, Padded(p.value.out)))
  }

  function Concat(chunks: seq<string>): string {
    if chunks == [] then [] else chunks[0] + Concat(chunks[1..])
  }

  /** read_key_file, with what each read returns: the result depends on the whole text only. */
  method ReadKeyFile(chunks: seq<string>, mustSucceed: bool) returns (key2: Option<Key2>)
    ensures key2 == Conclude(Parse(START, Concat(chunks)), mustSucceed)
    ensures key2.Some? ==> key2.value.n <= 2 && |key2.value.keys| == KEYS_SIZE
  {
    hide Parse, Feed, StaticKeyHead, StaticKeyFoot;
    var p := START;
    ParseSane(START, Concat(chunks));
    for i := 0 to |chunks|
      invariant Parse(p, Concat(chunks[i..])) == Parse(START, Concat(chunks))
    {
      var chunk := chunks[i];
      assert chunks[i..][1..] == chunks[i + 1..];
      for j := 0 to |chunk|
        invariant Parse(p, chunk[j..] + Concat(chunks[i + 1..])) == Parse(START, Concat(chunks))
      {
        ghost var rest := chunk[j + 1..] + Concat(chunks[i + 1..]);
        assert chunk[j..] + Concat(chunks[i + 1..]) == [chunk[j]] + rest;
        ParseFirst(p, chunk[j], rest);
        var q := FeedStep(p, chunk[j]);
        if q == None {
          return None;
        }
        p := q.value;
      }
      assert chunk[|chunk|..] + Concat(chunks[i + 1..]) == Concat(chunks[i + 1..]);
    }
    ParseNothing(p);
    if mustSucceed && |p.out| / KEY_SIZE == 0 {
      return None;
    }
    if mustSucceed && p.state != Finished {
      return None;
    }
    return Some(Key2(|p.out| / KEY_SIZE, Padded(p.out)));
  }

  lemma ParseFirst(p: Parser, c: char, s: string)
    ensures Parse(p, [c] + s) == match Feed(p, c) { case None => None case Some(q) => Parse(q, s) }
  {
    assert ([c] + s)[1..] == s;
  }

  lemma ParseNothing(p: Parser)
    ensures Parse(p, []) == Some(p)
  {
  }

  /** The loop body of read_key_file. */
  method FeedStep(p: Parser, c: char) returns (q: Option<Parser>)
    ensures q == Feed(p, c)
  {
    hide StaticKeyHead, StaticKeyFoot;
    var state, pending, out := p.state, p.pending, p.out;
    var lineNum, lineIndex, matched := p.lineNum, p.lineIndex, p.matched;
    if c == '\n' {
      lineIndex, matched := 0, 0;
      lineNum := lineNum + 1;
    } else {
      if lineIndex == 0 {
        if state == Head {
          state := Data;
        }
        if (state == Data || state == DataComplete) && c == '-' {
          state := Foot;
        }
      }
      if state == Initial {
        if lineIndex < |StaticKeyHead()| && c == StaticKeyHead()[lineIndex] {
          matched := matched + 1;
          if matched == |StaticKeyHead()| {
            state := Head;
          }
        }
      }
      if state == Foot {
        if lineIndex < |StaticKeyFoot()| && c == StaticKeyFoot()[lineIndex] {
          matched := matched + 1;
          if matched == |StaticKeyFoot()| {
            state := Finished;
          }
        }
      }
      if state == Data {
        if IsHexDigit(c) {
          if |pending| == 1 && IsHexDigit(pending[0]) {
            out := out + [16 * HexValue(pending[0]) + HexValue(c)];
            pending := "";
            if |out| == KEYS_SIZE {
              state := DataComplete;
            }
          } else {
            pending := pending + [c];
          }
        } else if !IsSpace(c) {
          return None;
        }
      }
      lineIndex := lineIndex + 1;
    }
    return Some(Parser(state, pending, lineNum, lineIndex, matched, out));
  }

  /** Reading back what was printed for one or two keys gives those keys. */
  lemma KeyFileRoundTrip(keys: seq<Key>)
    requires 1 <= |keys| <= 2
    ensures Conclude(Parse(START, FileText(keys)), true) == Some(Key2(|keys|, Padded(KeyBytes(keys))))
  {
    hide Parse, Feed, StaticKeyHead, StaticKeyFoot, KeyLines, Decimal;
    var nbits := 8 * KEY_SIZE * |keys|;
    var s := "#\n" + BitsLine(nbits) + "\n" + "#\n";
    var t := StaticKeyHead() + "\n" + KeyLines(keys) + StaticKeyFoot() + "\n";
    CommentsParsed(nbits);
    var p := Parse(START, s).value;
    KeysPartParsed(p, keys);
    ParseConcat(START, s, t);
  }
}
