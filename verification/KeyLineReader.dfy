/**
 * What a key file has to look like, line by line, and that read_key_file, character by character and in
 * chunks of any length, takes exactly the files that look like it.
 */
module KeyLineReader {
  import opened Bytes
  import opened KeyFiles
  import opened KeyParser
  import opened Wrappers

  const MAX_DIGITS := 2 * KEYS_SIZE

  // ----- the file, line by line -----

  /** Before the header, in the key, in a footer that is not whole yet, behind the footer; with the digits so far. */
  datatype Stage = Before | Inside(digits: string) | Ending(digits: string) | Closed(digits: string)

  predicate AllHex(digits: string) {
    forall i :: 0 <= i < |digits| ==> IsHexDigit(digits[i])
  }

  /** The digits of a line are added until there are enough; space between them does not matter, all else is refused. */
  function Collect(digits: string, line: string): Option<string>
    decreases |line|
  {
    if line == [] || |digits| == MAX_DIGITS then Some(digits)
    else if IsHexDigit(line[0]) then Collect(digits + [line[0]], line[1..])
    else if IsSpace(line[0]) then Collect(digits, line[1..])
    else None
  }

  function NextStage(stage: Stage, line: string): Option<Stage> {
    match stage
    case Before => Some(if StaticKeyHead() <= line then Inside("") else Before)
    case Ending(digits) => Some(if StaticKeyFoot() <= line then Closed(digits) else stage)
    case Closed(_) => Some(stage)
    case Inside(digits) =>
      if "-" <= line then Some(if StaticKeyFoot() <= line then Closed(digits) else Ending(digits))
      else
        match Collect(digits, line)
        case None => None
        case Some(more) => Some(Inside(more))
  }

  function LineLength(text: string): (n: nat)
    ensures n <= |text| && '\n' !in text[..n] && (n < |text| ==> text[n] == '\n')
  {
    if text == [] || text[0] == '\n' then 0 else LineLength(text[1..]) + 1
  }

  function ReadLines(stage: Stage, text: string): Option<Stage>
    decreases |text|
  {
    var n := LineLength(text);
    match NextStage(stage, text[..n])
    case None => None
    case Some(next) => if n == |text| then Some(next) else ReadLines(next, text[n + 1..])
  }

  /** Two digits are a byte; a single one at the end is nothing. */
  function DigitBytes(digits: string): (r: seq<Byte>)
    requires AllHex(digits)
    ensures |r| == |digits| / 2
  {
    if |digits| < 2 then []
    else [16 * HexValue(digits[0]) + HexValue(digits[1])] + DigitBytes(digits[2..])
  }

  /** A key is read from a file with a whole header and footer and at least one key between them. */
  function KeyOf(stage: Option<Stage>): Option<Key2>
    requires stage.Some? && stage.value.Closed? ==> AllHex(stage.value.digits)
  {
    if stage.Some? && stage.value.Closed? && |stage.value.digits| >= 2 * KEY_SIZE then
      var bytes := DigitBytes(stage.value.digits);
      Some(Key2(|bytes| / KEY_SIZE, Padded(bytes)))
    else None
  }

  // ----- the parser against it -----

  lemma HexAppends(digits: string, c: char)
    requires AllHex(digits) && IsHexDigit(c)
    ensures AllHex(digits + [c])
  {
  }

  lemma HexTail(digits: string)
    requires AllHex(digits) && |digits| >= 2
    ensures AllHex(digits[2..]) && IsHexDigit(digits[0]) && IsHexDigit(digits[1]) && IsHexDigit(digits[|digits| - 1])
  {
  }

  lemma {:induction false} DigitBytesAppend(digits: string, c: char)
    requires AllHex(digits) && IsHexDigit(c)
    ensures AllHex(digits + [c])
    ensures DigitBytes(digits + [c]) ==
      if |digits| % 2 == 0 then DigitBytes(digits)
      else DigitBytes(digits) + [16 * HexValue(digits[|digits| - 1]) + HexValue(c)]
    decreases |digits|
  {
    hide HexValue, IsHexDigit;
    HexAppends(digits, c);
    if |digits| >= 2 {
      hide AllHex;
      HexTail(digits);
      DigitBytesAppend(digits[2..], c);
      assert (digits + [c])[2..] == digits[2..] + [c];
    }
  }

  /** The digit, if any, that waits for another. */
  function Waiting(digits: string): string {
    digits[|digits| / 2 * 2..]
  }

  ghost predicate Carries(p: Parser, digits: string) {
    AllHex(digits) && p.out == DigitBytes(digits) && p.pending == Waiting(digits)
  }

  ghost predicate Has(p: Parser, stage: Stage) {
    match stage
    case Before => p.state == Initial && p.out == [] && p.pending == ""
    case Inside(digits) =>
      && Carries(p, digits) && |digits| <= MAX_DIGITS
      && (if |digits| == MAX_DIGITS then p.state == DataComplete
          else p.state == Data || (p.state == Head && digits == ""))
    case Ending(digits) => Carries(p, digits) && p.state == Foot
    case Closed(digits) => Carries(p, digits) && p.state == Finished
  }

  ghost predicate AtLineStart(p: Parser) {
    p.lineIndex == p.matched == 0
  }

  ghost predicate SameKey(p: Parser, q: Parser) {
    q.out == p.out && q.pending == p.pending
  }

  /** Where nothing in a line matters. */
  lemma {:induction false} IdleLine(p: Parser, line: string)
    requires '\n' !in line
    requires p.state == Finished || (p.state == DataComplete && (p.lineIndex > 0 || !("-" <= line)))
    ensures Parse(p, line).Some? && Parse(p, line).value.state == p.state && SameKey(p, Parse(p, line).value)
    decreases |line|
  {
    hide StaticKeyHead, StaticKeyFoot;
    if line != [] {
      assert "-" <= line <==> line[0] == '-';
      IdleLine(Feed(p, line[0]).value, line[1..]);
    }
  }

  /** The count of matching characters is the place in the line exactly as long as the line goes like the marker. */
  ghost predicate Matching(p: Parser, line: string, marker: string, i: nat)
    requires i <= |line|
  {
    var n := if i < |marker| then i else |marker|;
    p.matched <= n && (p.matched == n <==> line[..n] == marker[..n])
  }

  lemma MatchingStep(p: Parser, q: Parser, line: string, marker: string, i: nat)
    requires i < |line| && Matching(p, line, marker, i)
    requires q.matched == p.matched + if i < |marker| && line[i] == marker[i] then 1 else 0
    ensures Matching(q, line, marker, i + 1)
  {
    if i < |marker| {
      assert line[..i + 1] == line[..i] + [line[i]] && marker[..i + 1] == marker[..i] + [marker[i]];
    }
  }

  /** A line in which a header or footer is looked for, from its i-th character on. */
  lemma {:induction false} MarkerScan(p: Parser, line: string, marker: string, during: State, after: State, i: nat)
    requires (during, marker, after) in {(Initial, StaticKeyHead(), Head), (Foot, StaticKeyFoot(), Finished)}
    requires '\n' !in line && i <= |line| && p.lineIndex == i && Matching(p, line, marker, i)
    requires
      if i >= |marker| && line[..|marker|] == marker then p.state == after
      else p.state == during || (during == Foot && i == 0 && "-" <= line && p.state in {Head, Data, DataComplete})
    requires i == |line| == 0 ==> p.state == during
    ensures Parse(p, line[i..]).Some?
    ensures
      var q := Parse(p, line[i..]).value;
      SameKey(p, q) && q.state == if marker <= line then after else during
    decreases |line| - i
  {
    hide StaticKeyHead, StaticKeyFoot, Matching;
    if i < |line| {
      MarkerStep(p, line, marker, during, after, i);
      var q := Feed(p, line[i]).value;
      assert line[i..][1..] == line[i + 1..];
      MatchingStep(p, q, line, marker, i);
      MarkerScan(q, line, marker, during, after, i + 1);
    } else {
      MatchingEnd(p, line, marker);
    }
  }

  lemma MatchingEnd(p: Parser, line: string, marker: string)
    ensures marker <= line <==> |line| >= |marker| && line[..|marker|] == marker
  {
  }

  lemma MarkerStep(p: Parser, line: string, marker: string, during: State, after: State, i: nat)
    requires (during, marker, after) in {(Initial, StaticKeyHead(), Head), (Foot, StaticKeyFoot(), Finished)}
    requires '\n' !in line && i < |line| && p.lineIndex == i && Matching(p, line, marker, i)
    requires
      if i >= |marker| && line[..|marker|] == marker then p.state == after
      else p.state == during || (during == Foot && i == 0 && "-" <= line && p.state in {Head, Data, DataComplete})
    ensures Feed(p, line[i]).Some?
    ensures
      var q := Feed(p, line[i]).value;
      && SameKey(p, q) && q.lineIndex == i + 1
      && q.matched == p.matched + (if i < |marker| && line[i] == marker[i] then 1 else 0)
      && q.state == if i + 1 >= |marker| && line[..|marker|] == marker then after else during
  {
    hide StaticKeyHead, StaticKeyFoot;
    assert line[i] != '\n';
    assert i == 0 && "-" <= line ==> line[0] == '-';
    if i < |marker| {
      assert line[..i + 1] == line[..i] + [line[i]] && marker[..i + 1] == marker[..i] + [marker[i]];
      if i + 1 == |marker| {
        assert marker[..i + 1] == marker;
      }
    }
  }

  lemma WaitingStep(digits: string, c: char)
    ensures
      if |digits| % 2 == 0 then Waiting(digits) == "" && Waiting(digits + [c]) == [c]
      else Waiting(digits) == [digits[|digits| - 1]] && Waiting(digits + [c]) == ""
  {
    var n, more := |digits|, digits + [c];
    if n % 2 == 0 {
      assert n / 2 * 2 == n && (n + 1) / 2 * 2 == n;
    } else {
      assert n / 2 * 2 == n - 1 && (n + 1) / 2 * 2 == n + 1;
    }
  }

  lemma FeedDigit(p: Parser, c: char)
    requires IsHexDigit(c) && (p.pending == "" || (|p.pending| == 1 && IsHexDigit(p.pending[0])))
    requires p.state == Data || (p.state == Head && p.lineIndex == 0)
    ensures Feed(p, c).Some?
    ensures
      var q := Feed(p, c).value;
      && q.lineIndex == p.lineIndex + 1
      && q.pending == (if p.pending == "" then [c] else "")
      && q.out == p.out + (if p.pending == "" then [] else [16 * HexValue(p.pending[0]) + HexValue(c)])
      && q.state == if p.pending != "" && |q.out| == KEYS_SIZE then DataComplete else Data
  {
    hide StaticKeyHead, StaticKeyFoot, HexValue;
    assert c != '-' && c != '\n';
  }

  /** A digit in the key. */
  lemma DigitStep(p: Parser, c: char, digits: string)
    requires Carries(p, digits) && |digits| < MAX_DIGITS && IsHexDigit(c)
    requires p.state == Data || (p.state == Head && p.lineIndex == 0 && digits == "")
    ensures Feed(p, c).Some?
    ensures
      var q := Feed(p, c).value;
      && Carries(q, digits + [c]) && q.lineIndex == p.lineIndex + 1
      && q.state == if |digits| + 1 == MAX_DIGITS then DataComplete else Data
  {
    assert digits != "" ==> IsHexDigit(digits[|digits| - 1]);
    hide Feed, HexValue, DigitBytes, AllHex, Waiting, IsHexDigit;
    WaitingStep(digits, c);
    DigitBytesAppend(digits, c);
    FeedDigit(p, c);
  }

  lemma SpaceStep(p: Parser, c: char, digits: string)
    requires Carries(p, digits) && |digits| < MAX_DIGITS && !IsHexDigit(c) && c != '\n' && (p.lineIndex > 0 || c != '-')
    requires p.state == Data || (p.state == Head && p.lineIndex == 0 && digits == "")
    ensures Feed(p, c) == if IsSpace(c) then Some(p.(state := Data, lineIndex := p.lineIndex + 1)) else None
  {
    hide StaticKeyHead, StaticKeyFoot, DigitBytes;
  }

  /** A line of the key, or the rest of one. */
  lemma {:induction false} DataScan(p: Parser, line: string, digits: string)
    requires '\n' !in line && (p.lineIndex > 0 || !("-" <= line))
    requires Has(p, Inside(digits)) && (p.state == Head ==> p.lineIndex == 0)
    ensures
      match Collect(digits, line)
      case None => Parse(p, line) == None
      case Some(more) => Parse(p, line).Some? && Has(Parse(p, line).value, Inside(more))
    decreases |line|
  {
    hide StaticKeyHead, StaticKeyFoot, Feed, DigitBytes;
    if |digits| == MAX_DIGITS {
      IdleLine(p, line);
    } else if line != [] {
      var c := line[0];
      assert "-" <= line <==> c == '-';
      if IsHexDigit(c) {
        DigitStep(p, c, digits);
        DataScan(Feed(p, c).value, line[1..], digits + [c]);
      } else {
        SpaceStep(p, c, digits);
        if IsSpace(c) {
          DataScan(Feed(p, c).value, line[1..], digits);
        }
      }
    }
  }

  lemma LineRead(p: Parser, stage: Stage, line: string)
    requires AtLineStart(p) && Has(p, stage) && '\n' !in line
    ensures
      match NextStage(stage, line)
      case None => Parse(p, line) == None
      case Some(next) => Parse(p, line).Some? && Has(Parse(p, line).value, next)
  {
    hide StaticKeyHead, StaticKeyFoot, Feed, Parse, Collect, DigitBytes;
    assert line[0..] == line;
    match stage
    case Before => MarkerScan(p, line, StaticKeyHead(), Initial, Head, 0);
    case Inside(digits) =>
      if "-" <= line {
        MarkerScan(p, line, StaticKeyFoot(), Foot, Finished, 0);
      } else {
        DataScan(p, line, digits);
      }
    case Ending(digits) => MarkerScan(p, line, StaticKeyFoot(), Foot, Finished, 0);
    case Closed(digits) => IdleLine(p, line);
  }

  lemma {:induction false} TextRead(p: Parser, stage: Stage, text: string)
    requires AtLineStart(p) && Has(p, stage)
    ensures
      match ReadLines(stage, text)
      case None => Parse(p, text) == None
      case Some(end) => Parse(p, text).Some? && Has(Parse(p, text).value, end)
    decreases |text|
  {
    hide StaticKeyHead, StaticKeyFoot, Feed, Parse, NextStage, DigitBytes;
    var n := LineLength(text);
    LineRead(p, stage, text[..n]);
    if n == |text| {
      assert text[..n] == text;
    } else {
      assert text == text[..n] + ("\n" + text[n + 1..]);
      ParseConcat(p, text[..n], "\n" + text[n + 1..]);
      if Parse(p, text[..n]).Some? {
        var q := Parse(p, text[..n]).value;
        NewLine(q);
        ParseConcat(q, "\n", text[n + 1..]);
        var r := Parse(q, "\n").value;
        NewLineKeeps(q, NextStage(stage, text[..n]).value);
        TextRead(r, NextStage(stage, text[..n]).value, text[n + 1..]);
      }
    }
  }

  lemma NewLineKeeps(q: Parser, stage: Stage)
    requires Has(q, stage)
    ensures Has(q.(lineIndex := 0, matched := 0, lineNum := q.lineNum + 1), stage)
  {
  }

  /**
   * A file is taken, and for that key, exactly when it has a header line, then lines of hexadecimal digits
   * and space only, up to as many digits as two keys have, then a footer line, and digits enough for a key.
   */
  lemma ReadsByLines(text: string)
    ensures ReadLines(Before, text).Some? && ReadLines(Before, text).value.Closed? ==>
      AllHex(ReadLines(Before, text).value.digits)
    ensures Conclude(Parse(START, text), true) == KeyOf(ReadLines(Before, text))
  {
    hide StaticKeyHead, StaticKeyFoot, Feed, Parse, NextStage, DigitBytes;
    TextRead(START, Before, text);
  }
}
