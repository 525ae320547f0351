/** The static key file (crypto.c): its printer, its parser, and why the parser reads back what was printed. */
module KeyFiles {
  import opened Bytes
  import opened Integers
  import opened Sequences

  function StaticKeyHead(): (s: string)
    ensures s != [] && s[0] == '-' && '\n' !in s && |s| == 37
  {
    "-----BEGIN OpenVPN Static key V1-----"
  }

  function StaticKeyFoot(): (s: string)
    ensures s != [] && s[0] == '-' && '\n' !in s && |s| == 35
  {
    "-----END OpenVPN Static key V1-----"
  }

  /** sizeof (struct key) and of the two keys in struct key2 */
  const KEY_SIZE := 128
  const KEYS_SIZE := 256
  const BYTES_PER_LINE := 16

  // ----- hexadecimal digits -----

  function HexDigit(n: nat): (c: char)
    requires n < 16
    ensures IsHexDigit(c) && HexValue(c) == n
  {
    if n < 10 then '0' + n as char else 'a' + (n - 10) as char
  }

  /** isxdigit */
  predicate IsHexDigit(c: char) {
    '0' <= c <= '9' || 'a' <= c <= 'f' || 'A' <= c <= 'F'
  }

  predicate IsSpace(c: char) {
    c == ' ' || '\t' <= c <= '\r'
  }

  function HexValue(c: char): (n: nat)
    requires IsHexDigit(c)
    ensures n < 16
  {
    if c <= '9' then c as int - '0' as int
    else if c <= 'F' then c as int - 'A' as int + 10
    else c as int - 'a' as int + 10
  }

  // ----- formatted output into a buffer of limited capacity (buffer.c) -----

  /** buf_printf: what does not fit before the terminating null is cut off. */
  function Printf(out: string, capacity: nat, s: string): string {
    if |out| >= capacity then out
    else if |out| + |s| < capacity then out + s
    else out + s[..capacity - |out| - 1]
  }

  /** buf_catrunc: a full buffer ends in str. */
  function Catrunc(out: string, capacity: nat, str: string): string
    requires |out| < capacity
  {
    if capacity - |out| <= 1 && |str| + 1 < capacity then out[..capacity - |str| - 1] + str else out
  }

  function TwoDigits(b: Byte): string {
    [HexDigit(b as int / 16), HexDigit(b as int % 16)]
  }

  /** The whole hex dump of data[..n], with a separator before every spaceBreak-th byte but the first. */
  function HexDump(data: seq<Byte>, n: nat, spaceBreak: nat, separator: string): string
    requires n <= |data| && spaceBreak > 0
  {
    if n == 0 then ""
    else
      var i := n - 1;
      HexDump(data, i, spaceBreak, separator)
      + (if i > 0 && i % spaceBreak == 0 then separator else "")
      + TwoDigits(data[i])
  }

  lemma Quotient(x: nat, k: nat, q: nat, r: nat)
    requires x == q * k + r && r < k
    ensures x / k == q && x % k == r
  {
    var p := x / k;
    assert x == p * k + x % k;
    if p < q {
      Ordered(p, q, k);
    } else if q < p {
      Ordered(q, p, k);
    }
  }

  lemma NextQuotient(i: nat, k: nat)
    requires i > 0 && k > 0
    ensures i / k == (i - 1) / k + if i % k == 0 then 1 else 0
  {
    var q, r := (i - 1) / k, (i - 1) % k;
    assert i - 1 == q * k + r;
    if r + 1 < k {
      Quotient(i, k, q, r + 1);
    } else {
      assert (q + 1) * k == q * k + k;
      Quotient(i, k, q + 1, 0);
    }
  }

  /** The number of separators in the dump of n bytes. */
  function Separators(n: nat, spaceBreak: nat): nat
    requires spaceBreak > 0
  {
    if n <= 1 then 0 else Separators(n - 1, spaceBreak) + if (n - 1) % spaceBreak == 0 then 1 else 0
  }

  lemma {:induction false} SeparatorsAre(n: nat, spaceBreak: nat)
    requires spaceBreak > 0 && n > 0
    ensures Separators(n, spaceBreak) == (n - 1) / spaceBreak
  {
    if n > 1 {
      SeparatorsAre(n - 1, spaceBreak);
      NextQuotient(n - 1, spaceBreak);
    } else {
      Quotient(0, spaceBreak, 0, 0);
    }
  }

  lemma {:induction false} DumpLength(data: seq<Byte>, n: nat, spaceBreak: nat, separator: string)
    requires n <= |data| && spaceBreak > 0
    ensures |HexDump(data, n, spaceBreak, separator)| == 2 * n + Separators(n, spaceBreak) * |separator|
  {
    if n > 0 {
      var i, c := n - 1, Separators(n - 1, spaceBreak);
      DumpLength(data, i, spaceBreak, separator);
      assert (c + 1) * |separator| == c * |separator| + |separator|;
    }
  }

  lemma SeparatorsFew(n: nat, spaceBreak: nat)
    requires spaceBreak > 0
    ensures 0 <= n / spaceBreak && Separators(n, spaceBreak) <= n / spaceBreak
  {
    if n > 0 {
      SeparatorsAre(n, spaceBreak);
      NextQuotient(n, spaceBreak);
    }
  }

  /** Each byte stands behind those before it and the separators of the groups before its own. */
  lemma {:induction false} DumpAt(data: seq<Byte>, n: nat, spaceBreak: nat, separator: string, i: nat)
    requires i < n <= |data| && spaceBreak > 0
    ensures
      var dump, at := HexDump(data, n, spaceBreak, separator), 2 * i + i / spaceBreak * |separator|;
      && 0 <= at && at + 2 <= |dump| && dump[at..at + 2] == TwoDigits(data[i])
      && (i > 0 && i % spaceBreak == 0 ==>
            0 <= at - |separator| && dump[at - |separator|..at] == separator)
  {
    hide TwoDigits;
    var m := n - 1;
    var dump, shorter := HexDump(data, n, spaceBreak, separator), HexDump(data, m, spaceBreak, separator);
    if i < m {
      DumpAt(data, m, spaceBreak, separator, i);
      var at := 2 * i + i / spaceBreak * |separator|;
      assert dump[..|shorter|] == shorter;
      assert dump[at..at + 2] == shorter[at..at + 2];
      assert at - |separator| >= 0 ==> dump[at - |separator|..at] == shorter[at - |separator|..at];
    } else {
      LastAt(data, n, spaceBreak, separator);
    }
  }

  lemma LastAt(data: seq<Byte>, n: nat, spaceBreak: nat, separator: string)
    requires 0 < n <= |data| && spaceBreak > 0
    ensures
      var i := n - 1;
      var dump, at := HexDump(data, n, spaceBreak, separator), 2 * i + i / spaceBreak * |separator|;
      && 0 <= at && at + 2 == |dump| && dump[at..at + 2] == TwoDigits(data[i])
      && (i > 0 && i % spaceBreak == 0 ==>
            0 <= at - |separator| && dump[at - |separator|..at] == separator)
  {
    var i := n - 1;
    DumpLength(data, n, spaceBreak, separator);
    SeparatorsAre(n, spaceBreak);
    hide Separators;
    DumpLength(data, i, spaceBreak, separator);
  }

  /** The capacity that format_hex_ex allocates when maxoutput is zero. */
  function DumpCapacity(size: nat, maxoutput: nat, spaceBreak: nat, separator: string): nat
    requires spaceBreak > 0
  {
    if maxoutput != 0 then maxoutput else size * 2 + size / spaceBreak * |separator| + 2
  }

  lemma DumpFits(data: seq<Byte>, spaceBreak: nat, separator: string)
    requires spaceBreak > 0
    ensures |HexDump(data, |data|, spaceBreak, separator)| + 1 < DumpCapacity(|data|, 0, spaceBreak, separator)
  {
    hide HexDump;
    var n, l := |data|, |separator|;
    var count := Separators(n, spaceBreak);
    DumpLength(data, n, spaceBreak, separator);
    SeparatorsFew(n, spaceBreak);
    Ordered(count, n / spaceBreak, l);
    assert n * 2 + n / spaceBreak * l + 2 > 2 * n + count * l + 1;
  }

  const MORE := "[more...]"

  /** The first n characters of s, or all of it. */
  function Take(s: string, n: nat): string {
    if |s| <= n then s else s[..n]
  }

  lemma PrintfTakes(whole: string, s: string, capacity: nat)
    requires capacity > 0
    ensures Printf(Take(whole, capacity - 1), capacity, s) == Take(whole + s, capacity - 1)
  {
    if |whole| >= capacity {
      assert (whole + s)[..capacity - 1] == whole[..capacity - 1];
    } else if |whole| + |s| >= capacity {
      assert (whole + s)[..capacity - 1] == whole + s[..capacity - |whole| - 1];
    }
  }

  /**
   * format_hex_ex: the whole dump comes out when it leaves a byte besides the null, so always when maxoutput is
   * zero; otherwise as much of it as goes before the mark that there is more.
   */
  method FormatHexEx(data: seq<Byte>, maxoutput: nat, spaceBreak: nat, separator: string) returns (s: string)
    requires spaceBreak > 0
    ensures maxoutput == 0 || |HexDump(data, |data|, spaceBreak, separator)| + 1 < maxoutput
      ==> s == HexDump(data, |data|, spaceBreak, separator)
    ensures maxoutput != 0 && |HexDump(data, |data|, spaceBreak, separator)| + 1 >= maxoutput
      ==> s == if |MORE| + 1 < maxoutput
               then HexDump(data, |data|, spaceBreak, separator)[..maxoutput - |MORE| - 1] + MORE
               else HexDump(data, |data|, spaceBreak, separator)[..maxoutput - 1]
    ensures |s| < DumpCapacity(|data|, maxoutput, spaceBreak, separator)
  {
    hide TwoDigits, Printf;
    var capacity := DumpCapacity(|data|, maxoutput, spaceBreak, separator);
    DumpFits(data, spaceBreak, separator);
    s := "";
    for i := 0 to |data|
      invariant s == Take(HexDump(data, i, spaceBreak, separator), capacity - 1)
    {
      ghost var dump := HexDump(data, i, spaceBreak, separator);
      if i != 0 && i % spaceBreak == 0 {
        PrintfTakes(dump, separator, capacity);
        s := Printf(s, capacity, separator);
        dump := dump + separator;
      } else {
        WithEmpty(dump);
      }
      PrintfTakes(dump, TwoDigits(data[i]), capacity);
      s := Printf(s, capacity, TwoDigits(data[i]));
    }
    s := Catrunc(s, capacity, MORE);
  }

  // ----- the printed file -----

  function Decimal(n: nat): (s: string)
    ensures '\n' !in s && s != []
    ensures (n < 100 ==> |s| <= 2) && (n < 1000 ==> |s| <= 3) && (n < 10000 ==> |s| <= 4)
  {
    if n < 10 then [HexDigit(n)] else Decimal(n / 10) + [HexDigit(n % 10)]
  }

  type Key = k: seq<Byte> | |k| == KEY_SIZE witness seq(KEY_SIZE, i => 0)

  /** The lines that write_key_file prints for the keys, between header and footer. */
  function KeyLines(keys: seq<Key>): string {
    if keys == [] then [] else HexDump(keys[0], KEY_SIZE, BYTES_PER_LINE, "\n") + "\n" + KeyLines(keys[1..])
  }

  function BitsLine(nbits: nat): string {
    "# " + Decimal(nbits) + " bit OpenVPN static key"
  }

  function FileText(keys: seq<Key>): string {
    "#\n" + BitsLine(8 * KEY_SIZE * |keys|) + "\n" + "#\n"
    + (StaticKeyHead() + "\n" + KeyLines(keys) + StaticKeyFoot() + "\n")
  }

  lemma KeyLength(k: Key)
    ensures |HexDump(k, KEY_SIZE, BYTES_PER_LINE, "\n")| == 263
  {
    DumpLength(k, KEY_SIZE, BYTES_PER_LINE, "\n");
    SeparatorsAre(KEY_SIZE, BYTES_PER_LINE);
  }

  lemma {:induction false} KeyLinesLength(keys: seq<Key>)
    ensures |KeyLines(keys)| == 264 * |keys|
  {
    if keys != [] {
      KeyLength(keys[0]);
      KeyLinesLength(keys[1..]);
    }
  }

  lemma {:induction false} KeyLinesAppend(keys: seq<Key>, i: nat)
    requires i < |keys|
    ensures KeyLines(keys[..i + 1]) == KeyLines(keys[..i]) + HexDump(keys[i], KEY_SIZE, BYTES_PER_LINE, "\n") + "\n"
  {
    hide HexDump;
    var line := HexDump(keys[0], KEY_SIZE, BYTES_PER_LINE, "\n") + "\n";
    if i == 0 {
      assert keys[..1] == [keys[0]];
      WithEmpty(line);
    } else {
      assert keys[..i + 1][1..] == keys[1..][..i] && keys[..i][1..] == keys[1..][..i - 1];
      KeyLinesAppend(keys[1..], i - 1);
      Assoc(line, KeyLines(keys[1..][..i - 1]), HexDump(keys[i], KEY_SIZE, BYTES_PER_LINE, "\n") + "\n");
    }
  }

  /** write_key_file, given the random keys: up to seven keys fit its 2048-byte buffer, and it is called for two. */
  method WriteKeyFile(keys: seq<Key>) returns (text: string, nbits: nat)
    ensures nbits == 8 * KEY_SIZE * |keys|
    ensures |keys| <= 7 ==> text == FileText(keys)
  {
    hide StaticKeyHead, StaticKeyFoot, HexDump, Decimal;
    nbits := 0;
    var out := Printf("", 2048, StaticKeyHead() + "\n");
    for i := 0 to |keys|
      invariant nbits == 8 * KEY_SIZE * i
      invariant i <= 7 ==> out == StaticKeyHead() + "\n" + KeyLines(keys[..i])
    {
      var fmt := FormatHexEx(keys[i], 0, BYTES_PER_LINE, "\n");
      nbits := nbits + KEY_SIZE * 8;
      KeyLength(keys[i]);
      KeyLinesLength(keys[..i]);
      KeyLinesAppend(keys, i);
      out := Printf(out, 2048, fmt + "\n");
    }
    assert keys[..|keys|] == keys;
    KeyLinesLength(keys);
    out := Printf(out, 2048, StaticKeyFoot() + "\n");
    var head := Printf("", 128, "#\n# " + Decimal(nbits) + " bit OpenVPN static key\n#\n");
    text := head + out;
  }
}
