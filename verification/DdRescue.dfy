/**
 * The copy loop of dd_rescue, forward and without sparse writing, between a disk that may fail at any
 * read and one that may fail at any write.
 */
module DdRescue {
  import opened Bits
  import opened Bytes
  import opened Integers
  import opened Wrappers

  const EPERM := 1
  const EINTR := 4
  const ENXIO := 6
  const EAGAIN := 11
  const ENODEV := 19
  const ESPIPE := 29

  predicate Interrupted(errno: int) {
    errno == EINTR || errno == EAGAIN
  }

  predicate FatalRead(errno: int) {
    errno == ESPIPE || errno == EPERM || errno == ENXIO || errno == ENODEV
  }

  /**
   * The global variables; out is what the output disk holds, lost where hard blocks were given up, and
   * short the blocks of the input, by offset and length, that could not be read in full.
   */
  datatype Globals = Globals(ipos: nat, opos: nat, xfer: nat, sxfer: nat, fxfer: nat, out: map<int, Byte>,
                             lost: set<int>, short: set<(int, int)>)

  /** The offsets of n bytes from at on. */
  ghost function Range(at: int, n: nat): (r: set<int>)
    ensures |r| == n && forall o :: o in r <==> at <= o < at + n
  {
    if n == 0 then {} else Range(at, n - 1) + {at + n - 1}
  }

  /** What copying any part does: it moves forward in lockstep, and writes nothing but input bytes at their places. */
  ghost predicate Copied(input: seq<Byte>, s: Globals, t: Globals) {
    && t.ipos - s.ipos == t.opos - s.opos == t.xfer - s.xfer >= 0
    && (forall o :: o in s.out ==> o in t.out && (o < s.opos ==> t.out[o] == s.out[o]))
    && (forall o :: o in t.out && o !in s.out ==> s.opos <= o)
    && (forall o :: o in t.out && s.opos <= o ==>
          || (o in s.out && t.out[o] == s.out[o])
          || (o - s.opos + s.ipos < |input| && t.out[o] == input[o - s.opos + s.ipos]))
    && s.lost <= t.lost && (forall o :: o in t.lost && o !in s.lost ==> s.opos <= o < t.opos)
  }

  /** Nothing is written ahead of the place reached. */
  ghost predicate Bounded(s: Globals, t: Globals) {
    forall o :: o in t.out && t.opos <= o ==> o in s.out && t.out[o] == s.out[o]
  }

  /** With full writes nothing is missing but what was given up. */
  ghost predicate Full(input: seq<Byte>, s: Globals, t: Globals) {
    && t.sxfer - s.sxfer + t.fxfer - s.fxfer == t.xfer - s.xfer
    && t.sxfer >= s.sxfer && t.fxfer - s.fxfer == |t.lost| - |s.lost| >= 0
    && (forall o :: s.opos <= o < t.opos && o !in t.lost ==>
          o - s.opos + s.ipos < |input| && o in t.out && t.out[o] == input[o - s.opos + s.ipos])
  }

  lemma CopiedTwice(input: seq<Byte>, s: Globals, t: Globals, u: Globals)
    requires Copied(input, s, t) && Copied(input, t, u)
    ensures Copied(input, s, u)
    ensures Bounded(s, t) && Bounded(t, u) ==> Bounded(s, u)
  {
  }

  lemma FullTwice(input: seq<Byte>, s: Globals, t: Globals, u: Globals)
    requires Copied(input, s, t) && Copied(input, t, u) && Full(input, s, t) && Full(input, t, u)
    ensures Full(input, s, u)
  {
    forall o | s.opos <= o < u.opos && o !in u.lost
      ensures o - s.opos + s.ipos < |input| && o in u.out && u.out[o] == input[o - s.opos + s.ipos]
    {
      if o < t.opos {
        assert o !in t.lost;
      }
    }
  }

  lemma Unmoved(input: seq<Byte>, hardbs: nat, s: Globals, t: Globals)
    requires t == s.(short := t.short) && s.short <= t.short
    ensures Copied(input, s, t) && Bounded(s, t) && Full(input, s, t) && Excused(hardbs, s, t)
  {
  }

  // ----- what is given up, and why -----

  predicate Within(o: int, block: (int, int)) {
    block.0 <= o < block.0 + block.1
  }

  /** Every byte given up lies in a block of at most hardbs bytes whose own reading came up short. */
  ghost predicate Excused(hardbs: nat, s: Globals, t: Globals) {
    && s.short <= t.short
    && forall o :: o in t.lost && o !in s.lost ==>
         exists b :: b in t.short && b.1 <= hardbs && Within(o - s.opos + s.ipos, b)
  }

  lemma ExcusedTwice(hardbs: nat, s: Globals, t: Globals, u: Globals)
    requires Excused(hardbs, s, t) && Excused(hardbs, t, u) && t.ipos - s.ipos == t.opos - s.opos
    ensures Excused(hardbs, s, u)
  {
    forall o | o in u.lost && o !in s.lost
      ensures exists b :: b in u.short && b.1 <= hardbs && Within(o - s.opos + s.ipos, b)
    {
      if o in t.lost {
        var b :| b in t.short && b.1 <= hardbs && Within(o - s.opos + s.ipos, b);
        assert b in u.short;
      } else {
        var b :| b in u.short && b.1 <= hardbs && Within(o - t.opos + t.ipos, b);
        assert Within(o - s.opos + s.ipos, b);
      }
    }
  }

  lemma ExcusedAlone(hardbs: nat, s: Globals, n: nat, t: Globals)
    requires n <= hardbs && (s.ipos as int, n as int) in s.short && t.short == s.short
    requires t.lost == s.lost + Range(s.opos, n)
    ensures Excused(hardbs, s, t)
  {
    hide Range;
    forall o | o in t.lost && o !in s.lost
      ensures exists b :: b in t.short && b.1 <= hardbs && Within(o - s.opos + s.ipos, b)
    {
      var b := (s.ipos as int, n as int);
      assert b in t.short && Within(o - s.opos + s.ipos, b);
    }
  }

  lemma NothingLost(hardbs: nat, s: Globals, t: Globals)
    requires s.short <= t.short && t.lost == s.lost
    ensures Excused(hardbs, s, t)
  {
  }

  /** Some byte of the block cannot be read. */
  predicate Hit(bad: set<int>, at: int, n: int) {
    exists o :: o in bad && Within(o, (at, n))
  }

  /** Every block that came up short holds a byte that cannot be read, or goes beyond the end of the input. */
  ghost predicate Blamed(bad: set<int>, input: seq<Byte>, short: set<(int, int)>) {
    forall b :: b in short ==> Hit(bad, b.0, b.1) || b.0 + b.1 > |input|
  }

  lemma LostNearBad(input: seq<Byte>, bad: set<int>, hardbs: nat, s: Globals, t: Globals, i: nat)
    requires Excused(hardbs, s, t) && Blamed(bad, input, t.short)
    requires i - s.ipos + s.opos in t.lost && i - s.ipos + s.opos !in s.lost
    ensures i + hardbs > |input| || exists j :: j in bad && Abs(j - i) < hardbs
  {
    var b :| b in t.short && b.1 <= hardbs && Within(i, b);
    if Hit(bad, b.0, b.1) {
      var j :| j in bad && Within(j, (b.0, b.1));
    }
  }

  /**
   * What can be read is rescued: a byte that was passed is in the output at its place unless a byte that
   * cannot be read, or the end of the input, is less than a hard block away from it.
   */
  lemma Rescued(input: seq<Byte>, bad: set<int>, hardbs: nat, s: Globals, t: Globals, i: nat)
    requires Copied(input, s, t) && Full(input, s, t) && Excused(hardbs, s, t) && Blamed(bad, input, t.short)
    requires s.ipos <= i < t.ipos && i + hardbs <= |input| && forall o :: o in s.lost ==> o < s.opos
    requires forall o :: o in bad ==> Abs(o - i) >= hardbs
    ensures i - s.ipos + s.opos in t.out && t.out[i - s.ipos + s.opos] == input[i]
  {
    if i - s.ipos + s.opos in t.lost {
      LostNearBad(input, bad, hardbs, s, t, i);
    }
  }

  lemma Prefixes(a: array<Byte>, i: nat, j: nat)
    requires i <= j <= a.Length
    ensures a[..i] + a[i..j] == a[..j]
  {
  }

  /** n input bytes from at on; there need be none to have none of them. */
  function Part(input: seq<Byte>, at: nat, n: nat): (r: seq<Byte>)
    requires n > 0 ==> at + n <= |input|
    ensures |r| == n
  {
    if n == 0 then [] else input[at..at + n]
  }

  lemma Parts(input: seq<Byte>, at: nat, m: nat, n: nat)
    requires m + n > 0 ==> at + m + n <= |input|
    ensures Part(input, at, m) + Part(input, at + m, n) == Part(input, at, m + n)
    ensures Part(input, at, m + n)[..m] == Part(input, at, m)
  {
  }

  lemma StoredPart(input: seq<Byte>, out: map<int, Byte>, at: int, from: nat, n: nat)
    requires n > 0 ==> from + n <= |input|
    ensures
      var r := Stored(out, at, Part(input, from, n));
      && (forall o :: o in r <==> o in out || at <= o < at + n)
      && (forall o :: o in r ==> r[o] == if at <= o < at + n then input[o - at + from] else out[o])
  {
    hide Stored;
  }

  /** A block of rd bytes read, wr of them written, and the places moved on by rd. */
  lemma Transferred(input: seq<Byte>, s: Globals, rd: nat, wr: nat, t: Globals)
    requires wr <= rd && s.ipos + rd <= |input|
    requires t.out == Stored(s.out, s.opos, Part(input, s.ipos, wr)) && t.lost == s.lost
    requires t.ipos - s.ipos == t.opos - s.opos == t.xfer - s.xfer && (t.opos == s.opos || t.opos == s.opos + rd)
    ensures Copied(input, s, t)
    ensures t.opos == s.opos + rd ==> Bounded(s, t)
    ensures t.opos == s.opos + rd && wr == rd && t.sxfer == s.sxfer + rd && t.fxfer == s.fxfer ==> Full(input, s, t)
  {
    hide Stored, Part;
    StoredPart(input, s.out, s.opos, s.ipos, wr);
  }

  /** A hard block of n bytes given up; wr bytes of it may have been written. */
  lemma GivenUp(input: seq<Byte>, s: Globals, n: nat, wr: nat, t: Globals)
    requires wr <= n && (wr > 0 ==> s.ipos + wr <= |input|) && (forall o :: o in s.lost ==> o < s.opos)
    requires t.out == Stored(s.out, s.opos, Part(input, s.ipos, wr))
    requires t.lost == s.lost + Range(s.opos, n)
    requires t.ipos - s.ipos == t.opos - s.opos == t.xfer - s.xfer == t.fxfer - s.fxfer == n && t.sxfer == s.sxfer
    ensures Copied(input, s, t) && Bounded(s, t) && Full(input, s, t)
  {
    hide Stored, Part, Range;
    assert s.lost !! Range(s.opos, n);
    StoredPart(input, s.out, s.opos, s.ipos, wr);
  }

  /** A copy without losses holds every input byte that it passed. */
  lemma WithoutLoss(input: seq<Byte>, s: Globals, t: Globals)
    requires Copied(input, s, t) && Full(input, s, t) && t.lost == s.lost && forall o :: o in s.lost ==> o < s.opos
    ensures t.fxfer == s.fxfer && t.sxfer - s.sxfer == t.xfer - s.xfer
    ensures t.ipos > s.ipos ==> t.ipos <= |input|
    ensures forall i :: s.ipos <= i < t.ipos && i < |input| ==>
      i - s.ipos + s.opos in t.out && t.out[i - s.ipos + s.opos] == input[i]
  {
    if t.ipos > s.ipos {
      var o := t.opos - 1;
      assert s.opos <= o < t.opos && o !in t.lost;
    }
  }

  /** data, written at the offset at. */
  function Stored(out: map<int, Byte>, at: int, data: seq<Byte>): (r: map<int, Byte>)
    ensures forall o :: o in r <==> o in out || at <= o < at + |data|
    ensures forall o :: o in r ==> r[o] == if at <= o < at + |data| then data[o - at] else out[o]
  {
    if data == [] then out else Stored(out, at, data[..|data| - 1])[at + |data| - 1 := data[|data| - 1]]
  }

  /** With so much of the input left, its end is a block border or does not come before the maximum. */
  ghost predicate WellPlaced(rest: nat, max: nat, xfer: nat, bs: nat)
    requires bs > 0
  {
    Remainder(rest, bs) == 0 || (max != 0 && max - xfer <= rest)
  }

  /** What a run of copyfile started from. */
  datatype Start = Start(s: Globals, interrupts: nat, nrerr: nat, fatal: bool, calm: bool, well: bool)

  class Rescue {
    const softbs: nat
    const hardbs: nat
    const nosparse: bool
    const maxerr: nat
    const abwrerr: bool
    /** The contents of the input disk. */
    const input: seq<Byte>
    /** The offsets at which reading may fail. */
    const bad: set<int>
    /** A good writer takes all it is given. */
    const goodWriter: bool
    const buf: array<Byte>

    var ipos: nat
    var opos: nat
    var xfer: nat
    var sxfer: nat
    var fxfer: nat
    var nrerr: nat
    var errno: int
    var output: map<int, Byte>
    ghost var lost: set<int>
    ghost var short: set<(int, int)>
    /** Set once a read has failed for a reason that ends the program. */
    ghost var fatal: bool
    /** What the last read and the last write returned. */
    ghost var lastRead: int
    ghost var lastWrite: int
    /** How often a read or write may still be interrupted. */
    var interrupts: nat
    /** Set once the program has called exit. */
    var exitCode: Option<int>

    /** An input that fails at the bad offsets, an output without faults, and nothing copied yet. */
    constructor (input: seq<Byte>, bad: set<int>, softbs: nat, hardbs: nat)
      requires 0 < hardbs <= softbs
      ensures Valid() && fresh(buf) && this.input == input && this.softbs == softbs && this.hardbs == hardbs
      ensures this.bad == bad && maxerr == 0 && exitCode == None && Now() == Globals(0, 0, 0, 0, 0, map[], {}, {})
      ensures Steady() && Answered() && !fatal
    {
      this.input, this.softbs, this.hardbs := input, softbs, hardbs;
      nosparse, maxerr, abwrerr, goodWriter := false, 0, false, true;
      this.bad := bad;
      buf := new Byte[softbs](_ => 0);
      ipos, opos, xfer, sxfer, fxfer, nrerr, errno := 0, 0, 0, 0, 0, 0, 0;
      output, lost, short, fatal, interrupts, exitCode := map[], {}, {}, false, 0, None;
      lastRead, lastWrite := 0, 0;
    }

    ghost predicate Valid()
      reads this
    {
      && 0 < hardbs <= softbs == buf.Length
      && (bad == {} && goodWriter ==> interrupts == 0)
      && (forall o :: o in lost ==> o < opos)
    }

    ghost function Now(): Globals
      reads this
    {
      Globals(ipos, opos, xfer, sxfer, fxfer, output, lost, short)
    }

    /** pread into buf[at..at + n] at the offset off: any outcome that the disk allows. */
    method Pread(at: nat, n: nat, off: nat) returns (err: int)
      requires Valid() && at + n <= buf.Length
      modifies buf, this`errno, this`interrupts, this`fatal, this`lastRead
      ensures Valid() && -1 <= err <= n && buf[..at] == old(buf[..at])
      ensures err == -1 ==>
        errno != 0 && if Interrupted(errno) then interrupts < old(interrupts) else off < |input| && Hit(bad, off, n)
      ensures err == -1 ==> bad != {} || !goodWriter
      ensures fatal == (old(fatal) || (err == -1 && FatalRead(errno))) && lastRead == err
      ensures err >= 0 ==> errno == old(errno) && interrupts == old(interrupts)
      ensures err > 0 ==> off + err <= |input| && buf[at..at + err] == Part(input, off, err)
      ensures err == 0 ==> n == 0 || off >= |input|
      ensures interrupts <= old(interrupts)
    {
      var fault, code, some: nat := *, *, *;
      lastRead := -1;
      if fault && interrupts > 0 {
        interrupts := interrupts - 1;
        errno := if code == EINTR then EINTR else EAGAIN;
        return -1;
      }
      if fault && off < |input| && Hit(bad, off, n) && code != 0 && !Interrupted(code) {
        errno, fatal := code, fatal || FatalRead(code);
        return -1;
      }
      if n == 0 || off >= |input| {
        lastRead := 0;
        return 0;
      }
      var there := if n <= |input| - off then n else |input| - off;
      var k := if 0 < some <= there then some else there;
      forall i | 0 <= i < k {
        buf[at + i] := input[off + i];
      }
      assert buf[at..at + k] == input[off..off + k];
      lastRead := k;
      return k;
    }

    /** pwrite of buf[at..at + n] at the offset off */
    method Pwrite(at: nat, n: nat, off: int) returns (err: int)
      requires Valid() && at + n <= buf.Length
      modifies this`output, this`errno, this`interrupts, this`lastWrite
      ensures Valid() && -1 <= err <= n
      ensures output == if err > 0 then Stored(old(output), off, buf[at..at + err]) else old(output)
      ensures err == -1 ==> errno != 0 && if Interrupted(errno) then interrupts < old(interrupts) else n > 0
      ensures err >= 0 ==> errno == old(errno) && interrupts == old(interrupts)
      ensures goodWriter && err != n ==> err == -1 && Interrupted(errno)
      ensures bad == {} && goodWriter ==> err == n
      ensures interrupts <= old(interrupts) && lastWrite == err
    {
      var fault, code, some: nat := *, *, *;
      lastWrite := -1;
      if fault && interrupts > 0 {
        interrupts := interrupts - 1;
        errno := if code == EINTR then EINTR else EAGAIN;
        return -1;
      }
      if fault && !goodWriter && n > 0 && code != 0 && !Interrupted(code) {
        errno := code;
        return -1;
      }
      hide Stored;
      var k := if some <= n && !goodWriter then some else n;
      if k == 0 {
        StoredNothing(output, off, buf[at..at + k]);
      }
      output := Stored(output, off, buf[at..at + k]);
      lastWrite := k;
      return k;
    }

    /** Writing is sound and nothing interrupts. */
    ghost predicate Steady()
      reads this
    {
      goodWriter && interrupts == 0
    }

    /** Whatever came up short had its reason in the input. */
    ghost predicate Answered()
      reads this
    {
      Blamed(bad, input, short)
    }

    /** What ends a series of reads or writes early: nothing more, a failure, or an old error that is still noted. */
    ghost predicate Stopped(last: int)
      reads this
    {
      last == 0 || (last == -1 && !Interrupted(errno)) || (last > 0 && errno != 0)
    }

    /** readblock: as much of the block as can be had. */
    method ReadBlock(toread: nat) returns (rd: nat)
      requires Valid() && 0 < toread <= buf.Length
      modifies buf, this`errno, this`interrupts, this`short, this`fatal, this`lastRead
      ensures Valid() && rd <= toread && interrupts <= old(interrupts)
      ensures (rd > 0 ==> ipos + rd <= |input|) && buf[..rd] == Part(input, ipos, rd)
      ensures rd == 0 && errno == 0 ==> ipos >= |input|
      ensures ipos >= |input| ==> rd == 0 && (interrupts < old(interrupts) || errno == old(errno))
      ensures bad == {} && goodWriter && old(errno) == 0 ==> errno == 0 && (rd == toread || ipos + rd >= |input|)
      ensures short == if rd < toread then old(short) + {(ipos as int, toread as int)} else old(short)
      ensures rd < toread && old(errno) == 0 ==>
        interrupts < old(interrupts) || Hit(bad, ipos, toread) || ipos + toread > |input|
      ensures old(Steady() && errno == 0 && Answered()) ==> Answered()
      ensures rd == toread && old(errno) == 0 ==> interrupts < old(interrupts) || errno == 0
      ensures rd < toread ==> Stopped(lastRead) && (lastRead == 0 ==> ipos + rd >= |input|)
      ensures fatal && !old(fatal) ==> rd < toread && FatalRead(errno)
    {
      hide Part;
      rd := 0;
      Parts(input, ipos, 0, 0);
      assert buf[..0] == Part(input, ipos, 0);
      while true
        invariant Valid() && rd < toread && interrupts <= old(interrupts)
        invariant (rd > 0 ==> ipos + rd <= |input|) && buf[..rd] == Part(input, ipos, rd)
        invariant ipos >= |input| ==> rd == 0 && (interrupts < old(interrupts) || errno == old(errno))
        invariant bad == {} && goodWriter && old(errno) == 0 ==> errno == 0
        invariant old(errno) == 0 ==> interrupts < old(interrupts) || errno == 0
        invariant fatal == old(fatal) && short == old(short)
        decreases toread - rd, interrupts
      {
        ghost var was := buf[..rd];
        var err := Pread(rd, toread - rd, ipos + rd);
        if err > 0 {
          Prefixes(buf, rd, rd + err);
          Parts(input, ipos, rd, err);
          rd := rd + err;
        }
        if !((err == -1 && Interrupted(errno)) || (rd < toread && err > 0 && errno == 0)) {
          if rd < toread {
            short := short + {(ipos as int, toread as int)};
          }
          return;
        }
      }
    }

    /** writeblock: as much of buf[..towrite] as can be stored; the result is never negative. */
    method WriteBlock(towrite: nat) returns (wr: nat)
      requires Valid() && towrite <= buf.Length && exitCode == None
      modifies this`output, this`errno, this`interrupts, this`lastWrite, this`nrerr, this`exitCode
      ensures Valid() && wr <= towrite && interrupts <= old(interrupts)
      ensures output == Stored(old(output), opos, buf[..wr])
      ensures exitCode != None ==> abwrerr && exitCode == Some(21)
      ensures nrerr == old(nrerr) || (wr < towrite && !abwrerr && nrerr == old(nrerr) + 1)
      ensures goodWriter || towrite == 0 ==> wr == towrite && exitCode == None
      ensures goodWriter || towrite == 0 ==> interrupts < old(interrupts) || errno == old(errno)
      ensures wr < towrite ==> Stopped(lastWrite)
      ensures
        if wr == towrite || lastWrite == 0 then exitCode == None && nrerr == old(nrerr)
        else if abwrerr then exitCode == Some(21) && nrerr == old(nrerr)
        else exitCode == None && nrerr == old(nrerr) + 1
    {
      hide Stored;
      var err;
      wr, err := WriteLoop(towrite);
      if wr < towrite && err != 0 {
        if abwrerr {
          exitCode := Some(21);
          return;
        }
        nrerr := nrerr + 1;
      }
    }

    /** One pwrite of what is left of the block. */
    method WriteMore(towrite: nat, at: nat, ghost was: map<int, Byte>) returns (wr: nat, err: int)
      requires Valid() && at <= towrite <= buf.Length && output == Stored(was, opos, buf[..at])
      modifies this`output, this`errno, this`interrupts, this`lastWrite
      ensures Valid() && -1 <= err <= towrite - at && wr == at + Max(err, 0) && interrupts <= old(interrupts)
      ensures output == Stored(was, opos, buf[..wr])
      ensures err == -1 ==> if Interrupted(errno) then interrupts < old(interrupts) else at < towrite
      ensures err >= 0 ==> errno == old(errno) && interrupts == old(interrupts)
      ensures goodWriter && wr != towrite ==> err == -1 && Interrupted(errno)
      ensures lastWrite == err
    {
      hide Stored;
      wr := at;
      err := Pwrite(at, towrite - at, opos + at);
      if err > 0 {
        wr := at + err;
        StoredMore(was, opos, buf, at, wr);
      }
    }

    method WriteLoop(towrite: nat) returns (wr: nat, err: int)
      requires Valid() && towrite <= buf.Length
      modifies this`output, this`errno, this`interrupts, this`lastWrite
      ensures Valid() && wr <= towrite && interrupts <= old(interrupts)
      ensures output == Stored(old(output), opos, buf[..wr])
      ensures goodWriter ==> wr == towrite
      ensures goodWriter || towrite == 0 ==> interrupts < old(interrupts) || errno == old(errno)
      ensures lastWrite == err && (wr < towrite ==> Stopped(err))
    {
      hide Stored;
      wr := 0;
      StoredNothing(output, opos, buf[..wr]);
      while true
        invariant Valid() && wr <= towrite && interrupts <= old(interrupts)
        invariant output == Stored(old(output), opos, buf[..wr])
        invariant wr == towrite ==> wr == 0
        invariant goodWriter ==> wr == 0
        invariant goodWriter || towrite == 0 ==> interrupts < old(interrupts) || errno == old(errno)
        decreases towrite - wr, interrupts
      {
        wr, err := WriteMore(towrite, wr, old(output));
        if !((err == -1 && Interrupted(errno)) || (wr < towrite && err > 0 && errno == 0)) {
          return;
        }
      }
    }

    /** Everything since s has been copied properly. */
    ghost predicate Since(s: Globals)
      reads this
    {
      && Copied(input, s, Now()) && Excused(hardbs, s, Now())
      && (exitCode == None ==> Bounded(s, Now()) && (goodWriter ==> Full(input, s, Now())))
    }

    lemma InLockstep(s: Globals)
      requires Since(s)
      ensures ipos - s.ipos == opos - s.opos == xfer - s.xfer >= 0
    {
    }

    lemma SinceBefore(s: Globals, t: Globals)
      requires Copied(input, s, t) && Excused(hardbs, s, t) && Bounded(s, t) && (goodWriter ==> Full(input, s, t))
      requires Since(t)
      ensures Since(s) && ipos - t.ipos == opos - t.opos == xfer - t.xfer >= 0
    {
      CopiedTwice(input, s, t, Now());
      ExcusedTwice(hardbs, s, t, Now());
      if goodWriter && exitCode == None {
        FullTwice(input, s, t, Now());
      }
    }

    /** writeblock for input bytes that were just read. */
    method WriteInput(rd: nat) returns (wr: nat)
      requires Valid() && rd <= buf.Length && exitCode == None
      requires (rd > 0 ==> ipos + rd <= |input|) && buf[..rd] == Part(input, ipos, rd)
      modifies this`output, this`errno, this`interrupts, this`lastWrite, this`nrerr, this`exitCode
      ensures Valid() && wr <= rd && interrupts <= old(interrupts)
      ensures output == Stored(old(output), opos, Part(input, ipos, wr))
      ensures exitCode != None ==> abwrerr && exitCode == Some(21)
      ensures nrerr == old(nrerr) || (wr < rd && !abwrerr && nrerr == old(nrerr) + 1)
      ensures goodWriter || rd == 0 ==> wr == rd && exitCode == None
      ensures goodWriter || rd == 0 ==> interrupts < old(interrupts) || errno == old(errno)
    {
      hide Stored, Part;
      wr := WriteBlock(rd);
      Parts(input, ipos, wr, rd - wr);
      assert buf[..wr] == buf[..rd][..wr];
    }

    /** What is read and written when the whole block could be had, or the first part of it. */
    method Transfer(rd: nat) returns (errs: nat, wr: nat)
      requires Valid() && exitCode == None && 0 < rd <= buf.Length
      requires ipos + rd <= |input| && buf[..rd] == Part(input, ipos, rd)
      modifies this
      ensures Valid() && Since(old(Now())) && interrupts <= old(interrupts)
      ensures exitCode != None ==> xfer == old(xfer)
      ensures exitCode == None ==> xfer == old(xfer) + rd && fxfer == old(fxfer) && lost == old(lost) && wr <= rd
      ensures goodWriter ==> exitCode == None && wr == rd && nrerr == old(nrerr)
      ensures goodWriter ==> interrupts < old(interrupts) || errno == old(errno)
      ensures short == old(short) && fatal == old(fatal) && (exitCode != None ==> exitCode == Some(21))
      ensures exitCode == None ==> errs == (if wr < rd then 1 else 0) && sxfer == old(sxfer) + wr
    {
      hide Copied, Bounded, Full, Excused, Stored, Part;
      ghost var s := Now();
      wr := WriteInput(rd);
      if exitCode != None {
        Transferred(input, s, rd, wr, Now());
        NothingLost(hardbs, s, Now());
        return 0, 0;
      }
      errs := if wr < rd then 1 else 0;
      sxfer, xfer, ipos, opos := sxfer + wr, xfer + rd, ipos + rd, opos + rd;
      Transferred(input, s, rd, wr, Now());
      NothingLost(hardbs, s, Now());
    }

    /** A hard block that could not be read in full is given up. */
    method HardError(rd: nat, toread: nat) returns (errs: nat)
      requires Valid() && exitCode == None && rd < toread <= hardbs && (ipos as int, toread as int) in short
      requires (rd > 0 ==> ipos + rd <= |input|) && buf[..rd] == Part(input, ipos, rd)
      modifies this
      ensures Valid() && Since(old(Now())) && interrupts <= old(interrupts)
      ensures xfer == if exitCode == None then old(xfer) + toread else old(xfer)
      ensures exitCode == None && rd == 0 ==> interrupts < old(interrupts) || errno == 0
      ensures exitCode == None ==> fxfer == old(fxfer) + toread
      ensures nrerr > old(nrerr) && (exitCode == Some(32) <==> maxerr > 0 && old(nrerr) + 1 >= maxerr)
      ensures goodWriter && exitCode == None ==>
        output == Stored(old(output), old(opos), Part(input, old(ipos), if nosparse then rd else 0))
      ensures goodWriter && exitCode == None ==> interrupts < old(interrupts) || errno == 0
      ensures goodWriter && maxerr == 0 ==> exitCode == None
      ensures short == old(short) && fatal == old(fatal) && exitCode != Some(20)
    {
      hide Copied, Bounded, Full, Excused, Stored, Part;
      ghost var s := Now();
      Unmoved(input, hardbs, s, s);
      errs := 0;
      nrerr := nrerr + 1;
      if maxerr > 0 && nrerr >= maxerr {
        exitCode := Some(32);
        return;
      }
      errno := 0;
      ghost var wr;
      errs, wr := HardWrite(rd);
      if exitCode != None {
        Transferred(input, s, rd, wr, Now());
        NothingLost(hardbs, s, Now());
        return;
      }
      GiveUp(toread, wr, s);
    }

    /** With nosparse what there is of the block is written, all the same. */
    method HardWrite(rd: nat) returns (errs: nat, ghost wr: nat)
      requires Valid() && rd <= buf.Length && exitCode == None
      requires (rd > 0 ==> ipos + rd <= |input|) && buf[..rd] == Part(input, ipos, rd)
      modifies this`output, this`errno, this`interrupts, this`lastWrite, this`nrerr, this`exitCode
      ensures Valid() && wr <= rd && interrupts <= old(interrupts)
      ensures output == Stored(old(output), opos, Part(input, ipos, wr))
      ensures exitCode != None ==> rd > 0 && exitCode == Some(21)
      ensures nrerr >= old(nrerr)
      ensures if nosparse then goodWriter ==> wr == rd else wr == 0
      ensures goodWriter || rd == 0 ==> exitCode == None && (interrupts < old(interrupts) || errno == old(errno))
    {
      hide Stored, Part;
      errs, wr := 0, 0;
      if nosparse {
        var n := WriteInput(rd);
        errs, wr := if n < rd then 1 else 0, n;
      } else {
        Parts(input, ipos, 0, 0);
        StoredNothing(output, opos, Part(input, ipos, 0));
      }
    }

    method GiveUp(toread: nat, ghost wr: nat, ghost s: Globals)
      requires Valid() && wr <= toread && (wr > 0 ==> ipos + wr <= |input|) && exitCode == None
      requires ipos == s.ipos && Now() == s.(out := Stored(s.out, s.opos, Part(input, s.ipos, wr)))
      requires toread <= hardbs && (ipos as int, toread as int) in short
      modifies this`fxfer, this`xfer, this`ipos, this`opos, this`lost
      ensures Valid() && Since(s) && xfer == old(xfer) + toread && fxfer == old(fxfer) + toread
    {
      hide Copied, Bounded, Full, Excused, Stored, Part;
      fxfer, lost := fxfer + toread, lost + Range(opos, toread);
      xfer, ipos, opos := xfer + toread, ipos + toread, opos + toread;
      GivenUp(input, s, toread, wr, Now());
      ExcusedAlone(hardbs, s, toread, Now());
    }

    /** What is left to do: with a maximum the bytes up to it, else those of the input. */
    ghost function Left(max: nat): nat
      reads this
    {
      if max != 0 then Max(max - xfer, 0) else Max(|input| - ipos, 0)
    }

    ghost predicate Faultless() {
      bad == {} && goodWriter
    }

    /** How the program may end: a fatal read ends it at once. */
    ghost predicate Ended(wasFatal: bool)
      reads this
    {
      && (exitCode == Some(20) ==> FatalRead(errno))
      && (fatal && !wasFatal ==> exitCode == Some(20))
      && (goodWriter && maxerr == 0 ==> exitCode == None || exitCode == Some(20))
    }

    /** What one turn asks for. */
    function ToRead(max: nat, bs: nat): int
      reads this
    {
      if max != 0 && max - xfer < bs then max - xfer else bs
    }

    /** Where small blocks are the only ones, and all goes well, it is the end of the input that decides. */
    ghost predicate PlainBlocks(bs: nat)
      reads this
    {
      Faultless() && bs == hardbs && maxerr == 0 && errno == 0 && exitCode == None
    }

    /** The input ends at a block border, or not before the maximum. */
    ghost predicate EndsWell(max: nat, bs: nat)
      requires bs > 0 && ipos <= |input|
      reads this
    {
      WellPlaced(|input| - ipos, max, xfer, bs)
    }

    /** copyfile, with either of the two block sizes */
    method CopyFile(max: nat, bs: nat) returns (errs: nat)
      requires Valid() && exitCode == None && (bs == softbs || bs == hardbs)
      modifies this, buf
      ensures Valid() && Since(old(Now())) && interrupts <= old(interrupts)
      ensures max != 0 ==> xfer <= Max(max, old(xfer))
      ensures bs == hardbs && errs > 0 && exitCode == None ==> xfer > old(xfer)
      ensures bs == hardbs && exitCode == None && xfer == old(xfer) ==> errno == 0
      ensures bs == hardbs && exitCode == None ==> (max != 0 && xfer >= max) || ipos >= |input|
      ensures bs == hardbs && exitCode == None && errs == 0 ==> lost == old(lost)
      ensures exitCode == None && old(ipos) >= |input| && xfer > old(xfer) ==> interrupts < old(interrupts)
      ensures Faultless() && (bs != hardbs || old(ipos) >= |input|) ==>
        && exitCode == None && errno == 0 && fxfer == old(fxfer) && lost == old(lost) && nrerr == old(nrerr)
        && ((max != 0 && xfer >= max) || ipos >= |input|)
      ensures Faultless() && bs == hardbs && maxerr == 0 && old(ipos) <= |input| ==>
        exitCode == None && (fxfer == old(fxfer) <==> old(EndsWell(max, bs)))
      ensures Ended(old(fatal))
      ensures old(Steady() && Answered()) ==> Answered()
      ensures old(Steady() && Answered()) && exitCode == None ==> (max != 0 && xfer >= max) || ipos >= |input|
      decreases if bs == hardbs then 0 else 1, 2
    {
      hide Copied, Bounded, Full, Excused, WellPlaced, Blamed, Rescue.OnTrack;
      ghost var start := Start(Now(), interrupts, nrerr, fatal, Steady() && Answered(),
                               ipos <= |input| && EndsWell(max, bs));
      errs, errno := 0, 0;
      SetOut(max, bs, start);
      var done := false;
      while !done && exitCode == None && (max == 0 || max > xfer)
        invariant Valid() && OnTrack(max, bs, errs, done, start)
        decreases !done && exitCode == None, Left(max), interrupts, errno != 0
      {
        var e;
        e, done := Lap(max, bs, errs, start);
        errs := errs + e;
      }
      Arrived(max, bs, errs, done, start);
    }

    /** The loop invariant of copyfile: what holds after errs errors since the start. */
    ghost predicate OnTrack(max: nat, bs: nat, errs: nat, done: bool, start: Start)
      requires bs > 0
      reads this
    {
      var s := start.s;
      && Since(s) && interrupts <= start.interrupts && ipos - s.ipos == xfer - s.xfer >= 0
      && (max != 0 ==> xfer <= Max(max, s.xfer))
      && (bs == hardbs && exitCode == None ==>
            && (errs > 0 ==> xfer > s.xfer) && (xfer == s.xfer ==> errno == 0)
            && (done ==> ipos >= |input|) && (errs == 0 ==> lost == s.lost))
      && (exitCode == None && s.ipos >= |input| ==>
            interrupts < start.interrupts || (xfer == s.xfer && errno == 0))
      && (Faultless() && (bs != hardbs || s.ipos >= |input|) ==>
            && exitCode == None && errno == 0 && fxfer == s.fxfer && lost == s.lost && nrerr == start.nrerr
            && (done ==> ipos >= |input|))
      && (Faultless() && bs == hardbs && maxerr == 0 && s.ipos <= |input| ==>
            && errno == 0 && exitCode == None && fxfer >= s.fxfer
            && (if fxfer == s.fxfer
                then ipos <= |input| && (done ==> ipos == |input|) && (EndsWell(max, bs) <==> start.well)
                else ipos >= |input| && !start.well))
      && Ended(start.fatal)
      && (start.calm ==>
            Steady() && Answered() && (exitCode == None ==> errno == 0 && (done ==> ipos >= |input|)))
    }

    lemma SetOut(max: nat, bs: nat, start: Start)
      requires Valid() && bs > 0 && exitCode == None && errno == 0 && start.s == Now()
      requires start.interrupts == interrupts && start.nrerr == nrerr && start.fatal == fatal
      requires start.calm ==> Steady() && Answered()
      requires start.well <==> ipos <= |input| && EndsWell(max, bs)
      ensures OnTrack(max, bs, 0, false, start)
    {
      hide Copied, Bounded, Full, Excused, WellPlaced, Blamed;
      Unmoved(input, hardbs, start.s, start.s);
    }

    /** What the invariant says at the end of the loop. */
    lemma Arrived(max: nat, bs: nat, errs: nat, done: bool, start: Start)
      requires bs > 0 && OnTrack(max, bs, errs, done, start)
      requires done || exitCode != None || (max != 0 && max <= xfer)
      ensures
        var s := start.s;
        var atEnd := (max != 0 && xfer >= max) || ipos >= |input|;
        && Since(s) && interrupts <= start.interrupts && (max != 0 ==> xfer <= Max(max, s.xfer))
        && (bs == hardbs && exitCode == None ==>
              && (errs > 0 ==> xfer > s.xfer) && (xfer == s.xfer ==> errno == 0)
              && (errs == 0 ==> lost == s.lost) && atEnd)
        && (exitCode == None && s.ipos >= |input| && xfer > s.xfer ==> interrupts < start.interrupts)
        && (Faultless() && (bs != hardbs || s.ipos >= |input|) ==>
              && exitCode == None && errno == 0 && fxfer == s.fxfer && lost == s.lost && nrerr == start.nrerr && atEnd)
        && (Faultless() && bs == hardbs && maxerr == 0 && s.ipos <= |input| ==>
              exitCode == None && (fxfer == s.fxfer <==> start.well))
        && Ended(start.fatal)
        && (start.calm ==> Answered() && (exitCode == None ==> atEnd))
    {
      hide Copied, Bounded, Full, Excused, WellPlaced, Blamed;
      if ipos == |input| || (ipos < |input| && max != 0 && xfer >= max) {
        AtEnd(max, bs);
      }
    }

    /** One turn, and the invariant after it. */
    method Lap(max: nat, bs: nat, errs: nat, ghost start: Start) returns (e: nat, done: bool)
      requires Valid() && exitCode == None && (bs == softbs || bs == hardbs) && (max == 0 || max > xfer)
      requires OnTrack(max, bs, errs, false, start)
      modifies this, buf
      ensures Valid() && OnTrack(max, bs, errs + e, done, start)
      ensures interrupts <= old(interrupts) && ipos - old(ipos) == xfer - old(xfer) >= 0
      ensures exitCode == None && !done ==> xfer > old(xfer)
      ensures exitCode == None && old(ipos) >= |input| && xfer > old(xfer) ==>
        interrupts < old(interrupts) || (old(errno) != 0 && errno == 0)
      decreases if bs == hardbs then 0 else 1, 1, 1
    {
      hide Copied, Bounded, Full, Excused, WellPlaced, Blamed;
      if ipos < |input| {
        BlockStep(max, bs);
      }
      ghost var t := Now();
      e, done := Turn(max, bs);
      SinceBefore(start.s, t);
    }

    /** After a whole block the end is as well placed as before; a part of a block is read only where it is not. */
    lemma BlockStep(max: nat, bs: nat)
      requires 0 < bs && ipos < |input| && (max == 0 || max > xfer)
      ensures var n := ToRead(max, bs);
              if ipos + n <= |input| then EndsWell(max, bs) <==> WellPlaced(|input| - (ipos + n), max, xfer + n, bs)
              else !EndsWell(max, bs)
    {
    }

    lemma AtEnd(max: nat, bs: nat)
      requires 0 < bs && ipos <= |input| && (ipos == |input| || (max != 0 && xfer >= max))
      ensures EndsWell(max, bs)
    {
    }

    /** readblock, where with nosparse a hard block starts out as zeros. */
    method ReadTurn(bs: nat, toread: nat) returns (rd: nat)
      requires Valid() && 0 < toread <= bs <= buf.Length
      modifies buf, this`errno, this`interrupts, this`short, this`fatal, this`lastRead
      ensures Valid() && rd <= toread && interrupts <= old(interrupts)
      ensures (rd > 0 ==> ipos + rd <= |input|) && buf[..rd] == Part(input, ipos, rd)
      ensures rd == 0 && errno == 0 ==> ipos >= |input|
      ensures ipos >= |input| ==> rd == 0 && (interrupts < old(interrupts) || errno == old(errno))
      ensures Faultless() && old(errno) == 0 ==> errno == 0 && (rd == toread || ipos + rd >= |input|)
      ensures short == if rd < toread then old(short) + {(ipos as int, toread as int)} else old(short)
      ensures old(Steady() && errno == 0 && Answered()) ==> Answered() && (rd == toread ==> errno == 0)
      ensures fatal && !old(fatal) ==> rd < toread && FatalRead(errno)
    {
      hide Blamed, Part;
      if nosparse && bs == hardbs {
        forall i | 0 <= i < bs {
          buf[i] := 0;
        }
      }
      rd := ReadBlock(toread);
    }

    /** One turn of the loop of copyfile; done stands for its return statements. */
    method Turn(max: nat, bs: nat) returns (errs: nat, done: bool)
      requires Valid() && exitCode == None && (bs == softbs || bs == hardbs) && (max == 0 || max > xfer)
      modifies this, buf
      ensures Valid() && Since(old(Now())) && interrupts <= old(interrupts)
      ensures max != 0 ==> xfer <= max
      ensures exitCode == None && !done ==> xfer > old(xfer)
      ensures exitCode == None && bs == hardbs && errs > 0 ==> xfer > old(xfer)
      ensures exitCode == None && bs == hardbs && done ==> errno == 0 && ipos >= |input|
      ensures exitCode == None && bs == hardbs && errs == 0 ==> lost == old(lost)
      ensures exitCode == None && old(ipos) >= |input| && xfer > old(xfer) ==>
        interrupts < old(interrupts) || (old(errno) != 0 && errno == 0)
      ensures exitCode == None && old(ipos) >= |input| && xfer == old(xfer) ==>
        interrupts < old(interrupts) || errno == old(errno) || errno == 0
      ensures Faultless() && old(errno) == 0 && (bs != hardbs || old(ipos) >= |input|) ==>
        && exitCode == None && errno == 0 && fxfer == old(fxfer) && lost == old(lost) && nrerr == old(nrerr)
        && (done ==> ipos >= |input|)
      ensures old(PlainBlocks(bs) && ipos < |input|) ==>
        && PlainBlocks(bs) && !done && xfer == old(xfer) + old(ToRead(max, bs))
        && fxfer == old(fxfer) + if old(ipos + ToRead(max, bs) <= |input|) then 0 else old(ToRead(max, bs))
      ensures Ended(old(fatal))
      ensures old(Steady() && errno == 0 && Answered()) ==> Answered()
      ensures old(Steady() && errno == 0 && Answered()) && exitCode == None ==> errno == 0 && (done ==> ipos >= |input|)
      decreases if bs == hardbs then 0 else 1, 1, 0
    {
      hide Copied, Bounded, Full, Excused, Part, Blamed;
      ghost var s := Now();
      Unmoved(input, hardbs, s, s);
      errs, done := 0, false;
      var toread := ToRead(max, bs);
      var rd := ReadTurn(bs, toread);
      ghost var t := Now();
      Unmoved(input, hardbs, s, t);
      if rd == 0 && errno == 0 {
        return 0, true;
      }
      if rd < toread {
        errs, done := ShortRead(max, bs, rd, toread);
        SinceBefore(s, t);
      } else {
        var wr;
        errs, wr := Transfer(rd);
        SinceBefore(s, t);
        if exitCode == None && rd != wr {
          errno := 0;
        }
      }
    }

    /** A block that could not be read in full: a fatal error ends it all, hard blocks are given up, large ones cut. */
    method ShortRead(max: nat, bs: nat, rd: nat, toread: nat) returns (errs: nat, done: bool)
      requires Valid() && exitCode == None && (bs == softbs || bs == hardbs) && (max == 0 || max > xfer)
      requires toread == ToRead(max, bs) && rd < toread && (ipos as int, toread as int) in short
      requires (rd > 0 ==> ipos + rd <= |input|) && buf[..rd] == Part(input, ipos, rd)
      modifies this, buf
      ensures Valid() && Since(old(Now())) && interrupts <= old(interrupts)
      ensures max != 0 ==> xfer <= max
      ensures exitCode == None && !done ==> xfer > old(xfer)
      ensures errs > 0
      ensures exitCode == None && bs == hardbs ==>
        !done && xfer == old(xfer) + toread && fxfer == old(fxfer) + toread
      ensures exitCode == None && old(ipos) >= |input| ==> interrupts < old(interrupts) || errno == 0
      ensures Faultless() && old(errno) == 0 && bs != hardbs && old(ipos) + rd >= |input| ==>
        && exitCode == None && errno == 0 && fxfer == old(fxfer) && lost == old(lost) && nrerr == old(nrerr)
        && (done ==> ipos >= |input|)
      ensures old(PlainBlocks(bs)) ==> PlainBlocks(bs)
      ensures if FatalRead(old(errno)) then exitCode == Some(20) && errno == old(errno) else Ended(old(fatal))
      ensures old(Steady() && Answered()) ==>
        Answered() && (exitCode == None ==> errno == 0 && (done ==> ipos >= |input|))
      decreases if bs == hardbs then 0 else 1, 0, 1
    {
      hide Copied, Bounded, Full, Excused, Part, Blamed;
      errs, done := 0, false;
      if FatalRead(errno) {
        ghost var s := Now();
        Unmoved(input, hardbs, s, s);
        exitCode := Some(20);
        return 1, false;
      }
      if bs == hardbs {
        errs := HardError(rd, toread);
      } else {
        errs, done := Fallback(max, rd, toread);
      }
      errs := errs + 1;
    }

    /** Errors with large blocks: what could be read is written, and smaller blocks are tried for a while. */
    method Fallback(max: nat, rd: nat, toread: nat) returns (errs: nat, done: bool)
      requires Valid() && exitCode == None && hardbs != softbs && rd < toread <= buf.Length
      requires max == 0 || xfer + toread <= max
      requires (rd > 0 ==> ipos + rd <= |input|) && buf[..rd] == Part(input, ipos, rd)
      modifies this, buf
      ensures Valid() && Since(old(Now())) && interrupts <= old(interrupts)
      ensures max != 0 ==> xfer <= max
      ensures exitCode == None && !done ==> xfer > old(xfer)
      ensures exitCode == None ==> errno == 0
      ensures exitCode == None && old(ipos) >= |input| && xfer > old(xfer) ==> interrupts < old(interrupts)
      ensures Faultless() && old(ipos) + rd >= |input| ==>
        && exitCode == None && fxfer == old(fxfer) && lost == old(lost) && nrerr == old(nrerr)
        && (done ==> ipos >= |input|)
      ensures Ended(old(fatal))
      ensures old(Steady() && Answered()) ==> Answered() && (exitCode == None && done ==> ipos >= |input|)
      decreases 1, 0, 0
    {
      hide Copied, Bounded, Full, Excused, Part;
      ghost var s := Now();
      Unmoved(input, hardbs, s, s);
      errs, done := 0, false;
      var newMax := xfer + toread;
      if rd > 0 {
        errno := 0;
        var wr;
        errs, wr := Transfer(rd);
        InLockstep(s);
        if exitCode != None {
          return;
        }
      }
      ghost var t := Now();
      var oldXfer := xfer;
      var err := CopyFile(newMax, hardbs);
      SinceBefore(s, t);
      if exitCode != None {
        return;
      }
      errs := errs + err;
      if err == 0 && oldXfer == xfer {
        return errs, true;
      }
      t := Now();
      err, done := Retry(max, err, oldXfer);
      SinceBefore(s, t);
      errs := errs + err;
    }

    /** Small blocks stay until two whole large ones could be read without errors, or the end comes. */
    method Retry(max: nat, lastErr: nat, lastXfer: nat) returns (errs: nat, done: bool)
      requires Valid() && exitCode == None && (max == 0 || xfer <= max) && (lastErr == 0 ==> xfer != lastXfer)
      modifies this, buf
      ensures Valid() && Since(old(Now())) && interrupts <= old(interrupts)
      ensures xfer >= old(xfer) && (max != 0 ==> xfer <= max)
      ensures exitCode == None && lastErr != 0 && (max == 0 || xfer < max) && ipos < |input| ==>
        xfer >= old(xfer) + 2 * softbs && forall o :: o in lost ==> o < opos - 2 * softbs
      ensures exitCode == None ==> errno == 0
      ensures exitCode == None && old(ipos) >= |input| && xfer > old(xfer) ==> interrupts < old(interrupts)
      ensures Faultless() && old(ipos) >= |input| ==>
        exitCode == None && fxfer == old(fxfer) && lost == old(lost) && nrerr == old(nrerr) && ipos >= |input|
      ensures Ended(old(fatal))
      ensures old(Steady() && Answered()) ==> Answered() && (exitCode == None && done ==> ipos >= |input|)
      decreases 0, 3
    {
      hide Copied, Bounded, Full, Excused, WellPlaced;
      ghost var s := Now();
      Unmoved(input, hardbs, s, s);
      errs, done := 0, false;
      var newMax, err, oldXfer := xfer, lastErr, lastXfer;
      while err != 0 && (max == 0 || max > xfer)
        invariant Valid() && Since(s) && interrupts <= old(interrupts) && exitCode == None
        invariant max != 0 ==> newMax <= max
        invariant old(xfer) <= xfer <= newMax && ipos - s.ipos == xfer - s.xfer
        invariant newMax == xfer || ipos >= |input|
        invariant err == 0 && lastErr != 0 && (max == 0 || xfer < max) && ipos < |input| ==>
          xfer >= old(xfer) + 2 * softbs && forall o :: o in lost ==> o < opos - 2 * softbs
        invariant old(ipos) >= |input| ==> interrupts < old(interrupts) || xfer == old(xfer)
        invariant Faultless() && old(ipos) >= |input| ==>
          fxfer == old(fxfer) && lost == old(lost) && nrerr == old(nrerr) && ipos >= |input|
        invariant Ended(old(fatal))
        invariant old(Steady() && Answered()) ==> Answered() && (err == 0 && xfer == oldXfer ==> ipos >= |input|)
        decreases Left(max), interrupts, err
      {
        newMax, oldXfer := newMax + 2 * softbs, xfer;
        if max != 0 && newMax > max {
          newMax := max;
        }
        ghost var t := Now();
        err := CopyFile(newMax, hardbs);
        SinceBefore(s, t);
        if exitCode != None {
          return;
        }
        errs := errs + err;
      }
      errno := 0;
      done := err == 0 && xfer == oldXfer;
    }
  }

  /**
   * The whole program on a disk that fails at some offsets, undisturbed and with a sound output: unless a
   * read fails fatally, every byte with nothing bad, and not the end, within a hard block of it is rescued,
   * and nothing else than the input is ever written.
   */
  method RescueDisk(input: seq<Byte>, bad: set<int>, softbs: nat, hardbs: nat) returns (r: Rescue)
    requires 0 < hardbs <= softbs
    ensures fresh(r) && r.Valid() && (r.exitCode == None || (r.exitCode == Some(20) && FatalRead(r.errno)))
    ensures r.exitCode == None ==>
      !r.fatal && forall i :: 0 <= i <= |input| - hardbs && (forall o :: o in bad ==> Abs(o - i) >= hardbs) ==>
        i in r.output && r.output[i] == input[i]
    ensures forall o :: o in r.output ==> 0 <= o < |input| && r.output[o] == input[o]
  {
    r := new Rescue(input, bad, softbs, hardbs);
    ghost var s := r.Now();
    var errs := r.CopyFile(0, softbs);
    if r.exitCode == None {
      forall i: nat | i + hardbs <= |input| && forall o :: o in bad ==> Abs(o - i) >= hardbs
        ensures i in r.output && r.output[i] == input[i]
      {
        Rescued(input, bad, hardbs, s, r.Now(), i);
      }
    }
  }

  /** A single byte, copied with one block size of four, is given up although nothing goes wrong. */
  method ShortInput() returns (r: Rescue)
    ensures fresh(r) && r.input == [7] && r.softbs == r.hardbs == 4 && r.Faultless()
    ensures r.exitCode == None && r.fxfer > 0
  {
    r := new Rescue([7], {}, 4, 4);
    assert Remainder(1, 4) == 1 && !r.EndsWell(0, 4);
    var errs := r.CopyFile(0, 4);
    assert r.fxfer != 0;
  }

  /** With a smaller hard block size it is copied. */
  method ShortInputCopied() returns (r: Rescue)
    ensures fresh(r) && r.input == [7] && r.softbs == 4 && r.hardbs == 1 && r.Faultless()
    ensures r.exitCode == None && r.fxfer == 0 && 0 in r.output && r.output[0] == 7
  {
    r := new Rescue([7], {}, 4, 1);
    ghost var s := r.Now();
    var errs := r.CopyFile(0, 4);
    WithoutLoss(r.input, s, r.Now());
    r.InLockstep(s);
  }

  lemma StoredNothing(out: map<int, Byte>, at: int, data: seq<Byte>)
    requires data == []
    ensures Stored(out, at, data) == out
  {
  }

  lemma StoredMore(out: map<int, Byte>, at: int, a: array<Byte>, i: nat, j: nat)
    requires i <= j <= a.Length
    ensures Stored(Stored(out, at, a[..i]), at + i, a[i..j]) == Stored(out, at, a[..j])
  {
    hide Stored;
    StoredTwice(out, at, a[..i], a[i..j]);
    Prefixes(a, i, j);
  }

  lemma {:induction false} StoredTwice(out: map<int, Byte>, at: int, a: seq<Byte>, b: seq<Byte>)
    ensures Stored(Stored(out, at, a), at + |a|, b) == Stored(out, at, a + b)
  {
    hide Stored;
    var l, r := Stored(Stored(out, at, a), at + |a|, b), Stored(out, at, a + b);
    assert forall o :: o in l <==> o in r;
    assert forall o :: o in l ==> l[o] == r[o];
  }
}
