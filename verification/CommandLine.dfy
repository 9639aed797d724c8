/**
 * The command line splitter of cmd.c. Bytes arrive in chunks of any size; a
 * carriage return or line feed hands the line collected so far to cmd_parse.
 */
module CommandLine {
  import opened Bytes

  const BUFF_LEN: nat := 256

  predicate Newline(b: byte) { b == 13 || b == 10 }

  // --- feeding as a function ------------------------------------------------------------

  /** The commands of one call, the start of a line left over, and how many bytes were looked at. */
  datatype Outcome = Outcome(commands: seq<seq<byte>>, rest: seq<byte>, seen: nat, ok: bool)

  function Feed(pending: seq<byte>, s: seq<byte>): (o: Outcome)
    ensures o.seen <= |s| && (o.ok ==> o.seen == |s|)
    ensures |pending| <= BUFF_LEN ==> |o.rest| <= BUFF_LEN
    decreases |s|
  {
    if s == [] then Outcome([], pending, 0, true)
    else if Newline(s[0]) then
      var o := Feed([], s[1..]);
      o.(commands := [pending] + o.commands, seen := o.seen + 1)
    else if |pending| < BUFF_LEN then
      var o := Feed(pending + [s[0]], s[1..]);
      o.(seen := o.seen + 1)
    else Outcome([], [], 1, false)
  }

  /** The calls for all chunks of a stream, whatever they return. */
  function FeedAll(pending: seq<byte>, chunks: seq<seq<byte>>): (o: Outcome)
    decreases |chunks|
  {
    if chunks == [] then Outcome([], pending, 0, true)
    else
      var first := Feed(pending, chunks[0]);
      var o := FeedAll(first.rest, chunks[1..]);
      Outcome(first.commands + o.commands, o.rest, first.seen + o.seen, first.ok && o.ok)
  }

  // --- lines --------------------------------------------------------------------------------

  predicate NoNewline(s: seq<byte>) {
    forall i :: 0 <= i < |s| ==> !Newline(s[i])
  }

  /** A stream made of complete lines, each with its terminator, and the start of another. */
  function Stream(lines: seq<seq<byte>>, ends: seq<byte>, tail: seq<byte>): seq<byte>
    requires |lines| == |ends|
  {
    if lines == [] then tail else lines[0] + [ends[0]] + Stream(lines[1..], ends[1..], tail)
  }

  predicate Lines(lines: seq<seq<byte>>, ends: seq<byte>, tail: seq<byte>) {
    && |lines| == |ends| && NoNewline(tail) && |tail| <= BUFF_LEN
    && forall i :: 0 <= i < |lines| ==> NoNewline(lines[i]) && |lines[i]| <= BUFF_LEN && Newline(ends[i])
  }

  /** Bytes of one line are only collected. */
  lemma {:induction false} FeedLine(pending: seq<byte>, line: seq<byte>, s: seq<byte>)
    requires NoNewline(line) && |pending + line| <= BUFF_LEN
    ensures var o := Feed(pending + line, s);
            Feed(pending, line + s) == o.(seen := o.seen + |line|)
    decreases |line|
  {
    if line == [] {
      assert line + s == s && pending + line == pending;
    } else {
      assert (line + s)[1..] == line[1..] + s;
      assert pending + [line[0]] + line[1..] == pending + line;
      FeedLine(pending + [line[0]], line[1..], s);
    }
  }

  /** Lines that fit come out as they went in. */
  lemma {:induction false} LinesComeOut(lines: seq<seq<byte>>, ends: seq<byte>, tail: seq<byte>)
    requires Lines(lines, ends, tail)
    ensures var s := Stream(lines, ends, tail); Feed([], s) == Outcome(lines, tail, |s|, true)
    decreases |lines|
  {
    if lines == [] {
      FeedLine([], tail, []);
      assert tail + [] == tail && [] + tail == tail;
    } else {
      var rest := Stream(lines[1..], ends[1..], tail);
      FeedLine([], lines[0], [ends[0]] + rest);
      assert [] + lines[0] == lines[0];
      assert lines[0] + ([ends[0]] + rest) == Stream(lines, ends, tail);
      assert ([ends[0]] + rest)[1..] == rest;
      LinesComeOut(lines[1..], ends[1..], tail);
    }
  }

  /** Every stream without a line that is too long is made of lines. */
  lemma StreamIsLines(pending: seq<byte>, s: seq<byte>) returns (ends: seq<byte>)
    requires 13 !in pending && 10 !in pending && |pending| <= 256 && Feed(pending, s).ok
    ensures var o := Feed(pending, s);
            && |ends| == |o.commands| && Stream(o.commands, ends, o.rest) == pending + s
            && |o.rest| <= 256 && 13 !in o.rest && 10 !in o.rest
            && forall i :: 0 <= i < |ends| ==>
                 && 13 !in o.commands[i] && 10 !in o.commands[i] && |o.commands[i]| <= 256
                 && (ends[i] == 13 || ends[i] == 10)
  {
    NoNewlineIs(pending);
    ends := MadeOfLines(pending, s);
    LinesAre(Feed(pending, s).commands, ends, Feed(pending, s).rest);
  }

  lemma {:induction false} MadeOfLines(pending: seq<byte>, s: seq<byte>) returns (ends: seq<byte>)
    requires NoNewline(pending) && |pending| <= BUFF_LEN && Feed(pending, s).ok
    ensures var o := Feed(pending, s);
            Lines(o.commands, ends, o.rest) && Stream(o.commands, ends, o.rest) == pending + s
    decreases |s|
  {
    if s == [] {
      ends := [];
      assert pending + s == pending;
    } else if Newline(s[0]) {
      var o := Feed([], s[1..]);
      var later := MadeOfLines([], s[1..]);
      ends := [s[0]] + later;
      assert ends[1..] == later;
      assert Feed(pending, s).commands[1..] == o.commands;
      assert pending + s == pending + [s[0]] + ([] + s[1..]);
    } else {
      ends := MadeOfLines(pending + [s[0]], s[1..]);
      assert pending + [s[0]] + s[1..] == pending + s;
    }
  }

  // --- how the stream is cut --------------------------------------------------------------

  lemma {:induction false} FeedConcat(pending: seq<byte>, s: seq<byte>, t: seq<byte>)
    ensures var a := Feed(pending, s);
            var b := Feed(a.rest, t);
            Feed(pending, s + t) == if a.ok then Outcome(a.commands + b.commands, b.rest, a.seen + b.seen, b.ok) else a
    decreases |s|
  {
    if s == [] {
      assert s + t == t;
    } else {
      assert (s + t)[1..] == s[1..] + t;
      if Newline(s[0]) {
        FeedConcat([], s[1..], t);
      } else if |pending| < BUFF_LEN {
        FeedConcat(pending + [s[0]], s[1..], t);
      }
    }
  }

  /** As long as no line is too long, the cut makes no difference, and whether one is does not depend on it either. */
  lemma {:induction false} CutIsIrrelevant(pending: seq<byte>, chunks: seq<seq<byte>>)
    ensures FeedAll(pending, chunks).ok <==> Feed(pending, Flatten(chunks)).ok
    ensures FeedAll(pending, chunks).ok ==> FeedAll(pending, chunks) == Feed(pending, Flatten(chunks))
    decreases |chunks|
  {
    if chunks != [] {
      FeedConcat(pending, chunks[0], Flatten(chunks[1..]));
      CutIsIrrelevant(Feed(pending, chunks[0]).rest, chunks[1..]);
    }
  }

  /** What counts as lines, byte by byte. */
  lemma LinesAre(lines: seq<seq<byte>>, ends: seq<byte>, tail: seq<byte>)
    ensures Lines(lines, ends, tail) <==>
            && |lines| == |ends| && |tail| <= 256 && 13 !in tail && 10 !in tail
            && forall i :: 0 <= i < |lines| ==>
                 13 !in lines[i] && 10 !in lines[i] && |lines[i]| <= 256 && (ends[i] == 13 || ends[i] == 10)
  {
    NoNewlineIs(tail);
    forall i | 0 <= i < |lines|
      ensures NoNewline(lines[i]) <==> 13 !in lines[i] && 10 !in lines[i]
    {
      NoNewlineIs(lines[i]);
    }
  }

  lemma NoNewlineIs(s: seq<byte>)
    ensures NoNewline(s) <==> 13 !in s && 10 !in s
  {
  }

  /** Lines that fit come out as they went in, however the stream is cut; CR and LF end a line. */
  lemma LinesComeOutOfChunks(lines: seq<seq<byte>>, ends: seq<byte>, tail: seq<byte>, chunks: seq<seq<byte>>)
    requires |lines| == |ends| && |tail| <= 256 && 13 !in tail && 10 !in tail
    requires forall i :: 0 <= i < |lines| ==>
               13 !in lines[i] && 10 !in lines[i] && |lines[i]| <= 256 && (ends[i] == 13 || ends[i] == 10)
    requires Flatten(chunks) == Stream(lines, ends, tail)
    ensures FeedAll([], chunks).commands == lines && FeedAll([], chunks).rest == tail && FeedAll([], chunks).ok
  {
    LinesAre(lines, ends, tail);
    LinesComeOut(lines, ends, tail);
    CutIsIrrelevant([], chunks);
  }

  /** A line of more than 256 bytes ends the call: the lines before it were dispatched, nothing is kept. */
  lemma OverflowEndsCall(lines: seq<seq<byte>>, ends: seq<byte>, line: seq<byte>, b: byte, rest: seq<byte>)
    requires |lines| == |ends| && |line| == 256 && 13 !in line + [b] && 10 !in line + [b]
    requires forall i :: 0 <= i < |lines| ==>
               13 !in lines[i] && 10 !in lines[i] && |lines[i]| <= 256 && (ends[i] == 13 || ends[i] == 10)
    ensures var o := Feed([], Stream(lines, ends, line + [b] + rest));
            o.commands == lines && o.rest == [] && !o.ok
  {
    LinesAre(lines, ends, line);
    NoNewlineIs(line + [b]);
    assert (line + [b])[256] == b;
    Overflow(lines, ends, line, b, rest);
  }

  lemma {:induction false} Overflow(lines: seq<seq<byte>>, ends: seq<byte>, line: seq<byte>, b: byte, rest: seq<byte>)
    requires Lines(lines, ends, line) && |line| == BUFF_LEN && !Newline(b)
    ensures var o := Feed([], Stream(lines, ends, line + [b] + rest));
            o.commands == lines && o.rest == [] && !o.ok
    decreases |lines|
  {
    if lines == [] {
      FeedLine([], line, [b] + rest);
      assert [] + line == line && line + ([b] + rest) == line + [b] + rest;
    } else {
      var s := Stream(lines[1..], ends[1..], line + [b] + rest);
      FeedLine([], lines[0], [ends[0]] + s);
      assert [] + lines[0] == lines[0];
      assert lines[0] + ([ends[0]] + s) == Stream(lines, ends, line + [b] + rest);
      assert ([ends[0]] + s)[1..] == s;
      Overflow(lines[1..], ends[1..], line, b, rest);
    }
  }

  /** Without a newline nothing is dispatched, wherever lines overflow. */
  lemma {:induction false} QuietChunks(pending: seq<byte>, chunks: seq<seq<byte>>)
    requires NoNewline(Flatten(chunks))
    ensures FeedAll(pending, chunks).commands == []
    decreases |chunks|
  {
    if chunks != [] {
      var s := Flatten(chunks);
      assert s == chunks[0] + Flatten(chunks[1..]);
      assert NoNewline(chunks[0]) by {
        forall i | 0 <= i < |chunks[0]| ensures !Newline(chunks[0][i]) { assert s[i] == chunks[0][i]; }
      }
      assert NoNewline(Flatten(chunks[1..])) by {
        forall i | 0 <= i < |Flatten(chunks[1..])| ensures !Newline(Flatten(chunks[1..])[i]) {
          assert s[|chunks[0]| + i] == Flatten(chunks[1..])[i];
        }
      }
      QuietFeed(pending, chunks[0]);
      QuietChunks(Feed(pending, chunks[0]).rest, chunks[1..]);
    }
  }

  lemma {:induction false} QuietFeed(pending: seq<byte>, s: seq<byte>)
    requires NoNewline(s)
    ensures Feed(pending, s).commands == []
    decreases |s|
  {
    if s != [] && |pending| < BUFF_LEN {
      QuietFeed(pending + [s[0]], s[1..]);
    }
  }

  /** Cut into single bytes, the stream gives one command for each newline. */
  function Singles(s: seq<byte>): seq<seq<byte>> {
    if s == [] then [] else [[s[0]]] + Singles(s[1..])
  }

  function Newlines(s: seq<byte>): nat {
    if s == [] then 0 else (if Newline(s[0]) then 1 else 0) + Newlines(s[1..])
  }

  lemma {:induction false} SinglesDispatchAll(pending: seq<byte>, s: seq<byte>)
    ensures Flatten(Singles(s)) == s
    ensures |FeedAll(pending, Singles(s)).commands| == Newlines(s)
    decreases |s|
  {
    if s != [] {
      var first := Feed(pending, [s[0]]);
      assert [s[0]][1..] == [] && Singles(s)[0] == [s[0]] && [s[0]] + s[1..] == s;
      assert Feed([], []).commands == [] && Feed(pending + [s[0]], []).commands == [];
      assert |first.commands| == if Newline(s[0]) then 1 else 0;
      assert Singles(s)[1..] == Singles(s[1..]);
      SinglesDispatchAll(first.rest, s[1..]);
    }
  }

  /** One call gives one command for each newline it gets to see. */
  lemma {:induction false} FeedDispatchesSeen(pending: seq<byte>, s: seq<byte>)
    ensures |Feed(pending, s).commands| == Newlines(s[..Feed(pending, s).seen])
    ensures Newlines(s) == Newlines(s[..Feed(pending, s).seen]) + Newlines(s[Feed(pending, s).seen..])
    decreases |s|
  {
    if s != [] {
      var o := Feed(pending, s);
      assert s[..o.seen][1..] == s[1..][..o.seen - 1];
      assert s[o.seen..] == s[1..][o.seen - 1..];
      if Newline(s[0]) {
        FeedDispatchesSeen([], s[1..]);
      } else if |pending| < BUFF_LEN {
        FeedDispatchesSeen(pending + [s[0]], s[1..]);
      } else {
        assert s[1..][..0] == [];
      }
    }
  }

  lemma {:induction false} NoNewlines(s: seq<byte>)
    ensures Newlines(s) == 0 <==> NoNewline(s)
  {
    if s != [] {
      NoNewlines(s[1..]);
      assert forall i :: 0 <= i < |s| ==> s[i] == if i == 0 then s[0] else s[1..][i - 1];
      assert forall i :: 0 <= i < |s[1..]| ==> s[1..][i] == s[i + 1];
    }
  }

  lemma {:induction false} CutBehindOverflow(pending: seq<byte>, chunks: seq<seq<byte>>)
    requires NoNewline(Flatten(chunks)[Feed(pending, Flatten(chunks)).seen..])
    ensures FeedAll(pending, chunks).commands == Feed(pending, Flatten(chunks)).commands
    decreases |chunks|
  {
    if chunks != [] {
      var c, t := chunks[0], Flatten(chunks[1..]);
      var a := Feed(pending, c);
      FeedConcat(pending, c, t);
      if a.ok {
        assert (c + t)[a.seen + Feed(a.rest, t).seen..] == t[Feed(a.rest, t).seen..];
        CutBehindOverflow(a.rest, chunks[1..]);
      } else {
        forall i | 0 <= i < |t| ensures !Newline(t[i]) {
          assert (c + t)[a.seen..][|c| - a.seen + i] == t[i];
        }
        QuietChunks(a.rest, chunks[1..]);
      }
    }
  }

  /**
   * The commands dispatched depend only on the stream, and not on how it is
   * cut into calls, exactly if no newline follows the first overflow.
   */
  lemma CutMatters(pending: seq<byte>, s: seq<byte>)
    ensures (forall chunks: seq<seq<byte>> :: Flatten(chunks) == s ==>
                                                FeedAll(pending, chunks).commands == Feed(pending, s).commands)
            <==> 13 !in s[Feed(pending, s).seen..] && 10 !in s[Feed(pending, s).seen..]
  {
    var o := Feed(pending, s);
    NoNewlineIs(s[o.seen..]);
    if NoNewline(s[o.seen..]) {
      forall chunks: seq<seq<byte>> | Flatten(chunks) == s
        ensures FeedAll(pending, chunks).commands == o.commands
      {
        CutBehindOverflow(pending, chunks);
      }
    } else {
      SinglesDispatchAll(pending, s);
      FeedDispatchesSeen(pending, s);
      NoNewlines(s[o.seen..]);
      assert |FeedAll(pending, Singles(s)).commands| > |o.commands|;
    }
  }

  // --- the buffer -----------------------------------------------------------------------------

  class Splitter {
    const p: array<byte>
    var len: nat
    var parsed: seq<seq<byte>>   // the lines given to cmd_parse

    ghost predicate Valid()
      reads this
    {
      p.Length == BUFF_LEN && len <= BUFF_LEN
    }

    ghost function Pending(): seq<byte>
      reads this, p
      requires Valid()
    {
      p[..len]
    }

    constructor ()
      ensures Valid() && fresh(p) && Pending() == [] && parsed == []
    {
      p := new byte[BUFF_LEN](_ => 0);
      len, parsed := 0, [];
    }

    /** `cmd_parse`: it sees the line, and may do anything to the buffer. */
    method CmdParse()
      requires Valid()
      modifies this`parsed, p
      ensures parsed == old(parsed) + [old(Pending())]
    {
      parsed := parsed + [p[..len]];
      for i := 0 to p.Length
        invariant parsed == old(parsed) + [old(Pending())]
      {
        p[i] := *;
      }
    }

    /** `cmd_feed` */
    method CmdFeed(buff: seq<byte>) returns (r: int)
      requires Valid()
      modifies this`len, this`parsed, p
      ensures Valid()
      ensures var o := Feed(old(Pending()), buff);
              Pending() == o.rest && parsed == old(parsed) + o.commands && r == if o.ok then 0 else -1
    {
      var i := 0;
      while i < |buff|
        invariant i <= |buff| && Valid()
        invariant var o, rest := Feed(old(Pending()), buff), Feed(Pending(), buff[i..]);
                  && o.rest == rest.rest && o.ok == rest.ok
                  && old(parsed) + o.commands == parsed + rest.commands
      {
        assert buff[i..][0] == buff[i] && buff[i..][1..] == buff[i + 1..];
        ghost var pending, rest := Pending(), Feed(Pending(), buff[i..]);
        ghost var before := parsed;
        if Newline(buff[i]) {
          CmdParse();
          len := 0;
          assert Pending() == [];
          assert before + rest.commands == parsed + Feed([], buff[i + 1..]).commands;
        } else {
          if len < BUFF_LEN {
            p[len] := buff[i];
            len := len + 1;
            assert Pending() == pending + [buff[i]];
          } else {
            len := 0;
            assert Pending() == [];
            return -1;
          }
        }
        i := i + 1;
      }
      return 0;
    }

    /** The stream arriving in any chunks. */
    method CmdFeedAll(chunks: seq<seq<byte>>) returns (ok: bool)
      requires Valid()
      modifies this`len, this`parsed, p
      ensures Valid()
      ensures var o := FeedAll(old(Pending()), chunks);
              Pending() == o.rest && parsed == old(parsed) + o.commands && ok == o.ok
    {
      ok := true;
      for i := 0 to |chunks|
        invariant Valid()
        invariant var o, rest := FeedAll(old(Pending()), chunks), FeedAll(Pending(), chunks[i..]);
                  && o.rest == rest.rest && o.ok == (ok && rest.ok)
                  && old(parsed) + o.commands == parsed + rest.commands
      {
        assert chunks[i..][0] == chunks[i] && chunks[i..][1..] == chunks[i + 1..];
        ghost var before, rest := parsed, FeedAll(Pending(), chunks[i..]);
        ghost var first := Feed(Pending(), chunks[i]);
        var r := CmdFeed(chunks[i]);
        ok := ok && r == 0;
        assert before + rest.commands == parsed + FeedAll(first.rest, chunks[i + 1..]).commands;
      }
    }
  }

  // --- comparing with a command -----------------------------------------------------------

  const SPACE: byte := 32

  /** The line is the command, or the command with its final space and an argument. */
  predicate IsCommand(line: seq<byte>, cmd: seq<byte>) {
    && cmd != [] && cmd <= line
    && (if cmd[|cmd| - 1] == SPACE then |line| > |cmd| else |line| == |cmd|)
  }

  /** `cmd_cmp`: `str` is all of the memory from the line on, of which the line is the first `len` bytes. */
  method CmdCmp(str: seq<byte>, len: nat, cmd: seq<byte>) returns (r: bool, arg: nat, arglen: int)
    requires len <= |str| < 0x10000 && |cmd| <= |str| && forall i :: 0 <= i < |cmd| ==> cmd[i] != 0
    ensures r <==> IsCommand(str[..len], cmd)
    ensures r <==> && cmd != [] && cmd <= str[..len]
                   && (if cmd[|cmd| - 1] == 32 then len > |cmd| else len == |cmd|)
    ensures r ==> arg == |cmd| && str[..len] == cmd + str[arg..len] && arglen == |str[arg..len]|
  {
    var l := 0;
    while l < |cmd| && str[l] == cmd[l]
      invariant l <= |cmd| && str[..l] == cmd[..l]
    {
      l := l + 1;
    }
    assert l < |cmd| && l < len ==> str[..len][l] != cmd[l];
    r, arg, arglen := false, 0, 0;
    if |cmd| > 0 && l == |cmd| {
      assert cmd == str[..l];
      arg, arglen := l, (len - l) % 0x10000;
      if cmd[l - 1] == SPACE {
        if len > l {
          assert str[..len] == cmd + str[l..len];
          return true, arg, arglen;
        }
      } else if len == l {
        assert str[..len] == cmd + str[l..len];
        return true, arg, arglen;
      }
    }
  }

  /** With a constant in place of the line's length, bytes of an earlier line take part. */
  lemma StaleBytesTakePart(cmd: seq<byte>, line: seq<byte>, stale: seq<byte>)
    requires cmd != [] && cmd[|cmd| - 1] != 32 && |line| < |cmd| && |line| + |stale| >= |cmd|
    ensures IsCommand((line + stale)[..|cmd|], cmd) <==> line <= cmd && stale[..|cmd| - |line|] == cmd[|line|..]
    ensures !IsCommand(line, cmd)
  {
    var s := (line + stale)[..|cmd|];
    assert s == line + stale[..|cmd| - |line|];
    if line <= cmd {
      assert cmd == line + cmd[|line|..];
    }
  }
}
