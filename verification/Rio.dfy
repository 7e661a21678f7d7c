/**
 Robust I/O: reads and writes that hide how the kernel cuts a stream into pieces.

 A descriptor is the bytes still to come plus a script of what each `read` does: deliver at
 most so many bytes, be interrupted, or fail. A used-up script delivers as much as fits.
 What a counted read puts into the caller's buffer is the sequence it returns.
 */
module Rio {
  import opened Bytes

  const RIO_BUFSIZE := 8192
  const NEWLINE: byte := 10

  datatype ReadStep = UpTo(n: nat) | Interrupted | Failed

  /** `Got([])` is end of file. */
  datatype ReadResult = Got(bytes: seq<byte>) | Eintr | Error

  class Descriptor {
    var unread: seq<byte>
    var script: seq<ReadStep>
    var failed: bool                   // some read has returned an error

    constructor (stream: seq<byte>, script: seq<ReadStep>)
      ensures unread == stream && this.script == script && !failed
    {
      unread, this.script, failed := stream, script, false;
    }

    method Read(max: nat) returns (r: ReadResult)
      requires max > 0
      modifies this
      ensures script == if old(script) == [] then [] else old(script)[1..]
      ensures r.Got? ==> old(unread) == r.bytes + unread && |r.bytes| <= max
      ensures r.Got? && r.bytes == [] ==> old(unread) == []
      ensures !r.Got? ==> unread == old(unread) && old(script) != []
      ensures r.Error? ==> old(script)[0].Failed? && failed
      ensures !r.Error? ==> failed == old(failed)
    {
      var k := Min(max, |unread|);
      if script != [] {
        var step := script[0];
        script := script[1..];
        match step
        case Interrupted => return Eintr;
        case Failed =>
          failed := true;
          return Error;
        case UpTo(n) => k := Min(k, if n == 0 then 1 else n);
      }
      r := Got(unread[..k]);
      unread := unread[k..];
    }
  }

  /** `rio_readn`: unbuffered; everything asked for, or all there is. */
  method ReadN(fd: Descriptor, n: nat) returns (rc: int, usr: seq<byte>)
    modifies fd
    ensures old(fd.unread) == usr + fd.unread && |usr| <= n
    ensures -1 <= rc && (rc >= 0 ==> rc == |usr| == Min(n, |old(fd.unread)|))
    ensures fd.failed == (old(fd.failed) || rc == -1)
  {
    usr := [];
    while |usr| < n
      invariant old(fd.unread) == usr + fd.unread && |usr| <= n
      invariant fd.failed == old(fd.failed)
      decreases n - |usr|, |fd.script|
    {
      var r := fd.Read(n - |usr|);
      match r
      case Eintr =>
      case Error =>
        return -1, usr;
      case Got(bytes) =>
        if bytes == [] {
          break;
        }
        usr := usr + bytes;
    }
    rc := |usr|;
  }

  // ----- writing

  /** What a `write` does with the bytes offered: take at least one and at most `n`, or none. The
      caller tries again if it then finds EINTR, be it after an error or after a zero return;
      with any other `errno` it gives up. */
  datatype WriteStep = Take(n: nat) | WriteInterrupted | WriteFailed

  class Sink {
    var written: seq<byte>
    var script: seq<WriteStep>
    var failed: bool                   // some write has returned an error

    constructor (script: seq<WriteStep>)
      ensures written == [] && this.script == script && !failed
    {
      written, this.script, failed := [], script, false;
    }

    /** Returns how much was taken; 0 stands for none with EINTR, -1 for none with another error. */
    method Write(data: seq<byte>) returns (n: int)
      requires data != []
      modifies this
      ensures -1 <= n <= |data|
      ensures written == old(written) + if n > 0 then data[..n] else []
      ensures failed == (old(failed) || n == -1)
      ensures n <= 0 ==> old(script) != [] && script == old(script)[1..]
    {
      n := |data|;
      if script != [] {
        var step := script[0];
        script := script[1..];
        match step
        case WriteInterrupted => return 0;
        case WriteFailed =>
          failed := true;
          return -1;
        case Take(k) => n := Min(n, if k == 0 then 1 else k);
      }
      written := written + data[..n];
    }
  }

  /** `rio_writen`: all of the bytes, in order, or a proper prefix and an error. */
  method WriteN(fd: Sink, usr: seq<byte>) returns (rc: int, ghost sent: nat)
    modifies fd
    ensures sent <= |usr| && fd.written == old(fd.written) + usr[..sent]
    ensures rc == (if sent == |usr| then |usr| else -1)
    ensures fd.failed == (old(fd.failed) || rc == -1)
  {
    var left := usr;
    sent := 0;
    while left != []
      invariant sent <= |usr| && left == usr[sent..]
      invariant fd.written == old(fd.written) + usr[..sent]
      invariant fd.failed == old(fd.failed)
      decreases |left|, |fd.script|
    {
      var n := fd.Write(left);
      if n < 0 {
        return -1, sent;
      }
      assert usr[..sent] + left[..n] == usr[..sent + n];
      left, sent := left[n..], sent + n;
    }
    rc := |usr|;
  }

  // ----- the buffered reader

  /** A buffer that held `was` now holds `line` in front and is unchanged behind it. */
  ghost predicate Overwritten(now: seq<byte>, was: seq<byte>, line: seq<byte>) {
    |line| <= |was| && now == line + was[|line|..]
  }

  /** Stores one byte of the caller's buffer behind those stored already. */
  method Store(usr: array<byte>, line: seq<byte>, ghost was: seq<byte>, c: seq<byte>)
    requires |c| == 1 && |line| < |was| == usr.Length && Overwritten(usr[..], was, line)
    modifies usr
    ensures Overwritten(usr[..], was, line + c)
  {
    usr[|line|] := c[0];
  }

  class Reader {
    const fd: Descriptor
    const buf: array<byte>
    var cnt: int
    var ptr: nat
    ghost var remaining: seq<byte>     // what the reader has still to deliver

    ghost predicate Valid()
      reads this, buf, fd
    {
      && buf.Length == RIO_BUFSIZE
      && (cnt > 0 ==> ptr + cnt <= RIO_BUFSIZE)
      && remaining == Buffered() + fd.unread
    }

    ghost function Buffered(): seq<byte>
      requires buf.Length == RIO_BUFSIZE && (cnt > 0 ==> ptr + cnt <= RIO_BUFSIZE)
      reads this, buf
    {
      if cnt > 0 then buf[ptr..ptr + cnt] else []
    }

    constructor (fd: Descriptor)
      ensures this.fd == fd && fresh(buf) && Valid() && remaining == fd.unread
    {
      this.fd := fd;
      buf := new byte[RIO_BUFSIZE];
      cnt, ptr, remaining := 0, 0, fd.unread;
    }

    /** The buffer after a `read` that delivered these bytes. */
    method Fill(bytes: seq<byte>)
      requires |bytes| <= RIO_BUFSIZE == buf.Length
      modifies this`cnt, this`ptr, buf
      ensures cnt == |bytes| && (cnt > 0 ==> ptr == 0)
      ensures Buffered() == bytes
    {
      cnt := |bytes|;
      if cnt > 0 {
        ptr := 0;
        forall i | 0 <= i < |bytes| {
          buf[i] := bytes[i];
        }
      }
    }

    /** The refill loop of `rio_read`. */
    method Refill() returns (rc: int)
      requires Valid()
      modifies this`cnt, this`ptr, buf, fd
      ensures Valid()
      ensures -1 <= rc <= 1
      ensures rc == 1 ==> cnt > 0
      ensures rc == 0 ==> remaining == []
      ensures fd.failed == (old(fd.failed) || rc == -1)
    {
      while cnt <= 0
        invariant Valid()
        invariant fd.failed == old(fd.failed)
        decreases |fd.script|, if cnt > 0 then 0 else 1
      {
        var r := fd.Read(RIO_BUFSIZE);
        match r
        case Eintr =>
          cnt := -1;
        case Error =>
          cnt := -1;
          return -1;
        case Got(bytes) =>
          Fill(bytes);
          if cnt == 0 {
            return 0;
          }
      }
      rc := 1;
    }

    /** The copy at the end of `rio_read`. */
    method Take(n: nat) returns (usr: seq<byte>)
      requires Valid() && cnt > 0
      modifies this
      ensures Valid() && old(remaining) == usr + remaining
      ensures |usr| <= n && (n > 0 ==> |usr| > 0)
    {
      ghost var held := Buffered();
      var k := if cnt < n then cnt else n;
      usr := buf[ptr..ptr + k];
      ptr, cnt := ptr + k, cnt - k;
      assert held == usr + Buffered();
      Regroup(usr, Buffered(), fd.unread);
      remaining := Buffered() + fd.unread;
    }

    /** `rio_read`: refill if empty, then hand over at most `n` bytes. */
    method Read(n: nat) returns (rc: int, usr: seq<byte>)
      requires Valid()
      modifies this, buf, fd
      ensures Valid() && old(remaining) == usr + remaining
      ensures -1 <= rc <= n && (rc >= 0 ==> rc == |usr|)
      ensures rc == -1 ==> usr == []
      ensures rc == 0 && n > 0 ==> old(remaining) == []
      ensures fd.failed == (old(fd.failed) || rc == -1)
    {
      usr := [];
      rc := Refill();
      if rc == 1 {
        usr := Take(n);
        rc := |usr|;
      }
    }

    /** One turn of the loop of `rio_readlineb`. */
    method FillByte(usr: array<byte>, maxlen: nat, line: seq<byte>, ghost all: seq<byte>, ghost was: seq<byte>)
      returns (rc: int, c: seq<byte>)
      requires Valid() && usr != buf && |line| < maxlen - 1 < usr.Length == |was|
      requires MidLine(all, maxlen - 1, line, remaining) && Overwritten(usr[..], was, line)
      modifies this, buf, fd, usr
      ensures Valid() && all == (line + c) + remaining
      ensures -1 <= rc <= 1 && |c| == if rc == 1 then 1 else 0
      ensures fd.failed == (old(fd.failed) || rc == -1)
      ensures rc >= 0 && (rc == 0 || c[0] == NEWLINE) ==> LineLen(all, maxlen - 1) == |line + c|
      ensures rc == 1 && c[0] != NEWLINE ==> MidLine(all, maxlen - 1, line + c, remaining)
      ensures Overwritten(usr[..], was, line + c)
    {
      rc, c := Read(1);
      if rc == 1 {
        NextByte(all, maxlen - 1, line, c, remaining);
        Store(usr, line, was, c);
      } else {
        assert [] + remaining == remaining && line + [] == line;
      }
    }

    /** The loop of `rio_readlineb`: the bytes of the line, one by one. */
    method FillLine(usr: array<byte>, maxlen: nat) returns (rc: int, line: seq<byte>)
      requires Valid() && 1 <= maxlen <= usr.Length && usr != buf
      modifies this, buf, fd, usr
      ensures Valid() && old(remaining) == line + remaining
      ensures |line| <= LineLen(old(remaining), maxlen - 1)
      ensures -1 <= rc <= 1 && (rc >= 0 ==> |line| == LineLen(old(remaining), maxlen - 1))
      ensures if maxlen == 1 then rc == 1 else rc == 1 ==> line != []
      ensures fd.failed == (old(fd.failed) || rc == -1)
      ensures Overwritten(usr[..], old(usr[..]), line)
    {
      ghost var all, was := remaining, usr[..];
      rc, line := 1, [];
      while |line| < maxlen - 1
        invariant Valid() && MidLine(all, maxlen - 1, line, remaining)
        invariant fd.failed == old(fd.failed) && rc == 1
        invariant Overwritten(usr[..], was, line)
        decreases maxlen - |line|
      {
        var c;
        rc, c := FillByte(usr, maxlen, line, all, was);
        line := line + c;
        if rc != 1 || c == [NEWLINE] {
          return;
        }
      }
    }

    /** `rio_readlineb`: the line at the front, cut at the limit, goes into the caller's buffer and
        is terminated there; the rest of the buffer is left alone. At the end of the stream the
        buffer stays as it was. A failure in mid-line loses the bytes before it. */
    method ReadLine(usr: array<byte>, maxlen: nat) returns (rc: int, line: seq<byte>)
      requires Valid() && 1 <= maxlen <= usr.Length && usr != buf
      modifies this, buf, fd, usr
      ensures Valid() && old(remaining) == line + remaining
      ensures |line| <= LineLen(old(remaining), maxlen - 1)
      ensures -1 <= rc && (rc >= 0 ==> rc == |line| == LineLen(old(remaining), maxlen - 1))
      ensures fd.failed == (old(fd.failed) || rc == -1)
      ensures var stored := if rc > 0 || (rc == 0 && maxlen == 1) then line + [0] else line;
        Overwritten(usr[..], old(usr[..]), stored)
    {
      ghost var was := usr[..];
      rc, line := FillLine(usr, maxlen);
      if rc == 1 || (rc == 0 && line != []) {
        Store(usr, line, was, [0]);
        rc := |line|;
      }
    }

    /** `rio_readnb`. */
    method ReadNB(n: nat) returns (rc: int, usr: seq<byte>)
      requires Valid()
      modifies this, buf, fd
      ensures Valid() && old(remaining) == usr + remaining && |usr| <= n
      ensures -1 <= rc && (rc >= 0 ==> rc == |usr| == Min(n, |old(remaining)|))
      ensures fd.failed == (old(fd.failed) || rc == -1)
    {
      ghost var all := remaining;
      usr := [];
      while |usr| < n
        invariant Valid() && |usr| <= n && all == usr + remaining
        invariant fd.failed == old(fd.failed)
        decreases n - |usr|
      {
        var part;
        rc, part := Read(n - |usr|);
        if rc < 0 {
          return -1, usr;
        }
        if rc == 0 {
          break;
        }
        Regroup(usr, part, remaining);
        usr := usr + part;
      }
      rc := |usr|;
    }

    method Perform(call: Call) returns (usr: seq<byte>)
      requires Valid()
      modifies this, buf, fd
      ensures Valid() && old(remaining) == usr + remaining
      ensures old(fd.failed) ==> fd.failed
      ensures !fd.failed ==> |usr| == Taken(old(remaining), call)
    {
      var rc;
      match call {
        case Line(maxlen) =>
          var buffer := new byte[maxlen];
          rc, usr := ReadLine(buffer, maxlen);
        case Count(n) =>
          rc, usr := ReadNB(n);
      }
    }

    /** Unless the kernel reports an error, any mix of calls gives the results that the stream
        alone determines, however it was cut up and wherever a read was interrupted. */
    method ReadAll(calls: seq<Call>) returns (results: seq<seq<byte>>)
      requires Valid()
      modifies this, buf, fd
      ensures Valid() && (!fd.failed ==> results == Results(old(remaining), calls))
    {
      results := [];
      for i := 0 to |calls|
        invariant Valid()
        invariant !fd.failed ==>
          Results(old(remaining), calls) == results + Results(remaining, calls[i..])
      {
        var usr := Perform(calls[i]);
        ghost var todo := Results(remaining, calls[i + 1..]);
        if !fd.failed { ResultsStep(usr, remaining, calls, i); }
        assert results + ([usr] + todo) == (results + [usr]) + todo;
        results := results + [usr];
      }
    }
  }

  datatype Call = Line(maxlen: pos) | Count(n: nat)

  type pos = n: int | n >= 1 witness 1

  function Taken(s: seq<byte>, c: Call): (k: nat)
    ensures k <= |s|
  {
    match c
    case Line(maxlen) => LineLen(s, maxlen - 1)
    case Count(n) => Min(n, |s|)
  }

  /** What a sequence of calls delivers from stream `s`. */
  function Results(s: seq<byte>, calls: seq<Call>): seq<seq<byte>> {
    if calls == [] then []
    else [s[..Taken(s, calls[0])]] + Results(s[Taken(s, calls[0])..], calls[1..])
  }

  function Flatten(parts: seq<seq<byte>>): seq<byte> {
    if parts == [] then [] else parts[0] + Flatten(parts[1..])
  }

  /** Results never skip a byte: their concatenation is a prefix of the stream. */
  lemma {:induction false} ResultsAreThePrefix(s: seq<byte>, calls: seq<Call>)
    ensures Flatten(Results(s, calls)) <= s
    decreases |calls|
  {
    if calls != [] {
      var k := Taken(s, calls[0]);
      ResultsAreThePrefix(s[k..], calls[1..]);
      var rest := Results(s[k..], calls[1..]);
      assert ([s[..k]] + rest)[1..] == rest;
      assert s == s[..k] + s[k..];
    }
  }

  /** Length of the line at the front of `s`, cut at `m` bytes. */
  function LineLen(s: seq<byte>, m: nat): (k: nat)
    ensures k <= m && k <= |s|
  {
    if m == 0 || s == [] then 0
    else if s[0] == NEWLINE then 1
    else 1 + LineLen(s[1..], m - 1)
  }

  /** A line ends with the first newline, at the limit, or at the end of the stream. */
  lemma {:induction false} LineLenMeaning(s: seq<byte>, m: nat)
    ensures var k := LineLen(s, m);
      && (forall i | 0 <= i < k - 1 :: s[i] != NEWLINE)
      && (k == m || k == |s| || (k > 0 && s[k - 1] == NEWLINE))
  {
    if m != 0 && s != [] && s[0] != NEWLINE {
      LineLenMeaning(s[1..], m - 1);
      var k := LineLen(s[1..], m - 1);
      assert forall i | 0 <= i < k :: s[1..][i] == s[i + 1];
      forall i | 0 <= i < k ensures s[i] != NEWLINE {
        if i > 0 { assert s[1..][i - 1] != NEWLINE; }
      }
    }
  }

  /** `all` is `usr`, a line without its newline so far, and then `rest`. */
  ghost predicate MidLine(all: seq<byte>, m: nat, usr: seq<byte>, rest: seq<byte>) {
    && all == usr + rest && |usr| <= m
    && LineLen(all, m) == |usr| + LineLen(rest, m - |usr|)
  }

  lemma NextByte(all: seq<byte>, m: nat, usr: seq<byte>, c: seq<byte>, rest: seq<byte>)
    requires |c| == 1 && |usr| < m && MidLine(all, m, usr, c + rest)
    ensures all == (usr + c) + rest
    ensures if c[0] == NEWLINE then LineLen(all, m) == |usr| + 1 else MidLine(all, m, usr + c, rest)
  {
    Regroup(usr, c, rest);
    assert (c + rest)[1..] == rest;
  }

  lemma ResultsStep(usr: seq<byte>, rest: seq<byte>, calls: seq<Call>, i: nat)
    requires i < |calls| && |usr| == Taken(usr + rest, calls[i])
    ensures Results(usr + rest, calls[i..]) == [usr] + Results(rest, calls[i + 1..])
  {
    assert calls[i..][1..] == calls[i + 1..];
    assert (usr + rest)[..|usr|] == usr && (usr + rest)[|usr|..] == rest;
  }
}
