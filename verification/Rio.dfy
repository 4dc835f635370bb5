/**
 The Rio package of csapp.c: buffered reading over a kernel that may return short counts, be
 interrupted, report the end of file or fail, in any order; and robust writing as its dual.
 */
module Rio {
  import opened Common

  const NEWLINE: Byte := 10
  const RIO_BUFSIZE := 8192

  /** What the kernel does with one call of read; a script of these is chosen by the environment. */
  datatype Answer = Eintr | Fail | Eof | Give(most: nat)

  datatype ReadResult = Interrupted | Failed | Data(bytes: seq<Byte>)

  /** An open file: the bytes still to come, and how the kernel will answer the next reads. */
  class Descriptor {
    var stream: seq<Byte>
    var script: seq<Answer>
    ghost var eofs: nat       // how many reads have reported the end of file
    ghost var failures: nat   // how many reads have failed for another reason than an interruption

    constructor (stream: seq<Byte>, script: seq<Answer>)
      ensures this.stream == stream && this.script == script && eofs == failures == 0
    {
      this.stream, this.script, eofs, failures := stream, script, 0, 0;
    }

    /** read(fd, buf, n) for n > 0. Once the script is used up, reads are complete. */
    method Read(n: nat) returns (r: ReadResult)
      requires n > 0
      modifies this
      ensures r.Data? ==> |r.bytes| <= n && r.bytes + stream == old(stream)
      ensures !r.Data? ==> stream == old(stream) && |script| < |old(script)|
      ensures |script| <= |old(script)|
      ensures eofs == old(eofs) + if r == Data([]) then 1 else 0
      ensures failures == old(failures) + if r.Failed? then 1 else 0
    {
      var answer := if script == [] then Give(n) else script[0];
      script := if script == [] then [] else script[1..];
      match answer {
        case Eintr => r := Interrupted;
        case Fail => r := Failed;
        case Eof => r := Data([]);
        case Give(most) =>
          var k := Least(Least(if most == 0 then 1 else most, n), |stream|);
          r := Data(stream[..k]);
          stream := stream[k..];
      }
      eofs := eofs + if r == Data([]) then 1 else 0;
      failures := failures + if r.Failed? then 1 else 0;
    }
  }

  lemma Assoc(a: seq<Byte>, b: seq<Byte>, c: seq<Byte>)
    ensures a + (b + c) == (a + b) + c
  {
  }

  lemma Behind(b: seq<Byte>, ptr: nat, cnt: nat, count: nat, rest: seq<Byte>)
    requires count <= cnt && ptr + cnt <= |b|
    ensures b[ptr..ptr + count] + (b[ptr + count..ptr + cnt] + rest) == b[ptr..ptr + cnt] + rest
  {
    assert b[ptr..ptr + cnt] == b[ptr..ptr + count] + b[ptr + count..ptr + cnt];
    Assoc(b[ptr..ptr + count], b[ptr + count..ptr + cnt], rest);
  }

  /** The line at the front of s: up to and including the first newline, but at most limit bytes. */
  function FirstLine(s: seq<Byte>, limit: nat): (r: seq<Byte>)
    ensures |r| <= limit && r <= s
  {
    if s == [] || limit == 0 then []
    else if s[0] == NEWLINE then [NEWLINE]
    else [s[0]] + FirstLine(s[1..], limit - 1)
  }

  /** Bytes stored from off up to got, and nothing else changed. */
  lemma MoreStored(was: seq<Byte>, now: seq<Byte>, off: nat, got: nat, ahead: seq<Byte>, ahead': seq<Byte>,
                   all: seq<Byte>, before: seq<Byte>)
    requires off <= got <= |was| == |now| == |before| && was[..off] + ahead == all && was[off..] == before[off..]
    requires now[off..got] + ahead' == ahead
    requires forall i :: 0 <= i < |was| && !(off <= i < got) ==> now[i] == was[i]
    ensures now[..got] + ahead' == all && now[got..] == before[got..]
  {
    assert now[..off] == was[..off];
    assert now[..got] == now[..off] + now[off..got];
    Assoc(now[..off], now[off..got], ahead');
    assert now[got..] == was[got..];
    assert was[got..] == was[off..][got - off..];
    assert before[got..] == before[off..][got - off..];
  }

  lemma NothingInFront(e: seq<Byte>, s: seq<Byte>)
    requires |e| == 0
    ensures e + s == s
  {
  }

  /** A whole line: up to its newline, which is the character 10, or of the full length. */
  ghost predicate IsLine(line: seq<Byte>, limit: nat) {
    && (forall k :: 0 <= k < |line| - 1 ==> line[k] != 10)
    && (|line| == limit || (line != [] && line[|line| - 1] == 10))
  }

  lemma LineEnds(line: seq<Byte>, limit: nat)
    requires NEWLINE !in line
    ensures IsLine(line + [NEWLINE], limit) && (|line| == limit ==> IsLine(line, limit))
  {
    forall k | 0 <= k < |line|
      ensures line[k] != 10
    {
      assert line[k] in line;
    }
  }

  /** A newline-free piece followed by a newline, or of the full length, is the line at the front. */
  lemma {:induction false} IsFirstLine(p: seq<Byte>, rest: seq<Byte>, limit: nat)
    requires |p| <= limit && NEWLINE !in p
    ensures |p| == limit ==> FirstLine(p + rest, limit) == p
    ensures |p| < limit && rest != [] && rest[0] == NEWLINE ==> FirstLine(p + rest, limit) == p + [NEWLINE]
  {
    var s := p + rest;
    if p == [] {
      assert s == rest;
    } else {
      assert p[0] in p;
      assert s[1..] == p[1..] + rest;
      IsFirstLine(p[1..], rest, limit - 1);
    }
  }

  /** line is the newline-free piece of `all` in front of ahead. */
  ghost predicate Pending(line: seq<Byte>, ahead: seq<Byte>, all: seq<Byte>) {
    line + ahead == all && NEWLINE !in line
  }

  /** c goes on with the line, or ends it. */
  ghost predicate Stepped(line: seq<Byte>, c: Byte, ahead: seq<Byte>, all: seq<Byte>, limit: nat) {
    if c != NEWLINE then Pending(line + [c], ahead, all)
    else line + [c] == FirstLine(all, limit) && line + [c] + ahead == all
  }

  lemma PendingStep(line: seq<Byte>, c: Byte, ahead: seq<Byte>, all: seq<Byte>, limit: nat)
    requires Pending(line, [c] + ahead, all) && |line| < limit
    ensures Stepped(line, c, ahead, all, limit)
  {
    Assoc(line, [c], ahead);
    if c == NEWLINE {
      IsFirstLine(line, [c] + ahead, limit);
    }
  }

  function Limit(maxlen: nat): nat {
    if maxlen == 0 then 0 else maxlen - 1
  }

  /** One call's reports: an end of file when it came, a failure when it came, never both. */
  twostate predicate Reports(fd: Descriptor, eof: bool, failure: bool)
    reads fd
  {
    && fd.eofs == old(fd.eofs) + (if eof then 1 else 0)
    && fd.failures == old(fd.failures) + (if failure then 1 else 0)
  }

  class RioT {
    var fd: Descriptor         // rio_fd
    var cnt: int               // rio_cnt
    var ptr: nat               // rio_bufptr, as an index
    const buf: array<Byte>     // rio_buf

    ghost predicate Valid()
      reads this
    {
      buf.Length == RIO_BUFSIZE && (cnt > 0 ==> ptr + cnt <= buf.Length)
    }

    /** The bytes read from the kernel but not yet delivered. */
    ghost function Unread(): seq<Byte>
      requires Valid()
      reads this, buf
    {
      if cnt > 0 then buf[ptr..ptr + cnt] else []
    }

    /** Everything that is still to be delivered. */
    ghost function Ahead(): seq<Byte>
      requires Valid()
      reads this, buf, fd
    {
      Unread() + fd.stream
    }

    /** rio_readinitb */
    constructor (fd: Descriptor)
      ensures Valid() && this.fd == fd && Ahead() == fd.stream && fresh(buf)
    {
      this.fd := fd;
      cnt, ptr := 0, 0;
      buf := new Byte[RIO_BUFSIZE];
    }

    /** The refill loop of rio_read: 1 when the buffer has bytes, 0 at end of file, -1 on an error. */
    method Refill() returns (r: int)
      requires Valid()
      modifies this`cnt, this`ptr, buf, fd
      ensures Valid() && fd == old(fd) && Ahead() == old(Ahead())
      ensures (r == 1 && cnt > 0) || (r == 0 && cnt == 0) || r == -1
      ensures Reports(fd, r == 0, r == -1)
      ensures r == 0 ==> old(cnt) <= 0
    {
      while cnt <= 0
        invariant Valid() && fd == old(fd) && Ahead() == old(Ahead()) && (cnt > 0 || old(cnt) <= 0)
        invariant Reports(fd, false, false)
        decreases cnt <= 0, |fd.script|
      {
        var got := fd.Read(buf.Length);
        match got {
          case Interrupted =>
            cnt := -1;
          case Failed =>
            cnt := -1;
            return -1;
          case Data(bytes) =>
            cnt := |bytes|;
            if bytes == [] {
              return 0;
            }
            forall i | 0 <= i < |bytes| {
              buf[i] := bytes[i];
            }
            ptr := 0;
            assert buf[0..cnt] == bytes;
        }
      }
      return 1;
    }

    /** rio_read: deliver at most n bytes to usr[off..]. */
    method Read(usr: array<Byte>, off: nat, n: nat) returns (r: int)
      requires Valid() && usr != buf && off + n <= usr.Length
      modifies this`cnt, this`ptr, buf, fd, usr
      ensures Valid() && fd == old(fd) && -1 <= r <= n
      ensures r >= 0 ==> usr[off..off + r] + Ahead() == old(Ahead())
      ensures r == -1 ==> Ahead() == old(Ahead())
      ensures n > 0 ==> Reports(fd, r == 0, r == -1)
      ensures forall i :: 0 <= i < usr.Length && !(off <= i < off + r) ==> usr[i] == old(usr[i])
    {
      r := Refill();
      if r == 1 {
        r := if cnt < n then cnt else n;
        Deliver(usr, off, r);
      } else {
        NothingInFront(usr[off..off], Ahead());
      }
    }

    /** The memcpy of rio_read, and the move past what it copied. */
    method Deliver(usr: array<Byte>, off: nat, count: nat)
      requires Valid() && usr != buf && off + count <= usr.Length && count <= cnt && cnt > 0
      modifies this`cnt, this`ptr, usr
      ensures Valid() && usr[off..off + count] + Ahead() == old(Ahead())
      ensures forall i :: 0 <= i < usr.Length && !(off <= i < off + count) ==> usr[i] == old(usr[i])
    {
      Memcpy(usr, off, count);
      PassOver(count);
    }

    method PassOver(count: nat)
      requires Valid() && count <= cnt && cnt > 0
      modifies this`cnt, this`ptr
      ensures Valid() && buf[old(ptr)..old(ptr) + count] + Ahead() == old(Ahead())
    {
      ghost var b, p, c := buf[..], ptr, cnt;
      Behind(b, p, c, count, fd.stream);
      ptr := ptr + count;
      cnt := cnt - count;
      assert Unread() == b[p + count..p + c];
    }

    method Memcpy(usr: array<Byte>, off: nat, count: nat)
      requires usr != buf && off + count <= usr.Length && ptr + count <= buf.Length
      modifies usr
      ensures usr[off..off + count] == buf[ptr..ptr + count]
      ensures forall i :: 0 <= i < usr.Length && !(off <= i < off + count) ==> usr[i] == old(usr[i])
    {
      for k := 0 to count
        invariant usr[off..off + k] == buf[ptr..ptr + k]
        invariant forall i :: 0 <= i < usr.Length && !(off <= i < off + k) ==> usr[i] == old(usr[i])
      {
        usr[off + k] := buf[ptr + k];
        assert usr[off..off + k + 1] == usr[off..off + k] + [buf[ptr + k]];
      }
    }

    /** rio_readnb: read n bytes, fewer only at end of file. */
    method ReadNb(usr: array<Byte>, n: nat) returns (r: int, ghost got: nat)
      requires Valid() && usr != buf && n <= usr.Length
      modifies this`cnt, this`ptr, buf, fd, usr
      ensures Valid() && fd == old(fd)
      ensures got <= n && usr[..got] + Ahead() == old(Ahead())
      ensures (r == -1 || r == got) && Reports(fd, r >= 0 && got < n, r == -1)
      ensures usr[got..] == old(usr[got..])
    {
      var nleft, bufp := n, 0;
      got := 0;
      ghost var all, before := Ahead(), usr[..];
      while nleft > 0
        invariant bufp == got <= n && nleft == n - got && Valid() && fd == old(fd)
        invariant usr[..got] + Ahead() == all && usr[got..] == before[got..] && Reports(fd, false, false)
      {
        var nread := ReadMore(usr, bufp, nleft, all, before);
        if nread < 0 {
          return -1, got;
        } else if nread == 0 {
          break;
        }
        nleft := nleft - nread;
        bufp := bufp + nread;
        got := got + nread;
      }
      return n - nleft, got;
    }

    /** One turn of rio_readnb: what was delivered before stays, the new bytes go behind it. */
    method ReadMore(usr: array<Byte>, off: nat, n: nat, ghost all: seq<Byte>, ghost before: seq<Byte>) returns (r: int)
      requires Valid() && usr != buf && n > 0 && off + n <= usr.Length == |before|
      requires usr[..off] + Ahead() == all && usr[off..] == before[off..]
      modifies this`cnt, this`ptr, buf, fd, usr
      ensures Valid() && fd == old(fd) && -1 <= r <= n && Reports(fd, r == 0, r < 0)
      ensures var got := off + if r < 0 then 0 else r;
              usr[..got] + Ahead() == all && usr[got..] == before[got..]
    {
      ghost var was := usr[..];
      ghost var ahead := Ahead();
      r := Read(usr, off, n);
      ghost var got := off + if r < 0 then 0 else r;
      NothingInFront(usr[off..off], ahead);
      MoreStored(was, usr[..], off, got, ahead, Ahead(), all, before);
    }

    /**
     rio_readlineb: exactly the line at the front, or at end of file what was left of it; then a
     terminating 0, unless there was nothing to read at all.
     */
    method ReadLineB(usr: array<Byte>, maxlen: nat) returns (r: int, ghost got: nat)
      requires Valid() && usr != buf && usr.Length >= 1 && maxlen <= usr.Length
      modifies this`cnt, this`ptr, buf, fd, usr
      ensures Valid() && fd == old(fd)
      ensures got <= usr.Length && usr[..got] + Ahead() == old(Ahead())
      ensures r == -1 || r == got < usr.Length
      ensures Reports(fd, false, r == -1) || (Reports(fd, true, false) && r >= 0)
      // unless an end of file was reported in this call, the line is complete
      ensures r >= 0 ==> if fd.eofs == old(fd.eofs) then usr[..r] == FirstLine(old(Ahead()), Limit(maxlen))
                         else NEWLINE !in usr[..r] && r < Limit(maxlen)
      ensures r >= 0 && fd.eofs == old(fd.eofs) ==> IsLine(usr[..r], Limit(maxlen))
      ensures r > 0 || (r == 0 && maxlen <= 1) ==> usr[r] == 0
    {
      var status, n, line := FillLine(usr, maxlen);
      got := |line|;
      if status < 0 {
        return -1, got;
      }
      if status == 0 && n == 1 {
        return 0, got;
      }
      Terminate(usr, n - 1);
      return n - 1, got;
    }

    /** The loop of rio_readlineb; status is what the last rio_read returned, n - 1 bytes are stored. */
    method FillLine(usr: array<Byte>, maxlen: nat) returns (status: int, n: nat, ghost line: seq<Byte>)
      requires Valid() && usr != buf && usr.Length >= 1 && maxlen <= usr.Length
      modifies this`cnt, this`ptr, buf, fd, usr
      ensures Valid() && fd == old(fd) && -1 <= status <= 1
      ensures n == |line| + 1 && (n <= maxlen || n == 1) && usr[..n - 1] == line && line + Ahead() == old(Ahead())
      ensures status == 1 ==> line == FirstLine(old(Ahead()), Limit(maxlen)) && IsLine(line, Limit(maxlen))
      ensures status != 1 ==> NEWLINE !in line && n < maxlen
      ensures Reports(fd, status == 0, status < 0)
    {
      n, status, line := 1, 1, [];
      ghost var all := Ahead();
      while n < maxlen
        invariant n == |line| + 1 && (n <= maxlen || n == 1) && Valid() && fd == old(fd) && status == 1
        invariant usr[..n - 1] == line && Pending(line, Ahead(), all) && Reports(fd, false, false)
      {
        var c;
        status, c := LineByte(usr, n, line, all, maxlen);
        if status != 1 {
          return;
        }
        LineEnds(line, Limit(maxlen));
        line, n := line + [c], n + 1;
        if c == NEWLINE {
          return;
        }
      }
      IsFirstLine(line, Ahead(), Limit(maxlen));
      LineEnds(line, Limit(maxlen));
    }

    /** One turn of that loop. */
    method LineByte(usr: array<Byte>, n: nat, ghost line: seq<Byte>, ghost all: seq<Byte>, ghost maxlen: nat)
      returns (status: int, c: Byte)
      requires Valid() && usr != buf && n < maxlen <= usr.Length
      requires n == |line| + 1 && usr[..n - 1] == line && Pending(line, Ahead(), all)
      modifies this`cnt, this`ptr, buf, fd, usr
      ensures Valid() && fd == old(fd) && -1 <= status <= 1 && Reports(fd, status == 0, status < 0)
      ensures status == 1 ==> usr[..n] == line + [c]
      ensures status == 1 ==> Stepped(line, c, Ahead(), all, maxlen - 1)
      ensures status != 1 ==> usr[..n - 1] == line && Pending(line, Ahead(), all)
    {
      status, c := ReadByte();
      if status == 1 {
        PendingStep(line, c, Ahead(), all, maxlen - 1);
        Put(usr, n - 1, c, line);
      }
    }

    /** rio_read(rp, &c, 1) */
    method ReadByte() returns (rc: int, c: Byte)
      requires Valid()
      modifies this`cnt, this`ptr, buf, fd
      ensures Valid() && fd == old(fd) && -1 <= rc <= 1
      ensures if rc == 1 then [c] + Ahead() == old(Ahead()) else Ahead() == old(Ahead())
      ensures Reports(fd, rc == 0, rc < 0)
    {
      var cell := new Byte[1];
      rc := Read(cell, 0, 1);
      c := cell[0];
      assert cell[0..1] == [c] && cell[0..0] == [];
    }

    method Terminate(usr: array<Byte>, bufp: nat)
      requires bufp < usr.Length
      modifies usr
      ensures usr[..bufp] == old(usr[..bufp]) && usr[bufp] == 0
    {
      usr[bufp] := 0;
    }

    method Put(usr: array<Byte>, bufp: nat, c: Byte, ghost line: seq<Byte>)
      requires bufp < usr.Length && usr[..bufp] == line
      modifies usr
      ensures usr[..bufp + 1] == line + [c] && usr[..bufp] == line
    {
      usr[bufp] := c;
    }

    // ---- any mix of calls ----

    /**
     Over any mix of the two read calls, the delivered bytes followed by what is still ahead are the
     original stream; this holds after a failed call as well, with the bytes it had stored.
     */
    method ReadAll(calls: seq<Call>, usr: array<Byte>) returns (delivered: seq<Byte>, ok: bool)
      requires Valid() && usr != buf && usr.Length >= 1 && forall i :: 0 <= i < |calls| ==> calls[i].n <= usr.Length
      modifies this`cnt, this`ptr, buf, fd, usr
      ensures Valid() && fd == old(fd)
      ensures ok ==> delivered + Ahead() == old(Ahead())
      ensures ok <==> fd.failures == old(fd.failures)
      ensures !ok ==> exists lost: seq<Byte> :: delivered + (lost + Ahead()) == old(Ahead())
    {
      delivered, ok := [], true;
      ghost var all := Ahead();
      for i := 0 to |calls|
        invariant Valid() && fd == old(fd) && ok && delivered + Ahead() == all && fd.failures == old(fd.failures)
      {
        var r;
        ghost var got;
        ghost var ahead := Ahead();
        match calls[i] {
          case Bytes(n) => r, got := ReadNb(usr, n);
          case Line(n) => r, got := ReadLineB(usr, n);
        }
        if r < 0 {
          assert delivered + (usr[..got] + Ahead()) == all;
          return delivered, false;
        }
        Assoc(delivered, usr[..got], Ahead());
        delivered := delivered + usr[..r];
      }
    }
  }

  datatype Call = Bytes(n: nat) | Line(n: nat)

  // ---- rio_writen ----

  /** One call of write: an interruption, a failure, or some bytes taken; none at all may come with any errno. */
  datatype WriteAnswer = WriteEintr | WriteFail | Take(most: nat)

  class Sink {
    var out: seq<Byte>
    var script: seq<WriteAnswer>
    ghost var failures: nat   // how many writes took nothing, without being interrupted

    constructor (script: seq<WriteAnswer>)
      ensures out == [] && this.script == script && failures == 0
    {
      out, this.script, failures := [], script, 0;
    }

    /** write(fd, bytes, |bytes|): the count, or -1; eintr tells what errno says when nothing was written. */
    method Write(bytes: seq<Byte>) returns (r: int, eintr: bool)
      requires bytes != []
      modifies this
      ensures -1 <= r <= |bytes| && out == old(out) + bytes[..if r < 0 then 0 else r]
      ensures r <= 0 && eintr ==> |script| < |old(script)|
      ensures |script| <= |old(script)| && failures == old(failures) + if r <= 0 && !eintr then 1 else 0
    {
      var answer := if script == [] then Take(|bytes|) else script[0];
      script := if script == [] then [] else script[1..];
      match answer {
        case WriteEintr => r, eintr := -1, true;
        case WriteFail => r, eintr := -1, false;
        case Take(most) =>
          r, eintr := Least(most, |bytes|), most == 0;
          out := out + bytes[..r];
      }
      failures := failures + if r <= 0 && !eintr then 1 else 0;
    }
  }

  /** rio_writen: all n bytes, in order, or a proper prefix of them and -1. */
  method WriteN(fd: Sink, usr: array<Byte>, n: nat) returns (r: int, ghost done: nat)
    requires n <= usr.Length
    modifies fd
    ensures done <= n && fd.out == old(fd.out) + usr[..done]
    ensures r == n == done || (r == -1 && done < n)
    ensures r == -1 <==> fd.failures > old(fd.failures)
  {
    var nleft, bufp := n, 0;
    done := 0;
    while nleft > 0
      invariant bufp == done <= n && nleft == n - done && fd.out == old(fd.out) + usr[..done]
      invariant fd.failures == old(fd.failures)
      decreases nleft, |fd.script|
    {
      var nwritten, eintr := fd.Write(usr[bufp..n]);
      if nwritten <= 0 {
        if eintr {
          nwritten := 0;
        } else {
          return -1, done;
        }
      }
      assert usr[..done + nwritten] == usr[..done] + usr[bufp..n][..nwritten];
      nleft := nleft - nwritten;
      bufp := bufp + nwritten;
      done := done + nwritten;
    }
    return n, done;
  }
}
