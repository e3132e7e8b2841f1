/**
 Buffered reading from csapp.c: rio_readinitb, rio_read, rio_readnb, rio_readlineb.

 The kernel may hand out the stream in pieces of any length and interrupt any read; what the
 caller gets does not depend on it.
 */
module Rio {

  newtype byte = x: int | 0 <= x < 256

  const NEWLINE: byte := 10
  const NUL: byte := 0

  /** RIO_BUFSIZE */
  const BUFSIZE: nat := 8192

  /** What the next calls of read do.  A piece has at least one byte before the end of the stream. */
  datatype Event = Interrupted | Failed | Piece(limit: nat)

  /** An open descriptor: a stream, how much of it has been read, and the behaviour of the next reads. */
  class Descriptor {
    const data: seq<byte>
    var pos: nat
    var script: seq<Event>

    ghost predicate Valid()
      reads this
    {
      pos <= |data|
    }

    constructor (data: seq<byte>, script: seq<Event>)
      ensures Valid() && this.data == data && pos == 0 && this.script == script
    {
      this.data, this.pos, this.script := data, 0, script;
    }

    /** read: -1 with errno EINTR or another, 0 at the end of the stream, else the number of bytes read. */
    method Read(buf: array<byte>, n: nat) returns (r: int, eintr: bool)
      requires Valid() && 0 < n <= buf.Length
      modifies this, buf
      ensures Valid() && -1 <= r <= n
      ensures r == -1 ==> pos == old(pos) && old(script) != [] && script == old(script)[1..]
      ensures r == -1 ==> old(script)[0] == if eintr then Interrupted else Failed
      ensures r >= 0 ==> pos == old(pos) + r && buf[..r] == data[old(pos)..pos] && (r == 0 <==> old(pos) == |data|)
      ensures r >= 0 ==> script == (if old(script) == [] then [] else old(script)[1..])
      ensures r >= 0 ==> (old(script) == [] || old(script)[0].Piece?) && r == Handed(old(script), n, |data| - old(pos))
    {
      var limit := n;
      eintr := false;
      if script != [] {
        var e := script[0];
        script := script[1..];
        if e.Interrupted? {
          return -1, true;
        }
        if e.Failed? {
          return -1, false;
        }
        limit := if e.limit == 0 then 1 else if e.limit < n then e.limit else n;
      }
      r := if limit < |data| - pos then limit else |data| - pos;
      forall i | 0 <= i < r {
        buf[i] := data[pos + i];
      }
      pos := pos + r;
    }
  }

  function Min(a: nat, b: nat): nat { if a < b then a else b }

  /** How many of `rem` bytes a read of at most `n` hands out, unless it fails or is interrupted. */
  function Handed(script: seq<Event>, n: nat, rem: nat): nat {
    if script == [] then Min(n, rem)
    else if script[0].Piece? then Min(if script[0].limit == 0 then 1 else Min(script[0].limit, n), rem)
    else 0
  }

  /** How many bytes can be had before a read fails, and whether one does before the stream ends. */
  datatype Forecast = Forecast(bytes: nat, fails: bool)

  function Arrives(rem: nat, script: seq<Event>): (f: Forecast)
    ensures f.bytes <= rem && (!f.fails ==> f.bytes == rem)
    decreases |script|
  {
    if script == [] then Forecast(rem, false)
    else if script[0].Interrupted? then Arrives(rem, script[1..])
    else if script[0].Failed? then Forecast(0, true)
    else if rem == 0 then Forecast(0, false)
    else
      var k := Handed(script, BUFSIZE, rem);
      var f := Arrives(rem - k, script[1..]);
      Forecast(k + f.bytes, f.fails)
  }

  /** One read ahead. */
  lemma ArrivesStep(rem: nat, script: seq<Event>)
    ensures script != [] && script[0].Failed? ==> Arrives(rem, script) == Forecast(0, true)
    ensures script != [] && script[0].Interrupted? ==> Arrives(rem, script) == Arrives(rem, script[1..])
    ensures script == [] || script[0].Piece? ==>
      var k := Handed(script, BUFSIZE, rem);
      if rem == 0 then Arrives(rem, script) == Forecast(0, false) else
        0 < k <= rem &&
        var f := Arrives(rem - k, if script == [] then [] else script[1..]);
        Arrives(rem, script) == Forecast(k + f.bytes, f.fails)
  {
  }

  /** A buffer of `c` bytes in front of what arrives. */
  function Before(c: int, f: Forecast): Forecast { if c <= 0 then f else Forecast(c + f.bytes, f.fails) }

  /** The k-th read fails, and all before it are interrupted. */
  ghost predicate FailsAt(script: seq<Event>, k: nat) {
    k < |script| && script[k].Failed? && forall i :: 0 <= i < k ==> script[i].Interrupted?
  }

  /** When a read fails before a request is met, nothing is lost exactly if the buffer was empty and the failure comes
      before any piece of the stream. */
  lemma {:induction false} NothingLost(c: int, rem: nat, script: seq<Event>)
    requires Arrives(rem, script).fails
    ensures Before(c, Arrives(rem, script)).bytes == 0 <==> c <= 0 && exists k: nat :: FailsAt(script, k)
    decreases |script|
  {
    ArrivesStep(rem, script);
    if script[0].Failed? {
      assert FailsAt(script, 0);
    } else if script[0].Interrupted? {
      var t := script[1..];
      NothingLost(c, rem, t);
      if k: nat :| FailsAt(t, k) { FailsLater(script, k + 1); }
      if k: nat :| FailsAt(script, k) { FailsLater(script, k); }
    }
  }

  lemma FailsLater(script: seq<Event>, k: nat)
    requires 0 < k && script != [] && script[0].Interrupted?
    ensures FailsAt(script, k) <==> FailsAt(script[1..], k - 1)
  {
    var t := script[1..];
    if FailsAt(t, k - 1) {
      forall i | 0 <= i < k ensures script[i].Interrupted? { if i > 0 { assert t[i - 1].Interrupted?; } }
    }
  }

  // ------------------------------------------------------------- what a caller is promised

  datatype Request = Line(maxlen: nat) | Block(n: nat)

  /** Length of the next line of stream `u`, when at most `limit` bytes are wanted. */
  function LineLength(u: seq<byte>, limit: nat): (r: nat)
    ensures r <= |u| && r <= limit
  {
    if u == [] || limit == 0 then 0
    else if u[0] == NEWLINE then 1
    else 1 + LineLength(u[1..], limit - 1)
  }

  /** It is the length of the prefix that ends at the first newline, at the limit, or at the end of the stream,
      whichever comes first. */
  lemma {:induction false} LineLengthIs(u: seq<byte>, limit: nat, r: nat)
    ensures r == LineLength(u, limit) <==>
      r <= |u| && r <= limit && (forall i :: 0 <= i < r - 1 ==> u[i] != NEWLINE) &&
        (r == |u| || r == limit || (r > 0 && u[r - 1] == NEWLINE))
  {
    if u != [] && limit != 0 && u[0] != NEWLINE {
      if r > 0 {
        LineLengthIs(u[1..], limit - 1, r - 1);
        if forall i :: 0 <= i < r - 2 && r - 1 <= |u[1..]| ==> u[1..][i] != NEWLINE {
          forall i | 0 <= i < r - 1 && r <= |u| ensures u[i] != NEWLINE {
            if i > 0 { assert u[1..][i - 1] == u[i]; }
          }
        }
        if 0 < r <= |u| && forall i :: 0 <= i < r - 1 ==> u[i] != NEWLINE {
          forall i | 0 <= i < r - 2 ensures u[1..][i] != NEWLINE { assert u[i + 1] != NEWLINE; }
        }
      }
    }
  }

  function Length(u: seq<byte>, q: Request): (r: nat)
    ensures r <= |u|
  {
    match q
    case Line(maxlen) => if maxlen == 0 then 0 else LineLength(u, maxlen - 1)
    case Block(n) => Min(n, |u|)
  }

  /** What a list of requests gets out of stream `u`. */
  function Deliveries(u: seq<byte>, qs: seq<Request>): seq<seq<byte>> {
    if qs == [] then [] else [u[..Length(u, qs[0])]] + Deliveries(u[Length(u, qs[0])..], qs[1..])
  }

  function Concat(ss: seq<seq<byte>>): seq<byte> { if ss == [] then [] else ss[0] + Concat(ss[1..]) }

  /** Consecutive slices: nothing is lost, repeated or reordered. */
  lemma {:induction false} Consecutive(u: seq<byte>, qs: seq<Request>)
    ensures |Deliveries(u, qs)| == |qs| && Concat(Deliveries(u, qs)) <= u
  {
    if qs != [] {
      var k := Length(u, qs[0]);
      Consecutive(u[k..], qs[1..]);
      var d := Deliveries(u[k..], qs[1..]);
      assert Deliveries(u, qs) == [u[..k]] + d;
      assert Concat([u[..k]] + d) == u[..k] + Concat(d);
      assert u == u[..k] + u[k..];
    }
  }

  // ------------------------------------------------------------- the buffer

  /** rio_t */
  class Buffer {
    const fd: Descriptor
    const buf: array<byte>
    var cnt: int        // rio_cnt: unread bytes in buf; -1 after a read that failed
    var ptr: nat        // rio_bufptr, as an offset into buf

    ghost predicate Valid()
      reads this, fd
    {
      fd.Valid() && buf.Length == BUFSIZE && -1 <= cnt && ptr + cnt <= BUFSIZE && ptr <= BUFSIZE
    }

    /** What is still to be delivered: the unread bytes of the buffer, then the unread bytes of the stream. */
    ghost function Unread(): seq<byte>
      requires Valid()
      reads this, fd, buf
    {
      (if cnt <= 0 then [] else buf[ptr..ptr + cnt]) + fd.data[fd.pos..]
    }

    /** What the next reads bring, up to the first that fails. */
    ghost function Ahead(): Forecast
      requires Valid()
      reads this, fd
    {
      Before(cnt, Arrives(|fd.data| - fd.pos, fd.script))
    }

    /** rio_readinitb */
    constructor (fd: Descriptor)
      requires fd.Valid()
      ensures Valid() && this.fd == fd && fresh(buf) && cnt == 0 && ptr == 0 && Unread() == fd.data[fd.pos..]
    {
      this.fd := fd;
      cnt := 0;
      buf := new byte[BUFSIZE];
      ptr := 0;
    }

    /** The loop of rio_read: reads until the buffer holds something, a read fails, or the stream ends. */
    method Refill() returns (r: int)
      requires Valid()
      modifies this, fd, buf
      ensures Valid() && Unread() == old(Unread()) && -1 <= r <= 1 && Tail(fd.script, old(fd.script))
      ensures r == -1 ==> Failed in old(fd.script)
      ensures r == 0 ==> Unread() == [] && cnt == 0
      ensures r == 1 ==> cnt > 0 && Ahead() == old(Ahead())
      ensures r != 1 ==> old(Ahead()) == Forecast(0, r == -1)
    {
      hide Arrives, Handed, Tail;
      TailSelf(fd.script);
      while cnt <= 0
        invariant Valid() && Unread() == old(Unread()) && Tail(fd.script, old(fd.script)) && Ahead() == old(Ahead())
        decreases |fd.script|, cnt <= 0
      {
        ArrivesStep(|fd.data| - fd.pos, fd.script);
        ghost var script, pos := fd.script, fd.pos;
        var eintr;
        cnt, eintr := fd.Read(buf, BUFSIZE);
        TailNext(script, old(fd.script), fd.script);
        if cnt < 0 {
          if !eintr {
            return -1;
          }
        } else if cnt == 0 {
          return 0;
        } else {
          ptr := 0;
          assert fd.data[pos..] == fd.data[pos..fd.pos] + fd.data[fd.pos..];
        }
      }
      r := 1;
    }

    /** rio_read: copies what the buffer holds, at most `n` bytes, to usr[off..]. */
    method Read(usr: array<byte>, off: nat, n: nat) returns (r: int)
      requires Valid() && usr != buf && off + n <= usr.Length
      modifies this, fd, buf, usr
      ensures Valid() && Tail(fd.script, old(fd.script)) && -1 <= r <= n && (r == -1 ==> Failed in old(fd.script))
      ensures r == -1 ==> Unread() == old(Unread()) && usr[..] == old(usr[..])
      ensures r >= 0 ==> Gained(old(Unread()), Unread(), r, old(usr[..]), usr[..], off)
      ensures r == 0 && n > 0 ==> Unread() == []
      ensures r < 0 || (r == 0 && n > 0) ==> old(Ahead()) == Forecast(0, r < 0)
      ensures r > 0 ==> r <= old(Ahead()).bytes && Ahead() == Forecast(old(Ahead()).bytes - r, old(Ahead()).fails)
    {
      hide Unread, Gained, Tail, Arrives;
      r := Refill();
      if r <= 0 {
        NothingGained(Unread(), usr[..], off);
        return;
      }
      ghost var b, w, p, k := buf[..], usr[..], ptr, cnt;
      Buffered();
      var c := n;
      if cnt < n {
        c := cnt;
      }
      forall i | 0 <= i < c {
        usr[off + i] := buf[ptr + i];
      }
      ptr := ptr + c;
      cnt := cnt - c;
      r := c;
      assert buf[..] == b;
      Buffered();
      Copied(b, p, k, c, fd.data[fd.pos..], w, usr[..], off);
    }

    /** Unread, in terms of the whole buffer. */
    lemma Buffered()
      requires Valid()
      ensures Unread() == (if cnt <= 0 then [] else buf[..][ptr..ptr + cnt]) + fd.data[fd.pos..]
    {
      if cnt > 0 { assert buf[ptr..ptr + cnt] == buf[..][ptr..ptr + cnt]; }
    }

    /** rio_readnb: the next `n` bytes of the stream, fewer only at its end. */
    method ReadBlock(usr: array<byte>, n: nat) returns (r: int)
      requires Valid() && usr != buf && n <= usr.Length
      modifies this, fd, buf, usr
      ensures Valid() && Tail(fd.script, old(fd.script)) && (r < 0 ==> r == -1 && Failed in old(fd.script))
      ensures r >= 0 ==>
        r == Length(old(Unread()), Block(n)) && Gained(old(Unread()), Unread(), r, old(usr[..]), usr[..], 0)
      ensures r < 0 <==> old(Ahead()).fails && old(Ahead()).bytes < n
      ensures r < 0 ==> Gained(old(Unread()), Unread(), old(Ahead()).bytes, old(usr[..]), usr[..], 0)
    {
      hide Gained, Tail, Length, Valid, Unread, Ahead;
      var nleft: nat, off: nat := n, 0;
      ghost var u, w, ahead := Unread(), usr[..], Ahead();
      TailSelf(fd.script);
      NothingGained(u, w, 0);
      while nleft > 0
        invariant Valid() && nleft + off == n && Tail(fd.script, old(fd.script)) &&
          Gained(u, Unread(), off, w, usr[..], 0)
        invariant off <= ahead.bytes && Ahead() == Forecast(ahead.bytes - off, ahead.fails)
        decreases nleft
      {
        ghost var script, u1, w1 := fd.script, Unread(), usr[..];
        var nread := Read(usr, off, nleft);
        TailTrans(fd.script, script, old(fd.script));
        if nread < 0 {
          return -1;
        }
        GainedMore(u, u1, Unread(), off, nread, w, w1, usr[..]);
        if nread == 0 {
          break;
        }
        nleft := nleft - nread;
        off := off + nread;
      }
      r := n - nleft;
      BlockDone(u, Unread(), r, n, w, usr[..]);
    }

    /** rio_read of one byte into a variable. */
    method Next() returns (rc: int, c: byte)
      requires Valid()
      modifies this, fd, buf
      ensures Valid() && Tail(fd.script, old(fd.script)) && -1 <= rc <= 1 && (rc == -1 ==> Failed in old(fd.script))
      ensures rc == 1 ==> old(Unread()) == [c] + Unread()
      ensures rc <= 0 ==> Unread() == old(Unread())
      ensures rc == 0 ==> Unread() == []
      ensures rc <= 0 ==> old(Ahead()) == Forecast(0, rc < 0)
      ensures rc == 1 ==>
        1 <= old(Ahead()).bytes && Ahead() == Forecast(old(Ahead()).bytes - 1, old(Ahead()).fails)
    {
      hide Unread, Ahead;
      var a := new byte[1];
      ghost var a0, u := a[..], Unread();
      rc := Read(a, 0, 1);
      c := a[0];
      if rc == 1 { assert a[..] == [c] && u[..1] == [c]; }
    }

    /** rio_readlineb: the next line of the stream, NUL-terminated, of at most maxlen - 1 bytes. */
    method ReadLine(usr: array<byte>, maxlen: nat) returns (r: int)
      requires Valid() && usr != buf && 0 < usr.Length && maxlen <= usr.Length
      modifies this, fd, buf, usr
      ensures Valid() && Tail(fd.script, old(fd.script)) && (r < 0 ==> r == -1 && Failed in old(fd.script))
      ensures r >= 0 ==> GotLine(old(Unread()), Unread(), r, maxlen, old(usr[..]), usr[..])
      ensures r < 0 <==> old(Ahead()).fails && Short(old(Unread()), old(Ahead()).bytes, maxlen)
      ensures r < 0 ==> Gained(old(Unread()), Unread(), old(Ahead()).bytes, old(usr[..]), usr[..], 0)
    {
      hide Gained, Tail, Length, Valid, Unread, LineLength, Plain, GotLine, LineState, LineEnd, Ahead, Short;
      var n: nat, off: nat := 1, 0;
      ghost var u, w, ahead := Unread(), usr[..], Ahead();
      TailSelf(fd.script);
      NoLine(u, w);
      while n < maxlen
        invariant Valid() && n == off + 1 && (if maxlen > 0 then n <= maxlen else n == 1) &&
          Tail(fd.script, old(fd.script))
        invariant LineState(u, Unread(), off, w, usr[..])
        invariant off <= ahead.bytes && Ahead() == Forecast(ahead.bytes - off, ahead.fails)
      {
        ghost var script, u1, w1 := fd.script, Unread(), usr[..];
        var rc, c := Next();
        TailTrans(fd.script, script, old(fd.script));
        if rc == 1 {
          usr[off] := c;
          LineByte(u, u1, Unread(), off, w, w1, c, usr[..]);
          off := off + 1;
          if c == NEWLINE {
            n := n + 1;
            break;
          }
        } else if rc == 0 {
          if n == 1 {
            LineEmpty(u, Unread(), maxlen, w, usr[..]);
            return 0;
          } else {
            break;
          }
        } else {
          LineBroken(u, Unread(), off, maxlen, w, usr[..]);
          return -1;
        }
        n := n + 1;
      }
      r := n - 1;
      if ahead.fails { LongEnough(u, Unread(), off, ahead.bytes, maxlen, w, usr[..]); }
      LineDone(u, Unread(), r, maxlen, w, usr[..]);
      usr[off] := NUL;
    }

    /** One request into a buffer of its own. */
    method Take(q: Request) returns (r: int, got: seq<byte>)
      requires Valid()
      modifies this, fd, buf
      ensures Valid() && Tail(fd.script, old(fd.script)) && (r < 0 ==> Failed in old(fd.script))
      ensures r >= 0 ==>
        got == old(Unread())[..Length(old(Unread()), q)] && Unread() == old(Unread())[Length(old(Unread()), q)..]
    {
      hide Unread, LineLength, Tail, Valid, Ahead, Short;
      got := [];
      match q {
        case Line(maxlen) =>
          var usr := new byte[if maxlen == 0 then 1 else maxlen];
          r := ReadLine(usr, maxlen);
          if r >= 0 { got := usr[..r]; }
        case Block(n) =>
          var usr := new byte[n];
          r := ReadBlock(usr, n);
          if r >= 0 { got := usr[..r]; }
      }
    }

    /** Any interleaving of rio_readlineb and rio_readnb, whatever pieces read hands out and however often it is
        interrupted: the results are determined by the stream alone, and are consecutive slices of it. */
    method Serve(qs: seq<Request>) returns (ok: bool, out: seq<seq<byte>>)
      requires Valid()
      modifies this, fd, buf
      ensures Valid() && (Failed !in old(fd.script) ==> ok)
      ensures ok ==> out == Deliveries(old(Unread()), qs) && Concat(out) + Unread() == old(Unread())
    {
      hide Unread, Valid, Tail, Length, Deliveries, Concat;
      out := [];
      ghost var u := Unread();
      var i := 0;
      TailSelf(fd.script);
      NoDeliveries(u);
      while i < |qs|
        invariant Valid() && i <= |qs| && Tail(fd.script, old(fd.script))
        invariant out == Deliveries(u, qs[..i]) && Concat(out) + Unread() == u
      {
        ghost var script, u1 := fd.script, Unread();
        var r, got := Take(qs[i]);
        TailTrans(fd.script, script, old(fd.script));
        if r < 0 {
          return false, [];
        }
        DeliverOne(u, qs, i, out, u1, got, Unread());
        out := out + [got];
        i := i + 1;
      }
      assert qs[..i] == qs;
      ok := true;
    }
  }

  lemma NoDeliveries(u: seq<byte>)
    ensures Deliveries(u, []) == [] && Concat([]) + u == u
  {
  }

  lemma DeliverOne(u: seq<byte>, qs: seq<Request>, i: nat, out: seq<seq<byte>>, u1: seq<byte>, got: seq<byte>,
      u2: seq<byte>)
    requires i < |qs| && out == Deliveries(u, qs[..i]) && Concat(out) + u1 == u
    requires var k := Length(u1, qs[i]); got == u1[..k] && u2 == u1[k..]
    ensures out + [got] == Deliveries(u, qs[..i + 1]) && Concat(out + [got]) + u2 == u
  {
    assert qs[..i + 1] == qs[..i] + [qs[i]];
    DeliverMore(u, qs[..i], qs[i], u1);
    ConcatMore(out, got);
  }

  lemma {:induction false} DeliverMore(u: seq<byte>, qs: seq<Request>, q: Request, u1: seq<byte>)
    requires Concat(Deliveries(u, qs)) + u1 == u
    ensures Deliveries(u, qs + [q]) == Deliveries(u, qs) + [u1[..Length(u1, q)]]
  {
    hide Length;
    if qs == [] {
      assert qs + [q] == [q] && [q][1..] == [] && u1 == u;
      assert Deliveries(u[Length(u, q)..], []) == [];
    } else {
      var k := Length(u, qs[0]);
      var d := Deliveries(u[k..], qs[1..]);
      ConcatStep(u[..k], d);
      LeftOver(u, k, Concat(d), u1);
      DeliverMore(u[k..], qs[1..], q, u1);
      assert (qs + [q])[0] == qs[0] && (qs + [q])[1..] == qs[1..] + [q];
    }
  }

  lemma ConcatStep(s: seq<byte>, ss: seq<seq<byte>>)
    ensures Concat([s] + ss) == s + Concat(ss)
  {
    assert ([s] + ss)[1..] == ss;
  }

  lemma LeftOver(u: seq<byte>, k: nat, d: seq<byte>, u1: seq<byte>)
    requires k <= |u| && (u[..k] + d) + u1 == u
    ensures d + u1 == u[k..]
  {
    assert ((u[..k] + d) + u1)[k..] == d + u1;
  }

  lemma {:induction false} ConcatMore(ss: seq<seq<byte>>, s: seq<byte>)
    ensures Concat(ss + [s]) == Concat(ss) + s
  {
    if ss == [] {
      assert ss + [s] == [s] && [s][1..] == [];
    } else {
      ConcatMore(ss[1..], s);
      assert (ss + [s])[0] == ss[0] && (ss + [s])[1..] == ss[1..] + [s];
    }
  }

  /** The first `r` bytes of stream `u` have gone to w[off..], and `u'` is left. */
  ghost predicate Gained(u: seq<byte>, u': seq<byte>, r: nat, w: seq<byte>, w': seq<byte>, off: nat) {
    r <= |u| && u' == u[r..] && off + r <= |w| && w' == w[..off] + u[..r] + w[off + r..]
  }

  /** `n` bytes are no complete line: too few, and no newline among them. */
  ghost predicate Short(u: seq<byte>, n: nat, maxlen: nat) { n + 1 < maxlen && Plain(u, n) }

  lemma LineBroken(u: seq<byte>, u': seq<byte>, k: nat, maxlen: nat, w: seq<byte>, w': seq<byte>)
    requires k + 1 < maxlen && LineState(u, u', k, w, w')
    ensures Short(u, k, maxlen) && Gained(u, u', k, w, w', 0)
  {
  }

  lemma LongEnough(u: seq<byte>, u': seq<byte>, k: nat, n: nat, maxlen: nat, w: seq<byte>, w': seq<byte>)
    requires k <= n && (LineEnd(u, u', k, w, w') || k + 1 >= maxlen)
    ensures !Short(u, n, maxlen)
  {
  }

  /** The first `c` of the `k` bytes at b[p..] have been copied to w[off..]; `t` follows them in the stream. */
  lemma Copied(b: seq<byte>, p: nat, k: nat, c: nat, t: seq<byte>, w: seq<byte>, w': seq<byte>, off: nat)
    requires p + k <= |b| && c <= k && off + c <= |w| == |w'|
    requires forall i :: 0 <= i < |w| ==> w'[i] == if off <= i < off + c then b[p + i - off] else w[i]
    ensures Gained(b[p..p + k] + t, (if c == k then [] else b[p + c..p + k]) + t, c, w, w', off)
  {
    var u := b[p..p + k] + t;
    assert u[c..] == (if c == k then [] else b[p + c..p + k]) + t;
    assert w' == w[..off] + u[..c] + w[off + c..];
  }

  lemma NothingGained(u: seq<byte>, w: seq<byte>, off: nat)
    requires off <= |w|
    ensures Gained(u, u, 0, w, w, off)
  {
  }

  lemma GainedMore(u: seq<byte>, u1: seq<byte>, u2: seq<byte>, k: nat, r: nat, w: seq<byte>, w1: seq<byte>,
      w2: seq<byte>)
    requires Gained(u, u1, k, w, w1, 0) && Gained(u1, u2, r, w1, w2, k)
    ensures Gained(u, u2, k + r, w, w2, 0)
  {
    assert u[..k] + u1[..r] == u[..k + r];
    assert w1[..k] == u[..k] && w1[k + r..] == w[k + r..];
  }

  lemma BlockDone(u: seq<byte>, u': seq<byte>, r: nat, n: nat, w: seq<byte>, w': seq<byte>)
    requires Gained(u, u', r, w, w', 0) && r <= n && (r == n || u' == [])
    ensures r == Length(u, Block(n))
  {
  }

  /** One byte gained and stored behind the others. */
  lemma GainedByte(u: seq<byte>, u1: seq<byte>, u2: seq<byte>, k: nat, w: seq<byte>, w1: seq<byte>, c: byte,
      w2: seq<byte>)
    requires Gained(u, u1, k, w, w1, 0) && u1 == [c] + u2 && k < |w1| && w2 == w1[k := c]
    ensures Gained(u, u2, k + 1, w, w2, 0) && k < |u| && c == u[k]
    ensures Plain(u, k) && c != NEWLINE ==> Plain(u, k + 1)
  {
    assert c == u1[0] == u[k];
    assert Gained(u1, u2, 1, w1, w2, k);
    GainedMore(u, u1, u2, k, 1, w, w1, w2);
  }

  /** No newline among the first k bytes. */
  ghost predicate Plain(u: seq<byte>, k: nat) { k <= |u| && forall i :: 0 <= i < k ==> u[i] != NEWLINE }

  /** The line that rio_readlineb got out of stream `u`.  At the end of the stream it does not terminate it. */
  ghost predicate GotLine(u: seq<byte>, u': seq<byte>, r: nat, maxlen: nat, w: seq<byte>, w': seq<byte>) {
    r == Length(u, Line(maxlen)) && u' == u[r..] && r < |w| &&
    w' == if u == [] && maxlen > 1 then w else u[..r] + [NUL] + w[r + 1..]
  }

  lemma LineEmpty(u: seq<byte>, u': seq<byte>, maxlen: nat, w: seq<byte>, w': seq<byte>)
    requires LineState(u, u', 0, w, w') && u' == [] && maxlen > 1 && |w| > 0
    ensures GotLine(u, u', 0, maxlen, w, w')
  {
  }

  /** The first `r` bytes of stream `u` have been stored, and no newline among them. */
  ghost predicate LineState(u: seq<byte>, u': seq<byte>, r: nat, w: seq<byte>, w': seq<byte>) {
    Gained(u, u', r, w, w', 0) && Plain(u, r)
  }

  /** So far but for a newline at the end. */
  ghost predicate LineEnd(u: seq<byte>, u': seq<byte>, r: nat, w: seq<byte>, w': seq<byte>) {
    Gained(u, u', r, w, w', 0) && 0 < r && Plain(u, r - 1) && u[r - 1] == NEWLINE
  }

  lemma NoLine(u: seq<byte>, w: seq<byte>)
    ensures LineState(u, u, 0, w, w)
  {
  }

  lemma LineByte(u: seq<byte>, u1: seq<byte>, u2: seq<byte>, k: nat, w: seq<byte>, w1: seq<byte>, c: byte,
      w2: seq<byte>)
    requires LineState(u, u1, k, w, w1) && u1 == [c] + u2 && k < |w1| && w2 == w1[k := c]
    ensures if c == NEWLINE then LineEnd(u, u2, k + 1, w, w2) else LineState(u, u2, k + 1, w, w2)
  {
    GainedByte(u, u1, u2, k, w, w1, c, w2);
  }

  /** Where rio_readlineb stops. */
  lemma LineDone(u: seq<byte>, u': seq<byte>, r: nat, maxlen: nat, w: seq<byte>, w': seq<byte>)
    requires (if maxlen > 0 then r < maxlen else r == 0) && r < |w| && (r > 0 || maxlen <= 1)
    requires (LineState(u, u', r, w, w') && (u' == [] || r + 1 >= maxlen)) || LineEnd(u, u', r, w, w')
    ensures r < |w'| && GotLine(u, u', r, maxlen, w, w'[r := NUL])
  {
    if maxlen > 0 { LineLengthIs(u, maxlen - 1, r); }
  }

  lemma TailTrans(s: seq<Event>, t: seq<Event>, v: seq<Event>)
    requires Tail(s, t) && Tail(t, v)
    ensures Tail(s, v)
    ensures forall e :: e in t ==> e in v
  {
  }

  /** `s` is what remains of `t`. */
  ghost predicate Tail(s: seq<Event>, t: seq<Event>) { |s| <= |t| && s == t[|t| - |s|..] }

  lemma TailSelf(s: seq<Event>)
    ensures Tail(s, s)
  {
  }

  lemma TailNext(s: seq<Event>, t: seq<Event>, s': seq<Event>)
    requires Tail(s, t) && s' == if s == [] then [] else s[1..]
    ensures Tail(s', t) && forall e :: e in s ==> e in t
  {
  }

  /** A stream of two bytes that comes one byte at a time, and fails before the second. */
  method LostByte(a: byte, b: byte) returns (rio: Buffer, r: int)
    ensures rio.Valid() && r == -1 && rio.Unread() == [b]
  {
    var fd := new Descriptor([a, b], [Piece(1), Failed]);
    rio := new Buffer(fd);
    Interrupts(a, b);
    var usr := new byte[2];
    assert rio.Unread() == [a, b];
    r := rio.ReadBlock(usr, 2);
  }

  lemma Interrupts(a: byte, b: byte)
    ensures Arrives(2, [Piece(1), Failed]) == Forecast(1, true)
  {
    assert [Piece(1), Failed][1..] == [Failed];
  }
}
