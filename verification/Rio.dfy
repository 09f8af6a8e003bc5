/** The buffered reader of csapp.c, over any read(). */
module Rio {
  // read() may return short counts, be interrupted, or fail.

  type Byte = b: int | 0 <= b < 0x100

  const NEWLINE: Byte := 10
  const RIO_BUFSIZE: nat := 8192

  /** What one call of read() does; a chunk is cut to what fits and to what there is. */
  datatype Event = Chunk(size: nat) | Interrupted | Failed

  ghost predicate NeverFails(script: seq<Event>) {
    forall i {:trigger script[i]} :: 0 <= i < |script| ==> script[i] != Failed
  }

  lemma NeverFailsStep(script: seq<Event>)
    requires script != []
    ensures NeverFails(script) ==> NeverFails(script[1..]) && script[0] != Failed
  {
  }

  /** The calls of read() between the two scripts: if failed, the last one of them is the first that
      failed; otherwise none did. */
  ghost predicate Consumed(before: seq<Event>, after: seq<Event>, failed: bool) {
    && |after| <= |before| && after == before[|before| - |after|..] && (failed ==> |after| < |before|)
    && forall i {:trigger before[i]} :: 0 <= i < |before| - |after| ==>
         (before[i] == Failed <==> failed && i == |before| - |after| - 1)
  }

  lemma NothingConsumed(script: seq<Event>)
    ensures Consumed(script, script, false)
  {
  }

  lemma OneConsumed(before: seq<Event>, after: seq<Event>)
    requires after == if before == [] then [] else before[1..]
    ensures Consumed(before, after, before != [] && before[0] == Failed)
  {
  }

  lemma ConsumedMore(a: seq<Event>, b: seq<Event>, c: seq<Event>, failed: bool)
    requires Consumed(a, b, false) && Consumed(b, c, failed)
    ensures Consumed(a, c, failed)
  {
    var k, l := |a| - |b|, |a| - |c|;
    assert c == a[l..];
    forall i | 0 <= i < l ensures a[i] == Failed <==> failed && i == l - 1 {
      assert i >= k ==> a[i] == b[i - k];
    }
  }

  /** A read() that never fails lets no call fail. */
  lemma ConsumedNeverFails()
    ensures forall before: seq<Event>, after: seq<Event>, failed: bool {:trigger Consumed(before, after, failed)} ::
      Consumed(before, after, failed) && NeverFails(before) ==> NeverFails(after) && !failed
  {
    forall before: seq<Event>, after: seq<Event>, failed: bool | Consumed(before, after, failed) && NeverFails(before)
      ensures NeverFails(after) && !failed
    {
      var k := |before| - |after|;
      assert k > 0 ==> (before[k - 1] == Failed <==> failed);
      forall i | 0 <= i < |after| ensures after[i] != Failed {
        assert after[i] == before[k + i];
      }
    }
  }

  function Least(a: int, b: int): int {
    if a < b then a else b
  }

  /** A descriptor: the bytes that nobody has read yet and the outcomes of the next calls of
      read().  When the script is over, read() returns as much as it can. */
  class Descriptor {
    var pending: seq<Byte>
    var script: seq<Event>

    /** read(fd, buf, cap): 0 only at the end of the stream, -1 with errno otherwise. */
    method Read(buf: array<Byte>, cap: nat) returns (r: int, eintr: bool)
      requires 0 < cap <= buf.Length
      modifies this, buf
      ensures script == if old(script) == [] then [] else old(script)[1..]
      ensures r == -1 <==> old(script) != [] && !old(script)[0].Chunk?
      ensures r == -1 ==> pending == old(pending) && buf[..] == old(buf[..])
      ensures NeverFails(old(script)) ==> NeverFails(script) && (r == -1 ==> eintr)
      ensures |script| < |old(script)| || r != -1
      ensures r == -1 ==> (eintr <==> old(script)[0] == Interrupted)
      ensures r != -1 ==> 0 <= r <= Least(cap, |old(pending)|) && (r == 0 ==> old(pending) == [])
      ensures r != -1 ==> buf[..r] == old(pending)[..r] && pending == old(pending)[r..]
    {
      eintr := false;
      var most := Least(cap, |pending|);
      if script != [] {
        var e := script[0];
        NeverFailsStep(script);
        script := script[1..];
        match e {
          case Interrupted => return -1, true;
          case Failed => return -1, false;
          case Chunk(size) => most := if size == 0 then Least(1, most) else Least(size, most);
        }
      }
      r := most;
      forall i | 0 <= i < r {
        buf[i] := pending[i];
      }
      pending := pending[r..];
    }
  }

  // The unsplit stream

  /** How long a line of at most max bytes is at the front of s, its newline included. */
  function LineLength(s: seq<Byte>, max: nat): nat {
    if max == 0 || s == [] then 0
    else if s[0] == NEWLINE then 1
    else 1 + LineLength(s[1..], max - 1)
  }

  /** The line ends at its first newline, at max bytes or at the end of the stream,
      whichever comes first. */
  lemma {:induction false} LineLengthIs(s: seq<Byte>, max: nat)
    ensures var n := LineLength(s, max);
      && n <= max && n <= |s|
      && (forall i {:trigger s[i]} :: 0 <= i < n - 1 ==> s[i] != NEWLINE)
      && (n == max || n == |s| || (n > 0 && s[n - 1] == NEWLINE))
      && (n == 0 <==> max == 0 || s == [])
  {
    if max > 0 && s != [] && s[0] != NEWLINE {
      LineLengthIs(s[1..], max - 1);
      var n := LineLength(s, max);
      forall i | 0 <= i < n - 1 ensures s[i] != NEWLINE {
        assert i > 0 ==> s[i] == s[1..][i - 1];
      }
      assert n > 1 ==> s[n - 1] == s[1..][n - 2];
    }
  }

  lemma {:induction false} LineLengthGrows(s: seq<Byte>, k: nat, max: nat)
    requires k < max && k < |s| && forall i {:trigger s[i]} :: 0 <= i < k ==> s[i] != NEWLINE
    ensures LineLength(s, max) == if s[k] == NEWLINE then k + 1 else k + 1 + LineLength(s[k + 1..], max - k - 1)
  {
    if k > 0 {
      forall i | 0 <= i < k - 1 ensures s[1..][i] != NEWLINE {
        assert s[1..][i] == s[i + 1];
      }
      LineLengthGrows(s[1..], k - 1, max - 1);
      assert s[1..][k - 1] == s[k] && s[1..][k..] == s[k + 1..];
    }
  }

  datatype Call = ReadN(n: nat) | ReadLine(maxlen: nat)

  /** How many bytes a call takes from the front of the stream s. */
  function Takes(c: Call, s: seq<Byte>): (k: nat)
    ensures k <= |s|
  {
    match c
    case ReadN(n) => Least(n, |s|)
    case ReadLine(maxlen) => if maxlen == 0 then 0 else LineLengthIs(s, maxlen - 1); LineLength(s, maxlen - 1)
  }

  /** The results of a session on the unsplit stream. */
  function Answers(s: seq<Byte>, calls: seq<Call>): seq<seq<Byte>> {
    if calls == [] then []
    else
      var k := Takes(calls[0], s);
      [s[..k]] + Answers(s[k..], calls[1..])
  }

  function Concat(parts: seq<seq<Byte>>): seq<Byte> {
    if parts == [] then [] else parts[0] + Concat(parts[1..])
  }

  /** The answers are a prefix of the stream, cut into pieces: nothing is lost or repeated. */
  lemma {:induction false} AnswersAreAPrefix(s: seq<Byte>, calls: seq<Call>)
    ensures Concat(Answers(s, calls)) <= s && |Answers(s, calls)| == |calls|
  {
    if calls != [] {
      var k := Takes(calls[0], s);
      AnswersAreAPrefix(s[k..], calls[1..]);
      var rest := Concat(Answers(s[k..], calls[1..]));
      assert Answers(s, calls)[1..] == Answers(s[k..], calls[1..]);
      assert s == s[..k] + s[k..];
      assert s[..k] + rest <= s[..k] + s[k..];
    }
  }

  // The reader

  /** The first cnt bytes ahead are in the buffer, the rest is unread. */
  ghost predicate Refilled(buf: seq<Byte>, cnt: int, ptr: nat, pending: seq<Byte>, ahead: seq<Byte>) {
    0 < cnt <= |ahead| && cnt <= |buf| && ptr == 0 && buf[..cnt] == ahead[..cnt] && pending == ahead[cnt..]
  }

  lemma RefilledAhead(buf: seq<Byte>, cnt: int, ptr: nat, pending: seq<Byte>, ahead: seq<Byte>)
    requires Refilled(buf, cnt, ptr, pending, ahead)
    ensures ptr + cnt <= |buf| && buf[ptr..ptr + cnt] + pending == ahead
  {
    assert ahead == ahead[..cnt] + ahead[cnt..];
    assert buf[0..cnt] == buf[..cnt];
  }

  lemma FrontOfTwo(a: seq<Byte>, b: seq<Byte>, k: nat)
    requires k <= |a|
    ensures (a + b)[..k] == a[..k] && (a + b)[k..] == a[k..] + b
  {
  }

  lemma Pasted(usr: seq<Byte>, usr': seq<Byte>, off: nat, b: seq<Byte>)
    requires off + |b| <= |usr| == |usr'|
    requires forall i {:trigger usr'[i]} :: 0 <= i < |usr| ==>
      usr'[i] == if off <= i < off + |b| then b[i - off] else usr[i]
    ensures usr' == usr[..off] + b + usr[off + |b|..]
  {
  }

  /** The first k bytes ahead are in the client's buffer and the rest is still ahead. */
  ghost predicate Delivered(ahead: seq<Byte>, usr: seq<Byte>, ahead': seq<Byte>, k: nat) {
    k <= |ahead| && k <= |usr| && usr[..k] == ahead[..k] && ahead' == ahead[k..]
  }

  /** Fewer than n bytes were delivered before read() failed. */
  ghost predicate CutShort(ahead: seq<Byte>, usr: seq<Byte>, ahead': seq<Byte>, n: nat) {
    exists k :: 0 <= k < n && Delivered(ahead, usr, ahead', k)
  }

  ghost predicate NoNewline(s: seq<Byte>, k: nat) {
    k <= |s| && forall i {:trigger s[i]} :: 0 <= i < k ==> s[i] != NEWLINE
  }

  lemma NothingDelivered(ahead: seq<Byte>, usr: seq<Byte>)
    ensures Delivered(ahead, usr, ahead, 0) && NoNewline(ahead, 0)
  {
  }

  lemma IsCutShort(ahead: seq<Byte>, usr: seq<Byte>, a: seq<Byte>, k: nat, n: nat)
    requires Delivered(ahead, usr, a, k) && k < n
    ensures CutShort(ahead, usr, a, n)
  {
  }

  lemma TakesN(ahead: seq<Byte>, usr: seq<Byte>, a: seq<Byte>, k: nat, n: nat)
    requires Delivered(ahead, usr, a, k) && k <= n && (k < n ==> a == [])
    ensures k == Takes(ReadN(n), ahead)
  {
  }

  lemma DeliveredMore(ahead: seq<Byte>, usr: seq<Byte>, a: seq<Byte>, k: nat, usr': seq<Byte>, a': seq<Byte>, m: nat)
    requires Delivered(ahead, usr, a, k) && m <= |a| && k + m <= |usr|
    requires usr' == usr[..k] + a[..m] + usr[k + m..] && a' == a[m..]
    ensures Delivered(ahead, usr', a', k + m)
  {
    assert ahead[..k + m] == ahead[..k] + a[..m];
    assert usr'[..k + m] == usr[..k] + a[..m];
  }

  /** One more byte of the line; a newline ends it. */
  lemma OneMore(ahead: seq<Byte>, usr: seq<Byte>, a: seq<Byte>, k: nat, usr': seq<Byte>, a': seq<Byte>, c: seq<Byte>,
        maxlen: nat)
    requires Delivered(ahead, usr, a, k) && NoNewline(ahead, k) && k < |usr| && |a| >= 1 && |c| == 1 && c[0] == a[0]
    requires usr' == usr[k := c[0]] && a' == a[1..] && k + 1 < maxlen
    ensures Delivered(ahead, usr', a', k + 1)
    ensures if c[0] == NEWLINE then Takes(ReadLine(maxlen), ahead) == k + 1 else NoNewline(ahead, k + 1)
  {
    assert a[0] == ahead[k];
    assert usr' == usr[..k] + a[..1] + usr[k + 1..];
    DeliveredMore(ahead, usr, a, k, usr', a', 1);
    LineLengthGrows(ahead, k, maxlen - 1);
  }

  /** The stream ends before the line does. */
  lemma LineEnds(ahead: seq<Byte>, usr: seq<Byte>, a: seq<Byte>, k: nat, maxlen: nat)
    requires Delivered(ahead, usr, a, k) && NoNewline(ahead, k) && a == [] && k < maxlen - 1
    ensures Takes(ReadLine(maxlen), ahead) == k
  {
    if k > 0 {
      LineLengthGrows(ahead, k - 1, maxlen - 1);
    }
  }

  /** The line is as long as it may be. */
  lemma LineFull(ahead: seq<Byte>, k: nat, maxlen: nat)
    ensures NoNewline(ahead, k) && k + 1 >= maxlen && (k + 1 == maxlen || k == 0) ==>
      Takes(ReadLine(maxlen), ahead) == k
  {
    if NoNewline(ahead, k) && k + 1 == maxlen && k > 0 {
      LineLengthGrows(ahead, k - 1, maxlen - 1);
    }
  }

  /** From k on the client's buffer is as it was. */
  ghost predicate Untouched(was: seq<Byte>, usr: seq<Byte>, k: nat) {
    |usr| == |was| && k <= |was| && usr[k..] == was[k..]
  }

  lemma UntouchedBehind(was: seq<Byte>, usr: seq<Byte>, k: nat, c: Byte)
    requires Untouched(was, usr, k) && k < |usr|
    ensures Untouched(was, usr[k := c], k + 1)
  {
    assert usr[k := c][k + 1..] == usr[k..][1..] == was[k..][1..];
  }

  lemma WhollyUntouched(was: seq<Byte>)
    ensures Untouched(was, was, 0)
  {
  }

  lemma Terminated(ahead: seq<Byte>, usr: seq<Byte>, a: seq<Byte>, k: nat, usr': seq<Byte>)
    requires Delivered(ahead, usr, a, k) && k < |usr| && usr' == usr[k := 0]
    ensures Delivered(ahead, usr', a, k)
  {
    assert usr'[..k] == usr[..k];
  }

  class Reader {
    const fd: Descriptor
    const buf: array<Byte>
    var cnt: int
    var ptr: nat

    ghost predicate Valid()
      reads this
    {
      buf.Length == RIO_BUFSIZE && (cnt > 0 ==> ptr + cnt <= RIO_BUFSIZE)
    }

    ghost function Buffered(): seq<Byte>
      reads this, buf
      requires Valid()
    {
      if cnt > 0 then buf[ptr..ptr + cnt] else []
    }

    /** What the client has not got yet: the unread buffer and the unread stream. */
    ghost function Ahead(): seq<Byte>
      reads this, buf, fd
      requires Valid()
    {
      Buffered() + fd.pending
    }

    /** rio_readinitb */
    constructor (fd: Descriptor)
      ensures Valid() && this.fd == fd && fresh(buf) && Ahead() == fd.pending
    {
      this.fd := fd;
      buf := new Byte[RIO_BUFSIZE];
      cnt, ptr := 0, 0;
    }

    /** rio_read's loop: fills the buffer if it is empty. */
    method Refill() returns (r: int)
      requires Valid()
      modifies this, buf, fd
      ensures Valid() && Ahead() == old(Ahead()) && r in {-1, 0, 1}
      ensures r == 0 ==> Ahead() == []
      ensures r == 1 ==> cnt > 0
      ensures NeverFails(old(fd.script)) ==> NeverFails(fd.script) && r != -1
      ensures Consumed(old(fd.script), fd.script, r == -1)
      ensures old(cnt) > 0 ==> fd.script == old(fd.script)
    {
      hide NeverFails, Consumed;
      ghost var ahead := Ahead();
      NothingConsumed(fd.script);
      if cnt > 0 {
        return 1;
      }
      assert fd.pending == ahead;
      while cnt <= 0
        invariant Valid() && (cnt <= 0 ==> fd.pending == ahead)
        invariant cnt > 0 ==> Refilled(buf[..], cnt, ptr, fd.pending, ahead)
        invariant NeverFails(old(fd.script)) ==> NeverFails(fd.script)
        invariant Consumed(old(fd.script), fd.script, false)
        decreases |fd.script|, if cnt <= 0 then 1 else 0
      {
        var eintr;
        ghost var script := fd.script;
        cnt, eintr := fd.Read(buf, buf.Length);
        OneConsumed(script, fd.script);
        ConsumedMore(old(fd.script), script, fd.script, cnt < 0 && !eintr);
        if cnt < 0 {
          if !eintr {
            return -1;
          }
        } else if cnt == 0 {
          return 0;
        } else {
          ptr := 0;
        }
      }
      RefilledAhead(buf[..], cnt, ptr, fd.pending, ahead);
      return 1;
    }

    lemma BufferedSize()
      requires Valid() && cnt > 0
      ensures |Buffered()| == cnt
    {
    }

    /** rio_read's copy: k bytes of the buffer go to usrbuf from off on. */
    method CopyOut(usrbuf: array<Byte>, off: nat, k: nat)
      requires Valid() && usrbuf != buf && 0 < k <= cnt && off + k <= usrbuf.Length
      modifies this, usrbuf
      ensures Valid() && Buffered() == old(Buffered())[k..]
      ensures usrbuf[..] == old(usrbuf[..off]) + old(Buffered())[..k] + old(usrbuf[off + k..])
    {
      ghost var usr, unread := usrbuf[..], Buffered();
      forall i | 0 <= i < k {
        usrbuf[off + i] := buf[ptr + i];
      }
      Pasted(usr, usrbuf[..], off, unread[..k]);
      ptr := ptr + k;
      cnt := cnt - k;
    }

    /** rio_read: up to n bytes into usrbuf from off on; at least one unless at the end. */
    method RioRead(usrbuf: array<Byte>, off: nat, n: nat) returns (r: int)
      requires Valid() && usrbuf != buf && n > 0 && off + n <= usrbuf.Length
      modifies this, buf, fd, usrbuf
      ensures Valid() && -1 <= r <= n && r <= |old(Ahead())|
      ensures r <= 0 ==> Ahead() == old(Ahead()) && usrbuf[..] == old(usrbuf[..])
      ensures r == 0 ==> Ahead() == []
      ensures r > 0 ==> usrbuf[..] == old(usrbuf[..off]) + old(Ahead())[..r] + old(usrbuf[off + r..])
      ensures r > 0 ==> Ahead() == old(Ahead())[r..]
      ensures NeverFails(old(fd.script)) ==> NeverFails(fd.script) && r != -1
      ensures Consumed(old(fd.script), fd.script, r == -1)
    {
      hide NeverFails, Consumed, Buffered;
      var filled := Refill();
      if filled <= 0 {
        return filled;
      }
      var k := n;
      if cnt < n {
        k := cnt;
      }
      BufferedSize();
      FrontOfTwo(Buffered(), fd.pending, k);
      CopyOut(usrbuf, off, k);
      return k;
    }

    /** rio_readnb: n bytes, or what there is until the end of the stream. */
    method ReadNb(usrbuf: array<Byte>, n: nat) returns (r: int)
      requires Valid() && usrbuf != buf && n <= usrbuf.Length
      modifies this, buf, fd, usrbuf
      ensures Valid() && -1 <= r <= n
      ensures r != -1 ==> r == Takes(ReadN(n), old(Ahead())) && Delivered(old(Ahead()), usrbuf[..], Ahead(), r)
      ensures r != -1 ==> usrbuf[r..] == old(usrbuf[..])[r..]
      ensures r == -1 ==> CutShort(old(Ahead()), usrbuf[..], Ahead(), n)
      ensures NeverFails(old(fd.script)) ==> NeverFails(fd.script) && r != -1
      ensures Consumed(old(fd.script), fd.script, r == -1)
    {
      hide NeverFails, Consumed, Delivered, CutShort, Takes, Buffered;
      ghost var ahead, usr, a, first := Ahead(), usrbuf[..], Ahead(), fd.script;
      ConsumedNeverFails();
      NothingDelivered(ahead, usr);
      NothingConsumed(first);
      var nleft: nat := n;
      while nleft > 0
        invariant Valid() && nleft <= n && usr == usrbuf[..] && a == Ahead() && Delivered(ahead, usr, a, n - nleft)
        invariant usrbuf[n - nleft..] == old(usrbuf[..])[n - nleft..]
        invariant Consumed(first, fd.script, false)
      {
        ghost var script := fd.script;
        var nread := RioRead(usrbuf, n - nleft, nleft);
        ConsumedMore(first, script, fd.script, nread == -1);
        if nread < 0 {
          IsCutShort(ahead, usr, a, n - nleft, n);
          return -1;
        } else if nread == 0 {
          break;
        }
        DeliveredMore(ahead, usr, a, n - nleft, usrbuf[..], Ahead(), nread);
        usr, a := usrbuf[..], Ahead();
        nleft := nleft - nread;
      }
      TakesN(ahead, usr, a, n - nleft, n);
      return n - nleft;
    }

    /** rio_readlineb: a line of at most maxlen - 1 bytes and a terminator. */
    method ReadLineb(usrbuf: array<Byte>, maxlen: nat) returns (r: int)
      requires Valid() && usrbuf != buf && usrbuf.Length >= 1 && maxlen <= usrbuf.Length
      modifies this, buf, fd, usrbuf
      ensures Valid() && -1 <= r && (maxlen > 0 ==> r < maxlen) && r < usrbuf.Length
      ensures r != -1 ==> r == Takes(ReadLine(maxlen), old(Ahead())) && Delivered(old(Ahead()), usrbuf[..], Ahead(), r)
      ensures r > 0 || (r == 0 && maxlen <= 1) ==> usrbuf[r] == 0 && Untouched(old(usrbuf[..]), usrbuf[..], r + 1)
      ensures r == 0 && maxlen > 1 ==> Untouched(old(usrbuf[..]), usrbuf[..], 0)
      ensures r == -1 ==> CutShort(old(Ahead()), usrbuf[..], Ahead(), maxlen)
      ensures NeverFails(old(fd.script)) ==> NeverFails(fd.script) && r != -1
      ensures Consumed(old(fd.script), fd.script, r == -1)
    {
      hide NeverFails, Consumed, Delivered, CutShort, Takes, NoNewline, Buffered, Untouched;
      ghost var ahead, usr, a, was, first := Ahead(), usrbuf[..], Ahead(), usrbuf[..], fd.script;
      ConsumedNeverFails();
      WhollyUntouched(was);
      NothingDelivered(ahead, usr);
      NothingConsumed(fd.script);
      var c := new Byte[1];
      var n: nat := 1;
      while n < maxlen
        invariant Valid() && 1 <= n && (n <= maxlen || n == 1)
        invariant usr == usrbuf[..] && a == Ahead() && Delivered(ahead, usr, a, n - 1) && NoNewline(ahead, n - 1)
        invariant Untouched(was, usr, n - 1)
        invariant Consumed(first, fd.script, false)
      {
        ghost var script := fd.script;
        var rc := RioRead(c, 0, 1);
        ConsumedMore(first, script, fd.script, rc == -1);
        if rc == 1 {
          usrbuf[n - 1] := c[0];
          OneMore(ahead, usr, a, n - 1, usrbuf[..], Ahead(), c[..], maxlen);
          UntouchedBehind(was, usr, n - 1, c[0]);
          usr, a := usrbuf[..], Ahead();
          if c[0] == NEWLINE {
            n := n + 1;
            break;
          }
        } else if rc == 0 {
          LineEnds(ahead, usr, a, n - 1, maxlen);
          if n == 1 {
            return 0;
          }
          break;
        } else {
          IsCutShort(ahead, usr, a, n - 1, maxlen);
          return -1;
        }
        n := n + 1;
      }
      LineFull(ahead, n - 1, maxlen);
      UntouchedBehind(was, usr, n - 1, 0);
      usrbuf[n - 1] := 0;
      Terminated(ahead, usr, a, n - 1, usrbuf[..]);
      return n - 1;
    }
  }

  /** The room that the client of a call offers. */
  function Room(c: Call): nat {
    match c
    case ReadN(n) => n
    case ReadLine(maxlen) => maxlen
  }

  /** Fewer than n bytes were taken from the front. */
  ghost predicate Skipped(ahead: seq<Byte>, ahead': seq<Byte>, n: nat) {
    exists lost: seq<Byte> :: |lost| < n && ahead == lost + ahead'
  }

  lemma CutShortSkips(ahead: seq<Byte>, usr: seq<Byte>, ahead': seq<Byte>, n: nat)
    requires CutShort(ahead, usr, ahead', n)
    ensures Skipped(ahead, ahead', n)
  {
    var k :| 0 <= k < n && Delivered(ahead, usr, ahead', k);
    assert ahead == ahead[..k] + ahead';
  }

  /** One call with a buffer of its own.  A failed call loses what it had taken so far. */
  method Perform(rio: Reader, call: Call) returns (failed: bool, answer: seq<Byte>)
    requires rio.Valid()
    modifies rio, rio.buf, rio.fd
    ensures rio.Valid()
    ensures NeverFails(old(rio.fd.script)) ==> NeverFails(rio.fd.script) && !failed
    ensures Consumed(old(rio.fd.script), rio.fd.script, failed)
    ensures !failed ==> var a := old(rio.Ahead()); var k := Takes(call, a); answer == a[..k] && rio.Ahead() == a[k..]
    ensures failed ==> answer == [] && Skipped(old(rio.Ahead()), rio.Ahead(), Room(call))
  {
    hide NeverFails, Consumed, Takes, Skipped;
    ghost var a := rio.Ahead();
    var usrbuf := new Byte[Room(call) + 1];
    var r;
    match call {
      case ReadN(n) => r := rio.ReadNb(usrbuf, n);
      case ReadLine(maxlen) => r := rio.ReadLineb(usrbuf, maxlen);
    }
    if r == -1 {
      CutShortSkips(a, usrbuf[..], rio.Ahead(), Room(call));
      return true, [];
    }
    return false, usrbuf[..r];
  }

  lemma FrontIs<T>(a: seq<T>, b: seq<T>, c: seq<T>)
    requires a + b == c
    ensures |a| <= |c| && a == c[..|a|]
  {
  }

  lemma SessionStarts(ahead: seq<Byte>, calls: seq<Call>)
    ensures [] + Answers(ahead, calls[0..]) == Answers(ahead, calls) && Concat([]) + ahead == ahead
  {
    assert calls[0..] == calls;
  }

  lemma Regrouped<T>(a: seq<T>, b: seq<T>, c: seq<T>)
    ensures a + (b + c) == (a + b) + c
  {
  }

  lemma {:induction false} ConcatOne(parts: seq<seq<Byte>>, x: seq<Byte>)
    ensures Concat(parts + [x]) == Concat(parts) + x
  {
    if parts == [] {
      assert [] + [x] == [x] && Concat([x]) == x + Concat([]);
    } else {
      assert (parts + [x])[1..] == parts[1..] + [x];
      ConcatOne(parts[1..], x);
    }
  }

  lemma AnswersStep(a: seq<Byte>, calls: seq<Call>, i: nat, answers: seq<seq<Byte>>, answer: seq<Byte>, a': seq<Byte>)
    requires i < |calls| && answer == a[..Takes(calls[i], a)] && a' == a[Takes(calls[i], a)..]
    ensures answers + Answers(a, calls[i..]) == (answers + [answer]) + Answers(a', calls[i + 1..])
    ensures Concat(answers + [answer]) + a' == Concat(answers) + a
  {
    hide Concat, Takes;
    assert calls[i..][1..] == calls[i + 1..];
    Regrouped(answers, [answer], Answers(a', calls[i + 1..]));
    ConcatOne(answers, answer);
    assert a == answer + a';
    Regrouped(Concat(answers), answer, a');
  }

  /** A client that mixes both kinds of calls and stops at the first failure: however read()
      splits the stream and however often it is interrupted, the answers are those of the
      unsplit stream. */
  method Session(rio: Reader, calls: seq<Call>) returns (failed: bool, answers: seq<seq<Byte>>)
    requires rio.Valid()
    modifies rio, rio.buf, rio.fd
    ensures rio.Valid() && |answers| <= |calls| == |Answers(old(rio.Ahead()), calls)|
    ensures answers == Answers(old(rio.Ahead()), calls)[..|answers|]
    ensures NeverFails(old(rio.fd.script)) ==> !failed
    ensures Consumed(old(rio.fd.script), rio.fd.script, failed)
    ensures !failed ==> |answers| == |calls| && Concat(answers) + rio.Ahead() == old(rio.Ahead())
    ensures failed ==> |answers| < |calls| && exists rest: seq<Byte> ::
      Concat(answers) + rest == old(rio.Ahead()) && Skipped(rest, rio.Ahead(), Room(calls[|answers|]))
  {
    hide NeverFails, Consumed, Takes, Answers, Concat, Skipped;
    ghost var ahead := rio.Ahead();
    NothingConsumed(rio.fd.script);
    failed := false;
    answers := [];
    SessionStarts(ahead, calls);
    AnswersAreAPrefix(ahead, calls);
    var i := 0;
    while i < |calls|
      invariant i <= |calls| && rio.Valid() && |answers| == i
      invariant NeverFails(old(rio.fd.script)) ==> NeverFails(rio.fd.script)
      invariant Consumed(old(rio.fd.script), rio.fd.script, false)
      invariant answers + Answers(rio.Ahead(), calls[i..]) == Answers(ahead, calls)
      invariant Concat(answers) + rio.Ahead() == ahead
    {
      ghost var a, script := rio.Ahead(), rio.fd.script;
      FrontIs(answers, Answers(a, calls[i..]), Answers(ahead, calls));
      var answer;
      failed, answer := Perform(rio, calls[i]);
      ConsumedMore(old(rio.fd.script), script, rio.fd.script, failed);
      if failed {
        return true, answers;
      }
      AnswersStep(a, calls, i, answers, answer, rio.Ahead());
      answers := answers + [answer];
      i := i + 1;
    }
    FrontIs(answers, Answers(rio.Ahead(), calls[i..]), Answers(ahead, calls));
    return false, answers;
  }
}
