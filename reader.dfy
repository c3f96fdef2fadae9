/** The byte-at-a-time readers Emulator::read_until_da1 and
    Emulator::read_until_dsr. The terminal's input is a finite byte array;
    running out of it stands for EOF, a read error or the timeout, after which
    the bytes read so far are returned. */
module ResponseReader {
  import opened Bytes

  const LOWER_C: Byte := 0x63
  const LOWER_N: Byte := 0x6E

  /** [ ? — what the segment after the last ESC starts with in a DA1 reply. */
  const Da1Head: seq<Byte> := [0x5B, 0x3F]

  /** ESC [ 0 n — DSR "terminal OK". */
  const DsrOk: seq<Byte> := [ESC, 0x5B, 0x30, 0x6E]

  /** ESC [ 3 n — DSR "malfunction". */
  const DsrFault: seq<Byte> := [ESC, 0x5B, 0x33, 0x6E]

  /** The stop test of read_until_da1 after a byte is pushed: the byte is 'c',
      the buffer holds an ESC, and what follows the last ESC starts with "[?". */
  predicate Da1Terminated(buf: seq<Byte>) {
    && |buf| > 0 && buf[|buf| - 1] == LOWER_C
    && ESC in buf
    && StartsWith(AfterLast(buf, ESC), Da1Head)
  }

  /** The stop test of read_until_dsr after a byte is pushed: the byte is 'n'
      and the buffer ends with ESC [ 0 n or ESC [ 3 n. */
  predicate DsrTerminated(buf: seq<Byte>) {
    && |buf| > 0 && buf[|buf| - 1] == LOWER_N
    && (EndsWith(buf, DsrOk) || EndsWith(buf, DsrFault))
  }

  /** The bytes a reader returns when its first n bytes have been read without
      stopping: it reads on until the buffer passes done or input runs out. */
  function Scan(input: seq<Byte>, done: seq<Byte> -> bool, n: nat): (r: seq<Byte>)
    requires n <= |input|
    ensures n <= |r| <= |input| && r == input[..|r|]
    ensures done(r) || r == input
    ensures forall k :: n < k < |r| ==> !done(input[..k])
    decreases |input| - n
  {
    if n == |input| then input
    else if done(input[..n + 1]) then input[..n + 1]
    else Scan(input, done, n + 1)
  }

  /** What read_until_da1 returns: the shortest prefix of the input that ends
      a DA1 reply, or all of the input if none does. */
  function Da1Reply(input: seq<Byte>): (r: seq<Byte>)
    ensures |r| <= |input| && r == input[..|r|]
    ensures Da1Terminated(r) || r == input
    ensures forall k :: 0 <= k < |r| ==> !Da1Terminated(input[..k])
  {
    Scan(input, Da1Terminated, 0)
  }

  /** What read_until_dsr returns: the shortest prefix of the input that ends
      with a DSR reply, or all of the input if none does. */
  function DsrReply(input: seq<Byte>): (r: seq<Byte>)
    ensures |r| <= |input| && r == input[..|r|]
    ensures DsrTerminated(r) || r == input
    ensures forall k :: 0 <= k < |r| ==> !DsrTerminated(input[..k])
  {
    Scan(input, DsrTerminated, 0)
  }

  /** Emulator::read_until_da1: push one byte at a time into buf, stop when
      the DA1 test passes; on exhausted input return everything read. */
  method ReadUntilDa1(input: array<Byte>) returns (buf: seq<Byte>)
    ensures buf == Da1Reply(input[..])
  {
    buf := [];
    var i := 0;
    while i < input.Length
      invariant 0 <= i <= input.Length
      invariant buf == input[..i]
      invariant Scan(input[..], Da1Terminated, i) == Da1Reply(input[..])
    {
      var c := input[i];
      buf := buf + [c];
      i := i + 1;
      assert buf == input[..][..i];
      if c == LOWER_C && ESC in buf && StartsWith(AfterLast(buf, ESC), Da1Head) {
        return;
      }
    }
  }

  /** Emulator::read_until_dsr: push one byte at a time into buf, stop when
      the buffer ends with a DSR reply; on exhausted input return everything read. */
  method ReadUntilDsr(input: array<Byte>) returns (buf: seq<Byte>)
    ensures buf == DsrReply(input[..])
  {
    buf := [];
    var i := 0;
    while i < input.Length
      invariant 0 <= i <= input.Length
      invariant buf == input[..i]
      invariant Scan(input[..], DsrTerminated, i) == DsrReply(input[..])
    {
      var c := input[i];
      buf := buf + [c];
      i := i + 1;
      assert buf == input[..][..i];
      if c == LOWER_N && (EndsWith(buf, DsrOk) || EndsWith(buf, DsrFault)) {
        return;
      }
    }
  }

  /** A DA1 reply ESC [ ? params c completes the buffer, whatever came before,
      provided the parameters hold no ESC. */
  lemma Da1ReplyTerminates(pre: seq<Byte>, params: seq<Byte>)
    requires ESC !in params
    ensures Da1Terminated(pre + [ESC] + Da1Head + params + [LOWER_C])
  {
    var buf := pre + [ESC] + Da1Head + params + [LOWER_C];
    var tail := Da1Head + params + [LOWER_C];
    assert buf == (pre + [ESC]) + tail;
    assert buf[|pre|] == ESC;
  }

  /** The byte test c == 'n' in read_until_dsr only short-cuts the suffix tests. */
  lemma DsrTerminatedIff(buf: seq<Byte>)
    ensures DsrTerminated(buf) <==> EndsWith(buf, DsrOk) || EndsWith(buf, DsrFault)
  {
  }

  /** No nonempty prefix of s passes the DA1 test: read_until_da1 reads
      through all of s without stopping. */
  predicate NoDa1Stop(s: seq<Byte>) {
    forall k :: 0 < k <= |s| ==> !Da1Terminated(s[..k])
  }

  /** No nonempty prefix of s passes the DSR test. */
  predicate NoDsrStop(s: seq<Byte>) {
    forall k :: 0 < k <= |s| ==> !DsrTerminated(s[..k])
  }

  /** Bytes without a 'c' never stop the DA1 reader. */
  lemma NoCNoDa1Stop(s: seq<Byte>)
    requires LOWER_C !in s
    ensures NoDa1Stop(s)
  {
    forall k | 0 < k <= |s|
      ensures !Da1Terminated(s[..k])
    {
      assert s[..k][k - 1] == s[k - 1];
    }
  }

  /** An escape string ESC intro body terminator whose intro is not '[' (an
      OSC, DCS or APC reply), ended by BEL or by ESC \, never stops the DA1
      reader, whatever 'c' bytes its body holds. */
  lemma EscStringNoDa1Stop(intro: Byte, body: seq<Byte>, st: seq<Byte>)
    requires intro != 0x5B && intro != ESC && ESC !in body
    requires st == [0x07] || st == [ESC, 0x5C]
    ensures NoDa1Stop([ESC, intro] + body + st)
  {
    var s := [ESC, intro] + body + st;
    var n := 2 + |body|;
    forall k | 0 < k <= |s|
      ensures !Da1Terminated(s[..k])
    {
      var t := s[..k];
      if t[k - 1] == LOWER_C {
        assert 1 < k <= n;
        var u := t[1..];
        assert u == ([intro] + body)[..k - 1];
        assert ESC !in u;
        AfterLastUnique(t, ESC, u);
        assert u[0] == intro;
      }
    }
  }

  /** Replies that each begin with ESC and never stop the reader do not stop
      it when read one after the other: the test only looks at the segment
      after the last ESC. */
  lemma NoDa1StopAppend(a: seq<Byte>, b: seq<Byte>)
    requires NoDa1Stop(a) && NoDa1Stop(b) && |b| > 0 && b[0] == ESC
    ensures NoDa1Stop(a + b)
  {
    var s := a + b;
    forall k | 0 < k <= |s|
      ensures !Da1Terminated(s[..k])
    {
      if k <= |a| {
        assert s[..k] == a[..k];
      } else {
        var t := b[..k - |a|];
        assert s[..k] == a + t;
        assert t[0] == ESC;
        AfterLastAppend(a, t, ESC);
        assert (a + t)[k - 1] == t[|t| - 1];
      }
    }
  }

  /** The DSR reader stops right after the first ESC [ 0 n or ESC [ 3 n when
      no earlier prefix passes its test; the bytes after it are not part of
      the result. */
  lemma {:induction false} DsrReplyAfter(pre: seq<Byte>, reply: seq<Byte>, post: seq<Byte>)
    requires reply == DsrOk || reply == DsrFault
    requires NoDsrStop(pre)
    ensures DsrReply(pre + reply + post) == pre + reply
  {
    var input := pre + reply + post;
    var n := |pre| + |reply|;
    assert input[..n] == pre + reply;
    DsrTerminatedIff(pre + reply);
    assert (pre + reply)[|pre|..] == reply;
    forall k | 0 < k < n
      ensures !DsrTerminated(input[..k])
    {
      if k <= |pre| {
        assert input[..k] == pre[..k];
      } else {
        assert input[..k][k - 1] == reply[k - 1 - |pre|];
      }
    }
    var r := DsrReply(input);
    assert !(|r| < n);
    assert !(|r| > n);
  }

  /** The DA1 reader stops right after a DA1 reply ESC [ ? params c when no
      earlier prefix passes its test; the bytes after it are not part of the
      result. */
  lemma {:induction false} Da1ReplyAfter(pre: seq<Byte>, params: seq<Byte>, post: seq<Byte>)
    requires NoDa1Stop(pre) && LOWER_C !in params && ESC !in params
    ensures Da1Reply(pre + [ESC] + Da1Head + params + [LOWER_C] + post)
            == pre + [ESC] + Da1Head + params + [LOWER_C]
  {
    var reply := pre + [ESC] + Da1Head + params + [LOWER_C];
    var input := reply + post;
    var n := |reply|;
    assert input[..n] == reply;
    Da1ReplyTerminates(pre, params);
    forall k | 0 < k < n
      ensures !Da1Terminated(input[..k])
    {
      if k <= |pre| {
        assert input[..k] == pre[..k];
      } else {
        assert input[..k][k - 1] == reply[k - 1];
        assert reply[k - 1] in [ESC] + Da1Head + params;
      }
    }
    var r := Da1Reply(input);
    assert !(|r| < n);
    assert !(|r| > n);
  }
}
