/** The framing of a client connection: messages end with byte 4. */
module MessageFraming {
  import opened Options

  const TERMINATOR: char := 4 as char

  function Find(s: string): (i: nat)
    ensures i <= |s| && (forall k | 0 <= k < i :: s[k] != TERMINATOR) && (i < |s| ==> s[i] == TERMINATOR)
  {
    if s == "" || s[0] == TERMINATOR then 0 else 1 + Find(s[1..])
  }

  /** The messages of a stream; what follows the last terminator is not one. */
  function Messages(s: string): seq<string>
    decreases |s|
  {
    if Find(s) == |s| then [] else [s[..Find(s)]] + Messages(s[Find(s) + 1..])
  }

  /** What successful reads bring; an empty entry is a failed read. */
  function Stream(pieces: seq<string>): string {
    if pieces == [] || pieces[0] == "" then "" else pieces[0] + Stream(pieces[1..])
  }

  /** One call: the message, if any, the new buffer and the reads left over. A failed
      call drops what it has read and leaves the buffer. */
  function ReadMessage(buffer: string, pieces: seq<string>): (Option<string>, string, seq<string>) {
    var i := Find(buffer);
    if i < |buffer| then (Some(buffer[..i]), buffer[i + 1..], pieces) else Gather(buffer, buffer, pieces)
  }

  function Gather(buffer: string, msg: string, pieces: seq<string>): (Option<string>, string, seq<string>)
    decreases |pieces|
  {
    if pieces == [] || pieces[0] == "" then (None, buffer, pieces)
    else
      var i := Find(pieces[0]);
      if i < |pieces[0]| then (Some(msg + pieces[0][..i]), pieces[0][i + 1..], pieces[1..])
      else Gather(buffer, msg + pieces[0], pieces[1..])
  }

  /** The messages of all calls up to the first that fails. */
  function Session(buffer: string, pieces: seq<string>): seq<string>
    decreases |buffer + Stream(pieces)|
  {
    var (m, rest, left) := ReadMessage(buffer, pieces);
    if m == None then []
    else
      ReadConserves(buffer, pieces);
      [m.value] + Session(rest, left)
  }

  lemma FindIs(s: string, i: nat)
    requires i <= |s| && (forall k | 0 <= k < i :: s[k] != TERMINATOR) && (i < |s| ==> s[i] == TERMINATOR)
    ensures Find(s) == i
  {}

  /** A successful call takes exactly the first message and its terminator off the
      stream; a failed one means that no terminator is left in it. */
  lemma ReadConserves(buffer: string, pieces: seq<string>)
    ensures var (m, rest, left) := ReadMessage(buffer, pieces);
            if m.Some?
            then TERMINATOR !in m.value
                 && buffer + Stream(pieces) == m.value + [TERMINATOR] + (rest + Stream(left))
            else rest == buffer && TERMINATOR !in buffer + Stream(pieces)
  {
    var i := Find(buffer);
    if i < |buffer| {
      assert buffer == buffer[..i] + [TERMINATOR] + buffer[i + 1..];
    } else {
      assert buffer == buffer[..i];
      GatherConserves(buffer, buffer, pieces);
    }
  }

  lemma {:induction false} GatherConserves(buffer: string, msg: string, pieces: seq<string>)
    requires TERMINATOR !in msg
    ensures var (m, rest, left) := Gather(buffer, msg, pieces);
            if m.Some?
            then TERMINATOR !in m.value
                 && msg + Stream(pieces) == m.value + [TERMINATOR] + (rest + Stream(left))
            else rest == buffer && TERMINATOR !in msg + Stream(pieces)
    decreases |pieces|
  {
    if pieces != [] && pieces[0] != "" {
      var i, s := Find(pieces[0]), Stream(pieces[1..]);
      if i < |pieces[0]| {
        assert pieces[0] == pieces[0][..i] + [TERMINATOR] + pieces[0][i + 1..];
        assert msg + Stream(pieces) == (msg + pieces[0][..i]) + [TERMINATOR] + (pieces[0][i + 1..] + s);
      } else {
        assert pieces[0] == pieces[0][..i];
        GatherConserves(buffer, msg + pieces[0], pieces[1..]);
        assert msg + Stream(pieces) == (msg + pieces[0]) + s;
      }
    }
  }

  /** A call that fails has taken every read before the one that failed. */
  lemma {:induction false} FailsAtFailedRead(buffer: string, msg: string, pieces: seq<string>)
    ensures var (m, rest, left) := Gather(buffer, msg, pieces);
            m.None? ==> |left| <= |pieces| && left == pieces[|pieces| - |left|..]
                        && (left == [] || left[0] == "")
                        && forall j | 0 <= j < |pieces| - |left| :: pieces[j] != ""
    decreases |pieces|
  {
    if pieces != [] && pieces[0] != "" && Find(pieces[0]) == |pieces[0]| {
      FailsAtFailedRead(buffer, msg + pieces[0], pieces[1..]);
    }
  }

  /** A session delivers the stream split at the terminators, however the reads cut it. */
  lemma {:induction false} SessionSplits(buffer: string, pieces: seq<string>)
    ensures Session(buffer, pieces) == Messages(buffer + Stream(pieces))
    decreases |buffer + Stream(pieces)|
  {
    ReadConserves(buffer, pieces);
    var all := buffer + Stream(pieces);
    var (m, rest, left) := ReadMessage(buffer, pieces);
    if m.Some? {
      FindIs(all, |m.value|);
      assert all[|m.value| + 1..] == rest + Stream(left);
      assert all[..|m.value|] == m.value;
      SessionSplits(rest, left);
    } else {
      FindIs(all, |all|);
    }
  }

  /** The byte that ends a message is byte 4. */
  lemma Byte4Ends(m: string, rest: string)
    requires forall i | 0 <= i < |m| :: m[i] as int != 4
    ensures Messages(m + [4 as char] + rest) == [m] + Messages(rest)
  {
    var all := m + [4 as char] + rest;
    FindIs(all, |m|);
    assert all[..|m|] == m && all[|m| + 1..] == rest;
  }

  function Framed(messages: seq<string>): string {
    if messages == [] then "" else messages[0] + [TERMINATOR] + Framed(messages[1..])
  }

  /** Messages without the terminator, each followed by one, are delivered as they are. */
  lemma {:induction false} FramedMessages(messages: seq<string>, tail: string)
    requires forall m | m in messages :: TERMINATOR !in m
    requires TERMINATOR !in tail
    ensures Messages(Framed(messages) + tail) == messages
  {
    if messages == [] {
      assert Framed(messages) + tail == tail;
      FindIs(tail, |tail|);
    } else {
      var m := messages[0];
      var later := Framed(messages[1..]) + tail;
      assert Framed(messages) + tail == m + [4 as char] + later;
      hide Framed, Messages;
      assert m in messages;
      assert forall k | 0 <= k < |m| :: m[k] in m && m[k] as int != 4;
      Byte4Ends(m, later);
      FramedMessages(messages[1..], tail);
    }
  }

  lemma CutsDoNotMatter(buffer: string, pieces: seq<string>, others: seq<string>)
    requires Stream(pieces) == Stream(others)
    ensures Session(buffer, pieces) == Session(buffer, others)
  {
    SessionSplits(buffer, pieces);
    SessionSplits(buffer, others);
  }

  class ClientConnection {
    var msg: string
    var msgbuf: string

    constructor ()
      ensures msg == "" && msgbuf == ""
    {
      msg, msgbuf := "", "";
    }

    /** Reads until a message is complete; `used` of the given reads are taken. */
    method ReadNext(pieces: seq<string>) returns (ok: bool, used: nat)
      modifies this
      ensures used <= |pieces|
      ensures (if ok then Some(msg) else None, msgbuf, pieces[used..]) == ReadMessage(old(msgbuf), pieces)
      ensures !ok ==> msg == old(msg)
    {
      var gathered := "";
      used := 0;
      if |msgbuf| > 0 {
        var len := Find(msgbuf);
        if len < |msgbuf| {
          msg := msgbuf[..len];
          msgbuf := msgbuf[len + 1..];
          return true, 0;
        }
        gathered := gathered + msgbuf;
      }
      assert pieces[0..] == pieces && Find(msgbuf) == |msgbuf| && gathered == msgbuf;
      while used < |pieces| && pieces[used] != ""
        invariant used <= |pieces|
        invariant Gather(msgbuf, gathered, pieces[used..]) == ReadMessage(msgbuf, pieces)
      {
        var tstr := pieces[used];
        assert pieces[used..][1..] == pieces[used + 1..];
        used := used + 1;
        var len := Find(tstr);
        if len < |tstr| {
          gathered := gathered + tstr[..len];
          msg := gathered;
          msgbuf := tstr[len + 1..];
          return true, used;
        }
        gathered := gathered + tstr;
      }
      ok := false;
    }
  }
}
