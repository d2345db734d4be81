/** A WebSocket read as a byte stream (share/conn_ws.go). */
module ByteStream {
  import opened Wrappers

  function Flatten(messages: seq<seq<byte>>): seq<byte> {
    if messages == [] then [] else messages[0] + Flatten(messages[1..])
  }

  /** What is left of the last message, and the messages not read yet. */
  datatype Conn = Conn(buff: seq<byte>, messages: seq<seq<byte>>) {
    function Rest(): seq<byte> { buff + Flatten(messages) }
  }

  /** The first `n` bytes, or all of them. */
  function First(n: nat, s: seq<byte>): seq<byte> { if |s| <= n then s else s[..n] }

  function After(n: nat, s: seq<byte>): seq<byte> { if |s| <= n then [] else s[n..] }

  /** A read into a buffer of `size` bytes: what it delivers, or nothing if a message is needed
      and there is none or it cannot be read. */
  function ReadStep(c: Conn, size: nat, readable: bool): (Conn, Option<seq<byte>>) {
    if c.buff != [] then (c.(buff := After(size, c.buff)), Some(First(size, c.buff)))
    else if c.messages == [] || !readable then (c, None)
    else (Conn(After(size, c.messages[0]), c.messages[1..]), Some(First(size, c.messages[0])))
  }

  class WsConn {
    var buff: seq<byte>
    var messages: seq<seq<byte>>

    constructor (messages: seq<seq<byte>>)
      ensures Now() == Conn([], messages)
    {
      buff, this.messages := [], messages;
    }

    function Now(): Conn
      reads this
    {
      Conn(buff, messages)
    }

    /** Go's copy, from a source that fits. */
    method Copy(dst: array<byte>, src: seq<byte>)
      requires |src| <= dst.Length
      modifies dst
      ensures dst[..|src|] == src && dst[|src|..] == old(dst[|src|..])
    {
      for i := 0 to |src|
        invariant dst[..i] == src[..i] && dst[|src|..] == old(dst[|src|..])
      {
        dst[i] := src[i];
      }
    }

    method Read(dst: array<byte>, readable: bool) returns (n: nat, ok: bool)
      modifies this, dst
      ensures n <= dst.Length && dst[n..] == old(dst[n..])
      ensures (Now(), if ok then Some(dst[..n]) else None) == ReadStep(old(Now()), dst.Length, readable)
      ensures ok <==> |old(buff)| > 0 || (|old(messages)| > 0 && readable)
      ensures !ok ==> n == 0 && Now() == old(Now())
      ensures ok ==> var src := if |old(buff)| > 0 then old(buff) else old(messages)[0];
                     n == (if |src| <= dst.Length then |src| else dst.Length) &&
                     dst[..n] == src[..n] && buff == src[n..] &&
                     messages == if |old(buff)| > 0 then old(messages) else old(messages)[1..]
    {
      var src: seq<byte>;
      if |buff| > 0 {
        src := buff;
        buff := [];
      } else if |messages| > 0 && readable {
        src := messages[0];
        messages := messages[1..];
      } else {
        return 0, false;
      }
      if |src| > dst.Length {
        Copy(dst, src[..dst.Length]);
        buff := src[dst.Length..];
        n := dst.Length;
      } else {
        Copy(dst, src);
        n := |src|;
      }
      ok := true;
    }
  }

  // ---- Sequences of reads ----

  datatype Read = Read(size: nat, readable: bool)

  function Run(c: Conn, calls: seq<Read>): Conn {
    if calls == [] then c
    else
      var last := calls[|calls| - 1];
      ReadStep(Run(c, calls[..|calls| - 1]), last.size, last.readable).0
  }

  /** All that the reads deliver. */
  function Delivered(c: Conn, calls: seq<Read>): seq<byte> {
    if calls == [] then []
    else
      var front, last := calls[..|calls| - 1], calls[|calls| - 1];
      var out := ReadStep(Run(c, front), last.size, last.readable).1;
      Delivered(c, front) + if out.Some? then out.value else []
  }

  lemma StepConserves(c: Conn, size: nat, readable: bool)
    ensures var (after, out) := ReadStep(c, size, readable);
            c.Rest() == (if out.Some? then out.value else []) + after.Rest()
  {
    if c.buff == [] && c.messages != [] {
      assert c.messages[0] == First(size, c.messages[0]) + After(size, c.messages[0]);
    } else {
      assert c.buff == First(size, c.buff) + After(size, c.buff);
    }
  }

  /** No byte is lost, repeated or moved: after any reads into buffers of any sizes, failed reads
      included, what was delivered, then the left-over, then the messages not read make up the
      stream. */
  lemma {:induction false} BytesConserved(messages: seq<seq<byte>>, calls: seq<Read>)
    ensures var c := Conn([], messages);
            Delivered(c, calls) + Run(c, calls).buff + Flatten(Run(c, calls).messages) == Flatten(messages)
  {
    var c := Conn([], messages);
    if calls != [] {
      var front, last := calls[..|calls| - 1], calls[|calls| - 1];
      BytesConserved(messages, front);
      StepConserves(Run(c, front), last.size, last.readable);
    }
  }

  /** A read goes no further than the message it is in: it delivers something of it, or all of it
      when it is empty. */
  lemma ReadMakesProgress(c: Conn, size: nat, readable: bool)
    requires size > 0 && ReadStep(c, size, readable).1.Some?
    ensures var (after, out) := ReadStep(c, size, readable);
            (after.messages == c.messages && 0 < |out.value| <= size && |after.buff| == |c.buff| - |out.value|) ||
            (c.buff == [] && c.messages != [] && after.messages == c.messages[1..] &&
                out.value + after.buff == c.messages[0] && (out.value == [] ==> c.messages[0] == []))
  {}
}
