/**
 * The inbound byte stream (the port's standard input) and the full-read helper erlxc_read.
 *
 * The stream is what the Erlang side has written so far, as the chunks one read(2) may see:
 * a read asking for n bytes gets at most n bytes of the current chunk, and the remainder of a
 * chunk stays for the next read. Eof and Error make every further read return 0 and -1.
 */
module Stream {
  import opened Bytes

  datatype Chunk = Data(bytes: seq<byte>) | Eof | Error

  /** What one read(2) call returns, the bytes it stores and the stream left behind. */
  datatype ReadResult = ReadResult(count: int, bytes: seq<byte>, rest: seq<Chunk>)

  /** What erlxc_read returns, every byte it stored in the caller's buffer, and the stream left. */
  datatype Filled = Filled(r: int, bytes: seq<byte>, rest: seq<Chunk>)

  /** The bytes that reads deliver before the first read that returns 0 or less. */
  function Avail(s: seq<Chunk>): seq<byte>
  {
    if s == [] then []
    else match s[0]
      case Data(d) => if d == [] then [] else d + Avail(s[1..])
      case _ => []
  }

  /** What a read returns once Avail(s) is used up: -1 after an error, 0 at end of file. */
  function EndCode(s: seq<Chunk>): int
  {
    if s == [] then 0
    else match s[0]
      case Data(d) => if d == [] then 0 else EndCode(s[1..])
      case Eof => 0
      case Error => -1
  }

  /** One read(STDIN_FILENO, p, n) call. */
  function SysRead(s: seq<Chunk>, n: nat): (r: ReadResult)
    ensures r.count <= n
    ensures r.count > 0 ==> |r.bytes| == r.count && Avail(s) == r.bytes + Avail(r.rest)
    ensures r.count > 0 ==> EndCode(r.rest) == EndCode(s)
    ensures r.count <= 0 <==> n == 0 || Avail(s) == []
    ensures r.count <= 0 ==> r.bytes == [] && r.rest == s
    ensures r.count <= 0 && n > 0 ==> r.count == EndCode(s)
  {
    if n == 0 || s == [] then ReadResult(0, [], s)
    else match s[0]
      case Eof => ReadResult(0, [], s)
      case Error => ReadResult(-1, [], s)
      case Data(d) =>
        if d == [] then ReadResult(0, [], s)
        else if |d| <= n then ReadResult(|d|, d, s[1..])
        else
          assert Avail([Data(d[n..])] + s[1..]) == d[n..] + Avail(s[1..]);
          assert d == d[..n] + d[n..];
          ReadResult(n, d[..n], [Data(d[n..])] + s[1..])
  }

  /**
   * erlxc_read(buf, len) after `got` bytes are already in place: each round asks read(2) for the
   * len - got bytes still missing; a read returning 0 or less is returned as it is, and once
   * the buffer is full the result is len.
   */
  function Fill(s: seq<Chunk>, len: nat, got: nat): (f: Filled)
    requires got < len || got == 0
    ensures f.r == len || (f.r <= 0 && f.r == EndCode(s) && Avail(f.rest) == [])
    ensures |f.bytes| <= len - got
    ensures Avail(s) == f.bytes + Avail(f.rest)
    ensures f.r == len ==> |f.bytes| == len - got
    decreases len - got
  {
    var rd := SysRead(s, len - got);
    if rd.count <= 0 then Filled(rd.count, [], s)
    else if got + rd.count < len then
      var f := Fill(rd.rest, len, got + rd.count);
      Filled(f.r, rd.bytes + f.bytes, f.rest)
    else Filled(len, rd.bytes, rd.rest)
  }

  /**
   * erlxc_read fills the buffer exactly when the stream still holds the missing bytes: it then
   * stores the next len - got bytes of the stream and no more; otherwise it stores everything
   * the stream had and returns the first non-positive read, 0 or -1.
   */
  lemma {:induction false} FillMeetsAvail(s: seq<Chunk>, len: nat, got: nat)
    requires got < len || got == 0
    ensures Fill(s, len, got).r == len <==> |Avail(s)| >= len - got
    ensures |Avail(s)| >= len - got ==>
              Fill(s, len, got).bytes == Avail(s)[..len - got] &&
              Avail(Fill(s, len, got).rest) == Avail(s)[len - got..]
    ensures |Avail(s)| < len - got ==>
              Fill(s, len, got).bytes == Avail(s) && Fill(s, len, got).r == EndCode(s) <= 0
    decreases len - got
  {
    var rd := SysRead(s, len - got);
    if rd.count > 0 && got + rd.count < len {
      FillMeetsAvail(rd.rest, len, got + rd.count);
    }
  }
}
