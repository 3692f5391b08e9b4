/**
The streaming relay of harness/clients/session_inject_proxy.py: whatever pieces the upstream body arrives in are written
as HTTP chunks. The reader follows section 7.1 of RFC 9112.
*/
module ChunkedRelay {
  import opened LittleEndian
  import opened PipeFraming
  import opened Wrappers
  import Seqs

  const CR: Byte := 13
  const LF: Byte := 10

  // ---- hexadecimal

  /** The upper-case hexadecimal digit, as the "X" format writes it. */
  function Digit(d: nat): Byte
    requires d < 16
  {
    if d < 10 then 48 + d else 55 + d
  }

  /** The value of a HEXDIG, upper or lower case. */
  function DigitValue(b: Byte): Option<nat> {
    if 48 <= b <= 57 then Some(b - 48)
    else if 65 <= b <= 70 then Some(b - 55)
    else if 97 <= b <= 102 then Some(b - 87)
    else None
  }

  function Hex(n: nat): (b: Bytes)
    ensures b != [] && (n > 0 ==> b[0] != 48)
    ensures forall i :: 0 <= i < |b| ==> 48 <= b[i] <= 57 || 65 <= b[i] <= 70
  {
    if n < 16 then [Digit(n)] else Hex(n / 16) + [Digit(n % 16)]
  }

  /** Reads the longest run of digits, continuing a value. */
  function ReadHex(b: Bytes, value: nat): (nat, Bytes) {
    if b == [] || DigitValue(b[0]).None? then (value, b)
    else ReadHex(b[1..], value * 16 + DigitValue(b[0]).value)
  }

  lemma {:induction false} HexReadsBack(n: nat, rest: Bytes)
    ensures ReadHex(Hex(n) + rest, 0) == ReadHex(rest, n)
  {
    if n < 16 {
      assert (Hex(n) + rest)[1..] == rest;
    } else {
      var tail := [Digit(n % 16)] + rest;
      assert Hex(n) + rest == Hex(n / 16) + tail;
      HexReadsBack(n / 16, tail);
      assert tail[1..] == rest;
    }
  }

  // ---- the chunked coding

  function WriteChunk(data: Bytes): Bytes { Hex(|data|) + ([CR, LF] + (data + [CR, LF])) }

  const TERMINAL: Bytes := [48, CR, LF, CR, LF]

  function WriteChunks(chunks: seq<Bytes>): Bytes {
    if chunks == [] then [] else WriteChunk(chunks[0]) + WriteChunks(chunks[1..])
  }

  function StartsWithBreak(b: Bytes): bool { |b| >= 2 && b[0] == 13 && b[1] == 10 }

  /** One chunk: size line, data, line break. The size 0 is the last chunk. */
  function ReadChunk(b: Bytes): Option<(Bytes, Bytes)> {
    if b == [] || DigitValue(b[0]).None? then None
    else
      var (n, b1) := ReadHex(b, 0);
      if !StartsWithBreak(b1) then None
      else if |b1| < 2 + n + 2 || !StartsWithBreak(b1[2 + n..]) then None
      else Some((b1[2..2 + n], b1[2 + n + 2..]))
  }

  /** The body up to and including the last chunk (without trailer fields), and what follows it. */
  function ReadBody(b: Bytes): Option<(Bytes, Bytes)>
    decreases |b|
  {
    match ReadChunk(b)
    case None => None
    case Some((data, rest)) =>
      if |rest| >= |b| then None
      else if data == [] then Some(([], rest))
      else match ReadBody(rest)
        case None => None
        case Some((more, rest')) => Some((data + more, rest'))
  }

  lemma ChunkReadsBack(data: Bytes, rest: Bytes)
    ensures ReadChunk(WriteChunk(data) + rest) == Some((data, rest))
    ensures |rest| < |WriteChunk(data) + rest|
  {
    var tail := [CR, LF] + (data + [CR, LF]) + rest;
    var b := WriteChunk(data) + rest;
    Seqs.Assoc(Hex(|data|), [CR, LF] + (data + [CR, LF]), rest);
    assert b == Hex(|data|) + tail;
    HexReadsBack(|data|, tail);
    HexStarts(|data|);
    assert b[0] == Hex(|data|)[0];
    assert tail[0] == CR && tail[1] == LF;
    assert tail[2..2 + |data|] == data;
    assert tail[2 + |data|] == CR && tail[2 + |data| + 1] == LF;
    assert tail[2 + |data| + 2..] == rest;
  }

  lemma {:induction false} HexStarts(n: nat)
    ensures DigitValue(Hex(n)[0]).Some?
  {
    if n >= 16 {
      HexStarts(n / 16);
      assert Hex(n)[0] == Hex(n / 16)[0];
    }
  }

  /** The literal terminator is the chunk of size zero. */
  lemma TerminalIsEmptyChunk()
    ensures WriteChunk([]) == TERMINAL == [48, 13, 10, 13, 10]
  {}

  function Join(chunks: seq<Bytes>): Bytes { if chunks == [] then [] else chunks[0] + Join(chunks[1..]) }

  /** A reader recovers the concatenation of any non-empty chunks and stops behind the terminal chunk. */
  lemma {:induction false} ChunksReadBack(chunks: seq<Bytes>, rest: Bytes)
    requires forall i :: 0 <= i < |chunks| ==> chunks[i] != []
    ensures ReadBody(WriteChunks(chunks) + TERMINAL + rest) == Some((Join(chunks), rest))
  {
    hide ReadChunk, WriteChunk;
    var b := WriteChunks(chunks) + TERMINAL + rest;
    if chunks == [] {
      TerminalIsEmptyChunk();
      ChunkReadsBack([], rest);
      assert b == WriteChunk([]) + rest;
    } else {
      var more := WriteChunks(chunks[1..]) + TERMINAL + rest;
      assert b == WriteChunk(chunks[0]) + more;
      ChunkReadsBack(chunks[0], more);
      ChunksReadBack(chunks[1..], rest);
    }
  }

  /** The relay loop: however the upstream body is split into reads of at most 4096 bytes, the client recovers it. */
  method Relay(upstream: Pipe) returns (wire: Bytes, chunks: seq<Bytes>)
    modifies upstream
    ensures upstream.pending == []
    ensures wire == WriteChunks(chunks) + TERMINAL && Join(chunks) == old(upstream.pending)
    ensures forall i :: 0 <= i < |chunks| ==> 0 < |chunks[i]| <= 4096
    ensures forall rest :: ReadBody(wire + rest) == Some((old(upstream.pending), rest))
  {
    hide ReadBody, WriteChunk;
    wire, chunks := [], [];
    while true
      invariant wire == WriteChunks(chunks) && Join(chunks) + upstream.pending == old(upstream.pending)
      invariant forall i :: 0 <= i < |chunks| ==> 0 < |chunks[i]| <= 4096
      decreases |upstream.pending|
    {
      var chunk := upstream.Read(4096);
      if chunk == [] {
        break;
      }
      ChunksSnoc(chunks, chunk);
      Seqs.Assoc(Join(chunks), chunk, upstream.pending);
      wire := wire + WriteChunk(chunk);
      chunks := chunks + [chunk];
    }
    assert Join(chunks) + [] == Join(chunks);
    wire := wire + TERMINAL;
    forall rest ensures ReadBody(wire + rest) == Some((Join(chunks), rest)) { ChunksReadBack(chunks, rest); }
  }

  lemma {:induction false} ChunksSnoc(chunks: seq<Bytes>, c: Bytes)
    ensures WriteChunks(chunks + [c]) == WriteChunks(chunks) + WriteChunk(c)
    ensures Join(chunks + [c]) == Join(chunks) + c
  {
    hide WriteChunk;
    if chunks == [] {
      assert chunks + [c] == [c] && [c][1..] == [];
    } else {
      assert (chunks + [c])[1..] == chunks[1..] + [c];
      ChunksSnoc(chunks[1..], c);
      Seqs.Assoc(WriteChunk(chunks[0]), WriteChunks(chunks[1..]), WriteChunk(c));
      Seqs.Assoc(chunks[0], Join(chunks[1..]), c);
    }
  }
}
