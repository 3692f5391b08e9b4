/**
The reply framing of PflashDaemon.compress in server/scripts/laguna_pflash_niah.py: int32 tokens on a pipe, ended by -1.
A read may return any non-empty part of what was asked for.
*/
module PipeFraming {
  import opened LittleEndian
  import opened Wrappers
  import Seqs

  const SENTINEL: int := -1

  /** The read end of the pipe, holding all bytes that will still arrive before end of file. */
  class Pipe {
    var pending: Bytes

    constructor (bytes: Bytes)
      ensures pending == bytes
    {
      pending := bytes;
    }

    /** os.read: any split of the stream into non-empty pieces of at most n bytes; nothing only at end of file. */
    method Read(n: nat) returns (chunk: Bytes)
      requires n > 0
      modifies this
      ensures old(pending) == chunk + pending && |chunk| <= n
      ensures chunk == [] <==> old(pending) == []
    {
      if pending == [] {
        return [];
      }
      var k: nat :| 1 <= k <= n && k <= |pending|;
      chunk := pending[..k];
      pending := pending[k..];
    }

    /** The inner loop: exactly four bytes, or end of file. */
    method ReadWord() returns (r: Option<Bytes>)
      modifies this
      ensures |old(pending)| >= 4 ==> r == Some(old(pending)[..4]) && pending == old(pending)[4..]
      ensures |old(pending)| < 4 ==> r == None && pending == []
    {
      var buf: Bytes := [];
      while |buf| < 4
        invariant |buf| <= 4 && old(pending) == buf + pending
        decreases |pending|
      {
        var chunk := Read(4 - |buf|);
        if chunk == [] {
          return None;
        }
        buf := buf + chunk;
      }
      return Some(buf);
    }

    /** One compress call, after its request was sent. None is the end-of-file error. */
    method Compress() returns (r: Option<seq<int>>)
      modifies this
      ensures match ReadReply(old(pending))
        case Some((tokens, rest)) => r == Some(tokens) && pending == rest
        case None => r == None
    {
      var out: seq<int> := [];
      PrependNothing(ReadReply(pending));
      while true
        invariant ReadReply(old(pending)) == Prepend(out, ReadReply(pending))
        decreases |pending|
      {
        var word := ReadWord();
        if word.None? {
          return None;
        }
        var val := DecodeI32(word.value);
        if val == SENTINEL {
          assert out + [] == out;
          return Some(out);
        }
        PrependStep(out, val, ReadReply(pending));
        out := out + [val];
      }
    }
  }

  function Prepend(xs: seq<int>, r: Option<(seq<int>, Bytes)>): Option<(seq<int>, Bytes)> {
    match r case None => None case Some((ys, rest)) => Some((xs + ys, rest))
  }

  lemma PrependNothing(r: Option<(seq<int>, Bytes)>)
    ensures Prepend([], r) == r
  {
    if r.Some? { assert [] + r.value.0 == r.value.0; }
  }

  lemma PrependStep(xs: seq<int>, x: int, r: Option<(seq<int>, Bytes)>)
    ensures Prepend(xs, Prepend([x], r)) == Prepend(xs + [x], r)
  {
    if r.Some? { assert xs + ([x] + r.value.0) == xs + [x] + r.value.0; }
  }

  /** What the bytes mean, with no reads in sight: the tokens up to the first sentinel and the bytes after it. */
  function ReadReply(b: Bytes): Option<(seq<int>, Bytes)>
    decreases |b|
  {
    if |b| < 4 then None
    else if DecodeI32(b[..4]) == -1 then Some(([], b[4..]))
    else Prepend([DecodeI32(b[..4])], ReadReply(b[4..]))
  }

  /** What the daemon writes for one reply. */
  function WriteReply(tokens: seq<int>): Bytes {
    if tokens == [] then EncodeI32(SENTINEL) else EncodeI32(tokens[0]) + WriteReply(tokens[1..])
  }

  lemma {:induction false} ReplyRoundTrip(tokens: seq<int>, rest: Bytes)
    requires -1 !in tokens && forall i :: 0 <= i < |tokens| ==> FitsI32(tokens[i])
    ensures ReadReply(WriteReply(tokens) + rest) == Some((tokens, rest))
  {
    var x := if tokens == [] then -1 else tokens[0];
    var b := WriteReply(tokens) + rest;
    DecodeEncodeI32(x);
    hide EncodeI32, DecodeI32;
    assert b[..4] == EncodeI32(x);
    if tokens == [] {
      assert b[4..] == rest;
    } else {
      Seqs.Assoc(EncodeI32(x), WriteReply(tokens[1..]), rest);
      assert b[4..] == WriteReply(tokens[1..]) + rest;
      ReplyRoundTrip(tokens[1..], rest);
      assert tokens == [x] + tokens[1..];
    }
  }

  lemma {:induction false} NoSentinelInside(b: Bytes)
    ensures ReadReply(b).Some? ==> -1 !in ReadReply(b).value.0
    decreases |b|
  {
    hide DecodeI32;
    if |b| >= 4 { NoSentinelInside(b[4..]); }
  }

  /** A reply comes back unchanged exactly when none of its tokens is -1. */
  lemma ReplyExact(tokens: seq<int>, rest: Bytes)
    requires forall i :: 0 <= i < |tokens| ==> FitsI32(tokens[i])
    ensures ReadReply(WriteReply(tokens) + rest) == Some((tokens, rest)) <==> -1 !in tokens
  {
    if -1 !in tokens {
      ReplyRoundTrip(tokens, rest);
    } else {
      NoSentinelInside(WriteReply(tokens) + rest);
    }
  }

  function WriteReplies(replies: seq<seq<int>>): Bytes {
    if replies == [] then [] else WriteReply(replies[0]) + WriteReplies(replies[1..])
  }

  ghost predicate Sendable(tokens: seq<int>) {
    -1 !in tokens && forall i :: 0 <= i < |tokens| ==> FitsI32(tokens[i])
  }

  /** However the pipe splits the bytes, successive compress calls return exactly their own replies and leave the stream
      just past the last sentinel. */
  method CompressMany(pipe: Pipe, ghost replies: seq<seq<int>>, n: nat, ghost rest: Bytes) returns (out: seq<seq<int>>)
    requires n == |replies| && (forall i :: 0 <= i < n ==> Sendable(replies[i]))
    requires pipe.pending == WriteReplies(replies) + rest
    modifies pipe
    ensures out == replies && pipe.pending == rest
  {
    hide ReadReply, WriteReply;
    out := [];
    for k := 0 to n
      invariant out == replies[..k] && pipe.pending == WriteReplies(replies[k..]) + rest
    {
      assert Sendable(replies[k]);
      assert replies[k..][0] == replies[k] && replies[k..][1..] == replies[k + 1..];
      Seqs.Assoc(WriteReply(replies[k]), WriteReplies(replies[k + 1..]), rest);
      ReplyRoundTrip(replies[k], WriteReplies(replies[k + 1..]) + rest);
      var r := pipe.Compress();
      out := out + [r.value];
    }
    assert replies[n..] == [] && [] + rest == rest;
  }
}
