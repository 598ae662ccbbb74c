// The transport the request parser and the line splitters read from: Go's
// `io.Reader`. A reader is modelled by the script of answers it will give;
// this generalises the `chunkReader` of the request tests, which delivers a
// fixed string a few bytes at a time and then reports end of file.

module Io {
  import opened Wrappers
  import opened Bytes

  /** What a failing `Read` reports: end of input or some other transport failure. */
  datatype ReadError = EOF | TransportError(code: int)

  /** One scripted answer: some bytes, or an error. */
  datatype Reply = Bytes(data: string) | Error(err: ReadError)

  /** A bound on the work left in a script: each reply counts one plus its length. */
  function Measure(rs: seq<Reply>): nat
  {
    if |rs| == 0 then 0
    else (match rs[0] case Bytes(s) => |s| + 1 case Error(_) => 1) + Measure(rs[1..])
  }

  /** The bytes a script delivers before its first error. */
  function Stream(rs: seq<Reply>): string
  {
    if |rs| == 0 then []
    else match rs[0]
      case Bytes(s) => s + Stream(rs[1..])
      case Error(_) => []
  }

  /** The error a script ends with; a script that runs out reports end of file. */
  function EndError(rs: seq<Reply>): ReadError
  {
    if |rs| == 0 then EOF
    else match rs[0]
      case Bytes(_) => EndError(rs[1..])
      case Error(e) => e
  }

  /** The byte strings successive `Read`s into a `cap`-byte slice return, up to the first error. */
  function Chunks(rs: seq<Reply>, cap: nat): (cs: seq<string>)
    requires cap > 0
    ensures forall k :: 0 <= k < |cs| ==> |cs[k]| <= cap
    decreases Measure(rs)
  {
    if |rs| == 0 then []
    else match rs[0]
      case Error(_) => []
      case Bytes(s) =>
        if |s| <= cap then [s] + Chunks(rs[1..], cap)
        else
          var rest := [Bytes(s[cap..])] + rs[1..];
          assert rest[0] == Bytes(s[cap..]) && rest[1..] == rs[1..];
          [s[..cap]] + Chunks(rest, cap)
  }

  /** However the reads are cut, together they deliver exactly the stream. */
  lemma {:induction false} ConcatChunks(rs: seq<Reply>, cap: nat)
    requires cap > 0
    ensures Concat(Chunks(rs, cap)) == Stream(rs)
    decreases Measure(rs)
  {
    if |rs| > 0 && rs[0].Bytes? {
      var s := rs[0].data;
      if |s| <= cap {
        var tail := Chunks(rs[1..], cap);
        assert ([s] + tail)[1..] == tail;
        ConcatChunks(rs[1..], cap);
      } else {
        var rest := [Bytes(s[cap..])] + rs[1..];
        assert rest[0] == Bytes(s[cap..]) && rest[1..] == rs[1..];
        var tail := Chunks(rest, cap);
        assert Chunks(rs, cap) == [s[..cap]] + tail;
        assert ([s[..cap]] + tail)[1..] == tail;
        assert Concat([s[..cap]] + tail) == s[..cap] + Concat(tail);
        ConcatChunks(rest, cap);
        var more := Stream(rs[1..]);
        assert Stream(rest) == s[cap..] + more;
        assert Stream(rs) == s + more;
        assert s[..cap] + (s[cap..] + more) == (s[..cap] + s[cap..]) + more;
        assert s == s[..cap] + s[cap..];
      }
    }
  }

  /** The script of the tests' `chunkReader`: `data`, at most `k` bytes per answer, then end of file. */
  function ChunkScript(data: string, k: nat): (rs: seq<Reply>)
    requires k > 0
    ensures forall i :: 0 <= i < |rs| ==> rs[i].Bytes? && 0 < |rs[i].data| <= k
    decreases |data|
  {
    if |data| == 0 then []
    else if |data| <= k then [Bytes(data)]
    else [Bytes(data[..k])] + ChunkScript(data[k..], k)
  }

  /** Whatever the chunk size, the chunk reader delivers exactly `data` and then reports end of file. */
  lemma {:induction false} ChunkScriptStream(data: string, k: nat)
    requires k > 0
    ensures Stream(ChunkScript(data, k)) == data && EndError(ChunkScript(data, k)) == EOF
    decreases |data|
  {
    if |data| > k {
      var rs := ChunkScript(data, k);
      assert rs[1..] == ChunkScript(data[k..], k);
      ChunkScriptStream(data[k..], k);
      assert data == data[..k] + data[k..];
    }
  }

  /** What one `Read` offered `room` bytes gives: the bytes it writes, the answers left, and its error. */
  datatype Answer = Answer(chunk: string, rest: seq<Reply>, err: Option<ReadError>)

  /** One `Read` against a script. An error, or running out, is reported with no bytes and leaves
      the script as it is; a non-empty reply fills at most `room` bytes and keeps what does not fit. */
  function ReadStep(rs: seq<Reply>, room: nat): (a: Answer)
    ensures |a.chunk| <= room
  {
    if |rs| == 0 then Answer([], rs, Some(EOF))
    else match rs[0]
      case Error(e) => Answer([], rs, Some(e))
      case Bytes(s) =>
        if |s| <= room then Answer(s, rs[1..], None)
        else Answer(s[..room], [Bytes(s[room..])] + rs[1..], None)
  }

  /** A read takes its bytes off the front of the stream, keeps the final error, and makes progress
      whenever it was offered room; a failing read happens only at the end of the stream. */
  lemma ReadStepStream(rs: seq<Reply>, room: nat, a: Answer)
    requires a == ReadStep(rs, room)
    ensures a.err.None? ==> Stream(rs) == a.chunk + Stream(a.rest)
    ensures a.err.Some? ==> a.chunk == [] && a.rest == rs && Stream(rs) == [] && a.err.value == EndError(rs)
    ensures EndError(a.rest) == EndError(rs)
    ensures room > 0 && a.err.None? ==> Measure(a.rest) < Measure(rs)
  {
    if |rs| > 0 && rs[0].Bytes? {
      var s := rs[0].data;
      if |s| > room {
        var rest := [Bytes(s[room..])] + rs[1..];
        assert rest[0] == Bytes(s[room..]) && rest[1..] == rs[1..];
        assert s == s[..room] + s[room..];
      }
    }
  }

  /** Successive reads with the same room return exactly the pieces `Chunks` cuts. */
  lemma ReadStepChunks(rs: seq<Reply>, room: nat)
    requires room > 0
    ensures var a := ReadStep(rs, room);
      && (a.err.None? <==> |Chunks(rs, room)| > 0)
      && (a.err.None? ==> Chunks(rs, room) == [a.chunk] + Chunks(a.rest, room))
  {
  }

  class Reader {
    /** The answers still to be given. */
    var replies: seq<Reply>

    constructor (replies: seq<Reply>)
      ensures this.replies == replies
    {
      this.replies := replies;
    }

    /** `Read(p[from:])`: fills a prefix of the offered tail of `p` and says how many bytes it wrote. */
    method Read(p: array<char>, from: nat) returns (n: nat, err: Option<ReadError>)
      requires from <= p.Length
      modifies this, p
      ensures from + n <= p.Length
      ensures p[..from] == old(p[..from]) && p[from + n..] == old(p[from + n..])
      ensures var a := ReadStep(old(replies), p.Length - from);
        p[from..from + n] == a.chunk && replies == a.rest && err == a.err
    {
      if |replies| == 0 {
        return 0, Some(EOF);
      }
      match replies[0]
      case Error(e) =>
        return 0, Some(e);
      case Bytes(s) =>
        var room := p.Length - from;
        n := if |s| <= room then |s| else room;
        forall i | 0 <= i < n {
          p[from + i] := s[i];
        }
        assert p[from..from + n] == s[..n];
        var rest := replies[1..];
        if n == |s| {
          replies := rest;
        } else {
          replies := [Bytes(s[n..])] + rest;
        }
        err := None;
    }
  }
}
