// getLinesChannel, which main.go and cmd/tcplistener/main.go define with the
// same loop: read into an 8-byte buffer until the reader fails, split what each
// read returned on '\n', and send the current line whenever a read held a
// newline; send what is left at the end if it is not empty. The channel
// becomes the sequence of strings sent on it, in order.

module Lines {
  import opened Wrappers
  import opened Bytes
  import opened Io

  /** The size of the read buffer. */
  const ReadSize: nat := 8

  const NL: char := '\n'

  /** The lines sent so far and the line being built. */
  datatype Pending = Pending(out: seq<string>, cur: string)

  /** One read as the loop handles it: without a newline the bytes extend the current line;
      otherwise everything before the last newline, newlines dropped, completes the current
      line, which is sent, and the bytes after the last newline start the next one. */
  function Consume(st: Pending, chunk: string): Pending
  {
    var parts := Split(chunk, NL);
    if |parts| == 1 then Pending(st.out, st.cur + parts[0])
    else Pending(st.out + [st.cur + Concat(parts[..|parts| - 1])], parts[|parts| - 1])
  }

  /** The reads one after the other. */
  function ConsumeAll(st: Pending, chunks: seq<string>): Pending
    decreases |chunks|
  {
    if |chunks| == 0 then st else ConsumeAll(Consume(st, chunks[0]), chunks[1..])
  }

  /** After the loop: the current line is sent when it is not empty. */
  function Flush(st: Pending): seq<string>
  {
    if |st.cur| > 0 then st.out + [st.cur] else st.out
  }

  /** The strings `getLinesChannel` sends for a reader with script `rs`. */
  function LinesAsWritten(rs: seq<Reply>): seq<string>
  {
    Flush(ConsumeAll(Pending([], []), Chunks(rs, ReadSize)))
  }

  /** `getLinesChannel`: the loop over reads with its 8-byte buffer. */
  method GetLinesChannel(reader: Reader) returns (lines: seq<string>)
    modifies reader
    ensures lines == LinesAsWritten(old(reader.replies))
    ensures Stream(reader.replies) == [] && EndError(reader.replies) == EndError(old(reader.replies))
  {
    var buff := new char[ReadSize];
    var curLine: string := [];
    lines := [];
    ghost var start := reader.replies;
    while true
      invariant buff.Length == ReadSize
      invariant ConsumeAll(Pending(lines, curLine), Chunks(reader.replies, ReadSize))
             == ConsumeAll(Pending([], []), Chunks(start, ReadSize))
      invariant EndError(reader.replies) == EndError(start)
      decreases Measure(reader.replies)
    {
      ghost var left := reader.replies;
      ghost var a := ReadStep(left, ReadSize);
      var num, err := reader.Read(buff, 0);
      ReadStepChunks(left, ReadSize);
      ReadStepStream(left, ReadSize, a);
      if err.Some? {
        break;
      }
      assert buff[..num] == a.chunk;
      ghost var before := Pending(lines, curLine);
      var parts := Split(buff[..num], NL);
      if |parts| == 1 {
        curLine := curLine + parts[0];
      } else {
        var lastElement := parts[|parts| - 1];
        var joined := Concat(parts[..|parts| - 1]);
        curLine := curLine + joined;
        lines := lines + [curLine];
        curLine := lastElement;
      }
      assert Pending(lines, curLine) == Consume(before, a.chunk);
      FoldStep(a.chunk, Chunks(reader.replies, ReadSize));
    }
    if |curLine| > 0 {
      lines := lines + [curLine];
    }
  }

  lemma FoldStep(chunk: string, chunks: seq<string>)
    ensures ([chunk] + chunks)[0] == chunk && ([chunk] + chunks)[1..] == chunks
  {
  }

  /** A read without a newline sends nothing and extends the current line. */
  lemma ConsumeNoNewline(st: Pending, chunk: string)
    requires NL !in chunk
    ensures Consume(st, chunk) == Pending(st.out, st.cur + chunk)
  {
    SplitPieces(chunk, NL);
    IndexOfByteNone(chunk, NL);
  }

  /** A read with newlines sends exactly one line, however many newlines it holds: the old current
      line followed by everything before the read's last newline, newlines dropped; the bytes after
      that last newline become the current line. */
  lemma ConsumeNewline(st: Pending, chunk: string)
    requires NL in chunk
    ensures var r := Consume(st, chunk);
      && |r.out| == |st.out| + 1 && r.out[..|st.out|] == st.out
      && r.out[|st.out|] + r.cur == st.cur + Remove(chunk, NL)
      && NL !in r.cur
      && exists i :: 0 <= i < |chunk| && chunk[i] == NL && NL !in chunk[i + 1..]
           && r.cur == chunk[i + 1..] && r.out[|st.out|] == st.cur + Remove(chunk[..i], NL)
  {
    var cut := SplitLast(chunk, NL);
    var parts := Split(chunk, NL);
    SplitPieces(chunk, NL);
    ConcatSplit(chunk, NL);
    var n := |parts|;
    ConcatLast(parts);
    Assoc(st.cur, Concat(parts[..n - 1]), parts[n - 1]);
    var r := Consume(st, chunk);
    assert r.out == st.out + [st.cur + Concat(parts[..n - 1])];
    assert r.out[..|st.out|] == st.out;
  }

  /** What one read adds: the sent lines and the current line, concatenated, grow by the read
      without its newlines, and no newline gets into the current line. */
  lemma ConsumeKeeps(st: Pending, chunk: string)
    ensures var r := Consume(st, chunk);
      && Concat(r.out) + r.cur == Concat(st.out) + st.cur + Remove(chunk, NL)
      && (NL !in st.cur ==> NL !in r.cur)
      && ((forall l :: l in st.out ==> NL !in l) && NL !in st.cur ==> forall l :: l in r.out ==> NL !in l)
  {
    var parts := Split(chunk, NL);
    SplitPieces(chunk, NL);
    ConcatSplit(chunk, NL);
    var n := |parts|;
    if n == 1 {
      ConcatOne(parts[0]);
      Assoc(Concat(st.out), st.cur, parts[0]);
    } else {
      var line := st.cur + Concat(parts[..n - 1]);
      ConcatLast(parts);
      ConcatAppend(st.out, [line]);
      ConcatOne(line);
      Assoc(Concat(st.out), line, parts[n - 1]);
      Assoc(st.cur, Concat(parts[..n - 1]), parts[n - 1]);
      Assoc(Concat(st.out), st.cur, Concat(parts));
      NoNewlineInConcat(parts[..n - 1]);
    }
  }

  lemma {:induction false} NoNewlineInConcat(parts: seq<string>)
    requires forall k :: 0 <= k < |parts| ==> NL !in parts[k]
    ensures NL !in Concat(parts)
  {
    if |parts| > 0 {
      NoNewlineInConcat(parts[1..]);
    }
  }

  /** The reads one after the other keep what `ConsumeKeeps` keeps for one. */
  lemma {:induction false} ConsumeAllKeeps(st: Pending, chunks: seq<string>)
    requires NL !in st.cur && forall l :: l in st.out ==> NL !in l
    ensures var r := ConsumeAll(st, chunks);
      && Concat(r.out) + r.cur == Concat(st.out) + st.cur + Remove(Concat(chunks), NL)
      && NL !in r.cur && forall l :: l in r.out ==> NL !in l
    decreases |chunks|
  {
    if |chunks| == 0 {
    } else {
      var next := Consume(st, chunks[0]);
      ConsumeKeeps(st, chunks[0]);
      ConsumeAllKeeps(next, chunks[1..]);
      RemoveAppend(chunks[0], Concat(chunks[1..]), NL);
      var here := Concat(st.out) + st.cur;
      Assoc(here, Remove(chunks[0], NL), Remove(Concat(chunks[1..]), NL));
    }
  }

  /** No byte but the newlines is lost: the lines sent, concatenated, are the stream without its
      newlines; and no line sent holds a newline. */
  lemma LinesConserveBytes(rs: seq<Reply>)
    ensures Concat(LinesAsWritten(rs)) == Remove(Stream(rs), NL)
    ensures forall l :: l in LinesAsWritten(rs) ==> NL !in l
  {
    var r := ConsumeAll(Pending([], []), Chunks(rs, ReadSize));
    ConsumeAllKeeps(Pending([], []), Chunks(rs, ReadSize));
    ConcatChunks(rs, ReadSize);
    var removed := Remove(Stream(rs), NL);
    assert Concat([]) + [] + removed == removed;
    assert Concat(r.out) + r.cur == removed;
    if |r.cur| > 0 {
      ConcatAppend(r.out, [r.cur]);
      ConcatOne(r.cur);
    } else {
      assert Concat(r.out) + r.cur == Concat(r.out);
    }
  }

  /** The lines of a text: its pieces between newlines, the last one only when not empty. */
  function StreamLines(s: string): (lines: seq<string>)
    ensures forall l :: l in lines ==> NL !in l
  {
    SplitPieces(s, NL);
    var parts := Split(s, NL);
    if |parts[|parts| - 1]| == 0 then parts[..|parts| - 1] else parts
  }

  /** The intended handling of a read: send every line the read completes, not only one. */
  function ConsumeFixed(st: Pending, chunk: string): Pending
  {
    var parts := Split(chunk, NL);
    if |parts| == 1 then Pending(st.out, st.cur + parts[0])
    else Pending(st.out + [st.cur + parts[0]] + parts[1..|parts| - 1], parts[|parts| - 1])
  }

  function ConsumeAllFixed(st: Pending, chunks: seq<string>): Pending
    decreases |chunks|
  {
    if |chunks| == 0 then st else ConsumeAllFixed(ConsumeFixed(st, chunks[0]), chunks[1..])
  }

  /** The strings the corrected loop sends for a reader with script `rs`. */
  function LinesFixed(rs: seq<Reply>): seq<string>
  {
    Flush(ConsumeAllFixed(Pending([], []), Chunks(rs, ReadSize)))
  }

  /** The corrected loop: every line a read completes is sent. It sends the lines of the stream. */
  method GetLinesChannelFixed(reader: Reader) returns (lines: seq<string>)
    modifies reader
    ensures lines == LinesFixed(old(reader.replies)) == StreamLines(Stream(old(reader.replies)))
  {
    LinesFixedAreStreamLines(reader.replies);
    var buff := new char[ReadSize];
    var curLine: string := [];
    lines := [];
    ghost var start := reader.replies;
    while true
      invariant buff.Length == ReadSize
      invariant ConsumeAllFixed(Pending(lines, curLine), Chunks(reader.replies, ReadSize))
             == ConsumeAllFixed(Pending([], []), Chunks(start, ReadSize))
      decreases Measure(reader.replies)
    {
      ghost var left := reader.replies;
      ghost var a := ReadStep(left, ReadSize);
      var num, err := reader.Read(buff, 0);
      ReadStepChunks(left, ReadSize);
      ReadStepStream(left, ReadSize, a);
      if err.Some? {
        break;
      }
      assert buff[..num] == a.chunk;
      ghost var before := Pending(lines, curLine);
      var parts := Split(buff[..num], NL);
      if |parts| == 1 {
        curLine := curLine + parts[0];
      } else {
        lines := lines + [curLine + parts[0]] + parts[1..|parts| - 1];
        curLine := parts[|parts| - 1];
      }
      assert Pending(lines, curLine) == ConsumeFixed(before, a.chunk);
      FoldStep(a.chunk, Chunks(reader.replies, ReadSize));
    }
    if |curLine| > 0 {
      lines := lines + [curLine];
    }
  }

  /** The pieces of `a + b`: those of `a`, the last glued to the first of `b`, then the rest of `b`. */
  function Glue(p: seq<string>, q: seq<string>): seq<string>
    requires |p| > 0 && |q| > 0
  {
    p[..|p| - 1] + [p[|p| - 1] + q[0]] + q[1..]
  }

  lemma SplitNoSep(s: string)
    requires NL !in s
    ensures Split(s, NL) == [s]
  {
    IndexOfByteNone(s, NL);
  }

  /** Splitting a concatenation glues the pieces of the two halves. */
  lemma {:induction false} SplitAppend(a: string, b: string)
    ensures Split(a + b, NL) == Glue(Split(a, NL), Split(b, NL))
    decreases |a|
  {
    var i := IndexOfByte(a, NL);
    IndexOfByteNone(a, NL);
    if i == -1 {
      SplitAppendFree(a, b);
    } else {
      var a1, a2 := a[..i], a[i + 1..];
      FirstNewline(a, i);
      SplitAppend(a2, b);
      SplitAppendStep(a1, a2, b);
    }
  }

  /** The bytes before the first newline hold none, and the text is cut around it. */
  lemma FirstNewline(s: string, i: int)
    requires 0 <= i < |s| && i == IndexOfByte(s, NL)
    ensures s == s[..i] + [NL] + s[i + 1..] && NL !in s[..i]
  {
    CutAt(s, i);
    BeforeFirst(s, i);
  }

  /** A sequence is what comes before position `i`, the element there and what follows. */
  lemma CutAt(s: string, i: nat)
    requires i < |s|
    ensures s == s[..i] + [s[i]] + s[i + 1..]
  {
  }

  /** No newline comes before the first one. */
  lemma BeforeFirst(s: string, i: nat)
    requires i < |s| && i == IndexOfByte(s, NL)
    ensures NL !in s[..i]
  {
    var pre := s[..i];
    forall k | 0 <= k < |pre| ensures pre[k] != NL {
      assert pre[k] == s[k];
    }
  }

  lemma SplitAppendFree(a: string, b: string)
    requires NL !in a
    ensures Split(a + b, NL) == Glue(Split(a, NL), Split(b, NL))
  {
    var j := IndexOfByte(b, NL);
    IndexOfByteNone(b, NL);
    if j == -1 {
      SplitAppendNone(a, b);
    } else {
      FirstNewline(b, j);
      SplitAppendCut(a, b[..j], b[j + 1..]);
    }
  }

  lemma SplitAppendNone(a: string, b: string)
    requires NL !in a && NL !in b
    ensures Split(a + b, NL) == Glue(Split(a, NL), Split(b, NL))
  {
    SplitNoSep(a);
    SplitNoSep(b);
    SplitNoSep(a + b);
    assert Glue([a], [b]) == [a + b];
  }

  lemma SplitAppendCut(a: string, b1: string, b2: string)
    requires NL !in a && NL !in b1
    ensures Split(a + (b1 + [NL] + b2), NL) == Glue(Split(a, NL), Split(b1 + [NL] + b2, NL))
  {
    SplitNoSep(a);
    SplitAt(b1, b2, NL);
    Regroup(a, b1, b2);
    assert NL !in a + b1;
    SplitAt(a + b1, b2, NL);
    GlueOne(a, b1, Split(b2, NL));
  }

  lemma GlueOne(a: string, b1: string, q: seq<string>)
    requires |q| > 0
    ensures Glue([a], [b1] + q) == [a + b1] + q
  {
  }

  lemma Regroup(a: string, b1: string, b2: string)
    ensures a + (b1 + [NL] + b2) == (a + b1) + [NL] + b2
  {
  }

  lemma SplitAppendStep(a1: string, a2: string, b: string)
    requires NL !in a1
    requires Split(a2 + b, NL) == Glue(Split(a2, NL), Split(b, NL))
    ensures Split(a1 + [NL] + a2 + b, NL) == Glue(Split(a1 + [NL] + a2, NL), Split(b, NL))
  {
    SplitAt(a1, a2, NL);
    Regroup2(a1, a2, b);
    SplitAt(a1, a2 + b, NL);
    var p, q := Split(a2, NL), Split(b, NL);
    GlueCons(a1, p, q);
  }

  lemma Regroup2(a1: string, a2: string, b: string)
    ensures a1 + [NL] + a2 + b == a1 + [NL] + (a2 + b)
  {
  }

  lemma GlueCons(x: string, p: seq<string>, q: seq<string>)
    requires |p| > 0 && |q| > 0
    ensures Glue([x] + p, q) == [x] + Glue(p, q)
  {
    var xp := [x] + p;
    assert xp[..|xp| - 1] == [x] + p[..|p| - 1];
    assert xp[|xp| - 1] == p[|p| - 1];
  }

  /** A corrected read keeps the sent lines and the current line equal to the pieces of all the
      bytes read so far. */
  lemma ConsumeFixedSplits(st: Pending, read: string, chunk: string)
    requires st.out + [st.cur] == Split(read, NL)
    ensures var r := ConsumeFixed(st, chunk);
      r.out + [r.cur] == Split(read + chunk, NL)
  {
    SplitAppend(read, chunk);
    GlueFixed(st, chunk);
  }

  /** The pieces a corrected read leaves are those of the old pieces glued to the read's. */
  lemma GlueFixed(st: Pending, chunk: string)
    ensures var r := ConsumeFixed(st, chunk);
      r.out + [r.cur] == Glue(st.out + [st.cur], Split(chunk, NL))
  {
    var p := st.out + [st.cur];
    var parts := Split(chunk, NL);
    var n := |parts|;
    assert p[..|p| - 1] == st.out && p[|p| - 1] == st.cur;
    if n > 1 {
      assert parts[1..] == parts[1..n - 1] + [parts[n - 1]];
    }
  }

  lemma {:induction false} ConsumeAllFixedSplits(st: Pending, read: string, chunks: seq<string>)
    requires st.out + [st.cur] == Split(read, NL)
    ensures var r := ConsumeAllFixed(st, chunks);
      r.out + [r.cur] == Split(read + Concat(chunks), NL)
    decreases |chunks|
  {
    if |chunks| == 0 {
      assert read + Concat(chunks) == read;
    } else {
      ConsumeFixedSplits(st, read, chunks[0]);
      ConsumeAllFixedSplits(ConsumeFixed(st, chunks[0]), read + chunks[0], chunks[1..]);
      Assoc(read, chunks[0], Concat(chunks[1..]));
    }
  }

  /** The corrected loop sends the lines of the stream, however the reads cut it. */
  lemma LinesFixedAreStreamLines(rs: seq<Reply>)
    ensures LinesFixed(rs) == StreamLines(Stream(rs))
  {
    var chunks := Chunks(rs, ReadSize);
    ConcatChunks(rs, ReadSize);
    SplitNoSep([]);
    assert Pending([], []).out + [Pending([], []).cur] == Split([], NL);
    ConsumeAllFixedSplits(Pending([], []), [], chunks);
    assert [] + Concat(chunks) == Stream(rs);
    var r := ConsumeAllFixed(Pending([], []), chunks);
    var parts := r.out + [r.cur];
    assert parts[..|parts| - 1] == r.out;
  }

  /** A line and its newline split into the line and an empty rest. */
  lemma OneLine(x: string)
    requires NL !in x
    ensures Split(x + [NL], NL) == [x, []]
  {
    SplitNoSep([]);
    assert x + [NL] == x + [NL] + [];
    SplitAt(x, [], NL);
  }

  lemma ExampleSplits()
    ensures Split("a\nb\n", NL) == ["a", "b", ""]
  {
    assert "b\n" == "b" + [NL];
    OneLine("b");
    assert "a\nb\n" == "a" + [NL] + "b\n";
    SplitAt("a", "b\n", NL);
  }

  /** A proof step, not a property of the program: `Consume` on a read with a newline, spelled out. */
  lemma ConsumeMany(st: Pending, chunk: string)
    requires |Split(chunk, NL)| > 1
    ensures var parts := Split(chunk, NL);
      Consume(st, chunk) == Pending(st.out + [st.cur + Concat(parts[..|parts| - 1])], parts[|parts| - 1])
  {
  }

  /** The loop as written merges the lines of one read: "a\nb\n" in a single read is sent as
      "ab", while the lines of that stream are "a" and "b", which the corrected loop sends. */
  lemma MergedLines()
    ensures LinesAsWritten([Bytes("a\nb\n")]) == ["ab"]
    ensures StreamLines(Stream([Bytes("a\nb\n")])) == ["a", "b"]
    ensures LinesFixed([Bytes("a\nb\n")]) == ["a", "b"]
  {
    var rs := [Bytes("a\nb\n")];
    ExampleSplits();
    assert rs[1..] == [];
    assert Chunks(rs, ReadSize) == ["a\nb\n"];
    assert ["a", "b", ""][..2] == ["a", "b"];
    ConcatOne("b");
    assert Concat(["a", "b"]) == "ab";
    var empty: string := [];
    ConsumeMany(Pending([], empty), "a\nb\n");
    assert empty + "ab" == "ab";
    assert Consume(Pending([], empty), "a\nb\n") == Pending(["ab"], "");
    var cs := Chunks(rs, ReadSize);
    assert cs[1..] == [];
    assert ConsumeAll(Pending([], empty), cs) == Pending(["ab"], "");
    assert LinesAsWritten(rs) == Flush(Pending(["ab"], ""));
    assert Stream(rs) == "a\nb\n";
    LinesFixedAreStreamLines(rs);
  }

  /** The same bytes cut into two reads, one line each, are sent as two lines: the result of the
      loop as written depends on how the reads cut the stream. */
  lemma SplitReadsSeparate()
    ensures LinesAsWritten([Bytes("a\n"), Bytes("b\n")]) == ["a", "b"]
    ensures Stream([Bytes("a\n"), Bytes("b\n")]) == Stream([Bytes("a\nb\n")])
  {
    TwoReads();
    assert "a\n" == "a" + [NL] && "b\n" == "b" + [NL];
    TwoLineReads("a", "b");
  }

  lemma TwoReads()
    ensures Chunks([Bytes("a\n"), Bytes("b\n")], ReadSize) == ["a\n", "b\n"]
    ensures Stream([Bytes("a\n"), Bytes("b\n")]) == "a\nb\n" == Stream([Bytes("a\nb\n")])
  {
    var rs := [Bytes("a\n"), Bytes("b\n")];
    assert rs[1..] == [Bytes("b\n")] && rs[1..][1..] == [];
    assert [Bytes("a\nb\n")][1..] == [];
  }

  /** Two reads of one line each send the two lines. */
  lemma TwoLineReads(a: string, b: string)
    requires NL !in a && NL !in b
    ensures Flush(ConsumeAll(Pending([], []), [a + [NL], b + [NL]])) == [a, b]
  {
    var empty: string := [];
    var none: seq<string> := [];
    var cs := [a + [NL], b + [NL]];
    LineRead(Pending(none, empty), a);
    assert empty + a == a && none + [a] == [a];
    var st := Pending([a], empty);
    LineRead(st, b);
    assert empty + b == b && [a] + [b] == [a, b];
    assert cs[1..] == [b + [NL]] && cs[1..][1..] == [];
    assert ConsumeAll(Pending(none, empty), cs) == ConsumeAll(st, cs[1..]);
    assert ConsumeAll(st, cs[1..]) == Pending([a, b], empty);
  }

  /** A read holding exactly one line, with its newline, sends the current line completed by it. */
  lemma LineRead(st: Pending, x: string)
    requires NL !in x
    ensures Consume(st, x + [NL]) == Pending(st.out + [st.cur + x], [])
  {
    OneLine(x);
    ConsumeMany(st, x + [NL]);
    assert [x, []][..1] == [x];
    ConcatOne(x);
  }
}
