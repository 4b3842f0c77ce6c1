/**
  The FASTA writer and reader of `run_polaris.py`.

  `write_fasta` emits `>tag`, a newline, the sequence and a newline for every
  record. `read_fasta` deletes every `>` that ends a line, splits the text at
  `>`, strips each chunk, cuts it at its first newline into header and body,
  deletes the newlines of each part, drops the first part of the whole
  list and zips the even-numbered parts (tags) with the odd-numbered ones
  (sequences).
 */
module Fasta {
  import opened PyStr

  /** One FASTA record, the `Sequence` model of the source. */
  datatype Sequence = Sequence(sequence: string, tag: string)

  /** The text after the `>` that `write_fasta` emits for one record. */
  function Body(s: Sequence): string
  {
    s.tag + "\n" + s.sequence + "\n"
  }

  /** The text `write_fasta` emits for one record. */
  function Record(s: Sequence): string
  {
    ">" + Body(s)
  }

  /** The contents of the file `write_fasta` writes (mode "w") for `seqs`;
      writing a single record is writing the one-element list. */
  function WriteFasta(seqs: seq<Sequence>): string
  {
    if |seqs| == 0 then "" else Record(seqs[0]) + WriteFasta(seqs[1..])
  }

  /** `re.sub(">$", "", text, flags=re.M)`: every `>` that is immediately
      followed by a newline or by the end of the text is deleted; all other
      characters are kept, in order. */
  function DropDanglingMarks(text: string): string
    decreases |text|
  {
    if |text| == 0 then ""
    else if text[0] == '>' && (|text| == 1 || text[1] == '\n') then
      DropDanglingMarks(text[1..])
    else
      [text[0]] + DropDanglingMarks(text[1..])
  }

  /** The substitution only deletes `>` characters: it never adds one, and
      keeps every other character as often as the text holds it. */
  lemma {:induction false} DropCounts(text: string)
    ensures Count('>', DropDanglingMarks(text)) <= Count('>', text)
    ensures forall c {:trigger Count(c, text)} :: c != '>' ==> Count(c, DropDanglingMarks(text)) == Count(c, text)
    decreases |text|
  {
    if |text| > 0 {
      DropCounts(text[1..]);
      var rest := DropDanglingMarks(text[1..]);
      assert ([text[0]] + rest)[1..] == rest;
    }
  }

  /** The parts one chunk between two `>` contributes: the stripped chunk
      cut at its first newline, with the newlines of each part deleted. */
  function ChunkParts(chunk: string): (parts: seq<string>)
    ensures 1 <= |parts| <= 2
  {
    var cut := SplitOnce(Strip(chunk), '\n');
    seq(|cut|, i requires 0 <= i < |cut| => RemoveAll(cut[i], '\n'))
  }

  /** The list comprehension of `read_fasta`, before its first element is
      dropped: the parts of every chunk, chunk after chunk. */
  function AllParts(chunks: seq<string>): (parts: seq<string>)
    ensures |chunks| <= |parts| <= 2 * |chunks|
  {
    if |chunks| == 0 then [] else ChunkParts(chunks[0]) + AllParts(chunks[1..])
  }

  /** Python's `xs[::2]`. */
  function Evens<T>(xs: seq<T>): (r: seq<T>)
    ensures |r| == (|xs| + 1) / 2
    ensures forall k :: 0 <= k < |r| ==> r[k] == xs[2 * k]
    decreases |xs|
  {
    if |xs| == 0 then [] else [xs[0]] + Odds(xs[1..])
  }

  /** Python's `xs[1::2]`. */
  function Odds<T>(xs: seq<T>): (r: seq<T>)
    ensures |r| == |xs| / 2
    ensures forall k :: 0 <= k < |r| ==> r[k] == xs[2 * k + 1]
    decreases |xs|
  {
    if |xs| == 0 then [] else Evens(xs[1..])
  }

  /** `zip(seqs, tags)` turned into records: as long as the shorter list. */
  function Zip(seqs: seq<string>, tags: seq<string>): (r: seq<Sequence>)
    ensures |r| <= |seqs| && |r| <= |tags|
    ensures |r| == |seqs| || |r| == |tags|
    ensures forall k :: 0 <= k < |r| ==> r[k] == Sequence(seqs[k], tags[k])
  {
    var n := if |seqs| <= |tags| then |seqs| else |tags|;
    seq(n, k requires 0 <= k < n => Sequence(seqs[k], tags[k]))
  }

  /** `read_fasta` on the text of a file. */
  function ReadFasta(text: string): seq<Sequence>
  {
    var chunks := Split(DropDanglingMarks(text), '>');
    var parts := AllParts(chunks)[1..];
    Zip(Odds(parts), Evens(parts))
  }

  // ---------------------------------------------------------------------
  // What the reader makes of the writer's output

  /** A record the reader gets back from the writer's text: tag and
      sequence are non-empty and free of `>`, the tag is one line that does
      not start with white space and the sequence does not end with white
      space. The sequence may span several lines. */
  predicate Readable(s: Sequence)
  {
    && |s.tag| > 0
    && '>' !in s.tag
    && '\n' !in s.tag
    && !IsSpace(s.tag[0])
    && |s.sequence| > 0
    && '>' !in s.sequence
    && !IsSpace(s.sequence[|s.sequence| - 1])
  }

  /** A readable record whose sequence is a single line. */
  predicate WellFormed(s: Sequence)
  {
    Readable(s) && '\n' !in s.sequence
  }

  /** The record with the newlines of its sequence deleted. */
  function Joined(s: Sequence): Sequence
  {
    Sequence(RemoveAll(s.sequence, '\n'), s.tag)
  }

  function Bodies(seqs: seq<Sequence>): seq<string>
  {
    if |seqs| == 0 then [] else [Body(seqs[0])] + Bodies(seqs[1..])
  }

  function Interleaved(seqs: seq<Sequence>): seq<string>
  {
    if |seqs| == 0 then []
    else [seqs[0].tag, RemoveAll(seqs[0].sequence, '\n')] + Interleaved(seqs[1..])
  }

  lemma {:induction false} DropKeepsMarkFree(p: string, rest: string)
    requires '>' !in p
    ensures DropDanglingMarks(p + rest) == p + DropDanglingMarks(rest)
    decreases |p|
  {
    if |p| > 0 {
      assert (p + rest)[1..] == p[1..] + rest;
      DropKeepsMarkFree(p[1..], rest);
      assert [p[0]] + p[1..] == p;
    } else {
      assert p + rest == rest;
    }
  }

  /** The writer never leaves a `>` at the end of a line. */
  lemma {:induction false} DropKeepsWritten(seqs: seq<Sequence>)
    requires forall i :: 0 <= i < |seqs| ==> Readable(seqs[i])
    ensures DropDanglingMarks(WriteFasta(seqs)) == WriteFasta(seqs)
    decreases |seqs|
  {
    if |seqs| > 0 {
      var s := seqs[0];
      var rest := WriteFasta(seqs[1..]);
      var text := Record(s) + rest;
      assert text == ">" + (Body(s) + rest);
      assert text[1] == s.tag[0];
      assert text[1..] == Body(s) + rest;
      DropKeepsWritten(seqs[1..]);
      DropKeepsMarkFree(Body(s), rest);
    }
  }

  lemma {:induction false} SplitWritten(head: string, seqs: seq<Sequence>)
    requires '>' !in head
    requires forall i :: 0 <= i < |seqs| ==> Readable(seqs[i])
    ensures Split(head + WriteFasta(seqs), '>') == [head] + Bodies(seqs)
    decreases |seqs|
  {
    if |seqs| == 0 {
      assert head + WriteFasta(seqs) == head;
      SplitWhole(head, '>');
    } else {
      var s := seqs[0];
      var rest := WriteFasta(seqs[1..]);
      assert head + WriteFasta(seqs) == head + ['>'] + (Body(s) + rest);
      SplitAfterPiece(head, '>', Body(s) + rest);
      SplitWritten(Body(s), seqs[1..]);
    }
  }

  lemma PartsOfBody(s: Sequence)
    requires Readable(s)
    ensures ChunkParts(Body(s)) == [s.tag, RemoveAll(s.sequence, '\n')]
  {
    var line := s.tag + "\n" + s.sequence;
    assert Body(s) == line + "\n";
    StripKeeps(line, "\n");
    SplitOnceAfterHead(s.tag, '\n', s.sequence);
    RemoveAllAbsent(s.tag, '\n');
  }

  lemma {:induction false} PartsOfBodies(seqs: seq<Sequence>)
    requires forall i :: 0 <= i < |seqs| ==> Readable(seqs[i])
    ensures AllParts(Bodies(seqs)) == Interleaved(seqs)
    decreases |seqs|
  {
    if |seqs| > 0 {
      var b := Bodies(seqs);
      assert b[0] == Body(seqs[0]) && b[1..] == Bodies(seqs[1..]);
      PartsOfBody(seqs[0]);
      PartsOfBodies(seqs[1..]);
    }
  }

  lemma {:induction false} InterleavedHalves(seqs: seq<Sequence>)
    ensures |Interleaved(seqs)| == 2 * |seqs|
    ensures forall k :: 0 <= k < |seqs| ==>
      Interleaved(seqs)[2 * k] == seqs[k].tag
      && Interleaved(seqs)[2 * k + 1] == RemoveAll(seqs[k].sequence, '\n')
    decreases |seqs|
  {
    if |seqs| > 0 {
      InterleavedHalves(seqs[1..]);
      var l := Interleaved(seqs);
      assert l[2..] == Interleaved(seqs[1..]);
      forall k | 1 <= k < |seqs|
        ensures l[2 * k] == seqs[k].tag && l[2 * k + 1] == RemoveAll(seqs[k].sequence, '\n')
      {
        assert l[2 * k] == l[2..][2 * (k - 1)];
        assert l[2 * k + 1] == l[2..][2 * (k - 1) + 1];
      }
    }
  }

  lemma PartsOfEmpty()
    ensures ChunkParts("") == [""]
  {
    assert Strip("") == "";
    assert SplitOnce("", '\n') == [""];
  }

  lemma PartsOfWritten(seqs: seq<Sequence>)
    requires forall i :: 0 <= i < |seqs| ==> Readable(seqs[i])
    ensures AllParts(Split(DropDanglingMarks(WriteFasta(seqs)), '>'))[1..] == Interleaved(seqs)
  {
    var text := WriteFasta(seqs);
    DropKeepsWritten(seqs);
    SplitWritten("", seqs);
    assert "" + text == text;
    var chunks := Split(text, '>');
    assert chunks == [""] + Bodies(seqs);
    PartsOfBodies(seqs);
    PartsOfEmpty();
    assert AllParts(chunks) == ChunkParts(chunks[0]) + AllParts(chunks[1..]);
    assert chunks[1..] == Bodies(seqs);
  }

  lemma ZipInterleaved(seqs: seq<Sequence>)
    ensures Zip(Odds(Interleaved(seqs)), Evens(Interleaved(seqs)))
         == seq(|seqs|, i requires 0 <= i < |seqs| => Joined(seqs[i]))
  {
    var l := Interleaved(seqs);
    InterleavedHalves(seqs);
    var odds := Odds(l);
    var evens := Evens(l);
    assert |odds| == |seqs| && |evens| == |seqs|;
    var z := Zip(odds, evens);
    var want := seq(|seqs|, i requires 0 <= i < |seqs| => Joined(seqs[i]));
    assert |z| == |want|;
    forall k | 0 <= k < |seqs| ensures z[k] == want[k] {
      assert z[k] == Sequence(odds[k], evens[k]);
      assert odds[k] == l[2 * k + 1] == RemoveAll(seqs[k].sequence, '\n');
      assert evens[k] == l[2 * k] == seqs[k].tag;
      assert want[k] == Joined(seqs[k]);
    }
  }

  /** Reading back what the writer wrote gives the same records, in the
      same order, with the newlines inside each sequence deleted. */
  lemma ReadAfterWrite(seqs: seq<Sequence>)
    requires forall i :: 0 <= i < |seqs| ==> Readable(seqs[i])
    ensures ReadFasta(WriteFasta(seqs)) == seq(|seqs|, i requires 0 <= i < |seqs| => Joined(seqs[i]))
  {
    PartsOfWritten(seqs);
    ZipInterleaved(seqs);
  }

  /** The round trip: on well-formed records, `read_fasta` of the text
      `write_fasta` produces returns exactly the records written. */
  lemma RoundTrip(seqs: seq<Sequence>)
    requires forall i :: 0 <= i < |seqs| ==> WellFormed(seqs[i])
    ensures ReadFasta(WriteFasta(seqs)) == seqs
  {
    ReadAfterWrite(seqs);
    forall i | 0 <= i < |seqs| ensures Joined(seqs[i]) == seqs[i] {
      RemoveAllAbsent(seqs[i].sequence, '\n');
    }
  }

  /** `read_fasta(file)` on a file holding `contents`: `read_text()` reads
      it with the universal-newline translation, and the result is parsed. */
  function ReadFastaFile(contents: string): seq<Sequence>
  {
    ReadFasta(UniversalNewlines(contents))
  }

  /** A record with no carriage return in its tag or its sequence. */
  predicate NoCarriageReturn(s: Sequence)
  {
    '\r' !in s.tag && '\r' !in s.sequence
  }

  /** The writer adds no carriage return of its own. */
  lemma {:induction false} WrittenWithoutCarriageReturn(seqs: seq<Sequence>)
    requires forall i :: 0 <= i < |seqs| ==> NoCarriageReturn(seqs[i])
    ensures '\r' !in WriteFasta(seqs)
    decreases |seqs|
  {
    if |seqs| > 0 {
      WrittenWithoutCarriageReturn(seqs[1..]);
    }
  }

  /** The round trip through a file: on well-formed records without a
      carriage return, reading back the file `write_fasta` wrote returns
      exactly the records written. */
  lemma FileRoundTrip(seqs: seq<Sequence>)
    requires forall i :: 0 <= i < |seqs| ==> WellFormed(seqs[i]) && NoCarriageReturn(seqs[i])
    ensures ReadFastaFile(WriteFasta(seqs)) == seqs
  {
    WrittenWithoutCarriageReturn(seqs);
    UniversalNewlinesPlain(WriteFasta(seqs));
    RoundTrip(seqs);
  }

  /** A carriage return at the end of a tag does not survive the file: the
      writer puts it just before the newline, and `read_text()` turns the
      pair into one newline, so the record comes back without it. */
  lemma CarriageReturnLeavesTag(s: Sequence)
    requires WellFormed(s) && NoCarriageReturn(s)
    ensures ReadFastaFile(WriteFasta([Sequence(s.sequence, s.tag + "\r")])) == [s]
  {
    CarriageReturnJoinsNewline(s);
    RoundTrip([s]);
  }

  lemma CarriageReturnJoinsNewline(s: Sequence)
    requires NoCarriageReturn(s)
    ensures UniversalNewlines(WriteFasta([Sequence(s.sequence, s.tag + "\r")])) == WriteFasta([s])
  {
    var t := Sequence(s.sequence, s.tag + "\r");
    var written := WriteFasta([t]);
    assert [t][1..] == [] && [s][1..] == [];
    assert written == Record(t) + WriteFasta([]);
    assert Record(t) + "" == (">" + s.tag) + "\r\n" + (s.sequence + "\n");
    UniversalNewlinesCrLf(">" + s.tag, s.sequence + "\n");
    assert WriteFasta([s]) == Record(s) + WriteFasta([]);
    assert Record(s) + "" == (">" + s.tag) + "\n" + (s.sequence + "\n");
  }

  /** `read_fasta` of an empty file is the empty list. */
  lemma ReadEmpty()
    ensures ReadFasta("") == []
  {
    assert DropDanglingMarks("") == "";
    assert Split("", '>') == [""];
    PartsOfEmpty();
    assert AllParts([""]) == [""];
  }

  /** Because tags and sequences are zipped, the reader never returns more
      records than the text has `>` characters. */
  lemma ReadCountBound(text: string)
    ensures |ReadFasta(text)| <= Count('>', text)
  {
    var d := DropDanglingMarks(text);
    DropCounts(text);
    var chunks := Split(d, '>');
    var all := AllParts(chunks);
    var parts := all[1..];
    assert |parts| <= 2 * Count('>', text) + 1;
    assert |Odds(parts)| <= Count('>', text);
  }

  /** A record whose sequence is spread over several lines comes back as one
      record whose sequence is those lines concatenated. */
  lemma ReadMultiLine(tag: string, lines: seq<string>)
    requires |tag| > 0 && '>' !in tag && '\n' !in tag && !IsSpace(tag[0])
    requires forall i :: 0 <= i < |lines| ==> '>' !in lines[i] && '\n' !in lines[i]
    requires |lines| > 0
    requires var last := lines[|lines| - 1]; |last| > 0 && !IsSpace(last[|last| - 1])
    ensures ReadFasta(">" + tag + "\n" + Join(lines, '\n') + "\n") == [Sequence(Concat(lines), tag)]
  {
    var body := Join(lines, '\n');
    JoinThenRemove(lines, '\n', '>');
    var s := Sequence(body, tag);
    assert Readable(s);
    assert WriteFasta([s]) == Record(s) + WriteFasta([]);
    assert Record(s) + "" == ">" + tag + "\n" + body + "\n";
    ReadAfterWrite([s]);
  }

  /** A header with no sequence line shifts the pairing of the records
      after it: the next header is taken as its sequence and the next real
      sequence becomes a tag without a partner, which `zip` drops. */
  lemma EmptyBodyShiftsPairing(header: string, next: Sequence)
    requires |header| > 0 && '>' !in header && '\n' !in header
    requires !IsSpace(header[0]) && !IsSpace(header[|header| - 1])
    requires WellFormed(next)
    ensures ReadFasta(">" + header + "\n" + Record(next)) == [Sequence(next.tag, header)]
  {
    var text := ">" + header + "\n" + Record(next);
    HeaderThenRecordChunks(header, next);
    HeaderThenRecordParts(header, next);
    var parts := [header, next.tag, next.sequence];
    var odds := Odds(parts);
    var evens := Evens(parts);
    assert odds == [next.tag] && evens == [header, next.sequence];
    assert Zip(odds, evens) == [Sequence(next.tag, header)];
  }

  lemma HeaderThenRecordChunks(header: string, next: Sequence)
    requires |header| > 0 && '>' !in header && '\n' !in header
    requires WellFormed(next)
    ensures var text := ">" + header + "\n" + Record(next);
      Split(DropDanglingMarks(text), '>') == ["", header + "\n", Body(next)]
  {
    var line := header + "\n";
    var text := ">" + header + "\n" + Record(next);
    HeaderThenRecordKept(header, next);
    var after := line + ['>'] + Body(next);
    assert "" + ['>'] + after == text;
    SplitAfterPiece("", '>', after);
    SplitAfterPiece(line, '>', Body(next));
    SplitWhole(Body(next), '>');
  }

  /** No `>` of a header line followed by a written record ends a line. */
  lemma HeaderThenRecordKept(header: string, next: Sequence)
    requires |header| > 0 && '>' !in header && '\n' !in header
    requires WellFormed(next)
    ensures var text := ">" + header + "\n" + Record(next);
      DropDanglingMarks(text) == text
  {
    var line := header + "\n";
    var rest := line + Record(next);
    var text := ">" + header + "\n" + Record(next);
    assert text == ['>'] + rest;
    RecordKept(next);
    DropKeepsMarkFree(line, Record(next));
    assert rest[0] == header[0] != '\n';
    DropBeforeText('>', rest);
  }

  /** A character that is not a `>` ending a line is kept. */
  lemma DropBeforeText(c: char, rest: string)
    requires |rest| > 0 && rest[0] != '\n'
    ensures DropDanglingMarks([c] + rest) == [c] + DropDanglingMarks(rest)
  {
    assert ([c] + rest)[1..] == rest;
  }

  lemma RecordKept(next: Sequence)
    requires Readable(next)
    ensures DropDanglingMarks(Record(next)) == Record(next)
  {
    DropKeepsWritten([next]);
    assert WriteFasta([next]) == Record(next) + WriteFasta([]) == Record(next);
  }

  lemma HeaderThenRecordParts(header: string, next: Sequence)
    requires |header| > 0 && '>' !in header && '\n' !in header
    requires !IsSpace(header[0]) && !IsSpace(header[|header| - 1])
    requires WellFormed(next)
    ensures AllParts(["", header + "\n", Body(next)])[1..] == [header, next.tag, next.sequence]
  {
    var line, body := header + "\n", Body(next);
    var p0, p1, p2 := ChunkParts(""), ChunkParts(line), ChunkParts(body);
    PartsOfEmpty();
    PartsOfHeaderLine(header);
    PartsOfWellFormedBody(next);
    AllPartsOfThree("", line, body);
  }

  lemma PartsOfHeaderLine(header: string)
    requires |header| > 0 && '\n' !in header
    requires !IsSpace(header[0]) && !IsSpace(header[|header| - 1])
    ensures ChunkParts(header + "\n") == [header]
  {
    StripKeeps(header, "\n");
    RemoveAllAbsent(header, '\n');
  }

  lemma PartsOfWellFormedBody(s: Sequence)
    requires WellFormed(s)
    ensures ChunkParts(Body(s)) == [s.tag, s.sequence]
  {
    PartsOfBody(s);
    RemoveAllAbsent(s.sequence, '\n');
  }

  lemma AllPartsOfThree(c0: string, c1: string, c2: string)
    ensures AllParts([c0, c1, c2]) == ChunkParts(c0) + (ChunkParts(c1) + ChunkParts(c2))
  {
    assert AllParts([c2]) == ChunkParts(c2) by {
      AllPartsCons(c2, []);
      assert [c2] + [] == [c2];
    }
    assert AllParts([c1, c2]) == ChunkParts(c1) + ChunkParts(c2) by {
      AllPartsCons(c1, [c2]);
      assert [c1] + [c2] == [c1, c2];
    }
    AllPartsCons(c0, [c1, c2]);
    assert [c0] + [c1, c2] == [c0, c1, c2];
  }

  lemma AllPartsCons(chunk: string, rest: seq<string>)
    ensures AllParts([chunk] + rest) == ChunkParts(chunk) + AllParts(rest)
  {
    assert ([chunk] + rest)[1..] == rest;
  }
}
