/**
  The handful of Python `str` operations the FASTA reader is built from,
  restricted to one-character separators: `split`, `split(sep, 1)`,
  `strip()` and `replace(c, "")`.
 */
module PyStr {

  /** Python's `str.isspace()` on one character: the controls `\t` to `\r`,
      the separators `\x1c` to `\x1f`, the space, and the Unicode white-space
      characters. */
  predicate IsSpace(c: char) {
    || '\t' <= c <= '\r'
    || '\U{1C}' <= c <= '\U{1F}'
    || c == ' '
    || c == '\U{85}'
    || c == '\U{A0}'
    || c == '\U{1680}'
    || '\U{2000}' <= c <= '\U{200A}'
    || c == '\U{2028}'
    || c == '\U{2029}'
    || c == '\U{202F}'
    || c == '\U{205F}'
    || c == '\U{3000}'
  }

  /** Number of occurrences of `c` in `s`: Python's `s.count(c)`. */
  function Count(c: char, s: string): nat
  {
    if |s| == 0 then 0 else (if s[0] == c then 1 else 0) + Count(c, s[1..])
  }

  /** Python's `sep.join(parts)` for a one-character separator. */
  function Join(parts: seq<string>, sep: char): string
  {
    if |parts| == 0 then ""
    else if |parts| == 1 then parts[0]
    else parts[0] + [sep] + Join(parts[1..], sep)
  }

  /** Python's `s.split(sep)` for a one-character separator: the maximal
      `sep`-free pieces between the separators, always at least one. */
  function Split(s: string, sep: char): (parts: seq<string>)
    ensures |parts| == Count(sep, s) + 1
    ensures forall i :: 0 <= i < |parts| ==> sep !in parts[i]
    ensures Join(parts, sep) == s
    decreases |s|
  {
    if |s| == 0 then [""]
    else if s[0] == sep then
      var rest := Split(s[1..], sep);
      assert s == [sep] + s[1..];
      [""] + rest
    else
      var rest := Split(s[1..], sep);
      var parts := [[s[0]] + rest[0]] + rest[1..];
      assert parts[1..] == rest[1..];
      assert s == [s[0]] + s[1..];
      parts
  }

  /** Splitting text that starts with a separator-free piece followed by the
      separator yields that piece and then the pieces of the remainder. */
  lemma {:induction false} SplitAfterPiece(piece: string, sep: char, rest: string)
    requires sep !in piece
    ensures Split(piece + [sep] + rest, sep) == [piece] + Split(rest, sep)
    decreases |piece|
  {
    var s := piece + [sep] + rest;
    if |piece| == 0 {
      assert s == [sep] + rest;
      assert s[1..] == rest;
    } else {
      assert s[0] == piece[0];
      assert s[1..] == piece[1..] + [sep] + rest;
      SplitAfterPiece(piece[1..], sep, rest);
      assert [piece[0]] + piece[1..] == piece;
    }
  }

  /** A separator-free text is a single piece. */
  lemma {:induction false} SplitWhole(piece: string, sep: char)
    requires sep !in piece
    ensures Split(piece, sep) == [piece]
    decreases |piece|
  {
    if |piece| > 0 {
      SplitWhole(piece[1..], sep);
      assert [piece[0]] + piece[1..] == piece;
    }
  }

  /** Python's `s.split(sep, 1)`: cut at the first `sep`, if there is one. */
  function SplitOnce(s: string, sep: char): (parts: seq<string>)
    ensures 1 <= |parts| <= 2
    ensures |parts| == 1 <==> sep !in s
    ensures |parts| == 1 ==> parts[0] == s
    ensures |parts| == 2 ==> sep !in parts[0] && parts[0] + [sep] + parts[1] == s
    decreases |s|
  {
    if |s| == 0 then [""]
    else if s[0] == sep then
      assert s == [sep] + s[1..];
      ["", s[1..]]
    else
      var rest := SplitOnce(s[1..], sep);
      assert s == [s[0]] + s[1..];
      if |rest| == 1 then [s] else [[s[0]] + rest[0], rest[1]]
  }

  /** Cutting at the first separator after a separator-free head gives the
      head and everything after that separator. */
  lemma {:induction false} SplitOnceAfterHead(head: string, sep: char, tail: string)
    requires sep !in head
    ensures SplitOnce(head + [sep] + tail, sep) == [head, tail]
    decreases |head|
  {
    var s := head + [sep] + tail;
    if |head| == 0 {
      assert s == [sep] + tail;
      assert s[1..] == tail;
    } else {
      assert s[1..] == head[1..] + [sep] + tail;
      SplitOnceAfterHead(head[1..], sep, tail);
      assert [head[0]] + head[1..] == head;
    }
  }

  /** Python's `s.lstrip()`: the longest suffix of `s` that does not start
      with white space. */
  function LStrip(s: string): (r: string)
    ensures |r| <= |s| && r == s[|s| - |r|..]
    ensures forall i :: 0 <= i < |s| - |r| ==> IsSpace(s[i])
    ensures |r| > 0 ==> !IsSpace(r[0])
    decreases |s|
  {
    if |s| > 0 && IsSpace(s[0]) then LStrip(s[1..]) else s
  }

  /** Python's `s.rstrip()`: the longest prefix of `s` that does not end
      with white space. */
  function RStrip(s: string): (r: string)
    ensures |r| <= |s| && r == s[..|r|]
    ensures forall i :: |r| <= i < |s| ==> IsSpace(s[i])
    ensures |r| > 0 ==> !IsSpace(r[|r| - 1])
    decreases |s|
  {
    if |s| > 0 && IsSpace(s[|s| - 1]) then RStrip(s[..|s| - 1]) else s
  }

  /** Python's `s.strip()`. */
  function Strip(s: string): string
  {
    RStrip(LStrip(s))
  }

  /** Stripping a text whose first character is not white space and whose
      trailing white space is exactly `ws` removes `ws` and nothing else. */
  lemma StripKeeps(s: string, ws: string)
    requires |s| > 0 && !IsSpace(s[0]) && !IsSpace(s[|s| - 1])
    requires forall i :: 0 <= i < |ws| ==> IsSpace(ws[i])
    ensures Strip(s + ws) == s
  {
    var t := s + ws;
    assert LStrip(t) == t;
    var r := RStrip(t);
    assert r == t[..|r|];
    assert !IsSpace(t[|s| - 1]);
    assert forall i :: |s| <= i < |t| ==> IsSpace(t[i]) by {
      forall i | |s| <= i < |t| ensures IsSpace(t[i]) {
        assert t[i] == ws[i - |s|];
      }
    }
    assert |r| == |s|;
    assert r == s;
  }

  /** Python's `s.replace(c, "")`: every other character, in order. */
  function RemoveAll(s: string, c: char): (r: string)
    ensures c !in r
    ensures |r| == |s| - Count(c, s)
    ensures forall d {:trigger Count(d, r)} :: d != c ==> Count(d, r) == Count(d, s)
    decreases |s|
  {
    if |s| == 0 then ""
    else if s[0] == c then RemoveAll(s[1..], c)
    else
      var rest := RemoveAll(s[1..], c);
      assert ([s[0]] + rest)[1..] == rest;
      [s[0]] + rest
  }

  /** Removing a character the text does not contain changes nothing. */
  lemma {:induction false} RemoveAllAbsent(s: string, c: char)
    requires c !in s
    ensures RemoveAll(s, c) == s
    decreases |s|
  {
    if |s| > 0 {
      RemoveAllAbsent(s[1..], c);
      assert [s[0]] + s[1..] == s;
    }
  }

  lemma {:induction false} RemoveAllAppend(a: string, b: string, c: char)
    ensures RemoveAll(a + b, c) == RemoveAll(a, c) + RemoveAll(b, c)
    decreases |a|
  {
    if |a| == 0 {
      assert a + b == b;
    } else {
      assert (a + b)[1..] == a[1..] + b;
      RemoveAllAppend(a[1..], b, c);
    }
  }

  /** Python's `"".join(parts)`. */
  function Concat(parts: seq<string>): string
  {
    if |parts| == 0 then "" else parts[0] + Concat(parts[1..])
  }

  /** Joining separator-free lines with the separator, then deleting the
      separator, concatenates the lines; no other character is introduced;
      the joined text ends where the last line ends. */
  lemma {:induction false} JoinThenRemove(lines: seq<string>, sep: char, other: char)
    requires sep != other
    requires forall i :: 0 <= i < |lines| ==> sep !in lines[i] && other !in lines[i]
    ensures RemoveAll(Join(lines, sep), sep) == Concat(lines)
    ensures other !in Join(lines, sep)
    ensures |lines| > 0 && |lines[|lines| - 1]| > 0 ==>
      var j := Join(lines, sep);
      var last := lines[|lines| - 1];
      |j| > 0 && j[|j| - 1] == last[|last| - 1]
    decreases |lines|
  {
    if |lines| == 1 {
      RemoveAllAbsent(lines[0], sep);
      assert Concat(lines) == lines[0] + Concat([]);
    } else if |lines| > 1 {
      var rest := Join(lines[1..], sep);
      JoinThenRemove(lines[1..], sep, other);
      assert Join(lines, sep) == lines[0] + ([sep] + rest);
      RemoveAllAppend(lines[0], [sep] + rest, sep);
      RemoveAllAppend([sep], rest, sep);
      RemoveAllAbsent(lines[0], sep);
      assert RemoveAll([sep], sep) == "";
      assert lines[1..][|lines[1..]| - 1] == lines[|lines| - 1];
    }
  }

  /** The universal-newline translation of a file read in text mode, as
      `Path.read_text()` does: `"\r\n"` and a lone `"\r"` each become one
      `"\n"`; every other character is kept, in order. */
  function UniversalNewlines(raw: string): (r: string)
    ensures '\r' !in r
    ensures |r| <= |raw|
    ensures forall c {:trigger Count(c, r)} :: c != '\r' && c != '\n' ==> Count(c, r) == Count(c, raw)
    ensures Count('\n', raw) <= Count('\n', r) <= Count('\n', raw) + Count('\r', raw)
    ensures Count('\r', raw) <= Count('\n', r)
    decreases |raw|
  {
    if |raw| == 0 then ""
    else
      var crlf := raw[0] == '\r' && |raw| > 1 && raw[1] == '\n';
      var rest := UniversalNewlines(if crlf then raw[2..] else raw[1..]);
      var head := if raw[0] == '\r' then '\n' else raw[0];
      assert ([head] + rest)[1..] == rest;
      assert crlf ==> raw[1..][1..] == raw[2..];
      [head] + rest
  }

  /** Text without a carriage return passes through unchanged. */
  lemma {:induction false} UniversalNewlinesPlain(raw: string)
    requires '\r' !in raw
    ensures UniversalNewlines(raw) == raw
    decreases |raw|
  {
    if |raw| > 0 {
      UniversalNewlinesPlain(raw[1..]);
      assert [raw[0]] + raw[1..] == raw;
    }
  }

  /** A `"\r\n"` between carriage-return-free texts becomes one newline. */
  lemma {:induction false} UniversalNewlinesCrLf(p: string, q: string)
    requires '\r' !in p && '\r' !in q
    ensures UniversalNewlines(p + "\r\n" + q) == p + "\n" + q
    decreases |p|
  {
    var text := p + "\r\n" + q;
    if |p| == 0 {
      assert text == "\r\n" + q && text[2..] == q;
      UniversalNewlinesPlain(q);
    } else {
      assert text[1..] == p[1..] + "\r\n" + q;
      UniversalNewlinesCrLf(p[1..], q);
      assert p + "\n" + q == [p[0]] + (p[1..] + "\n" + q);
    }
  }
}
