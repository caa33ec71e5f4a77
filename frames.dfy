/**
 * The RESP wire grammar: the frame tree, how a frame is written, and a
 * parser for the grammar. The parser is the reference against which the
 * encoder's output is checked: each encoding must parse back as exactly one
 * frame, with every declared count and length matching what follows it.
 */
module Frames {
  import opened Ascii
  import opened Decimal

  datatype Option<T> = None | Some(value: T)

  datatype Frame =
    | Simple(text: seq<byte>)      // +<text>\r\n
    | Error(text: seq<byte>)       // -<text>\r\n
    | Integer(n: int)              // :<decimal>\r\n
    | Bulk(data: seq<byte>)        // $<length>\r\n<data>\r\n
    | Null                         // $-1\r\n
    | Array(items: seq<Frame>)     // *<count>\r\n followed by count frames

  /** Simple strings and errors are single lines: no CR or LF inside. */
  predicate WellFormed(f: Frame) {
    match f
    case Simple(t) => NoLineBreak(t)
    case Error(t) => NoLineBreak(t)
    case Array(items) => forall i :: 0 <= i < |items| ==> WellFormed(items[i])
    case _ => true
  }

  function Header(tag: byte, line: seq<byte>): seq<byte> {
    [tag] + line + CRLF
  }

  /** The bytes of a frame. */
  function Write(f: Frame): seq<byte> {
    match f
    case Simple(t) => Header(PLUS, t)
    case Error(t) => Header(MINUS, t)
    case Integer(n) => Header(COLON, IntText(n))
    case Bulk(d) => Header(DOLLAR, NatText(|d|)) + d + CRLF
    case Null => Header(DOLLAR, [MINUS, ONE])
    case Array(items) => Header(STAR, NatText(|items|)) + WriteAll(items)
  }

  /** The bytes of consecutive frames. */
  function WriteAll(fs: seq<Frame>): seq<byte> {
    if fs == [] then [] else Write(fs[0]) + WriteAll(fs[1..])
  }

  lemma {:induction false} WriteAllSnoc(fs: seq<Frame>, f: Frame)
    ensures WriteAll(fs + [f]) == WriteAll(fs) + Write(f)
  {
    if fs == [] {
      assert fs + [f] == [f];
    } else {
      assert (fs + [f])[1..] == fs[1..] + [f];
      WriteAllSnoc(fs[1..], f);
    }
  }

  /** Splits off the first line: the bytes before the first CR, which must be followed by LF. */
  function Line(s: seq<byte>): (r: Option<(seq<byte>, seq<byte>)>)
    ensures r.Some? ==> |r.value.1| + 2 <= |s|
  {
    if |s| < 2 then None
    else if s[0] == CR then (if s[1] == LF then Some(([], s[2..])) else None)
    else match Line(s[1..])
      case None => None
      case Some((l, rest)) => Some(([s[0]] + l, rest))
  }

  /** Parses one frame off the front of `s`, returning it and the bytes after it. */
  function Parse(s: seq<byte>): (r: Option<(Frame, seq<byte>)>)
    ensures r.Some? ==> |r.value.1| < |s|
    decreases |s|, 0
  {
    if |s| == 0 then None
    else match Line(s[1..])
      case None => None
      case Some((line, rest)) => ParseBody(s[0], line, rest)
  }

  /** What follows a frame's tag and first line, according to the tag. */
  function ParseBody(tag: byte, line: seq<byte>, rest: seq<byte>): (r: Option<(Frame, seq<byte>)>)
    ensures r.Some? ==> |r.value.1| <= |rest|
    decreases |rest|, 2
  {
    if tag == PLUS then
      if LF in line then None else Some((Simple(line), rest))
    else if tag == MINUS then
      if LF in line then None else Some((Error(line), rest))
    else if tag == COLON then
      if IsIntText(line) then Some((Integer(ParseInt(line)), rest)) else None
    else if tag == DOLLAR then
      if line == [MINUS, ONE] then Some((Null, rest))
      else if IsNatText(line) then ParseBulkBody(ParseNat(line), rest)
      else None
    else if tag == STAR then
      if !IsNatText(line) then None
      else match ParseN(rest, ParseNat(line))
        case None => None
        case Some((items, after)) => Some((Array(items), after))
    else None
  }

  /** The payload of a bulk string of declared length `n`, and its closing CRLF. */
  function ParseBulkBody(n: nat, rest: seq<byte>): (r: Option<(Frame, seq<byte>)>)
    ensures r.Some? ==> |r.value.1| <= |rest|
  {
    if n + 2 <= |rest| && rest[n..n + 2] == CRLF then Some((Bulk(rest[..n]), rest[n + 2..]))
    else None
  }

  /** Parses `n` consecutive frames off the front of `s`. */
  function ParseN(s: seq<byte>, n: nat): (r: Option<(seq<Frame>, seq<byte>)>)
    ensures r.Some? ==> |r.value.1| <= |s| && |r.value.0| == n
    decreases |s|, 1, n
  {
    if n == 0 then Some(([], s))
    else match Parse(s)
      case None => None
      case Some((f, rest)) =>
        match ParseN(rest, n - 1)
        case None => None
        case Some((fs, after)) => Some(([f] + fs, after))
  }

  lemma {:induction false} LineOf(line: seq<byte>, rest: seq<byte>)
    requires CR !in line
    ensures Line(line + CRLF + rest) == Some((line, rest))
  {
    if line != [] {
      assert (line + CRLF + rest)[1..] == line[1..] + CRLF + rest;
      LineOf(line[1..], rest);
      assert [line[0]] + line[1..] == line;
    }
  }

  /** A header line, split off again. */
  lemma HeaderLine(tag: byte, line: seq<byte>, rest: seq<byte>)
    requires CR !in line
    ensures (Header(tag, line) + rest)[0] == tag
    ensures Line((Header(tag, line) + rest)[1..]) == Some((line, rest))
  {
    assert (Header(tag, line) + rest)[1..] == line + CRLF + rest;
    LineOf(line, rest);
  }

  /** A frame whose first line is intact parses according to its tag. */
  lemma ParseHeader(tag: byte, line: seq<byte>, tail: seq<byte>)
    requires CR !in line
    ensures Parse(Header(tag, line) + tail) == ParseBody(tag, line, tail)
  {
    HeaderLine(tag, line, tail);
  }

  lemma ParseArrayBody(items: seq<Frame>, tail: seq<byte>, rest: seq<byte>)
    requires ParseN(tail, |items|) == Some((items, rest))
    ensures ParseBody(STAR, NatText(|items|), tail) == Some((Array(items), rest))
  {
    ParseNatText(|items|);
  }

  lemma ParseLine(tag: byte, line: seq<byte>, rest: seq<byte>)
    requires tag in {PLUS, MINUS} && NoLineBreak(line)
    ensures Parse(Header(tag, line) + rest)
         == Some((if tag == PLUS then Simple(line) else Error(line), rest))
  {
    HeaderLine(tag, line, rest);
  }

  lemma ParseInteger(n: int, rest: seq<byte>)
    ensures Parse(Write(Integer(n)) + rest) == Some((Integer(n), rest))
  {
    HeaderLine(COLON, IntText(n), rest);
    ParseIntText(n);
  }

  lemma ParseNull(rest: seq<byte>)
    ensures Parse(Write(Null) + rest) == Some((Null, rest))
  {
    HeaderLine(DOLLAR, [MINUS, ONE], rest);
  }

  lemma ParseBulk(d: seq<byte>, rest: seq<byte>)
    ensures Parse(Write(Bulk(d)) + rest) == Some((Bulk(d), rest))
  {
    var n := |d|;
    var tail := d + CRLF + rest;
    assert Write(Bulk(d)) + rest == Header(DOLLAR, NatText(n)) + tail;
    HeaderLine(DOLLAR, NatText(n), tail);
    ParseNatText(n);
    assert NatText(n) != [MINUS, ONE];
    assert tail[..n] == d && tail[n..n + 2] == CRLF && tail[n + 2..] == rest;
    assert ParseBulkBody(n, tail) == Some((Bulk(d), rest));
  }

  lemma ParseArray(items: seq<Frame>, rest: seq<byte>)
    requires ParseN(WriteAll(items) + rest, |items|) == Some((items, rest))
    ensures Parse(Write(Array(items)) + rest) == Some((Array(items), rest))
  {
    var tail := WriteAll(items) + rest;
    assert Write(Array(items)) + rest == Header(STAR, NatText(|items|)) + tail;
    ParseHeader(STAR, NatText(|items|), tail);
    ParseArrayBody(items, tail, rest);
  }

  /**
   * The grammar reads back every well-formed frame exactly, whatever follows
   * it: frames are self-delimiting, and the count in an array header and the
   * length in a bulk header agree with what the writer emits after them.
   */
  lemma {:induction false} ParseWrite(f: Frame, rest: seq<byte>)
    requires WellFormed(f)
    ensures Parse(Write(f) + rest) == Some((f, rest))
    decreases f, 0
  {
    match f
    case Simple(t) => ParseLine(PLUS, t, rest);
    case Error(t) => ParseLine(MINUS, t, rest);
    case Integer(n) => ParseInteger(n, rest);
    case Bulk(d) => ParseBulk(d, rest);
    case Null => ParseNull(rest);
    case Array(items) =>
      ParseWriteAll(items, rest);
      ParseArray(items, rest);
  }

  /** Parsing `n` frames takes the first and then `n - 1` more. */
  lemma ParseNCons(s: seq<byte>, n: nat, f: Frame, mid: seq<byte>, fs: seq<Frame>, rest: seq<byte>)
    requires n > 0 && Parse(s) == Some((f, mid)) && ParseN(mid, n - 1) == Some((fs, rest))
    ensures ParseN(s, n) == Some(([f] + fs, rest))
  {
  }

  lemma {:induction false} ParseWriteAll(fs: seq<Frame>, rest: seq<byte>)
    requires forall i :: 0 <= i < |fs| ==> WellFormed(fs[i])
    ensures ParseN(WriteAll(fs) + rest, |fs|) == Some((fs, rest))
    decreases fs, 1
  {
    if fs != [] {
      var tail := WriteAll(fs[1..]) + rest;
      assert WriteAll(fs) + rest == Write(fs[0]) + tail;
      ParseWrite(fs[0], tail);
      ParseWriteAll(fs[1..], rest);
      ParseNCons(WriteAll(fs) + rest, |fs|, fs[0], tail, fs[1..], rest);
      assert [fs[0]] + fs[1..] == fs;
    } else {
      assert WriteAll(fs) + rest == rest;
    }
  }
}
