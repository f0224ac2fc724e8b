/**
 A reader of Snappy element streams, written from sections 2.1 (literals) and 2.2.1 to 2.2.3 (copies) of the
 "Snappy compressed format description". It is independent of the compressor and refuses malformed streams.
 */
module SnappyFormat {
  import opened Bytes

  datatype Element = Literal(bytes: seq<byte>) | Copy(offset: nat, length: nat)

  /** The element at the head of a stream and the number of stream bytes it takes. */
  datatype Parsed = Malformed | Parsed(element: Element, size: nat)

  /** The little-endian value of a sequence of bytes. */
  function LittleEndian(s: seq<byte>): nat {
    if s == [] then 0 else s[0] + 256 * LittleEndian(s[1..])
  }

  function ParseElement(s: seq<byte>): (r: Parsed)
    requires s != []
    ensures r.Parsed? ==> 1 <= r.size <= |s|
  {
    var tag: int := s[0];
    var kind, field := tag % 4, tag / 4;
    if kind == 0 then ParseLiteral(s, field)
    else if kind == 1 then
      if |s| < 2 then Malformed else Parsed(Copy(field / 8 * 256 + LittleEndian(s[1..2]), 4 + field % 8), 2)
    else if kind == 2 then
      if |s| < 3 then Malformed else Parsed(Copy(LittleEndian(s[1..3]), 1 + field), 3)
    else
      if |s| < 5 then Malformed else Parsed(Copy(LittleEndian(s[1..5]), 1 + field), 5)
  }

  /** Section 2.1: lengths up to 60 sit in the tag, longer ones in one to four bytes after it. */
  function ParseLiteral(s: seq<byte>, field: nat): (r: Parsed)
    requires s != [] && field < 64
    ensures r.Parsed? ==> 1 <= r.size <= |s|
  {
    var extra := if field < 60 then 0 else field - 59;
    if |s| < 1 + extra then Malformed
    else
      var length := 1 + if extra == 0 then field else LittleEndian(s[1..1 + extra]);
      var size := 1 + extra + length;
      if |s| < size then Malformed else Parsed(Literal(s[1 + extra..size]), size)
  }

  /** Section 2.2: a copy repeats earlier output byte by byte, so it may overlap the bytes it produces. */
  function CopyBytes(out: seq<byte>, offset: nat, length: nat): seq<byte>
    requires 1 <= offset <= |out|
    decreases length, out
  {
    if length == 0 then out else CopyBytes(out + [out[|out| - offset]], offset, length - 1)
  }

  function Apply(out: seq<byte>, e: Element): Option<seq<byte>> {
    match e
    case Literal(bytes) => Some(out + bytes)
    case Copy(offset, length) => if 1 <= offset <= |out| then Some(CopyBytes(out, offset, length)) else None
  }

  /** The output after reading the whole stream `s`, given that `out` has been produced already. */
  function Decode(out: seq<byte>, s: seq<byte>): Option<seq<byte>>
    decreases |s|
  {
    if s == [] then Some(out)
    else match ParseElement(s)
      case Malformed => None
      case Parsed(e, size) =>
        match Apply(out, e)
        case None => None
        case Some(out') => Decode(out', s[size..])
  }

  /** All elements of a stream, in order. */
  function ParseAll(s: seq<byte>): Option<seq<Element>>
    decreases |s|
  {
    if s == [] then Some([])
    else match ParseElement(s)
      case Malformed => None
      case Parsed(e, size) =>
        match ParseAll(s[size..])
        case None => None
        case Some(es) => Some([e] + es)
  }

  // ---- what one element at the head of a stream decodes to ----

  /** A parsed element does not depend on what follows it. */
  lemma DecodeHead(out: seq<byte>, head: seq<byte>, rest: seq<byte>, e: Element)
    requires head != []
    requires ParseElement(head + rest) == Parsed(e, |head|)
    ensures Decode(out, head + rest) ==
            match Apply(out, e) case None => None case Some(out') => Decode(out', rest)
  {
    assert (head + rest)[|head|..] == rest;
  }
}
