/** The records the test driver sends to the helper child on its standard input.

    A record is a three-byte tag followed, for two of the four kinds, by a
    native `int`:
      "out" | "err"  length  payload   -- echo payload on stdout / stderr
      "xit"          code              -- exit with code
      "abt"                            -- abort
    Records are written back to back; the length field is what lets a reader
    find where an output record ends. The reader below is the partner of the
    encoder: it accepts exactly the byte strings the encoder produces.
 */
module CommandCodec {
  import opened Int32Bytes

  /** One command for the helper child. */
  datatype Command =
    | Output(toStdOut: bool, data: seq<byte>)
    | Exit(code: int32)
    | Abort

  const OutTag: seq<byte> := [0x6F, 0x75, 0x74]    // "out"
  const ErrTag: seq<byte> := [0x65, 0x72, 0x72]    // "err"
  const ExitTag: seq<byte> := [0x78, 0x69, 0x74]   // "xit"
  const AbortTag: seq<byte> := [0x61, 0x62, 0x74]  // "abt"

  const TagSize: nat := 3
  /** Tag plus the `int` field: the whole of an exit record. */
  const HeaderSize: nat := TagSize + IntSize

  /** A command whose payload length fits the `int` length field. */
  predicate Representable(c: Command) {
    c.Output? ==> |c.data| <= Int32Max
  }

  /** Every command of `cs` is representable. */
  predicate AllRepresentable(cs: seq<Command>) {
    forall i :: 0 <= i < |cs| ==> Representable(cs[i])
  }

  function Tag(c: Command): (t: seq<byte>)
    ensures |t| == TagSize
  {
    match c
    case Output(toStdOut, _) => if toStdOut then OutTag else ErrTag
    case Exit(_) => ExitTag
    case Abort => AbortTag
  }

  /** The bytes of one record. */
  function Encode(c: Command): (r: seq<byte>)
    requires Representable(c)
    ensures |r| >= TagSize && r[..TagSize] == Tag(c)
    ensures c.Output? ==> |r| == |c.data| + TagSize + IntSize
    ensures c.Exit? ==> |r| == TagSize + IntSize
    ensures c.Abort? ==> |r| == TagSize
  {
    match c
    case Output(_, data) => Tag(c) + EncodeInt32(|data| as int32) + data
    case Exit(code) => Tag(c) + EncodeInt32(code)
    case Abort => Tag(c)
  }

  /** Why a byte string is not a well-formed record. */
  datatype DecodeError = Truncated | NegativeLength | UnknownTag | TrailingBytes

  datatype Result<T> = Ok(value: T) | Err(error: DecodeError)

  /** A command read from the front of a stream and the number of bytes it took. */
  datatype Parsed = Parsed(cmd: Command, size: nat)

  /** Reads an output record from the front of `s`, whose first three bytes
      are `"out"` or `"err"`: the length field, then that many payload bytes. */
  function DecodeOutput(s: seq<byte>): (r: Result<Parsed>)
    requires |s| >= TagSize && (s[..TagSize] == OutTag || s[..TagSize] == ErrTag)
    ensures r.Ok? ==> r.value.cmd.Output? && r.value.cmd.toStdOut == (s[..TagSize] == OutTag)
    ensures r.Ok? ==> Representable(r.value.cmd)
    ensures r.Ok? ==> TagSize <= r.value.size <= |s|
    ensures r.Ok? ==> s[..r.value.size] == Encode(r.value.cmd)
  {
    if |s| < HeaderSize then Err(Truncated)
    else
      var field := s[TagSize..HeaderSize];
      var len := DecodeInt32(field) as int;
      if len < 0 then Err(NegativeLength)
      else if |s| < HeaderSize + len then Err(Truncated)
      else
        var c := Output(s[..TagSize] == OutTag, s[HeaderSize..HeaderSize + len]);
        Int32BytesRoundTrip(field);
        assert s[..HeaderSize + len] == s[..TagSize] + field + c.data;
        Ok(Parsed(c, HeaderSize + len))
  }

  /** Reads an exit record from the front of `s`, whose first three bytes are
      `"xit"`: the exit code field. */
  function DecodeExit(s: seq<byte>): (r: Result<Parsed>)
    requires |s| >= TagSize && s[..TagSize] == ExitTag
    ensures r.Ok? ==> r.value.cmd.Exit?
    ensures r.Ok? ==> Representable(r.value.cmd)
    ensures r.Ok? ==> TagSize <= r.value.size <= |s|
    ensures r.Ok? ==> s[..r.value.size] == Encode(r.value.cmd)
  {
    if |s| < HeaderSize then Err(Truncated)
    else
      var field := s[TagSize..HeaderSize];
      Int32BytesRoundTrip(field);
      assert s[..HeaderSize] == s[..TagSize] + field;
      Ok(Parsed(Exit(DecodeInt32(field)), HeaderSize))
  }

  /** Reads the record at the front of `s`. Whatever it accepts is exactly the
      encoding of the command it returns, and takes at least the tag. */
  function DecodeNext(s: seq<byte>): (r: Result<Parsed>)
    ensures r.Ok? ==> Representable(r.value.cmd)
    ensures r.Ok? ==> TagSize <= r.value.size <= |s|
    ensures r.Ok? ==> s[..r.value.size] == Encode(r.value.cmd)
  {
    if |s| < TagSize then Err(Truncated)
    else
      var tag := s[..TagSize];
      if tag == OutTag || tag == ErrTag then DecodeOutput(s)
      else if tag == ExitTag then DecodeExit(s)
      else if tag == AbortTag then Ok(Parsed(Abort, TagSize))
      else Err(UnknownTag)
  }

  /** Reads a byte string that must hold exactly one record. */
  function Decode(rec: seq<byte>): (r: Result<Command>)
    ensures r.Ok? ==> Representable(r.value) && Encode(r.value) == rec
  {
    match DecodeNext(rec)
    case Err(e) => Err(e)
    case Ok(p) => if p.size == |rec| then Ok(p.cmd) else Err(TrailingBytes)
  }

  /** A record is read back whole from the front of any stream. */
  lemma DecodeNextOfEncode(c: Command, rest: seq<byte>)
    requires Representable(c)
    ensures DecodeNext(Encode(c) + rest) == Ok(Parsed(c, |Encode(c)|))
  {
    var s := Encode(c) + rest;
    assert s[..TagSize] == Tag(c);
    match c
    case Output(toStdOut, data) =>
      var len := |data| as int32;
      assert s[TagSize..HeaderSize] == EncodeInt32(len);
      Int32RoundTrip(len);
      assert s[HeaderSize..HeaderSize + |data|] == data;
    case Exit(code) =>
      assert s[TagSize..HeaderSize] == EncodeInt32(code);
      Int32RoundTrip(code);
    case Abort =>
  }

  /** Decoding a record gives back the command it encodes. */
  lemma DecodeEncode(c: Command)
    requires Representable(c)
    ensures Decode(Encode(c)) == Ok(c)
  {
    DecodeNextOfEncode(c, []);
    assert Encode(c) + [] == Encode(c);
  }

  /** Two commands with the same record are the same command. */
  lemma EncodeInjective(c: Command, d: Command)
    requires Representable(c) && Representable(d)
    ensures Encode(c) == Encode(d) <==> c == d
  {
    if Encode(c) == Encode(d) {
      DecodeEncode(c);
      DecodeEncode(d);
    }
  }

  /** Byte strings written one after another, as the tests write records to
      the helper's standard input. */
  function Concat(records: seq<seq<byte>>): (s: seq<byte>)
  {
    if records == [] then [] else records[0] + Concat(records[1..])
  }

  /** The record of each command, in order. */
  function Records(cs: seq<Command>): (rs: seq<seq<byte>>)
    requires AllRepresentable(cs)
    ensures |rs| == |cs|
    ensures forall i :: 0 <= i < |cs| ==> rs[i] == Encode(cs[i])
  {
    if cs == [] then [] else [Encode(cs[0])] + Records(cs[1..])
  }

  /** The records of a sequence of commands, written back to back. */
  function EncodeAll(cs: seq<Command>): (r: seq<byte>)
    requires AllRepresentable(cs)
  {
    Concat(Records(cs))
  }

  /** The stream of `[c] + cs` is the record of `c` followed by the stream of `cs`. */
  lemma EncodeAllPrepend(c: Command, cs: seq<Command>)
    requires Representable(c) && AllRepresentable(cs)
    ensures AllRepresentable([c] + cs)
    ensures EncodeAll([c] + cs) == Encode(c) + EncodeAll(cs)
  {
    var all := [c] + cs;
    assert all[0] == c && all[1..] == cs;
    var rs := Records(all);
    assert rs[0] == Encode(c);
    assert rs[1..] == Records(cs);
  }

  /** Reads a whole stream of back-to-back records. Whatever it accepts is
      exactly the concatenation of the records of the commands it returns. */
  function DecodeStream(s: seq<byte>): (r: Result<seq<Command>>)
    ensures r.Ok? ==> AllRepresentable(r.value)
    ensures r.Ok? ==> EncodeAll(r.value) == s
    decreases |s|
  {
    if s == [] then Ok([])
    else
      match DecodeNext(s)
      case Err(e) => Err(e)
      case Ok(p) =>
        match DecodeStream(s[p.size..])
        case Err(e) => Err(e)
        case Ok(cs) =>
          StreamStep(s, p, cs);
          Ok([p.cmd] + cs)
  }

  /** One step of `DecodeStream`: a record at the front of `s` followed by
      the stream of `cs` is the stream of `[p.cmd] + cs`. */
  lemma StreamStep(s: seq<byte>, p: Parsed, cs: seq<Command>)
    requires Representable(p.cmd) && p.size <= |s| && s[..p.size] == Encode(p.cmd)
    requires AllRepresentable(cs) && EncodeAll(cs) == s[p.size..]
    ensures AllRepresentable([p.cmd] + cs)
    ensures EncodeAll([p.cmd] + cs) == s
  {
    EncodeAllPrepend(p.cmd, cs);
    assert s == s[..p.size] + s[p.size..];
  }

  /** The stream of records of any command sequence reads back as that sequence. */
  lemma {:induction false} DecodeStreamEncodeAll(cs: seq<Command>)
    requires AllRepresentable(cs)
    ensures DecodeStream(EncodeAll(cs)) == Ok(cs)
  {
    if cs != [] {
      EncodeAllPrepend(cs[0], cs[1..]);
      assert [cs[0]] + cs[1..] == cs;
      var rest := EncodeAll(cs[1..]);
      DecodeNextOfEncode(cs[0], rest);
      assert (Encode(cs[0]) + rest)[|Encode(cs[0])|..] == rest;
      DecodeStreamEncodeAll(cs[1..]);
    }
  }
}
