/** The test driver's list of helper commands.

    `HelperCommands` is a vector of encoded records with a read cursor. The
    `send*` operations build one record and append it; `NextCommand` hands the
    records out in insertion order, then the empty string forever; `Reset`
    rewinds the cursor. Output and exit records are assembled in a fixed
    1024-byte stack buffer before being copied into the vector, and that is
    modelled here with an array.
 */
module HelperCommandList {
  import opened Int32Bytes
  import opened CommandCodec

  /** `char cmdBuffer[1024]`, the scratch buffer a record is built in. */
  const BufferSize: nat := 1024

  /** The payloads whose output record fits the scratch buffer. */
  predicate FitsBuffer(data: seq<byte>) {
    |data| + HeaderSize <= BufferSize
  }

  /** `memcpy(dst + offset, src, |src|)`: writes `src` at `offset` and leaves
      the rest of `dst` as it was. */
  method CopyInto(dst: array<byte>, offset: nat, src: seq<byte>)
    requires offset + |src| <= dst.Length
    modifies dst
    ensures dst[offset..offset + |src|] == src
    ensures dst[..offset] == old(dst[..offset])
    ensures dst[offset + |src|..] == old(dst[offset + |src|..])
  {
    var i := 0;
    while i < |src|
      invariant 0 <= i <= |src|
      invariant forall k :: 0 <= k < i ==> dst[offset + k] == src[k]
      invariant forall k :: 0 <= k < offset ==> dst[k] == old(dst[k])
      invariant forall k :: offset + i <= k < dst.Length ==> dst[k] == old(dst[k])
    {
      dst[offset + i] := src[i];
      i := i + 1;
    }
  }

  /** The record `sendOutput` builds: the tag, the payload length as a native
      `int`, then the payload. The buffer must hold all of it. */
  method BuildOutputRecord(isStdOut: bool, data: seq<byte>) returns (rec: seq<byte>)
    requires FitsBuffer(data)
    ensures |rec| == |data| + TagSize + IntSize
    ensures rec[..TagSize] == (if isStdOut then OutTag else ErrTag)
    ensures rec[TagSize..HeaderSize] == EncodeInt32(|data| as int32)
    ensures rec[HeaderSize..] == data
    ensures rec == Encode(Output(isStdOut, data))
  {
    var cmdBuffer := new byte[BufferSize];
    var len: int32 := |data| as int32;
    var totalLen := len as int + TagSize + IntSize;
    // sprintf writes the three tag characters and a terminating NUL
    var tag := if isStdOut then OutTag else ErrTag;
    CopyInto(cmdBuffer, 0, tag + [0]);
    assert cmdBuffer[..TagSize] == tag;
    CopyInto(cmdBuffer, TagSize, EncodeInt32(len));
    assert cmdBuffer[..TagSize] == tag;
    CopyInto(cmdBuffer, HeaderSize, data);
    rec := cmdBuffer[..totalLen];
    assert rec[..TagSize] == cmdBuffer[..HeaderSize][..TagSize];
    assert rec[TagSize..HeaderSize] == cmdBuffer[TagSize..HeaderSize];
    assert rec[HeaderSize..] == cmdBuffer[HeaderSize..totalLen];
    assert rec == rec[..TagSize] + rec[TagSize..HeaderSize] + rec[HeaderSize..];
  }

  /** The record `sendExit` builds: the tag, then the exit code as a native `int`. */
  method BuildExitRecord(code: int32) returns (rec: seq<byte>)
    ensures |rec| == TagSize + IntSize
    ensures rec[..TagSize] == ExitTag
    ensures rec[TagSize..] == EncodeInt32(code)
    ensures rec == Encode(Exit(code))
  {
    var cmdBuffer := new byte[BufferSize];
    var totalLen := TagSize + IntSize;
    CopyInto(cmdBuffer, 0, ExitTag + [0]);
    assert cmdBuffer[..TagSize] == ExitTag;
    CopyInto(cmdBuffer, TagSize, EncodeInt32(code));
    assert cmdBuffer[..TagSize] == ExitTag;
    rec := cmdBuffer[..totalLen];
    assert rec[..TagSize] == cmdBuffer[..HeaderSize][..TagSize];
    assert rec[TagSize..] == cmdBuffer[TagSize..HeaderSize];
    assert rec == rec[..TagSize] + rec[TagSize..];
  }

  /** The records of a command list, sent back to back, read back as the
      commands that were sent, in the order they were sent. */
  lemma ConcatDecodes(records: seq<seq<byte>>, cmds: seq<Command>)
    requires |records| == |cmds| && AllRepresentable(cmds)
    requires forall i :: 0 <= i < |cmds| ==> records[i] == Encode(cmds[i])
    ensures DecodeStream(Concat(records)) == Ok(cmds)
  {
    assert records == Records(cmds);
    DecodeStreamEncodeAll(cmds);
  }

  /** `struct HelperCommands : vector<string>`. */
  class HelperCommands {
    /** The vector's elements: one encoded record per command, oldest first. */
    var commands: seq<seq<byte>>
    /** `active_`: the index of the record `NextCommand` hands out next. */
    var active: int
    /** The commands the records encode. */
    ghost var Sent: seq<Command>

    ghost predicate Valid()
      reads this
    {
      0 <= active <= |commands| &&
      |commands| == |Sent| && AllRepresentable(Sent) &&
      forall i :: 0 <= i < |Sent| ==> commands[i] == Encode(Sent[i])
    }

    /** An empty list with its cursor at the start. */
    constructor ()
      ensures Valid()
      ensures commands == [] && Sent == [] && active == 0
    {
      commands := [];
      active := 0;
      Sent := [];
    }

    /** Rewinds the cursor; the records stay. */
    method Reset()
      requires Valid()
      modifies this`active
      ensures Valid()
      ensures active == 0 && commands == old(commands) && Sent == old(Sent)
    {
      active := 0;
    }

    /** The record at the cursor, advancing it; the empty string once every
        record has been handed out. No record is empty, so the empty string
        means exactly that the list is exhausted. */
    method NextCommand() returns (cmd: seq<byte>)
      requires Valid()
      modifies this`active
      ensures Valid()
      ensures commands == old(commands) && Sent == old(Sent)
      ensures old(active) < |commands| ==> cmd == commands[old(active)] && active == old(active) + 1
      ensures old(active) >= |commands| ==> cmd == [] && active == old(active)
      ensures cmd == [] <==> old(active) == |commands|
      ensures cmd != [] ==> Decode(cmd) == Ok(Sent[old(active)])
    {
      if active < |commands| {
        var current := active;
        active := active + 1;
        cmd := commands[current];
        DecodeEncode(Sent[current]);
      } else {
        cmd := [];
      }
    }

    /** Appends the record telling the helper to write `data` on its standard
        output (`isStdOut`) or standard error. The record must fit the
        1024-byte scratch buffer. */
    method SendOutput(isStdOut: bool, data: seq<byte>)
      requires Valid() && FitsBuffer(data)
      modifies this`commands, this`Sent
      ensures Valid()
      ensures Sent == old(Sent) + [Output(isStdOut, data)]
      ensures commands == old(commands) + [Encode(Output(isStdOut, data))]
      ensures |commands[|commands| - 1]| == |data| + TagSize + IntSize
      ensures active == old(active)
    {
      var rec := BuildOutputRecord(isStdOut, data);
      commands := commands + [rec];
      Sent := Sent + [Output(isStdOut, data)];
    }

    /** Appends the record telling the helper to exit with `code`. */
    method SendExit(code: int32)
      requires Valid()
      modifies this`commands, this`Sent
      ensures Valid()
      ensures Sent == old(Sent) + [Exit(code)]
      ensures commands == old(commands) + [Encode(Exit(code))]
      ensures |commands[|commands| - 1]| == TagSize + IntSize
      ensures active == old(active)
    {
      var rec := BuildExitRecord(code);
      commands := commands + [rec];
      Sent := Sent + [Exit(code)];
    }

    /** Appends the bare record telling the helper to abort. */
    method SendAbort()
      requires Valid()
      modifies this`commands, this`Sent
      ensures Valid()
      ensures Sent == old(Sent) + [Abort]
      ensures commands == old(commands) + [AbortTag]
      ensures active == old(active)
    {
      commands := commands + [AbortTag];
      Sent := Sent + [Abort];
    }
  }

  /** The pattern of the cleanup test: an output record and an exit record,
      handed out in order and decoding to their commands, then the empty
      string; after a reset the first record comes back. */
  method ClientInOrder(data: seq<byte>)
    requires FitsBuffer(data)
  {
    var h := new HelperCommands();
    h.SendOutput(true, data);
    h.SendExit(0);

    var c := h.NextCommand();
    assert Decode(c) == Ok(Output(true, data));
    c := h.NextCommand();
    assert Decode(c) == Ok(Exit(0));
    c := h.NextCommand();
    assert c == [];
    c := h.NextCommand();
    assert c == [];
    h.Reset();
    c := h.NextCommand();
    assert Decode(c) == Ok(Output(true, data));
  }

  /** The pattern of the callback test: three output records and an exit
      record, written to the helper's standard input back to back, read back
      as the four commands. */
  method ClientStream(out1: seq<byte>, out2: seq<byte>, err: seq<byte>)
    requires FitsBuffer(out1) && FitsBuffer(out2) && FitsBuffer(err)
  {
    var h := new HelperCommands();
    h.SendOutput(true, out1);
    h.SendOutput(true, out2);
    h.SendOutput(false, err);
    h.SendExit(0);
    var sent := [Output(true, out1), Output(true, out2), Output(false, err), Exit(0)];
    assert h.Sent == sent;
    ConcatDecodes(h.commands, h.Sent);
    assert DecodeStream(Concat(h.commands)) == Ok(sent);
  }
}
