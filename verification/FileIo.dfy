/**
 * The loops of src/base/file_utils.cc, against an operating system that moves as many or as few bytes per
 * call as it likes, and may fail at any call.
 */
module FileIo {
  import opened Wrappers

  const BUF_SIZE: nat := 2048
  const COPY_BUF_SIZE: nat := 32768
  const UINT32_MAX: nat := 0xffff_ffff

  /** An open file to read: its contents do not change meanwhile. */
  class Source {
    const content: seq<Byte>
    var pos: nat
    /** How many calls failed. */
    ghost var failures: nat

    constructor (content: seq<Byte>, pos: nat)
      ensures this.content == content && this.pos == pos && failures == 0
    {
      this.content, this.pos, failures := content, pos, 0;
    }

    /** `read`: some of the next bytes, none only at the end of the file; negative on failure. */
    method Read(size: nat) returns (ret: int, data: seq<Byte>)
      modifies this
      ensures ret <= size
      ensures failures == old(failures) + if ret < 0 then 1 else 0
      ensures ret < 0 ==> data == [] && pos == old(pos)
      ensures ret == 0 ==> data == [] && pos == old(pos) && (size > 0 ==> pos >= |content|)
      ensures ret > 0 ==>
                |data| == ret && pos == old(pos) + ret && pos <= |content| && data == content[old(pos)..pos]
    {
      ret, data := -1, [];
      if size == 0 || pos >= |content| {
        if * {
          ret := 0;
        }
      } else if * {
        var limit := if pos + size <= |content| then size else |content| - pos;
        ret :| 1 <= ret <= limit;
        data, pos := content[pos..pos + ret], pos + ret;
      }
      failures := failures + if ret < 0 then 1 else 0;
    }

    /** `lseek(fd, 0, SEEK_CUR)` */
    method Tell() returns (ok: bool, at: nat)
      modifies this
      ensures pos == old(pos) && (ok ==> at == pos)
      ensures failures == old(failures) + if ok then 0 else 1
    {
      ok, at := *, pos;
      failures := failures + if ok then 0 else 1;
    }

    /** `lseek`, to the start or to a position remembered from before. */
    method Seek(to: nat) returns (ok: bool)
      modifies this
      ensures pos == if ok then to else old(pos)
      ensures failures == old(failures) + if ok then 0 else 1
    {
      ok := *;
      if ok {
        pos := to;
      } else {
        failures := failures + 1;
      }
    }
  }

  /** An open file to write. */
  class Sink {
    var written: seq<Byte>
    /** How many calls failed, and how many wrote nothing of something. */
    ghost var failures: nat
    ghost var stalls: nat

    constructor ()
      ensures written == [] && failures == stalls == 0
    {
      written, failures, stalls := [], 0, 0;
    }

    /** `write`: some of the bytes, possibly none; negative on failure. */
    method Write(data: seq<Byte>) returns (ret: int)
      modifies this
      ensures ret <= |data|
      ensures written == old(written) + if ret > 0 then data[..ret] else []
      ensures failures == old(failures) + if ret < 0 then 1 else 0
      ensures stalls == old(stalls) + if ret == 0 && data != [] then 1 else 0
    {
      ret :| -1 <= ret <= |data|;
      if ret > 0 {
        written := written + data[..ret];
      }
      failures := failures + if ret < 0 then 1 else 0;
      stalls := stalls + if ret == 0 && data != [] then 1 else 0;
    }
  }

  function Resize(s: seq<Byte>, n: nat): (r: seq<Byte>)
    ensures |r| == n
    ensures forall i :: 0 <= i < n && i < |s| ==> r[i] == s[i]
  {
    if n <= |s| then s[..n] else s + seq(n - |s|, _ => 0)
  }

  /**
   * `ReadFileDescriptor`.  `statSize` is the size that fstat reports, if any: a mere hint.  What was in
   * `out` stays, and behind it comes exactly what was read; the result is true exactly if no read failed.
   */
  method ReadFileDescriptor(fd: Source, out0: seq<Byte>, statSize: int) returns (ok: bool, out: seq<Byte>)
    modifies fd
    ensures fd.pos >= old(fd.pos)
    ensures fd.pos == old(fd.pos) ==> out == out0
    ensures fd.pos > old(fd.pos) ==> fd.pos <= |fd.content| && out == out0 + fd.content[old(fd.pos)..fd.pos]
    ensures ok ==> fd.pos >= |fd.content|
    ensures fd.failures == old(fd.failures) + if ok then 0 else 1
  {
    out := out0;
    var i: nat := |out|;
    if statSize > 0 {
      out := Resize(out, i + statSize);
    }
    ghost var start := fd.pos;
    while true
      invariant fd.failures == old(fd.failures)
      invariant i <= |out| && fd.pos >= start && (fd.pos > start ==> fd.pos <= |fd.content|)
      invariant out[..i] == out0 + if fd.pos > start then fd.content[start..fd.pos] else []
      decreases |fd.content| - fd.pos
    {
      ghost var done := out[..i];
      if |out| < i + BUF_SIZE {
        out := Resize(out, |out| + BUF_SIZE);
      }
      assert i + BUF_SIZE <= |out|;  // there is room for what read may store
      assert out[..i] == done;
      ghost var from := fd.pos;
      var bytesRead, data := fd.Read(BUF_SIZE);
      if bytesRead > 0 {
        out := out[..i] + data + out[i + bytesRead..];
        assert out[..i + bytesRead] == done + data;
        assert from > start ==> fd.content[start..fd.pos] == fd.content[start..from] + data;
        i := i + bytesRead;
      } else {
        out := Resize(out, i);
        assert out == done;
        return bytesRead == 0, out;
      }
    }
  }

  /**
   * `WriteAll`: a prefix of the buffer is written; the result is its length, or negative after a failure.  It is
   * all of the buffer exactly if no write failed and none wrote nothing.
   */
  method WriteAll(fd: Sink, buf: seq<Byte>) returns (ret: int, ghost k: nat)
    modifies fd
    ensures k <= |buf| && fd.written == old(fd.written) + buf[..k]
    ensures ret >= 0 ==> ret == k
    ensures fd.failures == old(fd.failures) + if ret < 0 then 1 else 0
    ensures fd.stalls == old(fd.stalls) + if ret >= 0 && k < |buf| then 1 else 0
    ensures ret < 0 ==> k < |buf|
  {
    var written := 0;
    while written < |buf|
      invariant fd.failures == old(fd.failures) && fd.stalls == old(fd.stalls)
      invariant written <= |buf| && fd.written == old(fd.written) + buf[..written]
      decreases |buf| - written
    {
      var left := if |buf| - written < UINT32_MAX then |buf| - written else UINT32_MAX;
      var wr := fd.Write(buf[written..written + left]);
      if wr == 0 {
        break;
      }
      if wr < 0 {
        return wr, written;
      }
      assert buf[..written + wr] == buf[..written] + buf[written..written + left][..wr];
      written := written + wr;
    }
    return written, written;
  }

  /** No call on either file has failed or stalled since the counters had these values. */
  ghost predicate NothingFailed(source: Source, sink: Sink, sourceFailures: nat, sinkFailures: nat, stalls: nat)
    reads source, sink
  {
    source.failures == sourceFailures && sink.failures == sinkFailures && sink.stalls == stalls
  }

  /** `CopyFileContents` up to its clean-up: from the start of the source to its end. */
  method CopyFromStart(source: Source, sink: Sink) returns (ok: bool, ghost copied: nat)
    requires source.pos == 0
    modifies source, sink
    ensures copied <= |source.content| && sink.written == old(sink.written) + source.content[..copied]
    ensures ok ==> copied == |source.content|
    ensures ok <==> NothingFailed(source, sink, old(source.failures), old(sink.failures), old(sink.stalls))
  {
    copied := 0;
    while true
      invariant NothingFailed(source, sink, old(source.failures), old(sink.failures), old(sink.stalls))
      invariant copied == source.pos <= |source.content|
      invariant sink.written == old(sink.written) + source.content[..copied]
      decreases |source.content| - source.pos
    {
      var bytesRead, data := source.Read(COPY_BUF_SIZE);
      if bytesRead == 0 {
        return true, copied;
      }
      if bytesRead < 0 {
        return false, copied;
      }
      ghost var k;
      var written;
      written, k := WriteAll(sink, data);
      assert source.content[..copied + k] == source.content[..copied] + data[..k];
      if written != bytesRead {
        return false, copied + k;
      }
      copied := source.pos;
    }
  }

  /**
   * `CopyFileContents`.  It succeeds exactly if no seek, read or write fails and no write stalls.  Then all of the
   * source is in the sink, otherwise a prefix of it.  The offset is put back; that last lseek is taken not to fail,
   * and the code crashes if it does.
   */
  method CopyFileContents(source: Source, sink: Sink) returns (ok: bool, ghost copied: nat)
    modifies source, sink
    ensures copied <= |source.content| && sink.written == old(sink.written) + source.content[..copied]
    ensures ok ==> copied == |source.content|
    ensures ok <==> NothingFailed(source, sink, old(source.failures), old(sink.failures), old(sink.stalls))
    ensures source.pos == old(source.pos)
  {
    var told, original := source.Tell();
    if !told {
      return false, 0;
    }
    var sought := source.Seek(0);
    if !sought {
      return false, 0;
    }
    ok, copied := CopyFromStart(source, sink);
    source.pos := original;
  }
}
