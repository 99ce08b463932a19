/**
  The stream copy between a client and a server, and what it leaves in its buffer when the write side fails.

  A reader and a writer are scripts of what each call will do; a reader whose script has ended fails.
*/
module IOCopy {
  import opened Byte32

  datatype ReadResult = ReadResult(data: seq<byte>, failed: bool)

  datatype WriteResult = WriteResult(accepts: nat, failed: bool)

  function Min(a: nat, b: nat): nat {
    if a < b then a else b
  }

  /** `delivered` is everything read so far; `broken` says whether the last read failed. */
  class Reader {
    var script: seq<ReadResult>
    var delivered: seq<byte>
    var broken: bool

    constructor (script: seq<ReadResult>)
      ensures this.script == script && delivered == [] && !broken
    {
      this.script, delivered, broken := script, [], false;
    }

    method Read(buf: array<byte>) returns (n: nat, failed: bool)
      modifies this, buf
      ensures n <= buf.Length && broken == failed
      ensures delivered == old(delivered) + buf[..n]
      ensures old(script) == [] ==> failed && n == 0 && script == []
      ensures old(script) != [] ==>
                && script == old(script)[1..] && failed == old(script)[0].failed
                && buf[..n] == old(script)[0].data[..Min(|old(script)[0].data|, buf.Length)]
    {
      if script == [] {
        n, failed := 0, true;
        broken := true;
        return;
      }
      var result := script[0];
      n := Min(|result.data|, buf.Length);
      for i := 0 to n
        invariant buf[..i] == result.data[..i]
        modifies buf
      {
        buf[i] := result.data[i];
      }
      script := script[1..];
      delivered := delivered + buf[..n];
      failed := result.failed;
      broken := failed;
    }
  }

  /** `received` is everything accepted so far; `broken` says whether the last write failed or was short. */
  class Writer {
    var script: seq<WriteResult>
    var received: seq<byte>
    var broken: bool

    constructor (script: seq<WriteResult>)
      ensures this.script == script && received == [] && !broken
    {
      this.script, received, broken := script, [], false;
    }

    method Write(data: seq<byte>) returns (n: nat, failed: bool)
      modifies this
      ensures n <= |data| && broken == (failed || n != |data|)
      ensures received == old(received) + data[..n]
      ensures old(script) == [] ==> failed && n == 0 && script == []
      ensures old(script) != [] ==>
                && script == old(script)[1..] && failed == old(script)[0].failed
                && n == Min(old(script)[0].accepts, |data|)
    {
      if script == [] {
        broken := true;
        return 0, true;
      }
      n, failed := Min(script[0].accepts, |data|), script[0].failed;
      script := script[1..];
      received := received + data[..n];
      broken := failed || n != |data|;
    }
  }

  datatype CopyError = ErrInvalidBuffer | ErrInvalidReader | ErrInvalidWriter | ErrReadFailed | ErrWriteFailed

  /**
    Everything read is forwarded in order when the reader fails. When the writer fails, everything read is what was
    forwarded in full chunks followed by `buf[0:bufferLen]`, of which the writer got `buf[0:partial]`.
  */
  method IOCopyBuffer(dst: Writer?, src: Reader?, buf: array?<byte>)
    returns (bufferLen: nat, err: CopyError, ghost forwarded: seq<byte>, ghost partial: nat)
    modifies dst, src, buf
    ensures err == ErrInvalidBuffer <==> buf == null
    ensures err == ErrInvalidReader <==> buf != null && src == null
    ensures err == ErrInvalidWriter <==> buf != null && src != null && dst == null
    ensures err in {ErrInvalidBuffer, ErrInvalidReader, ErrInvalidWriter} ==> bufferLen == 0
    ensures src != null && dst != null ==> |src.script| <= |old(src.script)|
    ensures err == ErrReadFailed ==>
              && src.broken
              && src.delivered == old(src.delivered) + forwarded
              && dst.received == old(dst.received) + forwarded
    ensures err == ErrWriteFailed ==>
              && dst.broken && partial <= bufferLen <= buf.Length && bufferLen > 0
              && src.delivered == old(src.delivered) + forwarded + buf[..bufferLen]
              && dst.received == old(dst.received) + forwarded + buf[..partial]
  {
    bufferLen, forwarded, partial := 0, [], 0;
    if buf == null {
      return 0, ErrInvalidBuffer, [], 0;
    }
    if src == null {
      return 0, ErrInvalidReader, [], 0;
    }
    if dst == null {
      return 0, ErrInvalidWriter, [], 0;
    }
    while true
      invariant src.delivered == old(src.delivered) + forwarded
      invariant dst.received == old(dst.received) + forwarded
      invariant |src.script| <= |old(src.script)|
      decreases |src.script|
    {
      var nr, er := src.Read(buf);
      bufferLen := nr;
      if nr > 0 {
        var nw, ew := dst.Write(buf[0..nr]);
        partial := nw;
        assert buf[0..nr][..nw] == buf[..nw] && buf[0..nr] == buf[..nr];
        if ew {
          err := ErrWriteFailed;
          break;
        }
        if nr != nw {
          err := ErrWriteFailed;
          break;
        }
        forwarded := forwarded + buf[..nr];
      }
      if er {
        err := ErrReadFailed;
        break;
      }
    }
  }
}
