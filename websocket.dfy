/** ws.go's `Websocket`: one connection's stream and its latched status.
    The hijacked connection and its buffered reader and writer are modelled
    by the bytes the peer will send (`input`, read from `pos` on), the bytes
    written so far (`output`), whether writes succeed (`writable`), and
    whether the connection has been closed (`closed`). */
module Connection {
  import opened Bytes
  import opened Frames
  import opened Reference
  import opened Codec
  import CodecLemmas

  /** ws.go:18: the most `read` asks the stream for at once. */
  const BufferSize: nat := 4096

  /** A slice of the unread part of the stream is a slice of the stream. */
  lemma SuffixSlice(input: seq<byte>, p: nat, i: nat, j: nat)
    requires p + j <= |input| && i <= j
    ensures input[p..][i..j] == input[p + i..p + j]
  {
  }

  class Websocket {
    /** The value of the request's `Sec-WebSocket-Key` header ("" when absent). */
    const key: string
    /** Everything the peer sends on the stream. */
    const input: seq<byte>
    /** Whether writes to the stream succeed. */
    const writable: bool
    /** How much of `input` has been read. */
    var pos: nat
    var output: seq<byte>
    var closed: bool
    /** The close status, latched by `Validate` and sent by `Close`. */
    var status: uint16

    ghost predicate Valid()
      reads this
    {
      pos <= |input|
    }

    /** The state `NewWebsocket` creates: nothing read or written, status 1000. */
    constructor (key: string, input: seq<byte>, writable: bool)
      ensures Valid()
      ensures this.key == key && this.input == input && this.writable == writable
      ensures pos == 0 && output == [] && !closed && status == 1000
    {
      this.key := key;
      this.input := input;
      this.writable := writable;
      pos := 0;
      output := [];
      closed := false;
      status := 1000;
    }

    /** ws.go:70-98: reads `bytesToRead` bytes in chunks of at most
        `BufferSize`; a chunk read fails when the stream has nothing left,
        which leaves everything consumed. */
    method Read(bytesToRead: nat) returns (data: seq<byte>, ok: bool)
      requires Valid()
      modifies this`pos
      ensures Valid()
      ensures ok <==> old(pos) + bytesToRead <= |input|
      ensures ok ==> data == input[old(pos)..old(pos) + bytesToRead] && pos == old(pos) + bytesToRead
      ensures !ok ==> pos == |input|
    {
      data := [];
      ghost var start := pos;
      while true
        invariant start <= pos <= |input|
        invariant data == input[start..pos]
        invariant |data| <= bytesToRead
        decreases bytesToRead - |data|
      {
        if |data| == bytesToRead {
          break;
        }
        var chunk := BufferSize;
        var remaining := bytesToRead - |data|;
        if chunk > remaining {
          chunk := remaining;
        }
        // one read of the underlying stream: up to `chunk` bytes, or an error
        var available := |input| - pos;
        if available == 0 {
          return data, false;
        }
        var n := if chunk < available then chunk else available;
        data := data + input[pos..pos + n];
        pos := pos + n;
      }
      ok := true;
    }

    /** ws.go:100-107. */
    method Write(data: seq<byte>) returns (ok: bool)
      modifies this`output
      ensures ok == writable
      ensures output == if ok then old(output) + data else old(output)
    {
      ok := writable;
      if ok {
        output := output + data;
      }
    }

    /** ws.go:110-123: writes the 101 response carrying the accept hash of
        the request's key; `getAcceptHash` (SHA-1 and base64) is supplied by
        the caller. */
    method Handshake(getAcceptHash: string -> string) returns (ok: bool)
      modifies this`output
      ensures ok == writable
      ensures output == if ok then old(output) + StringBytes(HandshakeResponse(getAcceptHash(key))) else old(output)
    {
      var hash := getAcceptHash(key);
      ok := Write(StringBytes(Join(HandshakeLines(hash), "\r\n")));
    }

    /** ws.go:126-190: reads one frame. On success the frame and the bytes
        consumed are those of `DecodeFrame` on the unread input; a failed
        read is an error. */
    method Recv() returns (frame: Frame, ok: bool)
      requires Valid()
      modifies this`pos
      ensures Valid()
      ensures ok <==> DecodeFrame(old(input[pos..])).Decoded?
      ensures ok ==> frame == DecodeFrame(old(input[pos..])).frame
      ensures ok ==> pos == old(pos) + DecodeFrame(old(input[pos..])).size
      ensures !ok ==> pos == |input|
    {
      ghost var s := input[pos..];
      ghost var p0 := pos;
      frame := Frame(false, 0, 0, false, 0, []);
      var head, ok1 := Read(2);
      if !ok1 {
        CodecLemmas.DecodeFrameFails(s, 0, 0);
        return frame, false;
      }
      assert head == s[..2];
      frame := DecodeHeader(head[0], head[1]);

      var ext := ExtendedLengthSize(LengthField(head[1]));
      var payloadLength, ok2 := ReadLength(head[1]);
      if !ok2 {
        CodecLemmas.DecodeFrameFails(s, ext, 0);
        return frame, false;
      }
      if ext > 0 {
        SuffixSlice(input, p0, 2, 2 + ext);
      }
      frame := frame.(length := ToByte(payloadLength));

      var payload, ok3 := ReadPayload(payloadLength);
      if !ok3 {
        CodecLemmas.DecodeFrameFails(s, ext, payloadLength);
        return frame, false;
      }
      ghost var m := p0 + 2 + ext;
      ghost var key := s[2 + ext..2 + ext + 4];
      ghost var raw := s[2 + ext + 4..2 + ext + 4 + payloadLength];
      SuffixSlice(input, p0, 2 + ext, 2 + ext + 4);
      SuffixSlice(input, p0, 2 + ext + 4, 2 + ext + 4 + payloadLength);
      assert payload == Mask(raw, key);
      frame := frame.(payload := payload);
      assert frame == DecodeHeader(s[0], s[1]).(length := ToByte(payloadLength), payload := Mask(raw, key));
      CodecLemmas.DecodeFrameAt(s, ext, payloadLength);
      ok := true;
    }

    /** ws.go:172-189: the four key bytes, then `payloadLength` bytes
        unmasked with them. */
    method ReadPayload(payloadLength: nat) returns (payload: seq<byte>, ok: bool)
      requires Valid()
      modifies this`pos
      ensures Valid()
      ensures ok <==> old(pos) + 4 + payloadLength <= |input|
      ensures ok ==> pos == old(pos) + 4 + payloadLength
      ensures ok ==> payload == Mask(input[old(pos) + 4..old(pos) + 4 + payloadLength], input[old(pos)..old(pos) + 4])
      ensures !ok ==> pos == |input|
    {
      payload := [];
      var mask, ok1 := Read(4);
      if !ok1 {
        return payload, false;
      }
      var raw, ok2 := Read(payloadLength);
      if !ok2 {
        return payload, false;
      }
      payload := Unmask(raw, mask);
      ok := true;
    }

    /** ws.go:145-168: the payload length from the 7-bit field of `b1`, or
        from the first two of the 2 or 8 extended-length bytes that follow. */
    method ReadLength(b1: byte) returns (payloadLength: nat, ok: bool)
      requires Valid()
      modifies this`pos
      ensures Valid()
      ensures var ext := ExtendedLengthSize(LengthField(b1));
        && (ok <==> old(pos) + ext <= |input|)
        && (ok ==> pos == old(pos) + ext)
        && (ok && ext == 0 ==> payloadLength == LengthField(b1))
        && (ok && ext > 0 ==> payloadLength == Uint16(input[old(pos)..old(pos) + ext]))
        && (!ok ==> pos == |input|)
    {
      payloadLength := LengthField(b1);
      ok := true;
      if payloadLength == 126 {
        var data, ok2 := Read(2);
        if !ok2 {
          return payloadLength, false;
        }
        payloadLength := Uint16(data);
      } else if payloadLength == 127 {
        var data, ok2 := Read(8);
        if !ok2 {
          return payloadLength, false;
        }
        payloadLength := Uint16(data);
      }
    }

    /** ws.go:182-187: XORs the payload in place with the masking key. */
    static method Unmask(raw: seq<byte>, mask: seq<byte>) returns (payload: seq<byte>)
      requires |mask| == 4
      ensures payload == Mask(raw, mask)
    {
      var buffer := new byte[|raw|](i requires 0 <= i < |raw| => raw[i]);
      var i := 0;
      while i < buffer.Length
        invariant 0 <= i <= buffer.Length
        invariant forall k :: 0 <= k < i ==> buffer[k] == Xor(raw[k], mask[k % 4])
        invariant forall k :: i <= k < buffer.Length ==> buffer[k] == raw[k]
      {
        buffer[i] := Xor(buffer[i], mask[i % 4]);
        i := i + 1;
      }
      payload := buffer[..];
    }

    /** ws.go:192-237: the checks in their order; the first that fails
        latches its status (1002, or 1007 for bad UTF-8) and is reported. */
    method Validate(frame: Frame) returns (ok: bool)
      requires frame.opcode == 8 && frame.length >= 2 ==> |frame.payload| >= 2
      modifies this`status
      ensures ok <==> CheckFrame(frame) == Accept
      ensures status == if ok then old(status) else CheckFrame(frame).status
    {
      var length := frame.length;
      if !frame.isMasked {
        status := ProtocolError;
        return false;
      }
      if IsControl(frame) && (length > 125 || frame.isFragment) {
        status := ProtocolError;
        return false;
      }
      if HasReservedOpcode(frame) {
        status := ProtocolError;
        return false;
      }
      if frame.rsv > 0 {
        status := ProtocolError;
        return false;
      }
      if frame.opcode == 1 && !frame.isFragment && !Utf8.IsValid(frame.payload) {
        status := InvalidPayload;
        return false;
      }
      if frame.opcode == 8 {
        if length >= 2 {
          var code := Uint16(frame.payload[..2]);
          var reason := Utf8.IsValid(frame.payload[2..]);
          if code >= 5000 || (code < 3000 && CloseCodeName(code) == "") {
            status := ProtocolError;
            return false;
          }
          if length > 2 && !reason {
            status := InvalidPayload;
            return false;
          }
        } else if length != 0 {
          status := ProtocolError;
          return false;
        }
      }
      ok := true;
    }

    /** ws.go:241-273: builds the server frame byte by byte and writes it. */
    method Send(frame: Frame) returns (ok: bool)
      modifies this`output
      ensures ok == writable
      ensures output == if ok then old(output) + EncodeFrame(frame) else old(output)
    {
      var data: seq<byte> := [Or(0x80, frame.opcode), 0];
      if frame.isFragment {
        data := data[0 := And(data[0], 0x7F)];
      }
      if frame.length <= 125 {
        data := data[1 := frame.length];
        data := data + frame.payload;
      } else {
        // 125 < Length < 65536 always holds for a byte, so the branch for
        // lengths of 65536 and more (ws.go:262-270) is never taken
        data := data[1 := 126];
        var size := PutUint16(frame.length);
        data := data + size;
        data := data + frame.payload;
      }
      ok := Write(data);
    }

    /** ws.go:275-288: sends the close frame carrying the latched status,
        then closes the connection (only when the send succeeded). */
    method Close() returns (ok: bool)
      modifies this`output, this`closed
      ensures ok == writable
      ensures output == if ok then old(output) + CloseFrame(status) else old(output)
      ensures ok ==> output[|output| - 4..] == [0x88, 0x02, ToByte(status / 256), ToByte(status)]
      ensures closed == (old(closed) || ok)
    {
      var frame := Frame(false, 0, 8, false, 2, PutUint16(status));
      ok := Send(frame);
      CodecLemmas.CloseFrameBytes(status);
      if !ok {
        return;
      }
      closed := true;
    }
  }
}
