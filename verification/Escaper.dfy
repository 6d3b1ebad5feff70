/**
 * The byte-stuffing framer as the code runs it: two caller-supplied buffers, a resumable encoder that
 * fills the encode buffer call by call, and a decoder fed with whatever bytes have arrived.
 */
module Escapers {
  import opened Bytes
  import opened Framing

  // ---------------------------------------------------------------- the encoder's remaining output

  /** Everything an encoder in this state still has to emit for `data`. */
  function Pending(started: bool, escape: bool, finished: bool, data: seq<byte>, index: nat): seq<byte>
    requires index <= |data| && (escape ==> index < |data|)
  {
    (if started then [] else [START])
    + (if escape then [data[index]] + Stuff(data[index + 1..]) else Stuff(data[index..]))
    + (if finished then [] else [STOP])
  }

  /** The byte the encoder emits when `b` is next in the data. */
  function Emitted(escape: bool, b: byte): byte {
    if escape || !IsSpecial(b) then b else ESCAPE
  }

  /** Whether that byte was the escape, so that `b` itself is still to come. */
  predicate Escapes(escape: bool, b: byte) {
    !escape && IsSpecial(b)
  }

  function PendingAfter(escape: bool, finished: bool, data: seq<byte>, index: nat): seq<byte>
    requires index < |data|
  {
    if Escapes(escape, data[index]) then Pending(true, true, finished, data, index)
    else Pending(true, false, finished, data, index + 1)
  }

  lemma PendingNext(escape: bool, finished: bool, data: seq<byte>, index: nat)
    requires index < |data|
    ensures Pending(true, escape, finished, data, index)
         == [Emitted(escape, data[index])] + PendingAfter(escape, finished, data, index)
  {
    hide Stuff, IsSpecial;
    assert data[index..][1..] == data[index + 1..];
    StuffNext(data[index..]);
  }

  lemma StuffNext(data: seq<byte>)
    requires data != []
    ensures Stuff(data)
         == if IsSpecial(data[0]) then [ESCAPE] + ([data[0]] + Stuff(data[1..])) else [data[0]] + Stuff(data[1..])
  {
  }

  lemma PendingStart(escape: bool, finished: bool, data: seq<byte>, index: nat)
    requires index <= |data| && (escape ==> index < |data|)
    ensures Pending(false, escape, finished, data, index) == [START] + Pending(true, escape, finished, data, index)
  {
  }

  lemma PendingStop(finished: bool, data: seq<byte>)
    ensures Pending(true, false, finished, data, |data|) == if finished then [] else [STOP]
  {
    assert data[|data|..] == [];
  }

  /** A stream cut into buffers of `size` bytes, the last one perhaps shorter. */
  function Chunks(size: nat, bytes: seq<byte>): (chunks: seq<seq<byte>>)
    requires size > 0
    decreases |bytes|
  {
    if bytes == [] then []
    else if |bytes| <= size then [bytes]
    else [bytes[..size]] + Chunks(size, bytes[size..])
  }

  /** Chunks lose nothing, none is empty and all but the last are full. */
  lemma {:induction false} ChunksCover(size: nat, bytes: seq<byte>)
    requires size > 0
    ensures var chunks := Chunks(size, bytes);
            && Flatten(chunks) == bytes
            && (forall i :: 0 <= i < |chunks| ==> 0 < |chunks[i]| <= size)
            && (forall i :: 0 <= i < |chunks| - 1 ==> |chunks[i]| == size)
    decreases |bytes|
  {
    if bytes != [] {
      if |bytes| <= size {
        assert Flatten([bytes]) == bytes + Flatten([]);
      } else {
        ChunksCover(size, bytes[size..]);
      }
    }
  }

  /** The number of chunks is the length divided by the buffer size, rounded up. */
  lemma {:induction false} ChunkCount(size: nat, bytes: seq<byte>)
    requires size > 0 && bytes != []
    ensures (|Chunks(size, bytes)| - 1) * size < |bytes| <= |Chunks(size, bytes)| * size
    decreases |bytes|
  {
    if |bytes| > size {
      var rest := |Chunks(size, bytes[size..])|;
      ChunkCount(size, bytes[size..]);
      assert (rest + 1) * size == rest * size + size && (rest - 1) * size == rest * size - size;
    }
  }

  /** The number of non-empty encoding calls a packet takes. */
  lemma EncodingCalls(size: nat, data: seq<byte>)
    requires size > 0
    ensures var calls := |Chunks(size, Frame(data))|;
            var total := |data| + 2 + Occurrences(data, 0x00) + Occurrences(data, 0xFE) + Occurrences(data, 0xFF);
            (calls - 1) * size < total <= calls * size
  {
    StuffLength(data);
    ChunkCount(size, Frame(data));
  }

  class Escaper {
    var parseState: ParseState
    var encodeStarted: bool
    var escape: bool
    var encodeFinished: bool
    var encodedPacketBuffer: array<byte>
    var encodedPacketMaxSize: nat
    var decodedPacketBuffer: array<byte>
    var decodedPacketMaxSize: nat
    var decodedPacketBufferIndex: nat

    predicate Valid()
      reads this
    {
      && encodedPacketMaxSize <= encodedPacketBuffer.Length
      && decodedPacketMaxSize <= decodedPacketBuffer.Length
      && decodedPacketBufferIndex <= decodedPacketMaxSize
    }

    /** The decoder's abstract state: the parser state and the filled part of the buffer. */
    function State(): Decoder
      requires Valid()
      reads this, decodedPacketBuffer
    {
      Decoder(parseState, decodedPacketBuffer[..decodedPacketBufferIndex])
    }

    /** Where `index` may stand between two encoding calls for `data`. */
    predicate CanEncode(data: seq<byte>, index: nat)
      reads this
    {
      index <= |data| && (escape ==> index < |data|)
    }

    /** The encoder's abstract state: the bytes it has yet to emit. */
    function Remaining(data: seq<byte>, index: nat): seq<byte>
      requires CanEncode(data, index)
      reads this
    {
      Pending(encodeStarted, escape, encodeFinished, data, index)
    }

    constructor (encoded: array<byte>, encodedSize: nat, decoded: array<byte>, decodedSize: nat)
      requires encodedSize <= encoded.Length && decodedSize <= decoded.Length
      ensures Valid() && State() == IDLE
      ensures encodedPacketBuffer == encoded && encodedPacketMaxSize == encodedSize
      ensures decodedPacketBuffer == decoded && decodedPacketMaxSize == decodedSize
      ensures !encodeStarted && !escape && !encodeFinished
    {
      parseState := Wait;
      encodeStarted := false;
      escape := false;
      encodeFinished := false;
      encodedPacketBuffer := encoded;
      encodedPacketMaxSize := encodedSize;
      decodedPacketBuffer := decoded;
      decodedPacketMaxSize := decodedSize;
      decodedPacketBufferIndex := 0;
    }

    /** Resets the parser but not the buffer index: bytes of an unfinished packet stay in front of the next one. */
    method StartDecoder()
      requires Valid()
      modifies `parseState
      ensures Valid() && State() == Decoder(Wait, old(State()).prefix)
      ensures IsReachable(decodedPacketMaxSize, State()) <==> old(decodedPacketBufferIndex) == 0
    {
      parseState := Wait;
    }

    /** Puts a byte of the packet into its buffer; a packet that would overflow it is dropped instead. */
    method StoreByte(b: byte)
      requires Valid()
      modifies `parseState, `decodedPacketBufferIndex, decodedPacketBuffer
      ensures Valid() && State() == Store(decodedPacketMaxSize, old(State()).prefix, b)
    {
      if decodedPacketBufferIndex >= decodedPacketMaxSize {
        decodedPacketBufferIndex := 0;
        parseState := Wait;
      } else {
        decodedPacketBuffer[decodedPacketBufferIndex] := b;
        decodedPacketBufferIndex := decodedPacketBufferIndex + 1;
        parseState := DataByte;
      }
    }

    /** Decodes one buffer of input. `received` lists the packets passed to the receive callback, in order. */
    method DecodePacket(buffer: array<byte>, length: nat) returns (received: seq<seq<byte>>)
      requires Valid() && length <= buffer.Length && buffer != decodedPacketBuffer
      modifies `parseState, `decodedPacketBufferIndex, decodedPacketBuffer
      ensures Valid()
      ensures Decoded(State(), received) == Feed(decodedPacketMaxSize, old(State()), buffer[..length])
    {
      hide Feed, Store;
      received := [];
      ghost var start := State();
      FeedNothing(decodedPacketMaxSize, start);
      assert buffer[..0] == [];
      for i := 0 to length
        invariant Valid()
        invariant Decoded(State(), received) == Feed(decodedPacketMaxSize, start, buffer[..i])
      {
        FeedLast(decodedPacketMaxSize, start, buffer[..i], buffer[i]);
        assert buffer[..i + 1] == buffer[..i] + [buffer[i]];
        ghost var before := State();
        match parseState {
          case Wait =>
            if buffer[i] == START {
              parseState := DataByte;
            }
          case DataByte =>
            if buffer[i] == STOP {
              received := received + [decodedPacketBuffer[..decodedPacketBufferIndex]];
              decodedPacketBufferIndex := 0;
              parseState := Wait;
            } else if buffer[i] == ESCAPE {
              parseState := EscapeByte;
            } else if buffer[i] == START {
              decodedPacketBufferIndex := 0;
              parseState := DataByte;
            } else {
              StoreByte(buffer[i]);
            }
          case EscapeByte =>
            StoreByte(buffer[i]);
        }
        assert State() == Step(decodedPacketMaxSize, before, buffer[i]).decoder;
      }
    }

    method StartEncoder()
      requires Valid()
      modifies `encodeFinished, `escape, `encodeStarted
      ensures Valid()
      ensures forall data :: CanEncode(data, 0) && Remaining(data, 0) == Frame(data)
    {
      encodeFinished := false;
      escape := false;
      encodeStarted := false;
    }

    /** One pass of the encoding loop: fills slot `size` and says which data byte comes next. */
    method EncodeByte(data: array<byte>, index: nat, size: nat) returns (next: nat)
      requires index < data.Length && data != encodedPacketBuffer && size < encodedPacketBuffer.Length
      modifies `escape, encodedPacketBuffer
      ensures encodedPacketBuffer[..size + 1]
           == old(encodedPacketBuffer[..size]) + [Emitted(old(escape), data[index])]
      ensures escape == Escapes(old(escape), data[index])
      ensures next == if escape then index else index + 1
    {
      next := index;
      if escape {
        encodedPacketBuffer[size] := data[next];
        next := next + 1;
        escape := false;
      } else if data[next] == START {
        encodedPacketBuffer[size] := ESCAPE;
        escape := true;
      } else if data[next] == ESCAPE {
        encodedPacketBuffer[size] := ESCAPE;
        escape := true;
      } else if data[next] == STOP {
        encodedPacketBuffer[size] := ESCAPE;
        escape := true;
      } else {
        encodedPacketBuffer[size] := data[next];
        next := next + 1;
      }
    }

    /** The encoding loop: data bytes until they run out or the buffer is full. */
    method EncodeData(data: array<byte>, length: nat, index: nat, start: nat) returns (size: nat, next: nat)
      requires Valid() && length <= data.Length && data != encodedPacketBuffer
      requires start < encodedPacketMaxSize && CanEncode(data[..length], index)
      modifies `escape, encodedPacketBuffer
      ensures CanEncode(data[..length], next) && size <= encodedPacketMaxSize
      ensures size == encodedPacketMaxSize || next == length
      ensures encodedPacketBuffer[..size] + Pending(true, escape, encodeFinished, data[..length], next)
           == old(encodedPacketBuffer[..start] + Pending(true, escape, encodeFinished, data[..length], index))
    {
      ghost var bytes := data[..length];
      ghost var output := encodedPacketBuffer[..start] + Pending(true, escape, encodeFinished, bytes, index);
      hide Stuff, Pending, Emitted, Escapes;
      size := start;
      next := index;
      while next < length
        invariant size < encodedPacketMaxSize
        invariant next <= length && (escape ==> next < length)
        invariant output == encodedPacketBuffer[..size] + Pending(true, escape, encodeFinished, bytes, next)
        decreases length - next, !escape
      {
        ghost var written, b := encodedPacketBuffer[..size], Emitted(escape, bytes[next]);
        ghost var rest := PendingAfter(escape, encodeFinished, bytes, next);
        PendingNext(escape, encodeFinished, bytes, next);
        Regroup(output, written, b, rest);
        next := EncodeByte(data, next, size);
        size := size + 1;
        assert encodedPacketBuffer[..size] == written + [b];
        assert rest == Pending(true, escape, encodeFinished, bytes, next);
        if size == encodedPacketMaxSize {
          return;
        }
      }
    }

    /**
     * Emits the next buffer of the frame: as much of the remaining output as the buffer holds. The first
     * call needs two bytes of room, because START fills a slot before the first size check.
     */
    method EncodePacket(data: array<byte>, length: nat, index: nat) returns (size: nat, next: nat)
      requires Valid() && length <= data.Length && data != encodedPacketBuffer
      requires CanEncode(data[..length], index)
      requires encodedPacketMaxSize >= if encodeStarted then 1 else 2
      modifies `encodeStarted, `escape, `encodeFinished, encodedPacketBuffer
      ensures Valid() && CanEncode(data[..length], next)
      ensures encodeStarted
      ensures size <= encodedPacketMaxSize
      ensures old(Remaining(data[..length], index)) == encodedPacketBuffer[..size] + Remaining(data[..length], next)
      ensures Remaining(data[..length], next) != [] ==> size == encodedPacketMaxSize
    {
      hide Stuff, Pending;
      ghost var bytes := data[..length];
      ghost var output := Remaining(bytes, index);
      size := 0;
      if !encodeStarted {
        encodedPacketBuffer[0] := START;
        size := 1;
        encodeStarted := true;
        PendingStart(escape, encodeFinished, bytes, index);
      }
      assert output == encodedPacketBuffer[..size] + Pending(true, escape, encodeFinished, bytes, index);
      size, next := EncodeData(data, length, index, size);
      if size == encodedPacketMaxSize {
        return;
      }
      PendingStop(encodeFinished, bytes);
      if next == length && !encodeFinished {
        ghost var written := encodedPacketBuffer[..size];
        encodedPacketBuffer[size] := STOP;
        size := size + 1;
        encodeFinished := true;
        assert encodedPacketBuffer[..size] == written + [STOP];
      }
      PendingStop(true, bytes);
    }
  }

  lemma Regroup(output: seq<byte>, written: seq<byte>, b: byte, rest: seq<byte>)
    requires output == written + ([b] + rest)
    ensures output == (written + [b]) + rest
  {
  }

  /**
   * The sending loop the interface prescribes: start the encoder, then encode until a call returns 0.
   * It terminates, and its buffers are the chunks of the frame.
   */
  method EncodeAll(escaper: Escaper, data: array<byte>, length: nat) returns (chunks: seq<seq<byte>>)
    requires escaper.Valid() && length <= data.Length && data != escaper.encodedPacketBuffer
    requires escaper.encodedPacketMaxSize >= 2
    modifies escaper`encodeStarted, escaper`escape, escaper`encodeFinished, escaper.encodedPacketBuffer
    ensures escaper.Valid()
    ensures chunks == Chunks(escaper.encodedPacketMaxSize, Frame(data[..length]))
  {
    hide Stuff, Pending, Chunks, Frame;
    escaper.StartEncoder();
    ghost var bytes := data[..length];
    ghost var max := escaper.encodedPacketMaxSize;
    ghost var output := escaper.Remaining(bytes, 0);
    chunks := [];
    var size, index := escaper.EncodePacket(data, length, 0);
    while size > 0
      invariant escaper.Valid() && escaper.encodeStarted && escaper.CanEncode(bytes, index)
      invariant size <= max
      invariant output == escaper.encodedPacketBuffer[..size] + escaper.Remaining(bytes, index)
      invariant escaper.Remaining(bytes, index) != [] ==> size == max
      invariant chunks + Chunks(max, output) == Chunks(max, Frame(bytes))
      decreases |output|
    {
      var chunk := escaper.encodedPacketBuffer[..size];
      ChunksNext(max, chunk, escaper.Remaining(bytes, index));
      output := escaper.Remaining(bytes, index);
      chunks := chunks + [chunk];
      size, index := escaper.EncodePacket(data, length, index);
    }
    ChunksNothing(max);
  }

  lemma ChunksNothing(max: nat)
    requires max > 0
    ensures Chunks(max, []) == []
  {
  }

  lemma ChunksNext(max: nat, chunk: seq<byte>, rest: seq<byte>)
    requires 0 < |chunk| <= max && (rest != [] ==> |chunk| == max)
    ensures Chunks(max, chunk + rest) == [chunk] + Chunks(max, rest)
  {
    if rest == [] {
      assert chunk + rest == chunk;
    } else {
      assert (chunk + rest)[..max] == chunk && (chunk + rest)[max..] == rest;
    }
  }
}
