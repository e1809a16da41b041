/**
 * The sending side of a file transfer (src/client/file_handler.js): the file is
 * read in 16384-byte slices, each slice is prefixed with a JSON header copied
 * into a fixed 200-byte buffer, and the concatenation is pushed into the data
 * channel. The header text is opaque here: a function from the chunk number to
 * the text that `JSON.stringify` produces for it.
 */
module FileHandler {
  import opened Text
  import opened Wrappers

  /** One element of a `Uint8Array`. */
  newtype byte = x: int | 0 <= x < 256

  /** `HEADER_LEN`: the fixed width of the header region of every wire message. */
  const HeaderLen: nat := 200

  /** `chunkSize`: the number of bytes requested by each `readSlice`. */
  const ChunkSize: nat := 16384

  /** `str2ab` throws 'Chunk header length greater then allowed length.' */
  datatype FrameError = HeaderTooLong

  function Min(a: int, b: int): int { if a <= b then a else b }
  function Max(a: int, b: int): int { if a <= b then b else a }

  // ---------------------------------------------------------------------------
  // Framing: str2ab, appendBuffer, create_full_buffer
  // ---------------------------------------------------------------------------

  /** Storing a code unit into a `Uint8Array` keeps its low 8 bits. */
  function LowByte(u: CodeUnit): byte
  {
    (u as int % 256) as byte
  }

  function Latin1(s: JsString): (r: seq<byte>)
    ensures |r| == |s|
  {
    if s == [] then [] else [LowByte(s[0])] + Latin1(s[1..])
  }

  function Zeros(n: nat): (r: seq<byte>)
    ensures |r| == n
  {
    if n == 0 then [] else [0] + Zeros(n - 1)
  }

  /** The 200 header bytes of a header text that fits: its low bytes, then the zero fill of a fresh `ArrayBuffer`. */
  function HeaderBytes(header: JsString): (r: seq<byte>)
    requires |header| <= HeaderLen
  {
    Latin1(header) + Zeros(HeaderLen - |header|)
  }

  lemma {:induction false} Latin1At(s: JsString, i: nat)
    requires i < |s|
    ensures Latin1(s)[i] == LowByte(s[i])
  {
    if i > 0 {
      Latin1At(s[1..], i - 1);
    }
  }

  lemma {:induction false} ZerosAt(n: nat, i: nat)
    requires i < n
    ensures Zeros(n)[i] == 0
  {
    if i > 0 {
      ZerosAt(n - 1, i - 1);
    }
  }

  /** Byte `i` of the header region is `charCodeAt(i)` modulo 256 inside the text and 0 after it. */
  lemma HeaderBytesAt(header: JsString, i: nat)
    requires |header| <= HeaderLen && i < HeaderLen
    ensures |HeaderBytes(header)| == HeaderLen
    ensures HeaderBytes(header)[i] == if i < |header| then LowByte(header[i]) else 0
  {
    if i < |header| {
      Latin1At(header, i);
    } else {
      ZerosAt(HeaderLen - |header|, i - |header|);
    }
  }

  /**
   * The wire message `create_full_buffer(header, body)` produces, or the error
   * `str2ab` throws when the header text has more than 200 code units.
   */
  function WireMessage(header: JsString, body: seq<byte>): (r: Result<seq<byte>, FrameError>)
    ensures r.Err? <==> |header| > HeaderLen
    ensures r.Ok? ==> |r.value| == HeaderLen + |body|
    ensures r.Ok? ==> r.value[..HeaderLen] == HeaderBytes(header) && r.value[HeaderLen..] == body
  {
    if |header| > HeaderLen then Err(HeaderTooLong)
    else
      var msg := HeaderBytes(header) + body;
      assert msg[..HeaderLen] == HeaderBytes(header);
      assert msg[HeaderLen..] == body;
      Ok(msg)
  }

  /**
   * `str2ab`: copies the header text into a fresh, zero-filled buffer of
   * `HEADER_LEN` bytes, one `charCodeAt` per byte; throws when it is too long.
   */
  method Str2Ab(str: JsString) returns (r: Result<array<byte>, FrameError>)
    ensures r.Err? <==> |str| > HeaderLen
    ensures r.Ok? ==> fresh(r.value) && r.value[..] == HeaderBytes(str)
  {
    if |str| > HeaderLen {
      return Err(HeaderTooLong);
    }
    var buf := new byte[HeaderLen](_ => 0);
    var i := 0;
    while i < |str|
      invariant 0 <= i <= |str|
      invariant forall k :: 0 <= k < i ==> buf[k] == LowByte(str[k])
      invariant forall k :: i <= k < HeaderLen ==> buf[k] == 0
    {
      buf[i] := LowByte(str[i]);
      i := i + 1;
    }
    forall k | 0 <= k < HeaderLen
      ensures buf[k] == HeaderBytes(str)[k]
    {
      HeaderBytesAt(str, k);
    }
    assert |HeaderBytes(str)| == HeaderLen;
    return Ok(buf);
  }

  /** `appendBuffer`: a fresh buffer holding `b1` followed by `b2`. */
  method AppendBuffer(b1: array<byte>, b2: array<byte>) returns (r: array<byte>)
    ensures fresh(r) && r[..] == b1[..] + b2[..]
  {
    r := new byte[b1.Length + b2.Length](_ => 0);
    var i := 0;
    while i < b1.Length
      invariant 0 <= i <= b1.Length
      invariant forall k :: 0 <= k < i ==> r[k] == b1[k]
    {
      r[i] := b1[i];
      i := i + 1;
    }
    var j := 0;
    while j < b2.Length
      invariant 0 <= j <= b2.Length
      invariant forall k :: 0 <= k < b1.Length ==> r[k] == b1[k]
      invariant forall k :: 0 <= k < j ==> r[b1.Length + k] == b2[k]
    {
      r[b1.Length + j] := b2[j];
      j := j + 1;
    }
    assert r[..] == b1[..] + b2[..];
  }

  /** `create_full_buffer`: the framed message for one slice, or the error `str2ab` throws. */
  method CreateFullBuffer(header: JsString, body: array<byte>) returns (r: Result<array<byte>, FrameError>)
    ensures r.Err? <==> WireMessage(header, body[..]).Err?
    ensures r.Ok? ==> fresh(r.value) && r.value[..] == WireMessage(header, body[..]).value
  {
    var head := Str2Ab(header);
    if head.Err? {
      return Err(head.error);
    }
    var full := AppendBuffer(head.value, body);
    return Ok(full);
  }

  // ---------------------------------------------------------------------------
  // Header bytes and the text they came from
  // ---------------------------------------------------------------------------

  /** Every code unit is a non-zero Latin-1 character, so it survives `str2ab` unchanged. */
  predicate IsLatin1Text(s: JsString)
  {
    forall i :: 0 <= i < |s| ==> 0 < s[i] < 256
  }

  /** Two header texts of non-zero Latin-1 characters that fit give different header bytes. */
  lemma HeaderBytesInjective(h1: JsString, h2: JsString)
    requires |h1| <= HeaderLen && |h2| <= HeaderLen
    requires IsLatin1Text(h1) && IsLatin1Text(h2)
    requires HeaderBytes(h1) == HeaderBytes(h2)
    ensures h1 == h2
  {
    forall i | 0 <= i < HeaderLen
      ensures HeaderBytes(h1)[i] == 0 <==> i >= |h1|
      ensures HeaderBytes(h2)[i] == 0 <==> i >= |h2|
    {
      HeaderBytesAt(h1, i);
      HeaderBytesAt(h2, i);
    }
    if |h1| < HeaderLen {
      HeaderBytesAt(h2, |h1|);
    }
    if |h2| < HeaderLen {
      HeaderBytesAt(h1, |h2|);
    }
    assert |h1| == |h2|;
    forall i | 0 <= i < |h1|
      ensures h1[i] == h2[i]
    {
      HeaderBytesAt(h1, i);
      HeaderBytesAt(h2, i);
    }
  }

  /** A code unit above 255 loses its high byte: 'Ł' (U+0141) arrives as 'A'. */
  lemma HeaderBytesDropHighByte()
    ensures HeaderBytes([0x141]) == HeaderBytes([0x41])
  {
    assert Latin1([0x141]) == Latin1([0x41]);
  }

  // ---------------------------------------------------------------------------
  // File name split for `file_info`
  // ---------------------------------------------------------------------------

  const Dot: CodeUnit := 0x2E

  /** `s.split(sep)` for a one-unit separator: the maximal runs between separators. */
  function Split(s: JsString, sep: CodeUnit): (parts: seq<JsString>)
    ensures |parts| >= 1
    ensures forall i :: 0 <= i < |parts| ==> sep !in parts[i]
  {
    if s == [] then [[]]
    else
      var rest := Split(s[1..], sep);
      if s[0] == sep then [[]] + rest else [[s[0]] + rest[0]] + rest[1..]
  }

  /** The first part of a split is the text before the first separator; a second part exists exactly when there is one. */
  lemma {:induction false} SplitHead(s: JsString, sep: CodeUnit)
    ensures var head := Split(s, sep)[0];
      && head <= s && sep !in head
      && (sep in s <==> |head| < |s|)
      && (|head| < |s| ==> s[|head|] == sep && Split(s, sep)[1..] == Split(s[|head| + 1..], sep))
      && (sep in s <==> |Split(s, sep)| > 1)
  {
    if s != [] {
      var rest := Split(s[1..], sep);
      SplitHead(s[1..], sep);
      assert s == [s[0]] + s[1..];
      if s[0] == sep {
        assert Split(s, sep) == [[]] + rest;
        assert s[0 + 1..] == s[1..];
      } else {
        var head := [s[0]] + rest[0];
        assert Split(s, sep) == [head] + rest[1..];
        assert sep in s <==> sep in s[1..];
        if |head| < |s| {
          assert s[|head|] == s[1..][|rest[0]|];
          assert s[|head| + 1..] == s[1..][|rest[0]| + 1..];
        }
      }
    }
  }

  /** `file_info.name`: `file.name.split('.')[0]`. */
  function FileStem(name: JsString): (stem: JsString)
    ensures stem <= name && Dot !in stem
    ensures |stem| == |name| || name[|stem|] == Dot
  {
    SplitHead(name, Dot);
    Split(name, Dot)[0]
  }

  /** `file_info.ext`: `file.name.split('.')[1]`, `undefined` (here `None`) when the name has no dot. */
  function FileExt(name: JsString): (ext: Option<JsString>)
    ensures ext.None? <==> Dot !in name
    ensures ext.Some? ==> var start := |FileStem(name)| + 1;
      && name[start - 1] == Dot
      && start + |ext.value| <= |name|
      && name[start..start + |ext.value|] == ext.value
      && Dot !in ext.value
      && (start + |ext.value| == |name| || name[start + |ext.value|] == Dot)
  {
    SplitHead(name, Dot);
    if Dot in name then
      SplitSecond(name);
      Some(Split(name, Dot)[1])
    else None
  }

  /** The second part of a split on the first dot is the text after it, up to the next dot or the end. */
  lemma SplitSecond(name: JsString)
    requires Dot in name
    ensures var parts := Split(name, Dot);
      var start := |parts[0]| + 1;
      && |parts| > 1
      && start <= |name| && name[start - 1] == Dot
      && start + |parts[1]| <= |name|
      && name[start..start + |parts[1]|] == parts[1]
      && Dot !in parts[1]
      && (start + |parts[1]| == |name| || name[start + |parts[1]|] == Dot)
  {
    SplitHead(name, Dot);
    var rest := name[|Split(name, Dot)[0]| + 1..];
    SplitHead(rest, Dot);
    assert Split(name, Dot)[1] == Split(rest, Dot)[0];
  }

  // ---------------------------------------------------------------------------
  // The slice loop of sendFile
  // ---------------------------------------------------------------------------

  /** `Blob.slice(start, end)` with non-negative bounds: both are clamped to the blob's size. */
  function BlobSlice(file: seq<byte>, start: nat, end: nat): (r: seq<byte>)
    ensures start < |file| && start < end ==> |r| > 0
    ensures start <= |file| ==> |r| == Max(0, Min(end, |file|) - start)
    ensures start <= |file| ==> r == file[start..Max(start, Min(end, |file|))]
    ensures start >= |file| ==> r == []
  {
    var s := Min(start, |file|);
    var e := Max(s, Min(end, |file|));
    file[s..e]
  }

  /** One `load` event: the chunk number its header carries and the slice it read. */
  datatype Load = Load(chunk: nat, body: seq<byte>)

  /**
   * The `load` events that follow a `readSlice` issued at `offset` while the
   * counter holds `chunk`: each event uses the counter and increments it, adds
   * the slice's length to `offset`, and reads on while `offset < file.size`.
   */
  function LoadsFrom(file: seq<byte>, offset: nat, chunk: nat): seq<Load>
    requires offset <= |file|
    decreases |file| - offset
  {
    var body := BlobSlice(file, offset, offset + ChunkSize);
    var next := offset + |body|;
    [Load(chunk, body)] + if next < |file| then LoadsFrom(file, next, chunk + 1) else []
  }

  /** All `load` events of one `sendFile`: `readSlice(0)` with the counter at 1. */
  function Loads(file: seq<byte>): seq<Load>
  {
    LoadsFrom(file, 0, 1)
  }

  function Bodies(loads: seq<Load>): seq<byte>
  {
    if loads == [] then [] else loads[0].body + Bodies(loads[1..])
  }

  function CeilDiv(n: nat, d: nat): nat
    requires d > 0
  {
    (n + d - 1) / d
  }

  /** Chunk numbers run `chunk, chunk + 1, ...` with no gap and no repeat. */
  lemma {:induction false} LoadsNumbered(file: seq<byte>, offset: nat, chunk: nat)
    requires offset <= |file|
    ensures forall i :: 0 <= i < |LoadsFrom(file, offset, chunk)| ==> LoadsFrom(file, offset, chunk)[i].chunk == chunk + i
    decreases |file| - offset
  {
    var body := BlobSlice(file, offset, offset + ChunkSize);
    var next := offset + |body|;
    if next < |file| {
      LoadsNumbered(file, next, chunk + 1);
    }
  }

  /** The slices tile `[offset, size)`: concatenated, they are exactly the rest of the file. */
  lemma {:induction false} LoadsTile(file: seq<byte>, offset: nat, chunk: nat)
    requires offset <= |file|
    ensures Bodies(LoadsFrom(file, offset, chunk)) == file[offset..]
    decreases |file| - offset
  {
    var loads := LoadsFrom(file, offset, chunk);
    var body := BlobSlice(file, offset, offset + ChunkSize);
    var next := offset + |body|;
    assert loads[0].body == body == file[offset..next];
    if next < |file| {
      LoadsTile(file, next, chunk + 1);
      assert loads[1..] == LoadsFrom(file, next, chunk + 1);
      assert file[offset..] == file[offset..next] + file[next..];
    } else {
      assert loads[1..] == [];
    }
  }

  /** A read at `offset < size` yields `ceil((size - offset) / 16384)` events; a read at the end yields one empty event. */
  lemma {:induction false} LoadsCount(file: seq<byte>, offset: nat, chunk: nat)
    requires offset <= |file|
    ensures offset == |file| ==> LoadsFrom(file, offset, chunk) == [Load(chunk, [])]
    ensures offset < |file| ==> |LoadsFrom(file, offset, chunk)| == CeilDiv(|file| - offset, ChunkSize)
    decreases |file| - offset
  {
    var body := BlobSlice(file, offset, offset + ChunkSize);
    var next := offset + |body|;
    var n := |file| - offset;
    if next < |file| {
      LoadsCount(file, next, chunk + 1);
      assert |body| == ChunkSize;
      assert CeilDiv(n, ChunkSize) == CeilDiv(n - ChunkSize, ChunkSize) + 1;
    } else if offset < |file| {
      assert 0 < n <= ChunkSize;
    }
  }

  /** Event `i` after a read at `offset` carries the slice `[offset + 16384*i, min(offset + 16384*(i+1), size))`. */
  lemma {:induction false} LoadSliceAt(file: seq<byte>, offset: nat, chunk: nat, i: nat)
    requires offset <= |file| && i < |LoadsFrom(file, offset, chunk)|
    ensures offset + i * ChunkSize <= |file|
    ensures LoadsFrom(file, offset, chunk)[i].body == file[offset + i * ChunkSize .. Min(offset + (i + 1) * ChunkSize, |file|)]
    decreases |file| - offset
  {
    if i == 0 {
      LoadsFromFirst(file, offset, chunk);
    } else {
      var next := offset + ChunkSize;
      LoadsFromLater(file, offset, chunk, i);
      LoadSliceAt(file, next, chunk + 1, i - 1);
      var lo, hi := offset + i * ChunkSize, offset + (i + 1) * ChunkSize;
      assert next + (i - 1) * ChunkSize == lo && next + i * ChunkSize == hi;
    }
  }

  /** The first event after a read at `offset` carries `[offset, min(offset + 16384, size))`. */
  lemma LoadsFromFirst(file: seq<byte>, offset: nat, chunk: nat)
    requires offset <= |file|
    ensures LoadsFrom(file, offset, chunk)[0].body == file[offset .. Min(offset + ChunkSize, |file|)]
  {
  }

  /** Any later event is an event of the read that starts one full slice further on. */
  lemma LoadsFromLater(file: seq<byte>, offset: nat, chunk: nat, i: nat)
    requires offset <= |file| && 0 < i < |LoadsFrom(file, offset, chunk)|
    ensures offset + ChunkSize < |file|
    ensures i - 1 < |LoadsFrom(file, offset + ChunkSize, chunk + 1)|
    ensures LoadsFrom(file, offset, chunk)[i] == LoadsFrom(file, offset + ChunkSize, chunk + 1)[i - 1]
  {
  }

  /** Slice counts and chunk numbers for a whole file, including the single empty chunk of a 0-byte file. */
  lemma LoadsOfFile(file: seq<byte>)
    ensures |file| == 0 ==> Loads(file) == [Load(1, [])]
    ensures |file| > 0 ==> |Loads(file)| == CeilDiv(|file|, ChunkSize)
    ensures forall i :: 0 <= i < |Loads(file)| ==> Loads(file)[i].chunk == i + 1
    ensures Bodies(Loads(file)) == file
  {
    LoadsCount(file, 0, 1);
    LoadsNumbered(file, 0, 1);
    LoadsTile(file, 0, 1);
  }

  // ---------------------------------------------------------------------------
  // sendFile
  // ---------------------------------------------------------------------------

  /** What `create_full_buffer` yields for each `load` event, in order. */
  function Frames(loads: seq<Load>, header: nat -> JsString): (r: seq<Result<seq<byte>, FrameError>>)
  {
    seq(|loads|, i requires 0 <= i < |loads| => WireMessage(header(loads[i].chunk), loads[i].body))
  }

  lemma FramesSnoc(loads: seq<Load>, load: Load, header: nat -> JsString)
    ensures Frames(loads + [load], header) == Frames(loads, header) + [WireMessage(header(load.chunk), load.body)]
  {
  }

  /**
   * The messages the data channel receives. A too-long header throws inside
   * the deferred send, so that chunk is not sent, while the read loop goes on.
   */
  function Delivered(frames: seq<Result<seq<byte>, FrameError>>): seq<seq<byte>>
  {
    if frames == [] then []
    else (if frames[0].Ok? then [frames[0].value] else []) + Delivered(frames[1..])
  }

  /** A receiver that drops the 200 header bytes of each message and concatenates the rest. */
  function Reassemble(msgs: seq<seq<byte>>): seq<byte>
  {
    if msgs == [] then []
    else (if |msgs[0]| >= HeaderLen then msgs[0][HeaderLen..] else []) + Reassemble(msgs[1..])
  }

  lemma {:induction false} ReassembleFrames(loads: seq<Load>, header: nat -> JsString)
    requires forall i :: 0 <= i < |loads| ==> |header(loads[i].chunk)| <= HeaderLen
    ensures |Delivered(Frames(loads, header))| == |loads|
    ensures Reassemble(Delivered(Frames(loads, header))) == Bodies(loads)
  {
    if loads != [] {
      ReassembleFrames(loads[1..], header);
      var w := WireMessage(header(loads[0].chunk), loads[0].body);
      assert Frames(loads, header)[1..] == Frames(loads[1..], header);
      assert Delivered(Frames(loads, header)) == [w.value] + Delivered(Frames(loads[1..], header));
    }
  }

  /**
   * When every header fits in 200 code units, each chunk is delivered, and
   * stripping the header region of each message gives back the whole file.
   */
  lemma TransferRoundTrip(file: seq<byte>, header: nat -> JsString)
    requires forall c :: 1 <= c <= |Loads(file)| ==> |header(c)| <= HeaderLen
    ensures |Delivered(Frames(Loads(file), header))| == |Loads(file)|
    ensures Reassemble(Delivered(Frames(Loads(file), header))) == file
  {
    LoadsOfFile(file);
    ReassembleFrames(Loads(file), header);
  }

  /**
   * The callback `load` defers with `setTimeout`: what it hands to
   * `sendChannel.send`, or the error `create_full_buffer` throws there.
   */
  method DeferredSend(header: JsString, body: array<byte>) returns (frame: Result<seq<byte>, FrameError>)
    ensures frame == WireMessage(header, body[..])
  {
    var full := CreateFullBuffer(header, body);
    if full.Ok? {
      frame := Ok(full.value[..]);
    } else {
      frame := Err(HeaderTooLong);
    }
  }

  /** `readSlice(o)`: `file.slice(offset, o + chunkSize)`, read into a fresh `ArrayBuffer`. */
  method ReadSlice(file: seq<byte>, offset: nat, o: nat) returns (buf: array<byte>)
    ensures fresh(buf) && buf[..] == BlobSlice(file, offset, o + ChunkSize)
  {
    var slice := BlobSlice(file, offset, o + ChunkSize);
    buf := new byte[|slice|](i requires 0 <= i < |slice| => slice[i]);
  }

  /**
   * `sendFile`: issues `readSlice(0)`; each `load` builds the header from the
   * current counter and increments it, frames the slice, advances `offset` by
   * the slice's byte length and reads on while `offset < file.size`.
   * Returns the `load` events and what `create_full_buffer` gave for each.
   */
  method SendFile(file: seq<byte>, header: nat -> JsString)
    returns (loads: seq<Load>, frames: seq<Result<seq<byte>, FrameError>>)
    ensures loads == Loads(file)
    ensures frames == Frames(loads, header)
  {
    var chunk: nat := 1;
    var offset: nat := 0;
    var reading := true;
    loads, frames := [], [];
    while reading
      invariant offset <= |file|
      invariant Sending(file, header, loads, frames, offset, chunk, reading)
      decreases |file| - offset + (if reading then 1 else 0)
    {
      SendingStep(file, header, loads, frames, offset, chunk);
      var load, frame;
      load, frame, chunk, offset, reading := OnLoad(file, header, chunk, offset, offset);
      loads := loads + [load];
      frames := frames + [frame];
    }
  }

  /**
   * The state of `sendFile` between `load` events: the events so far and the
   * events still to come make up all of `Loads(file)`, the counter is one
   * past the events so far, and each event so far has been framed.
   */
  ghost predicate Sending(file: seq<byte>, header: nat -> JsString, loads: seq<Load>,
                          frames: seq<Result<seq<byte>, FrameError>>, offset: nat, chunk: nat, reading: bool)
  {
    && offset <= |file|
    && chunk == |loads| + 1
    && (reading ==> Loads(file) == loads + LoadsFrom(file, offset, chunk))
    && (!reading ==> Loads(file) == loads)
    && frames == Frames(loads, header)
  }

  /** One `load` event keeps `Sending`, and moves the offset forward unless the file is exhausted. */
  lemma SendingStep(file: seq<byte>, header: nat -> JsString, loads: seq<Load>,
                    frames: seq<Result<seq<byte>, FrameError>>, offset: nat, chunk: nat)
    requires Sending(file, header, loads, frames, offset, chunk, true)
    ensures var body := BlobSlice(file, offset, offset + ChunkSize);
      var next := offset + |body|;
      && (offset < |file| ==> next > offset)
      && Sending(file, header, loads + [Load(chunk, body)], frames + [WireMessage(header(chunk), body)],
                 next, chunk + 1, next < |file|)
  {
    var body := BlobSlice(file, offset, offset + ChunkSize);
    var done := loads + [Load(chunk, body)];
    LoadsFromStep(file, offset, chunk, loads);
    FramesSnoc(loads, Load(chunk, body), header);
    if offset + |body| >= |file| {
      assert done + [] == done;
    }
  }

  /**
   * `readSlice(o)` followed by its `load` event: the slice read from
   * `offset`, framed under the header for the current counter; the counter
   * is incremented, the offset advanced by the slice's length, and reading
   * goes on while the offset is short of the file size.
   */
  method OnLoad(file: seq<byte>, header: nat -> JsString, chunk: nat, offset: nat, o: nat)
    returns (load: Load, frame: Result<seq<byte>, FrameError>, nextChunk: nat, nextOffset: nat, reading: bool)
    requires offset <= |file| && o == offset
    ensures load == Load(chunk, BlobSlice(file, offset, offset + ChunkSize))
    ensures frame == WireMessage(header(chunk), load.body)
    ensures nextChunk == chunk + 1 && nextOffset == offset + |load.body| <= |file|
    ensures reading <==> nextOffset < |file|
  {
    var body := ReadSlice(file, offset, o);
    load := Load(chunk, body[..]);
    var text := header(chunk);
    nextChunk := chunk + 1;
    frame := DeferredSend(text, body);
    nextOffset := offset + body.Length;
    reading := nextOffset < |file|;
  }

  /** One `load` event: the loads still to come start with this one, and the counter and offset move on. */
  lemma LoadsFromStep(file: seq<byte>, offset: nat, chunk: nat, done: seq<Load>)
    requires offset <= |file|
    ensures var body := BlobSlice(file, offset, offset + ChunkSize);
      var next := offset + |body|;
      && (offset < |file| ==> next > offset)
      && done + LoadsFrom(file, offset, chunk)
         == (done + [Load(chunk, body)]) + if next < |file| then LoadsFrom(file, next, chunk + 1) else []
  {
    var body := BlobSlice(file, offset, offset + ChunkSize);
    var next := offset + |body|;
    var rest := if next < |file| then LoadsFrom(file, next, chunk + 1) else [];
    assert LoadsFrom(file, offset, chunk) == [Load(chunk, body)] + rest;
    assert done + ([Load(chunk, body)] + rest) == (done + [Load(chunk, body)]) + rest;
  }
}
