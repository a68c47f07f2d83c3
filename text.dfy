/** How `addTextWindows` and `addTextMac` cut a text into chunk records and
    what each loop iteration does to the script.  `WrittenChunks` is the
    slicing as the builder performs it (a full chunk declares `w` characters
    but carries only `w - 1`); `IntendedChunks` is the slicing the record
    format calls for. */
module TextChunks {
  import opened Hex
  import opened Records
  import opened Script

  /** A chunk width small enough that `w + 3` still fits the length byte. */
  type ChunkWidth = w: nat | 1 <= w <= 0xFC witness 1

  /** One chunk record: the length its header declares and the characters it carries. */
  datatype Chunk = Chunk(declared: nat, part: string)

  predicate Declarable(cs: seq<Chunk>) {
    forall k :: 0 <= k < |cs| ==> cs[k].declared <= 0xFC
  }

  // ---- Arithmetic of the chunk count.

  /** The loop's trip count: one record per full chunk and one for a
      non-empty remainder. */
  function ChunkCount(len: nat, w: ChunkWidth): (c: nat)
    ensures len <= c * w && (c == 0 || (c - 1) * w < len)
  {
    var q, r := len / w, len % w;
    assert len == q * w + r;
    if r == 0 then
      assert len / w == q;
      q
    else
      assert (q + 1) * w == q * w + w;
      q + 1
  }

  lemma {:induction false} MulAtLeast(x: nat, w: nat)
    requires x >= 1
    ensures x * w >= w
  {
    if x > 1 {
      MulAtLeast(x - 1, w);
      assert x * w == (x - 1) * w + w;
    }
  }

  /** Euclidean division is determined by its quotient and remainder. */
  lemma DivUnique(w: nat, q: int, r: int, n: int)
    requires w >= 1 && 0 <= r < w && n == q * w + r
    ensures n / w == q && n % w == r
  {
    var q', r' := n / w, n % w;
    assert n == q' * w + r';
    var d := q - q';
    assert d * w == r' - r by {
      assert q * w - q' * w == (q - q') * w;
    }
    if d > 0 {
      MulAtLeast(d, w);
    } else if d < 0 {
      assert (-d) * w == -(d * w);
      MulAtLeast(-d, w);
    }
  }

  /** Removing one width from the remaining length removes one from the
      quotient and keeps the remainder. */
  lemma DivModStep(len: nat, w: ChunkWidth)
    requires len >= w
    ensures (len - w) / w == len / w - 1 && (len - w) % w == len % w
  {
    DivUnique(w, len / w - 1, len % w, len - w);
  }

  lemma ChunkCountStep(len: nat, w: ChunkWidth)
    requires len >= w
    ensures ChunkCount(len, w) == ChunkCount(len - w, w) + 1
  {
    DivModStep(len, w);
  }

  /** The loop takes the full-chunk branch (`nb > 1 || last_part_len == 0`)
      exactly when at least `w` characters remain. */
  lemma FullChunkTest(remaining: nat, w: ChunkWidth, nb: nat, last: nat)
    requires remaining > 0
    requires nb == ChunkCount(remaining, w) && last == remaining % w
    ensures (nb > 1 || last == 0) <==> remaining >= w
  {
    if remaining >= w {
      DivModStep(remaining, w);
    } else {
      DivUnique(w, 0, remaining, remaining);
    }
  }

  // ---- Chunking as written.

  /** The chunks the loops produce: `text.substring(i, i + w - 1)` under a
      header declaring `w` while at least `w` characters remain, then the
      remainder under its own length. */
  function WrittenChunks(text: string, w: ChunkWidth): (cs: seq<Chunk>)
    ensures cs == [] <==> text == []
    ensures forall k :: 0 <= k < |cs| ==> 1 <= cs[k].declared <= w
    ensures Declarable(cs)
    decreases |text|
  {
    if text == [] then []
    else if |text| < w then [Chunk(|text|, text)]
    else [Chunk(w, text[..w - 1])] + WrittenChunks(text[w..], w)
  }

  /** As many chunks as the loop's trip count. */
  lemma {:induction false} WrittenChunkCount(text: string, w: ChunkWidth)
    ensures |WrittenChunks(text, w)| == ChunkCount(|text|, w)
    decreases |text|
  {
    if text == [] {
    } else if |text| < w {
      DivUnique(w, 0, |text|, |text|);
    } else {
      WrittenChunkCount(text[w..], w);
      ChunkCountStep(|text|, w);
    }
  }

  /** Chunk `k` starts at character `k * w`; a full chunk declares `w` and
      carries the `w - 1` characters from there, the remainder declares and
      carries the rest, and only the last chunk can be a remainder. */
  lemma {:induction false} WrittenChunkAt(text: string, w: ChunkWidth, k: nat)
    requires k < |WrittenChunks(text, w)|
    ensures k * w < |text|
    ensures var c := WrittenChunks(text, w)[k];
      if k * w + w <= |text| then c == Chunk(w, text[k * w .. k * w + w - 1])
      else c == Chunk(|text| - k * w, text[k * w..]) && k == |WrittenChunks(text, w)| - 1
    decreases k
  {
    if k > 0 {
      var rest := text[w..];
      WrittenChunkAt(rest, w, k - 1);
      var j := (k - 1) * w;
      assert j + w == k * w;
      SliceShift(text, w, j, |rest|);
      if j + w <= |rest| {
        SliceShift(text, w, j, j + w - 1);
      }
    }
  }

  /** A slice of the text after its first `w` characters is the slice of the
      text `w` further on. */
  lemma SliceShift(text: string, w: nat, j: nat, e: nat)
    requires w <= |text| && j <= e <= |text| - w
    ensures text[w..][j..e] == text[j + w .. e + w]
  {
  }

  /** Empty text gives no chunk at all. */
  lemma WrittenChunksEmpty(w: ChunkWidth)
    ensures WrittenChunks([], w) == [] && ChunkCount(0, w) == 0
  {
  }

  /** Where the builder's loop stands: `i` indexes the first character not
      yet handed out, `rest` are the chunks still to come and `last` is the
      remainder the builder computes for the final chunk. */
  ghost predicate Cursor(text: string, w: ChunkWidth, i: nat, rest: seq<Chunk>, last: nat) {
    i < |text| && rest == WrittenChunks(text[i..], w) && last == (|text| - i) % w
  }

  /** One step of the builder's loop: which branch it takes, the chunk it
      emits, and where it stands afterwards. */
  lemma NextChunk(text: string, w: ChunkWidth, i: nat, nb: int, rest: seq<Chunk>, last: nat)
    requires Cursor(text, w, i, rest, last) && nb == |rest|
    ensures rest != []
    ensures nb > 1 ==> Cursor(text, w, i + w, rest[1..], last)
    ensures nb > 1 || last == 0 ==>
      i + w <= |text| && rest[0] == Chunk(w, text[i .. i + w - 1])
    ensures !(nb > 1 || last == 0) ==>
      nb == 1 && i + last == |text| && rest[0] == Chunk(last, text[i .. i + last])
  {
    var r := |text| - i;
    WrittenChunkCount(text[i..], w);
    FullChunkTest(r, w, nb, last);
    if r >= w {
      DivModStep(r, w);
      assert text[i..][w..] == text[i + w..];
      assert text[i..][..w - 1] == text[i .. i + w - 1];
    } else {
      SmallQuotient(r, w);
      assert text[i..] == text[i .. i + last];
    }
  }

  /** The cursor after one full chunk: `w` characters and one chunk further on. */
  lemma CursorNext(text: string, w: ChunkWidth, i0: nat, i: nat, rest0: seq<Chunk>, rest: seq<Chunk>, last: nat, nb: int)
    requires Cursor(text, w, i0, rest0, last) && i == i0 + w && rest0 != [] && rest == rest0[1..]
    requires nb == |rest0| - 1
    ensures nb > 0 ==> Cursor(text, w, i, rest, last)
  {
    if nb > 0 {
      NextChunk(text, w, i0, nb + 1, rest0, last);
    }
  }

  /** Before the first turn: the trip count the builder computes is the
      number of chunks, and a loop that runs at all starts at character 0. */
  lemma CursorStart(text: string, w: ChunkWidth, nb: int)
    requires nb == if |text| % w == 0 then |text| / w else |text| / w + 1
    ensures nb == |WrittenChunks(text, w)|
    ensures nb > 0 ==> Cursor(text, w, 0, WrittenChunks(text, w), |text| % w)
  {
    WrittenChunkCount(text, w);
    assert text[0..] == text;
  }

  /** The characters the chunks carry, in order. */
  function Parts(cs: seq<Chunk>): string {
    if cs == [] then [] else cs[0].part + Parts(cs[1..])
  }

  lemma SmallQuotient(len: nat, w: ChunkWidth)
    requires len < w
    ensures len / w == 0 && len % w == len
  {
    DivUnique(w, 0, len, len);
  }

  lemma DropArith(len: nat, w: ChunkWidth)
    requires len >= w
    ensures w - 1 + (len - w) - (len - w) / w == len - len / w
  {
    DivModStep(len, w);
  }

  lemma DropStep(text: string, w: ChunkWidth)
    requires |text| >= w
    requires |Parts(WrittenChunks(text[w..], w))| == |text[w..]| - |text[w..]| / w
    ensures |Parts(WrittenChunks(text, w))| == |text| - |text| / w
  {
    var rest := text[w..];
    assert Parts(WrittenChunks(text, w)) == text[..w - 1] + Parts(WrittenChunks(rest, w));
    DropArith(|text|, w);
  }

  /** As written, every full chunk drops its last character: the payloads
      are shorter than the text by the number of full chunks. */
  lemma {:induction false} WrittenChunksDropCharacters(text: string, w: ChunkWidth)
    ensures |Parts(WrittenChunks(text, w))| == |text| - |text| / w
    decreases |text|
  {
    if text == [] {
    } else if |text| < w {
      SmallQuotient(|text|, w);
    } else {
      WrittenChunksDropCharacters(text[w..], w);
      DropStep(text, w);
    }
  }

  /** "abc" in chunks of two is carried as "a" and "c": the "b" never
      reaches the script. */
  lemma WrittenChunksLoseText()
    ensures WrittenChunks("abc", 2) == [Chunk(2, "a"), Chunk(1, "c")]
    ensures Parts(WrittenChunks("abc", 2)) == "ac"
  {
    var text := "abc";
    assert text[2..] == "c";
    assert WrittenChunks(text[2..], 2) == [Chunk(1, "c")];
    assert text[..1] == "a";
  }

  // ---- Chunking as intended.

  /** The slicing the record format calls for: every chunk carries exactly
      the characters its header declares. */
  function IntendedChunks(text: string, w: ChunkWidth): (cs: seq<Chunk>)
    ensures forall k :: 0 <= k < |cs| ==> 1 <= cs[k].declared <= w && |cs[k].part| == cs[k].declared
    ensures Declarable(cs)
    decreases |text|
  {
    if text == [] then []
    else if |text| < w then [Chunk(|text|, text)]
    else [Chunk(w, text[..w])] + IntendedChunks(text[w..], w)
  }

  /** The intended chunks carry the whole text, in order, in the same
      number of records. */
  lemma {:induction false} IntendedChunksReassemble(text: string, w: ChunkWidth)
    ensures Parts(IntendedChunks(text, w)) == text
    ensures |IntendedChunks(text, w)| == ChunkCount(|text|, w)
    decreases |text|
  {
    if text == [] {
    } else if |text| < w {
      DivUnique(w, 0, |text|, |text|);
    } else {
      IntendedChunksReassemble(text[w..], w);
      ChunkCountStep(|text|, w);
      assert text[..w] + text[w..] == text;
    }
  }

  // ---- Chunk records.

  /** Windows text, or Mac text with its keyboard-layout byte and delay. */
  datatype TextFormat = Windows | Mac(azerty: Byte, delay: Word)

  function TextOp(fmt: TextFormat): Op {
    if fmt.Windows? then AddTextWindows else AddTextMac
  }

  function HeaderBytes(fmt: TextFormat): nat {
    if fmt.Windows? then 2 else 5
  }

  /** `04` and the declared length; or `11`, the declared length plus 3,
      the layout byte and the delay. */
  function Header(fmt: TextFormat, declared: nat): (h: string)
    requires declared <= 0xFC
    ensures |h| == 2 * HeaderBytes(fmt)
  {
    match fmt
    case Windows => "04" + Hex2(declared)
    case Mac(azerty, delay) => "11" + Hex2(declared + 3) + Hex2(azerty) + Hex4(delay)
  }

  /** The Windows header as the builder spells it out. */
  lemma WindowsHeaderIs(declared: nat, lenS: string)
    requires declared <= 0xFC && lenS == Hex2(declared)
    ensures "04" + lenS == Header(Windows, declared)
  {
  }

  /** The Mac header as the builder spells it out. */
  lemma MacHeaderIs(azerty: Byte, delay: Word, declared: nat, lenS: string, azertyS: string, delayS: string)
    requires declared <= 0xFC && lenS == Hex2(declared + 3)
    requires azertyS == Hex2(azerty) && delayS == Hex4(delay)
    ensures "11" + lenS + azertyS + delayS == Header(Mac(azerty, delay), declared)
  {
  }

  /** The chunk the loop emits next, and the header and slice the builder
      writes for it: the full-width header with `text[i..i + w - 1]`, or the
      remainder header with `text[i..i + last]`. */
  lemma ChunkChoice(text: string, w: ChunkWidth, i: nat, nb: int, rest: seq<Chunk>, last: nat,
                    fmt: TextFormat, fullHeader: string, lastHeader: string)
    requires Cursor(text, w, i, rest, last) && nb == |rest| && last == |text| % w
    requires fullHeader == Header(fmt, w) && lastHeader == Header(fmt, |text| % w)
    ensures rest != [] && rest[0].declared <= 0xFC
    ensures nb > 1 || last == 0 ==>
      i + w - 1 <= |text| && fullHeader == Header(fmt, rest[0].declared) && text[i .. i + w - 1] == rest[0].part
    ensures !(nb > 1 || last == 0) ==>
      i + last <= |text| && lastHeader == Header(fmt, rest[0].declared) && text[i .. i + last] == rest[0].part
  {
    NextChunk(text, w, i, nb, rest, last);
  }

  /** A chunk rendered: the header hex and the payload hex the builder
      appends for it. */
  datatype Piece = Piece(header: string, payload: string)

  function Render(fmt: TextFormat, c: Chunk): (p: Piece)
    requires c.declared <= 0xFC
    ensures |p.header| == 2 * HeaderBytes(fmt) && |p.payload| == 2 * |c.part|
  {
    Piece(Header(fmt, c.declared), AsciiToHex(c.part))
  }

  /** The hex a list of chunks becomes when every chunk fits. */
  function ChunksHex(fmt: TextFormat, cs: seq<Chunk>): string
    requires Declarable(cs)
  {
    if cs == [] then [] else Render(fmt, cs[0]).header + Render(fmt, cs[0]).payload + ChunksHex(fmt, cs[1..])
  }

  /** The bytes a list of chunks adds when every chunk fits. */
  function ChunksBytes(fmt: TextFormat, cs: seq<Chunk>): nat {
    if cs == [] then 0 else HeaderBytes(fmt) + |cs[0].part| + ChunksBytes(fmt, cs[1..])
  }

  /** Two hex characters for every byte counted. */
  lemma {:induction false} ChunksHexLength(fmt: TextFormat, cs: seq<Chunk>)
    requires Declarable(cs)
    ensures |ChunksHex(fmt, cs)| == 2 * ChunksBytes(fmt, cs)
    decreases |cs|
  {
    if cs != [] {
      ChunksHexLength(fmt, cs[1..]);
    }
  }

  /** The record a chunk is meant to be: tag 0x04 or 0x11 and, for Mac, the
      layout byte and the delay ahead of the text. */
  function ChunkRecord(fmt: TextFormat, c: Chunk): Record {
    match fmt
    case Windows => Record(0x04, AsciiToHex(c.part))
    case Mac(azerty, delay) => Record(0x11, Hex2(azerty) + Hex4(delay) + AsciiToHex(c.part))
  }

  function ChunkRecords(fmt: TextFormat, cs: seq<Chunk>): (rs: seq<Record>)
    ensures |rs| == |cs|
    ensures forall k :: 0 <= k < |cs| ==> rs[k] == ChunkRecord(fmt, cs[k])
  {
    seq(|cs|, k requires 0 <= k < |cs| => ChunkRecord(fmt, cs[k]))
  }

  /** A chunk that carries what it declares is exactly one well-formed record. */
  lemma ChunkFraming(fmt: TextFormat, c: Chunk)
    requires c.declared <= 0xFC && |c.part| == c.declared
    ensures WellFormed(ChunkRecord(fmt, c))
    ensures Render(fmt, c).header + Render(fmt, c).payload == EncodeRecord(ChunkRecord(fmt, c))
  {
    var p := AsciiToHex(c.part);
    assert |p| / 2 == c.declared;
    match fmt
    case Windows =>
      var hd := Hex2(c.declared);
      assert Render(fmt, c) == Piece("04" + hd, p);
      assert "04" == Hex2(0x04);
      assert ("04" + hd) + p == Hex2(0x04) + Hex2(|p| / 2) + p;
    case Mac(azerty, delay) =>
      var hd := Hex2(c.declared + 3);
      var fields := Hex2(azerty) + Hex4(delay);
      var body := fields + p;
      assert Render(fmt, c) == Piece("11" + hd + fields, p);
      assert "11" == Hex2(0x11);
      assert |body| / 2 == c.declared + 3;
      assert ("11" + hd + fields) + p == Hex2(0x11) + Hex2(|body| / 2) + body;
  }

  /** A full chunk as written declares one byte more than its payload holds,
      so its record would swallow the first byte of whatever follows. */
  lemma WrittenChunkShortByOne(fmt: TextFormat, text: string, w: ChunkWidth)
    requires |text| >= w
    ensures var c := WrittenChunks(text, w)[0];
      c.declared == w && |Render(fmt, c).payload| / 2 == c.declared - 1
  {
  }

  /** Chunks that carry what they declare render to exactly their records. */
  lemma {:induction false} IntendedChunksFraming(fmt: TextFormat, cs: seq<Chunk>)
    requires Declarable(cs)
    requires forall k :: 0 <= k < |cs| ==> |cs[k].part| == cs[k].declared
    ensures AllWellFormed(ChunkRecords(fmt, cs))
    ensures ChunksHex(fmt, cs) == EncodeRecords(ChunkRecords(fmt, cs))
    decreases |cs|
  {
    if cs != [] {
      ChunkFraming(fmt, cs[0]);
      IntendedChunksFraming(fmt, cs[1..]);
      var rs := ChunkRecords(fmt, cs);
      assert rs[1..] == ChunkRecords(fmt, cs[1..]);
      calc {
        ChunksHex(fmt, cs);
        Render(fmt, cs[0]).header + Render(fmt, cs[0]).payload + ChunksHex(fmt, cs[1..]);
        EncodeRecord(rs[0]) + EncodeRecords(rs[1..]);
        EncodeRecords(rs);
      }
    }
  }

  // ---- One loop iteration and the whole loop.

  /** One iteration: refuse when the `h` header bytes would overflow;
      otherwise append the header, hand the payload to `addAsciiText` (whose
      check still sees the counter without the header, and whose overflow is
      swallowed), and only then count the header bytes. */
  function PieceStep(b: Buffer, max: nat, h: nat, p: Piece, op: Op): (e: Effect)
    ensures e.out == Ok || e.out == CapacityExceeded(op)
    ensures e.out == Ok <==> b.size + h <= max
    ensures e.out != Ok ==> e.buf == b
  {
    if b.size + h <= max then
      var b1 := Append(Buffer(b.content + p.header, b.size), max, p.payload, AddAsciiText).buf;
      Effect(Buffer(b1.content, b1.size + h), Ok)
    else Effect(b, CapacityExceeded(op))
  }

  /** What one iteration does to the script whatever happens: the counter
      keeps tracking the content, nothing is taken away, and an accepted
      header leaves the counter at most one header past `max`. */
  lemma PieceStepBounds(b: Buffer, max: nat, fmt: TextFormat, c: Chunk)
    requires c.declared <= 0xFC
    ensures var e := PieceStep(b, max, HeaderBytes(fmt), Render(fmt, c), TextOp(fmt));
      (Tracks(b) ==> Tracks(e.buf)) && b.content <= e.buf.content && b.size <= e.buf.size &&
      (e.out == Ok ==> e.buf.size <= max + HeaderBytes(fmt))
  {
    var p, h := Render(fmt, c), HeaderBytes(fmt);
    if b.size + h <= max {
      var withHeader := Buffer(b.content + p.header, b.size);
      var mid := Append(withHeader, max, p.payload, AddAsciiText).buf;
      assert |mid.content| - 2 * mid.size == |withHeader.content| - 2 * withHeader.size;
      assert b.content <= withHeader.content <= mid.content;
    }
  }

  /** The loop: one iteration per chunk, in order, stopping at the first
      refused header and keeping whatever was appended before it. */
  function RunChunks(b: Buffer, max: nat, fmt: TextFormat, cs: seq<Chunk>): (e: Effect)
    requires Declarable(cs)
    ensures e.out == Ok || e.out == CapacityExceeded(TextOp(fmt))
    decreases |cs|
  {
    if cs == [] then Effect(b, Ok)
    else
      var e := PieceStep(b, max, HeaderBytes(fmt), Render(fmt, cs[0]), TextOp(fmt));
      if e.out != Ok then e else RunChunks(e.buf, max, fmt, cs[1..])
  }

  /** One iteration of the loop: a refused header ends it where it stands;
      an accepted one hands the remaining chunks the new script, whose
      counter still tracks its content within one Mac header past `max`. */
  lemma LoopStep(before: Buffer, max: nat, fmt: TextFormat, cs: seq<Chunk>)
    requires Declarable(cs) && cs != []
    ensures var e := PieceStep(before, max, HeaderBytes(fmt), Render(fmt, cs[0]), TextOp(fmt));
      RunChunks(before, max, fmt, cs) == if e.out == Ok then RunChunks(e.buf, max, fmt, cs[1..]) else e
    ensures var e := PieceStep(before, max, HeaderBytes(fmt), Render(fmt, cs[0]), TextOp(fmt));
      Tracks(before) && before.size <= max + 5 ==> Tracks(e.buf) && e.buf.size <= max + 5
  {
    PieceStepBounds(before, max, fmt, cs[0]);
  }

  /** What `addTextWindows` / `addTextMac` do to the script, as written. */
  function TextSpec(b: Buffer, max: nat, fmt: TextFormat, text: string, w: ChunkWidth): (e: Effect)
    ensures e.out == Ok || e.out == CapacityExceeded(TextOp(fmt))
  {
    RunChunks(b, max, fmt, WrittenChunks(text, w))
  }

  /** Empty text adds no record and succeeds. */
  lemma TextEmpty(b: Buffer, max: nat, fmt: TextFormat, w: ChunkWidth)
    ensures TextSpec(b, max, fmt, [], w) == Effect(b, Ok)
  {
    WrittenChunksEmpty(w);
  }

  /** The text operations keep the counter equal to half the content length. */
  lemma {:induction false} RunChunksTracks(b: Buffer, max: nat, fmt: TextFormat, cs: seq<Chunk>)
    requires Declarable(cs) && Tracks(b)
    ensures Tracks(RunChunks(b, max, fmt, cs).buf)
    decreases |cs|
  {
    if cs != [] {
      var e := PieceStep(b, max, HeaderBytes(fmt), Render(fmt, cs[0]), TextOp(fmt));
      PieceStepBounds(b, max, fmt, cs[0]);
      if e.out == Ok {
        RunChunksTracks(e.buf, max, fmt, cs[1..]);
      }
    }
  }

  /** The counter never goes further past `max` than `slack`, for any slack
      that covers one header. */
  lemma {:induction false} RunChunksBound(b: Buffer, max: nat, fmt: TextFormat, cs: seq<Chunk>, slack: nat)
    requires Declarable(cs) && HeaderBytes(fmt) <= slack && b.size <= max + slack
    ensures RunChunks(b, max, fmt, cs).buf.size <= max + slack
    decreases |cs|
  {
    if cs != [] {
      var e := PieceStep(b, max, HeaderBytes(fmt), Render(fmt, cs[0]), TextOp(fmt));
      PieceStepBounds(b, max, fmt, cs[0]);
      if e.out == Ok {
        RunChunksBound(e.buf, max, fmt, cs[1..], slack);
      }
    }
  }

  /** The text operations only ever append, whether or not they fail. */
  lemma {:induction false} RunChunksAppendOnly(b: Buffer, max: nat, fmt: TextFormat, cs: seq<Chunk>)
    requires Declarable(cs)
    ensures var e := RunChunks(b, max, fmt, cs);
      b.content <= e.buf.content && b.size <= e.buf.size
    decreases |cs|
  {
    if cs != [] {
      var e := PieceStep(b, max, HeaderBytes(fmt), Render(fmt, cs[0]), TextOp(fmt));
      PieceStepBounds(b, max, fmt, cs[0]);
      if e.out == Ok {
        RunChunksAppendOnly(e.buf, max, fmt, cs[1..]);
      }
    }
  }

  /** An iteration whose header and payload both fit appends them and
      counts exactly their bytes. */
  lemma PieceStepFits(b: Buffer, max: nat, fmt: TextFormat, c: Chunk)
    requires c.declared <= 0xFC && b.size + HeaderBytes(fmt) + |c.part| <= max
    ensures var p := Render(fmt, c);
      PieceStep(b, max, HeaderBytes(fmt), p, TextOp(fmt)) ==
        Effect(Buffer(b.content + p.header + p.payload, b.size + HeaderBytes(fmt) + |c.part|), Ok)
  {
  }

  /** The hex and the byte count of a list of chunks, first chunk apart. */
  lemma ChunksCons(fmt: TextFormat, cs: seq<Chunk>)
    requires Declarable(cs) && cs != []
    ensures Declarable(cs[1..])
    ensures ChunksHex(fmt, cs) == Render(fmt, cs[0]).header + Render(fmt, cs[0]).payload + ChunksHex(fmt, cs[1..])
    ensures ChunksBytes(fmt, cs) == HeaderBytes(fmt) + |cs[0].part| + ChunksBytes(fmt, cs[1..])
  {
  }

  /** When the first chunk fits whole, the loop goes on from the script with
      that chunk appended. */
  lemma AllFitStep(b: Buffer, max: nat, fmt: TextFormat, cs: seq<Chunk>)
    requires Declarable(cs) && cs != [] && b.size + HeaderBytes(fmt) + |cs[0].part| <= max
    ensures var p := Render(fmt, cs[0]);
      RunChunks(b, max, fmt, cs) ==
        RunChunks(Buffer(b.content + p.header + p.payload, b.size + HeaderBytes(fmt) + |cs[0].part|), max, fmt, cs[1..])
  {
    var p := Render(fmt, cs[0]);
    var e := PieceStep(b, max, HeaderBytes(fmt), p, TextOp(fmt));
    PieceStepFits(b, max, fmt, cs[0]);
    assert e.out == Ok && e.buf == Buffer(b.content + p.header + p.payload, b.size + HeaderBytes(fmt) + |cs[0].part|);
    LoopStep(b, max, fmt, cs);
  }

  /** Appending the first chunk's hex and then the rest's is appending the
      hex of all of them. */
  lemma ChunksHexCons(a: string, fmt: TextFormat, cs: seq<Chunk>)
    requires Declarable(cs) && cs != []
    ensures a + Render(fmt, cs[0]).header + Render(fmt, cs[0]).payload + ChunksHex(fmt, cs[1..]) == a + ChunksHex(fmt, cs)
  {
    var p := Render(fmt, cs[0]);
    ChunksCons(fmt, cs);
    ConcatAssoc3(a, p.header, p.payload, ChunksHex(fmt, cs[1..]));
  }

  lemma ConcatAssoc3(a: string, x: string, y: string, z: string)
    ensures a + x + y + z == a + (x + y + z)
  {
  }

  /** When everything fits, the loop appends each chunk's header and payload
      in order and counts exactly their bytes. */
  lemma {:induction false} RunChunksAllFit(b: Buffer, max: nat, fmt: TextFormat, cs: seq<Chunk>)
    requires Declarable(cs)
    requires b.size + ChunksBytes(fmt, cs) <= max
    ensures RunChunks(b, max, fmt, cs) == Effect(Buffer(b.content + ChunksHex(fmt, cs), b.size + ChunksBytes(fmt, cs)), Ok)
    decreases |cs|
  {
    if cs != [] {
      ChunksCons(fmt, cs);
      AllFitStep(b, max, fmt, cs);
      ChunksHexCons(b.content, fmt, cs);
      var p := Render(fmt, cs[0]);
      RunChunksAllFit(Buffer(b.content + p.header + p.payload, b.size + HeaderBytes(fmt) + |cs[0].part|), max, fmt, cs[1..]);
    }
  }

  /** The stale check: when the header fits and the payload fits only without
      the header, the iteration succeeds with the counter above `max`. */
  lemma StaleCheckOvershoot(b: Buffer, max: nat, h: nat, p: Piece, op: Op)
    requires b.size + h <= max && b.size + |p.payload| / 2 <= max
    requires max < b.size + h + |p.payload| / 2
    ensures PieceStep(b, max, h, p, op).out == Ok
    ensures PieceStep(b, max, h, p, op).buf.size == b.size + h + |p.payload| / 2 > max
  {
  }

  /** The swallowed overflow: when only the header fits, it is appended and
      counted without its payload and the iteration still succeeds. */
  lemma HeaderWithoutPayload(b: Buffer, max: nat, h: nat, p: Piece, op: Op)
    requires b.size + h <= max < b.size + |p.payload| / 2
    ensures PieceStep(b, max, h, p, op) == Effect(Buffer(b.content + p.header, b.size + h), Ok)
  {
  }

  /** A concrete overshoot: with 8 of 10 bytes used, two characters of
      Windows text end with 12 bytes counted. */
  lemma TextOvershootExample(b: Buffer)
    requires b.size == 8
    ensures TextSpec(b, 10, Windows, "ab", 0xFC).out == Ok
    ensures TextSpec(b, 10, Windows, "ab", 0xFC).buf.size == 12
  {
    var cs := WrittenChunks("ab", 0xFC);
    assert cs == [Chunk(2, "ab")];
    var p := Render(Windows, cs[0]);
    assert |p.payload| == 4;
    var e := PieceStep(b, 10, 2, p, AddTextWindows);
    assert e.out == Ok && e.buf.size == 12;
    assert cs[1..] == [];
  }

  // ---- The text operation as intended.

  /** The intended chunk records offered to the capacity gate as one unit:
      the counter never passes `max` and a refused text leaves the script
      untouched. */
  function IntendedTextAppend(b: Buffer, max: nat, fmt: TextFormat, text: string, w: ChunkWidth): (e: Effect)
    ensures e.out == Ok || e.out == CapacityExceeded(TextOp(fmt))
    ensures b.size <= max ==> e.buf.size <= max
    ensures e.out != Ok ==> e.buf == b
    ensures Tracks(b) ==> Tracks(e.buf)
  {
    var cs := IntendedChunks(text, w);
    ChunksHexLength(fmt, cs);
    Append(b, max, ChunksHex(fmt, cs), TextOp(fmt))
  }

  /** As intended, a script of whole records stays one: it gains one record
      per chunk, together carrying the whole text, or nothing. */
  lemma IntendedTextKeepsFraming(b: Buffer, max: nat, fmt: TextFormat, text: string, w: ChunkWidth, rs: seq<Record>)
    requires AllWellFormed(rs) && b.content == EncodeRecords(rs)
    ensures var e := IntendedTextAppend(b, max, fmt, text, w);
      var added := ChunkRecords(fmt, IntendedChunks(text, w));
      AllWellFormed(added) &&
      ParseRecords(e.buf.content) == Some(if e.out == Ok then rs + added else rs)
  {
    var cs := IntendedChunks(text, w);
    var added := ChunkRecords(fmt, cs);
    IntendedChunksFraming(fmt, cs);
    var e := IntendedTextAppend(b, max, fmt, text, w);
    if e.out == Ok {
      EncodeRecordsConcat(rs, added);
      ParseEncode(rs + added);
    } else {
      ParseEncode(rs);
    }
  }
}
