/** The keyboard script as a value — the hex text appended so far and the
    byte counter kept beside it — and the capacity-gated operations every
    `add…` call of the builder is made of. */
module Script {
  import opened Hex
  import opened Records

  datatype Buffer = Buffer(content: string, size: nat)

  /** The operation a capacity error names (the prefix of its message). */
  datatype Op =
    | AddOSProbe | AddOSProbeWinR | AddIfPC | AddIfMac | AddAsciiText
    | AddTextWindows | AddTextMac | AddKeyCodeRaw | AddKeyCodeRelease
    | AddHotpCode | AddReturn | AddSleep | KeyboardZeroPad

  /** How an operation ends: normally, or with one of the exceptions it throws. */
  datatype Outcome =
    | Ok
    | CapacityExceeded(op: Op)
    | InvalidDiversifier
    | PadTargetTooSmall

  datatype Effect = Effect(buf: Buffer, out: Outcome)

  /** The counter is the byte length of the content: two hex characters a byte. */
  predicate Tracks(b: Buffer) {
    |b.content| == 2 * b.size
  }

  /** `keyboard_add`: append `hex` and count half its characters when the
      counter stays within `max`; otherwise leave everything as it was and
      report the operation. */
  function Append(b: Buffer, max: nat, hex: string, op: Op): (e: Effect)
    ensures e.out == Ok <==> b.size + |hex| / 2 <= max
    ensures e.out != Ok ==> e.out == CapacityExceeded(op) && e.buf == b
    ensures e.out == Ok ==> e.buf == Buffer(b.content + hex, b.size + |hex| / 2) && e.buf.size <= max
    ensures Tracks(b) && |hex| % 2 == 0 ==> Tracks(e.buf)
  {
    var added := |hex| / 2;
    if b.size + added <= max then Effect(Buffer(b.content + hex, b.size + added), Ok)
    else Effect(b, CapacityExceeded(op))
  }

  /** `addAsciiText`: the hex of `text` through `keyboard_add`, with the
      capacity error swallowed. */
  function AsciiText(b: Buffer, max: nat, text: string): (r: Buffer)
    ensures b.size + |text| <= max ==> r == Buffer(b.content + AsciiToHex(text), b.size + |text|)
    ensures b.size + |text| > max ==> r == b
    ensures Tracks(b) ==> Tracks(r)
  {
    Append(b, max, AsciiToHex(text), AddAsciiText).buf
  }

  /** `n` zero bytes. */
  function Zeros(n: nat): (z: string)
    ensures |z| == 2 * n
    ensures forall k :: 0 <= k < |z| ==> z[k] == '0'
  {
    seq(2 * n, _ => '0')
  }

  lemma ZerosSucc(n: nat)
    ensures Zeros(n + 1) == Zeros(n) + "00"
  {
  }

  /** `zeroPad(target)`: a target not above the counter is refused with no
      change; otherwise zero bytes are added one at a time up to the target,
      stopping with an error at `max` after the bytes that fit. */
  function PadSpec(b: Buffer, max: nat, target: int): (e: Effect)
    ensures e.out == PadTargetTooSmall <==> target <= b.size
    ensures e.out == Ok <==> b.size < target <= max
    ensures e.out == PadTargetTooSmall ==> e.buf == b
    ensures e.out == Ok ==> e.buf.size == target
    ensures e.out != Ok && e.out != PadTargetTooSmall ==>
      e.out == CapacityExceeded(KeyboardZeroPad) && e.buf.size == (if b.size < max then max else b.size)
    ensures b.size <= e.buf.size && e.buf.content == b.content + Zeros(e.buf.size - b.size)
    ensures b.size <= max ==> e.buf.size <= max
    ensures b.size > max ==> e.buf == b
    ensures Tracks(b) ==> Tracks(e.buf)
  {
    if target <= b.size then Effect(b, PadTargetTooSmall)
    else if target <= max then Effect(Buffer(b.content + Zeros(target - b.size), target), Ok)
    else if b.size < max then
      Effect(Buffer(b.content + Zeros(max - b.size), max), CapacityExceeded(KeyboardZeroPad))
    else Effect(b, CapacityExceeded(KeyboardZeroPad))
  }

  /** A script made of whole records stays one when a single record is
      offered to the capacity gate: it gains that record or nothing. */
  lemma AppendRecordKeepsFraming(b: Buffer, max: nat, rs: seq<Record>, r: Record, op: Op)
    requires AllWellFormed(rs) && WellFormed(r)
    requires b.content == EncodeRecords(rs)
    ensures var e := Append(b, max, EncodeRecord(r), op);
      ParseRecords(e.buf.content) == Some(if e.out == Ok then rs + [r] else rs)
  {
    var e := Append(b, max, EncodeRecord(r), op);
    if e.out == Ok {
      AppendKeepsFraming(rs, r);
    } else {
      ParseEncode(rs);
    }
  }
}
