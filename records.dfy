/** The record stream the token reads: every record is a tag byte, a length
    byte and `length` bytes of body, all as hex text.  This module gives the
    framing (`EncodeRecord`, `ParseRecords`) and the exact hex each
    single-record operation of the keyboard builder appends, each proved to be
    one well-framed record. */
module Records {
  import opened Hex

  datatype Option<T> = None | Some(value: T)

  /** `body` is the record's payload as hex text (two characters per byte). */
  datatype Record = Record(tag: Byte, body: string)

  predicate WellFormed(r: Record) {
    |r.body| % 2 == 0 && |r.body| / 2 < 0x100
  }

  predicate AllWellFormed(rs: seq<Record>) {
    forall k :: 0 <= k < |rs| ==> WellFormed(rs[k])
  }

  function EncodeRecord(r: Record): string
    requires WellFormed(r)
  {
    Hex2(r.tag) + Hex2(|r.body| / 2) + r.body
  }

  function EncodeRecords(rs: seq<Record>): string
    requires AllWellFormed(rs)
  {
    if rs == [] then [] else EncodeRecord(rs[0]) + EncodeRecords(rs[1..])
  }

  /** Reads a script back as records: tag, length, then exactly `length`
      body bytes; `None` when the text does not split into whole records. */
  function ParseRecords(s: string): Option<seq<Record>>
    decreases |s|
  {
    if s == [] then Some([])
    else if |s| < 4 || !IsHex(s[..4]) then None
    else
      assert IsHex(s[..2]) && IsHex(s[2..4]) by {
        assert forall k :: 0 <= k < 2 ==> s[..2][k] == s[..4][k] && s[2..4][k] == s[..4][k + 2];
      }
      var n := HexValue(s[2..4]);
      if |s| < 4 + 2 * n then None
      else
        match ParseRecords(s[4 + 2 * n..])
        case None => None
        case Some(rest) =>
          assert Pow16(2) == 0x100;
          Some([Record(HexValue(s[..2]), s[4..4 + 2 * n])] + rest)
  }

  /** Decoding an encoded record list gives the list back. */
  lemma {:induction false} ParseEncode(rs: seq<Record>)
    requires AllWellFormed(rs)
    ensures ParseRecords(EncodeRecords(rs)) == Some(rs)
    decreases |rs|
  {
    if rs != [] {
      var r := rs[0];
      var rest := EncodeRecords(rs[1..]);
      var s := EncodeRecords(rs);
      var n := |r.body| / 2;
      Hex2Value(r.tag);
      Hex2Value(n);
      assert s == Hex2(r.tag) + Hex2(n) + r.body + rest;
      assert s[..2] == Hex2(r.tag);
      assert s[2..4] == Hex2(n);
      assert s[..4] == Hex2(r.tag) + Hex2(n);
      assert s[4..4 + 2 * n] == r.body;
      assert s[4 + 2 * n..] == rest;
      ParseEncode(rs[1..]);
      assert [r] + rs[1..] == rs;
    }
  }

  lemma {:induction false} EncodeRecordsAppend(rs: seq<Record>, r: Record)
    requires AllWellFormed(rs) && WellFormed(r)
    ensures AllWellFormed(rs + [r])
    ensures EncodeRecords(rs + [r]) == EncodeRecords(rs) + EncodeRecord(r)
    decreases |rs|
  {
    if rs == [] {
      assert rs + [r] == [r];
    } else {
      assert (rs + [r])[0] == rs[0] && (rs + [r])[1..] == rs[1..] + [r];
      EncodeRecordsAppend(rs[1..], r);
    }
  }

  /** A script that is a list of whole records stays one after another whole
      record is appended: the stream remains self-describing. */
  lemma AppendKeepsFraming(rs: seq<Record>, r: Record)
    requires AllWellFormed(rs) && WellFormed(r)
    ensures ParseRecords(EncodeRecords(rs) + EncodeRecord(r)) == Some(rs + [r])
  {
    EncodeRecordsAppend(rs, r);
    ParseEncode(rs + [r]);
  }

  lemma AllWellFormedConcat(rs: seq<Record>, ts: seq<Record>)
    requires AllWellFormed(rs) && AllWellFormed(ts)
    ensures AllWellFormed(rs + ts)
  {
  }

  /** Encoding distributes over list concatenation. */
  lemma {:induction false} EncodeRecordsConcat(rs: seq<Record>, ts: seq<Record>)
    requires AllWellFormed(rs) && AllWellFormed(ts)
    ensures AllWellFormed(rs + ts)
    ensures EncodeRecords(rs + ts) == EncodeRecords(rs) + EncodeRecords(ts)
    decreases |rs|
  {
    AllWellFormedConcat(rs, ts);
    if rs == [] {
      assert rs + ts == ts;
    } else {
      var r, tail := rs[0], rs[1..];
      AllWellFormedConcat(tail, ts);
      calc {
        EncodeRecords(rs + ts);
        { assert (rs + ts)[0] == r && (rs + ts)[1..] == tail + ts; }
        EncodeRecord(r) + EncodeRecords(tail + ts);
        { EncodeRecordsConcat(tail, ts); }
        EncodeRecord(r) + (EncodeRecords(tail) + EncodeRecords(ts));
        (EncodeRecord(r) + EncodeRecords(tail)) + EncodeRecords(ts);
      }
    }
  }

  // ---- The fixed-content markers: branch-if-PC, branch-if-Mac, carriage return.

  datatype Marker = IfPC | IfMac | Return

  function MarkerTag(m: Marker): Byte {
    match m
    case IfPC => 0x0E
    case IfMac => 0x0F
    case Return => 0x0D
  }

  /** The literal each marker operation appends is a record with an empty body. */
  function MarkerHex(m: Marker): (h: string)
    ensures WellFormed(Record(MarkerTag(m), []))
    ensures h == EncodeRecord(Record(MarkerTag(m), []))
  {
    match m
    case IfPC => "0E00"
    case IfMac => "0F00"
    case Return => "0D00"
  }

  // ---- OS probes.

  datatype ProbeKind = OSProbe | OSProbeWinR

  function ProbeTag(k: ProbeKind): Byte {
    if k == OSProbe then 0x10 else 0x02
  }

  /** The 4-byte probe payload: report count, delay, keycode. */
  function ProbeBody(nb: Byte, delay: Word, code: Byte): string {
    Hex2(nb) + Hex4(delay) + Hex2(code)
  }

  /** `1004` or `0204`, then the payload: one 6-byte record whose literal
      length byte matches its payload. */
  function ProbeHex(k: ProbeKind, nb: Byte, delay: Word, code: Byte): (h: string)
    ensures |h| == 12
    ensures WellFormed(Record(ProbeTag(k), ProbeBody(nb, delay, code)))
    ensures h == EncodeRecord(Record(ProbeTag(k), ProbeBody(nb, delay, code)))
  {
    var head := if k == OSProbe then "1004" else "0204";
    var body := Hex2(nb) + Hex4(delay) + Hex2(code);
    assert body == ProbeBody(nb, delay, code);
    assert |body| / 2 == 4;
    ProbeHead(k);
    head + body
  }

  lemma ProbeHead(k: ProbeKind)
    ensures (if k == OSProbe then "1004" else "0204") == Hex2(ProbeTag(k)) + Hex2(4)
  {
    
  }

  /** The probe's fields can be read back from fixed offsets. */
  lemma ProbeFields(k: ProbeKind, nb: Byte, delay: Word, code: Byte)
    ensures var h := ProbeHex(k, nb, delay, code);
      IsHex(h[4..6]) && IsHex(h[6..10]) && IsHex(h[10..12]) &&
      HexValue(h[4..6]) == nb && HexValue(h[6..10]) == delay && HexValue(h[10..12]) == code
  {
    var h := ProbeHex(k, nb, delay, code);
    var a, b, c := Hex2(nb), Hex4(delay), Hex2(code);
    Hex2Value(nb);
    Hex4Value(delay);
    Hex2Value(code);
    assert h[4..] == a + b + c;
    assert h[4..6] == a;
    assert h[6..10] == b;
    assert h[10..12] == c;
  }

  // ---- Raw keycodes and keycodes with release.

  datatype KeyCodeKind = Raw | Release

  function KeyCodeTag(k: KeyCodeKind): Byte {
    if k == Raw then 0x09 else 0x03
  }

  /** Tag, `|code| / 2` as the length byte, then the caller's code verbatim.
      For an even-length code this is one well-framed record. */
  function KeyCodeHex(k: KeyCodeKind, code: string): (h: string)
    requires |code| / 2 < 0x100
    ensures |h| == 4 + |code|
    ensures |code| % 2 == 0 ==> WellFormed(Record(KeyCodeTag(k), code))
    ensures |code| % 2 == 0 ==> h == EncodeRecord(Record(KeyCodeTag(k), code))
  {
    (if k == Raw then "09" else "03") + Hex2(|code| / 2) + code
  }

  lemma KeyCodeScenario()
    ensures KeyCodeHex(Raw, "1A") == "09011A"
  {
  }

  // ---- Sleep.

  /** `0102` and a 2-byte duration up to 0xFFFF; `0104` and a 4-byte duration
      above it. */
  function SleepHex(duration: nat): (h: string)
    requires duration < 0x8000_0000
    ensures duration <= 0xFFFF ==> |h| == 8 && h == EncodeRecord(Record(0x01, Hex4(duration)))
    ensures duration > 0xFFFF ==> |h| == 12 && h == EncodeRecord(Record(0x01, Hex8(duration)))
  {
    if duration > 0xFFFF then
      var body := Hex8(duration);
      assert "0104" == Hex2(0x01) + Hex2(|body| / 2);
      "0104" + body
    else
      var body := Hex4(duration);
      assert "0102" == Hex2(0x01) + Hex2(|body| / 2);
      "0102" + body
  }

  /** The duration reads back from the body whichever width was chosen. */
  lemma SleepDuration(duration: nat)
    requires duration < 0x8000_0000
    ensures var h := SleepHex(duration);
      IsHex(h[4..]) && HexValue(h[4..]) == duration
  {
    var h := SleepHex(duration);
    if duration > 0xFFFF {
      Hex8Value(duration);
      assert h[4..] == Hex8(duration);
    } else {
      Hex4Value(duration);
      assert h[4..] == Hex4(duration);
    }
  }

  /** The default duration 0xFFFF takes the 2-byte form. */
  lemma SleepDefault(duration: nat)
    requires duration == 0xFFFF
    ensures SleepHex(duration) == "0102FFFF"
  {
    var body := Hex4(duration);
    assert body == "FFFF" by {
      assert Hex2(0xFF) == "FF";
    }
    calc {
      SleepHex(duration);
      "0102" + body;
      "0102" + "FFFF";
    }
  }

  lemma SleepWide()
    ensures SleepHex(0x10000)[..4] == "0104" && |SleepHex(0x10000)| == 12
  {
  }

  // ---- HOTP parameters.

  /** A diversifier is accepted when it passes the hex-input test and holds
      16 bytes, that is exactly 32 hex digits. */
  predicate ValidDiversifier(div: string)
    ensures ValidDiversifier(div) <==> |div| == 32 && IsHex(div)
  {
    IsHexInput(div) && |div| / 2 == 16
  }

  /** The HOTP record's body, `tmp`: the three parameter bytes, the
      diversifier as given, then the counter file id; each field reads back
      from its fixed place. */
  function HotpBody(options: Byte, digitsNb: Byte, keysetVersion: Byte, counterFileId: Word, div: string): (s: string)
    ensures |s| == 10 + |div|
    ensures IsHex(s[..2]) && HexValue(s[..2]) == options
    ensures IsHex(s[2..4]) && HexValue(s[2..4]) == digitsNb
    ensures IsHex(s[4..6]) && HexValue(s[4..6]) == keysetVersion
    ensures s[6..6 + |div|] == div
    ensures IsHex(s[6 + |div|..]) && HexValue(s[6 + |div|..]) == counterFileId
  {
    var a, b, c, d := Hex2(options), Hex2(digitsNb), Hex2(keysetVersion), Hex4(counterFileId);
    var s := a + b + c + div + d;
    Hex2Value(options);
    Hex2Value(digitsNb);
    Hex2Value(keysetVersion);
    Hex4Value(counterFileId);
    assert s[..2] == a && s[2..4] == b && s[4..6] == c;
    assert s[6..6 + |div|] == div && s[6 + |div|..] == d;
    s
  }

  /** The HOTP parameter record: `None` exactly when a non-empty diversifier
      is rejected; otherwise one record tagged 0x50 whose length byte is 5
      without a diversifier and 21 with one. */
  function HotpHex(options: Byte, digitsNb: Byte, keysetVersion: Byte, counterFileId: Word, div: string): (r: Option<string>)
    ensures r.None? <==> div != [] && !ValidDiversifier(div)
    ensures r.Some? ==> WellFormed(Record(0x50, HotpBody(options, digitsNb, keysetVersion, counterFileId, div)))
    ensures r.Some? ==> r.value == EncodeRecord(Record(0x50, HotpBody(options, digitsNb, keysetVersion, counterFileId, div)))
    ensures r.Some? ==> IsHex(r.value[2..4]) && HexValue(r.value[2..4]) == (if div == [] then 5 else 21)
  {
    if div != [] && !ValidDiversifier(div) then None
    else
      var tmp := Hex2(options) + Hex2(digitsNb) + Hex2(keysetVersion) + div + Hex4(counterFileId);
      assert tmp == HotpBody(options, digitsNb, keysetVersion, counterFileId, div);
      assert |tmp| / 2 == if div == [] then 5 else 21;
      var len := Hex2(|tmp| / 2);
      Hex2Value(|tmp| / 2);
      assert "50" == Hex2(0x50);
      var h := "50" + len + tmp;
      assert h[2..4] == len;
      Some(h)
  }

  /** An accepted diversifier gives the record `50`, the body's length byte,
      then the body. */
  lemma HotpHexIs(options: Byte, digitsNb: Byte, keysetVersion: Byte, counterFileId: Word, div: string, lenS: string)
    requires div == [] || ValidDiversifier(div)
    requires lenS == Hex2(|HotpBody(options, digitsNb, keysetVersion, counterFileId, div)| / 2)
    ensures HotpHex(options, digitsNb, keysetVersion, counterFileId, div) ==
      Some("50" + lenS + HotpBody(options, digitsNb, keysetVersion, counterFileId, div))
  {
  }

  lemma HotpBodyExample()
    ensures HotpBody(1, 6, 1, 0x10, []) == "0106010010"
  {
    assert Hex2(1) == "01" && Hex2(6) == "06";
    assert Hex4(0x10) == "0010" by {
      assert Hex2(0) == "00" && Hex2(0x10) == "10";
    }
  }

  /** Options 1, 6 digits, keyset 1, counter file 0x10 and no diversifier
      give the 7-byte record `50 05 01 06 01 0010`. */
  lemma HotpScenario()
    ensures HotpHex(1, 6, 1, 0x10, []) == Some("50050106010010")
  {
    HotpBodyExample();
    assert |"0106010010"| / 2 == 5 && Hex2(5) == "05";
    HotpHexIs(1, 6, 1, 0x10, [], "05");
    assert "50" + "05" + "0106010010" == "50050106010010";
  }
}
