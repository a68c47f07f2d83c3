/** The keyboard-script builder: a hex content buffer and a byte counter,
    updated in place by one method per script command.  Every method is
    proved to leave the buffer exactly as the matching function of the
    `Script`, `Records` and `TextChunks` modules says. */
module Keyboard {
  import opened Hex
  import opened Records
  import opened Script
  import opened TextChunks

  class DaplugKeyboard {
    /** The capacity of the keyboard file, in bytes. */
    const maxContentSize: nat
    /** The characters per Windows text record. */
    const maxWindowsTextLen: ChunkWidth
    /** The characters per Mac text record. */
    const maxMacTextLen: ChunkWidth

    var content: string
    var currentContentSize: nat

    function Snapshot(): Buffer
      reads this
    {
      Buffer(content, currentContentSize)
    }

    /** The counter is half the content length, and it is at most one Mac
        text header (5 bytes) past the capacity. */
    ghost predicate Valid()
      reads this
    {
      Tracks(Snapshot()) && currentContentSize <= maxContentSize + 5
    }

    constructor(maxContentSize: nat, maxWindowsTextLen: ChunkWidth, maxMacTextLen: ChunkWidth)
      ensures this.maxContentSize == maxContentSize
      ensures this.maxWindowsTextLen == maxWindowsTextLen && this.maxMacTextLen == maxMacTextLen
      ensures content == [] && currentContentSize == 0
      ensures Valid()
    {
      this.maxContentSize := maxContentSize;
      this.maxWindowsTextLen := maxWindowsTextLen;
      this.maxMacTextLen := maxMacTextLen;
      content := [];
      currentContentSize := 0;
    }

    /** `keyboard_add`: the capacity gate every record goes through. */
    method KeyboardAdd(hexa: string, name: Op) returns (out: Outcome)
      modifies this
      ensures Effect(Snapshot(), out) == Append(old(Snapshot()), maxContentSize, hexa, name)
      ensures old(Valid()) && |hexa| % 2 == 0 ==> Valid()
    {
      var addedLen := |hexa| / 2;
      if currentContentSize + addedLen <= maxContentSize {
        content := content + hexa;
        currentContentSize := currentContentSize + addedLen;
        out := Ok;
      } else {
        out := CapacityExceeded(name);
      }
    }

    // ---- OS probes.

    /** `p_addOSProbe`: the probe record `1004`, report count, delay, keycode. */
    method AddOSProbe(nb: Byte, delay: Word, code: Byte) returns (out: Outcome)
      modifies this
      ensures Effect(Snapshot(), out) ==
        Append(old(Snapshot()), maxContentSize, ProbeHex(OSProbe, nb, delay, code), Op.AddOSProbe)
      ensures old(Valid()) ==> Valid()
    {
      var tNb: Byte, tDelay: Word, tCode: Byte := 0x10, 0xFFFF, 0x00;
      if nb != 0x10 { tNb := nb; }
      if delay != 0xFFFF { tDelay := delay; }
      if code != 0x00 { tCode := code; }
      var hex := "1004" + Hex2(tNb) + Hex4(tDelay) + Hex2(tCode);
      assert hex == ProbeHex(OSProbe, nb, delay, code);
      out := KeyboardAdd(hex, Op.AddOSProbe);
    }

    /** `addOSProbe()`: 0x10 reports, delay 0xFFFF, keycode 0. */
    method AddOSProbeDefault() returns (out: Outcome)
      modifies this
      ensures Effect(Snapshot(), out) ==
        Append(old(Snapshot()), maxContentSize, ProbeHex(OSProbe, 0x10, 0xFFFF, 0x00), Op.AddOSProbe)
      ensures old(Valid()) ==> Valid()
    {
      out := AddOSProbe(0x10, 0xFFFF, 0x00);
    }

    /** `addOSProbe(nb, delay)`: keycode 0. */
    method AddOSProbeNbDelay(nb: Byte, delay: Word) returns (out: Outcome)
      modifies this
      ensures Effect(Snapshot(), out) ==
        Append(old(Snapshot()), maxContentSize, ProbeHex(OSProbe, nb, delay, 0x00), Op.AddOSProbe)
      ensures old(Valid()) ==> Valid()
    {
      out := AddOSProbe(nb, delay, 0x00);
    }

    /** `addOSProbe(delay)`: 0x10 reports, keycode 0. */
    method AddOSProbeDelay(delay: Word) returns (out: Outcome)
      modifies this
      ensures Effect(Snapshot(), out) ==
        Append(old(Snapshot()), maxContentSize, ProbeHex(OSProbe, 0x10, delay, 0x00), Op.AddOSProbe)
      ensures old(Valid()) ==> Valid()
    {
      out := AddOSProbe(0x10, delay, 0x00);
    }

    /** `p_addOSProbeWinR`: the probe record `0204`, which also types Win+R
        on Windows. */
    method AddOSProbeWinR(nb: Byte, delay: Word, code: Byte) returns (out: Outcome)
      modifies this
      ensures Effect(Snapshot(), out) ==
        Append(old(Snapshot()), maxContentSize, ProbeHex(OSProbeWinR, nb, delay, code), Op.AddOSProbeWinR)
      ensures old(Valid()) ==> Valid()
    {
      var tNb: Byte, tDelay: Word, tCode: Byte := 0x14, 0xFFFF, 0x00;
      if nb != 0x14 { tNb := nb; }
      if delay != 0xFFFF { tDelay := delay; }
      if code != 0x00 { tCode := code; }
      var hex := "0204" + Hex2(tNb) + Hex4(tDelay) + Hex2(tCode);
      assert hex == ProbeHex(OSProbeWinR, nb, delay, code);
      out := KeyboardAdd(hex, Op.AddOSProbeWinR);
    }

    /** `addOSProbeWinR()`: 0x14 reports, delay 0xFFFF, keycode 0. */
    method AddOSProbeWinRDefault() returns (out: Outcome)
      modifies this
      ensures Effect(Snapshot(), out) ==
        Append(old(Snapshot()), maxContentSize, ProbeHex(OSProbeWinR, 0x14, 0xFFFF, 0x00), Op.AddOSProbeWinR)
      ensures old(Valid()) ==> Valid()
    {
      out := AddOSProbeWinR(0x14, 0xFFFF, 0x00);
    }

    /** `addOSProbeWinR(nb, delay)`: keycode 0. */
    method AddOSProbeWinRNbDelay(nb: Byte, delay: Word) returns (out: Outcome)
      modifies this
      ensures Effect(Snapshot(), out) ==
        Append(old(Snapshot()), maxContentSize, ProbeHex(OSProbeWinR, nb, delay, 0x00), Op.AddOSProbeWinR)
      ensures old(Valid()) ==> Valid()
    {
      out := AddOSProbeWinR(nb, delay, 0x00);
    }

    /** `addOSProbeWinR(delay)`: 0x14 reports, keycode 0. */
    method AddOSProbeWinRDelay(delay: Word) returns (out: Outcome)
      modifies this
      ensures Effect(Snapshot(), out) ==
        Append(old(Snapshot()), maxContentSize, ProbeHex(OSProbeWinR, 0x14, delay, 0x00), Op.AddOSProbeWinR)
      ensures old(Valid()) ==> Valid()
    {
      out := AddOSProbeWinR(0x14, delay, 0x00);
    }

    // ---- Markers and ASCII text, whose overflow is swallowed.

    /** `addIfPC`: `0E00`, or no change at all when it does not fit. */
    method AddIfPC()
      modifies this
      ensures Snapshot() == Append(old(Snapshot()), maxContentSize, MarkerHex(IfPC), Op.AddIfPC).buf
      ensures old(Valid()) ==> Valid()
    {
      var ignored := KeyboardAdd("0E00", Op.AddIfPC);
    }

    /** `addIfMac`: `0F00`, or no change at all when it does not fit. */
    method AddIfMac()
      modifies this
      ensures Snapshot() == Append(old(Snapshot()), maxContentSize, MarkerHex(IfMac), Op.AddIfMac).buf
      ensures old(Valid()) ==> Valid()
    {
      var ignored := KeyboardAdd("0F00", Op.AddIfMac);
    }

    /** `addAsciiText`: the text's hex, or no change when it does not fit. */
    method AddAsciiText(text: string)
      modifies this
      ensures Snapshot() == AsciiText(old(Snapshot()), maxContentSize, text)
      ensures old(Valid()) ==> Valid()
    {
      var hexText := AsciiToHex(text);
      var ignored := KeyboardAdd(hexText, Op.AddAsciiText);
    }

    // ---- Text in chunk records.

    /** The body the text loops repeat for every chunk: refuse when the
        header's bytes would overflow; otherwise append the header, hand the
        characters to `addAsciiText` (whose check does not yet see the
        header, and whose overflow is swallowed), then count the header. */
    method EmitChunk(header: string, part: string, op: Op, ghost fmt: TextFormat, ghost c: Chunk) returns (out: Outcome)
      requires c.declared <= 0xFC && header == Header(fmt, c.declared) && part == c.part
      modifies this
      ensures Effect(Snapshot(), out) ==
        PieceStep(old(Snapshot()), maxContentSize, HeaderBytes(fmt), Render(fmt, c), op)
    {
      var addedLen := |header| / 2;
      if currentContentSize + addedLen <= maxContentSize {
        content := content + header;
        AddAsciiText(part);
        currentContentSize := currentContentSize + addedLen;
        out := Ok;
      } else {
        out := CapacityExceeded(op);
      }
    }

    /** The loop both text operations run: `nb` chunks of `w` characters,
        the last one carrying the remainder; each full chunk is announced
        with `fullHeader`, the remainder with `lastHeader`. */
    method TextLoop(text: string, w: ChunkWidth, fullHeader: string, lastHeader: string, op: Op, ghost fmt: TextFormat)
      returns (out: Outcome)
      requires fullHeader == Header(fmt, w) && lastHeader == Header(fmt, |text| % w) && op == TextOp(fmt)
      modifies this
      ensures Effect(Snapshot(), out) == TextSpec(old(Snapshot()), maxContentSize, fmt, text, w)
      ensures old(Valid()) ==> Valid()
    {
      var nb := 0;
      var i: nat := 0;
      var lastPartLen := |text| % w;
      if lastPartLen == 0 {
        nb := |text| / w;
      } else {
        nb := |text| / w + 1;
      }
      ghost var goal := TextSpec(Snapshot(), maxContentSize, fmt, text, w);
      ghost var rest := WrittenChunks(text, w);
      CursorStart(text, w, nb);
      while nb > 0
        invariant nb == |rest|
        invariant nb > 0 ==> Cursor(text, w, i, rest, lastPartLen)
        invariant goal == RunChunks(Snapshot(), maxContentSize, fmt, rest)
        invariant old(Valid()) ==> Valid()
        decreases nb
      {
        ghost var before := Snapshot();
        ChunkChoice(text, w, i, nb, rest, lastPartLen, fmt, fullHeader, lastHeader);
        LoopStep(before, maxContentSize, fmt, rest);
        var header, part;
        if nb > 1 || lastPartLen == 0 {
          header, part := fullHeader, text[i .. i + w - 1];
        } else {
          header, part := lastHeader, text[i .. i + lastPartLen];
        }
        var r := EmitChunk(header, part, op, fmt, rest[0]);
        if r != Ok {
          return r;
        }
        ghost var i0, rest0 := i, rest;
        i := i + w;
        nb := nb - 1;
        rest := rest[1..];
        CursorNext(text, w, i0, i, rest0, rest, lastPartLen, nb);
      }
      out := Ok;
    }

    /** `addTextWindows`: chunk records `04`, length, text, as written. */
    method AddTextWindows(text: string) returns (out: Outcome)
      modifies this
      ensures Effect(Snapshot(), out) ==
        TextSpec(old(Snapshot()), maxContentSize, Windows, text, maxWindowsTextLen)
      ensures old(Valid()) ==> Valid()
    {
      var w := maxWindowsTextLen;
      var mwtlS := Hex2(w);
      var lastPartLen := |text| % w;
      var lastPartLenS := Hex2(lastPartLen);
      WindowsHeaderIs(w, mwtlS);
      WindowsHeaderIs(lastPartLen, lastPartLenS);
      out := TextLoop(text, w, "04" + mwtlS, "04" + lastPartLenS, Op.AddTextWindows, Windows);
    }

    /** `p_addTextMac`: chunk records `11`, length + 3, layout byte, delay,
        text, as written. */
    method AddTextMac(text: string, azerty: Byte, delay: Word) returns (out: Outcome)
      modifies this
      ensures Effect(Snapshot(), out) ==
        TextSpec(old(Snapshot()), maxContentSize, Mac(azerty, delay), text, maxMacTextLen)
      ensures old(Valid()) ==> Valid()
    {
      var w := maxMacTextLen;
      var tAzerty: Byte, tDelay: Word := 0, 0x1000;
      if azerty != 0 { tAzerty := azerty; }
      if delay != 0x1000 { tDelay := delay; }
      var lastPartLen := |text| % w;
      var lastPartLenS := Hex2(lastPartLen + 3);
      var mmtlS := Hex2(w as nat + 3);
      var azertyS := Hex2(tAzerty);
      var delayS := Hex4(tDelay);
      MacHeaderIs(azerty, delay, w, mmtlS, azertyS, delayS);
      MacHeaderIs(azerty, delay, lastPartLen, lastPartLenS, azertyS, delayS);
      out := TextLoop(text, w, "11" + mmtlS + azertyS + delayS, "11" + lastPartLenS + azertyS + delayS,
        Op.AddTextMac, Mac(azerty, delay));
    }

    /** `addTextMac(text)`: layout 0 and delay 0x1000. */
    method AddTextMacDefault(text: string) returns (out: Outcome)
      modifies this
      ensures Effect(Snapshot(), out) ==
        TextSpec(old(Snapshot()), maxContentSize, Mac(0, 0x1000), text, maxMacTextLen)
      ensures old(Valid()) ==> Valid()
    {
      out := AddTextMac(text, 0, 0x1000);
    }

    /** `addTextMac(text, delay)`: layout 0. */
    method AddTextMacWithDelay(text: string, delay: Word) returns (out: Outcome)
      modifies this
      ensures Effect(Snapshot(), out) ==
        TextSpec(old(Snapshot()), maxContentSize, Mac(0, delay), text, maxMacTextLen)
      ensures old(Valid()) ==> Valid()
    {
      out := AddTextMac(text, 0, delay);
    }

    // ---- Keycodes, HOTP, return, sleep.

    /** `addKeyCodeRaw`: `09`, the code's byte count, the code. */
    method AddKeyCodeRaw(code: string) returns (out: Outcome)
      requires |code| / 2 < 0x100
      modifies this
      ensures Effect(Snapshot(), out) ==
        Append(old(Snapshot()), maxContentSize, KeyCodeHex(Raw, code), Op.AddKeyCodeRaw)
      ensures old(Valid()) && |code| % 2 == 0 ==> Valid()
    {
      var lenCode := |code| / 2;
      var lenCodeS := Hex2(lenCode);
      var addedLen := (|"09"| + |lenCodeS| + |code|) / 2;
      if currentContentSize + addedLen <= maxContentSize {
        content := content + "09" + lenCodeS + code;
        currentContentSize := currentContentSize + addedLen;
        out := Ok;
      } else {
        out := CapacityExceeded(Op.AddKeyCodeRaw);
      }
    }

    /** `addKeyCodeRelease`: `03`, the code's byte count, the code. */
    method AddKeyCodeRelease(code: string) returns (out: Outcome)
      requires |code| / 2 < 0x100
      modifies this
      ensures Effect(Snapshot(), out) ==
        Append(old(Snapshot()), maxContentSize, KeyCodeHex(Release, code), Op.AddKeyCodeRelease)
      ensures old(Valid()) && |code| % 2 == 0 ==> Valid()
    {
      var lenCode := |code| / 2;
      var lenCodeS := Hex2(lenCode);
      var addedLen := (|"03"| + |lenCodeS| + |code|) / 2;
      if currentContentSize + addedLen <= maxContentSize {
        content := content + "03" + lenCodeS + code;
        currentContentSize := currentContentSize + addedLen;
        out := Ok;
      } else {
        out := CapacityExceeded(Op.AddKeyCodeRelease);
      }
    }

    /** `addHotpCode`: a rejected diversifier changes nothing; otherwise the
        `50` record goes through the capacity gate. */
    method AddHotpCode(options: Byte, digitsNb: Byte, keysetVersion: Byte, counterFileId: Word, div: string)
      returns (out: Outcome)
      modifies this
      ensures HotpHex(options, digitsNb, keysetVersion, counterFileId, div).None? ==>
        out == InvalidDiversifier && Snapshot() == old(Snapshot())
      ensures HotpHex(options, digitsNb, keysetVersion, counterFileId, div).Some? ==>
        Effect(Snapshot(), out) == Append(old(Snapshot()), maxContentSize,
          HotpHex(options, digitsNb, keysetVersion, counterFileId, div).value, Op.AddHotpCode)
      ensures old(Valid()) ==> Valid()
    {
      var tmp := Hex2(options) + Hex2(digitsNb) + Hex2(keysetVersion);
      if div != [] {
        if IsHexInput(div) && |div| / 2 == 16 {
          tmp := tmp + div;
        } else {
          return InvalidDiversifier;
        }
      }
      tmp := tmp + Hex4(counterFileId);
      assert tmp == HotpBody(options, digitsNb, keysetVersion, counterFileId, div) by {
        if div == [] {
          assert Hex2(options) + Hex2(digitsNb) + Hex2(keysetVersion) + div ==
            Hex2(options) + Hex2(digitsNb) + Hex2(keysetVersion);
        }
      }
      var lenTmpS := Hex2(|tmp| / 2);
      HotpHexIs(options, digitsNb, keysetVersion, counterFileId, div, lenTmpS);
      var addedLen := (|"50"| + |lenTmpS| + |tmp|) / 2;
      if currentContentSize + addedLen <= maxContentSize {
        content := content + ("50" + lenTmpS + tmp);
        currentContentSize := currentContentSize + addedLen;
        out := Ok;
      } else {
        out := CapacityExceeded(Op.AddHotpCode);
      }
    }

    /** `addReturn`: `0D00`. */
    method AddReturn() returns (out: Outcome)
      modifies this
      ensures Effect(Snapshot(), out) == Append(old(Snapshot()), maxContentSize, MarkerHex(Return), Op.AddReturn)
      ensures old(Valid()) ==> Valid()
    {
      var addedLen := |"0D00"| / 2;
      if currentContentSize + addedLen <= maxContentSize {
        content := content + "0D00";
        currentContentSize := currentContentSize + addedLen;
        out := Ok;
      } else {
        out := CapacityExceeded(Op.AddReturn);
      }
    }

    /** `p_addSleep`: `0102` and 2 duration bytes up to 0xFFFF, `0104` and
        4 bytes above. */
    method AddSleep(duration: nat) returns (out: Outcome)
      requires duration < 0x8000_0000
      modifies this
      ensures Effect(Snapshot(), out) == Append(old(Snapshot()), maxContentSize, SleepHex(duration), Op.AddSleep)
      ensures old(Valid()) ==> Valid()
    {
      var tDuration := 0xFFFF;
      if duration != 0xFFFF { tDuration := duration; }
      var durationS: string;
      if duration > 0xFFFF {
        durationS := Hex8(tDuration);
      } else {
        durationS := Hex4(tDuration);
      }
      var addedLen := (|"0104"| + |durationS|) / 2;
      if currentContentSize + addedLen <= maxContentSize {
        var sb: string;
        if duration > 0xFFFF {
          sb := "0104";
        } else {
          sb := "0102";
        }
        sb := sb + durationS;
        content := content + sb;
        currentContentSize := currentContentSize + addedLen;
        out := Ok;
      } else {
        out := CapacityExceeded(Op.AddSleep);
      }
    }

    /** `addSleep()`: the default duration 0xFFFF, that is `0102FFFF`. */
    method AddSleepDefault() returns (out: Outcome)
      modifies this
      ensures Effect(Snapshot(), out) == Append(old(Snapshot()), maxContentSize, "0102FFFF", Op.AddSleep)
      ensures old(Valid()) ==> Valid()
    {
      SleepDefault(0xFFFF);
      out := AddSleep(0xFFFF);
    }

    // ---- Padding and accessors.

    /** `zeroPad`: refuses a target not above the counter, else appends zero
        bytes one at a time, failing at the capacity with what fitted kept. */
    method ZeroPad(size: int) returns (out: Outcome)
      modifies this
      ensures Effect(Snapshot(), out) == PadSpec(old(Snapshot()), maxContentSize, size)
      ensures old(Valid()) ==> Valid()
    {
      if size <= currentContentSize {
        return PadTargetTooSmall;
      }
      ghost var start := Snapshot();
      while size > currentContentSize
        invariant start.size <= currentContentSize <= size
        invariant currentContentSize <= maxContentSize || currentContentSize == start.size
        invariant content == start.content + Zeros(currentContentSize - start.size)
        decreases size - currentContentSize
      {
        if currentContentSize + 1 <= maxContentSize {
          ZerosSucc(currentContentSize - start.size);
          content := content + "00";
          currentContentSize := currentContentSize + 1;
        } else {
          return CapacityExceeded(KeyboardZeroPad);
        }
      }
      out := Ok;
    }

    /** `getContent`: the content upper-cased. */
    method GetContent() returns (s: string)
      ensures s == Upper(content)
      ensures IsUpperHex(content) ==> s == content
    {
      s := Upper(content);
      if IsUpperHex(content) {
        UpperOfUpperHex(content);
      }
    }

    method GetCurrentContentSize() returns (n: nat)
      ensures n == currentContentSize
    {
      n := currentContentSize;
    }
  }
}
