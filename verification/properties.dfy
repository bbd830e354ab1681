/** Properties of the driver operations: what `set_color` writes and when it
    fails, how surplus colours and letter case affect it, what
    `reset_all_channels` writes, and how `initialize` reads the handshake. */
module Properties {
  import opened Wrappers
  import opened Protocol
  import opened Tables
  import opened Settings
  import opened Driver

  // ---------------------------------------------------------------------------
  // Traces

  lemma {:induction false} WritesAppend(a: seq<Event>, b: seq<Event>)
    ensures Writes(a + b) == Writes(a) + Writes(b)
  {
    if |a| == 0 {
      assert a + b == b;
    } else {
      var head := if a[0].Write? then [a[0].report] else [];
      assert (a + b)[0] == a[0];
      assert (a + b)[1..] == a[1..] + b;
      assert Writes(a + b) == head + Writes(a[1..] + b);
      assert Writes(a) == head + Writes(a[1..]);
      WritesAppend(a[1..], b);
      assert head + (Writes(a[1..]) + Writes(b)) == (head + Writes(a[1..])) + Writes(b);
    }
  }

  lemma {:induction false} WritesOfWrites(events: seq<Event>)
    requires forall i :: 0 <= i < |events| ==> events[i].Write?
    ensures |Writes(events)| == |events|
    ensures forall i :: 0 <= i < |events| ==> Writes(events)[i] == events[i].report
  {
    if |events| > 0 {
      WritesOfWrites(events[1..]);
    }
  }

  lemma {:induction false} WritesOfNone(events: seq<Event>)
    requires forall i :: 0 <= i < |events| ==> !events[i].Write?
    ensures Writes(events) == []
  {
    if |events| > 0 {
      WritesOfNone(events[1..]);
    }
  }

  // ---------------------------------------------------------------------------
  // Tables

  /** Keys of a table are pairwise distinct, as in a dictionary literal. */
  predicate DistinctKeys<V>(table: seq<(string, V)>) {
    forall i, j :: 0 <= i < j < |table| ==> table[i].0 != table[j].0
  }

  /** In a table with distinct keys, looking up an entry's key yields that
      entry's value. */
  lemma LookupEntry<V>(table: seq<(string, V)>, i: nat)
    requires DistinctKeys(table) && i < |table|
    ensures Lookup(table, table[i].0) == Some(table[i].1)
  {
    var r := Lookup(table, table[i].0);
    var k :| 0 <= k < |table| && table[k] == (table[i].0, r.value) &&
      forall j :: 0 <= j < k ==> table[j].0 != table[i].0;
    if k != i {
      assert false;
    }
  }

  lemma ModeKeysDistinct()
    ensures DistinctKeys(ColorModes)
  {
  }

  lemma ChannelKeysDistinct()
    ensures DistinctKeys(ColorChannels)
  {
  }

  /** The brightness written for each mode: 0 for `off`, 90 for `static` and
      `pulse`, 100 for the rest, and never above the mode's cap. */
  lemma BrightnessPerMode(i: nat)
    requires i < |ColorModes|
    ensures Brightness(ColorModes[i].1) <= ColorModes[i].1.maxBrightness
    ensures Brightness(ColorModes[i].1) ==
      (if ColorModes[i].0 == "off" then 0
       else if ColorModes[i].0 in {"static", "pulse"} then 90
       else 100)
  {
  }

  /** The channel names by pattern: there are seven, and entry i is
      `led<i+1>`. */
  lemma ChannelNames(i: nat)
    requires i < |ColorChannels|
    ensures |ColorChannels| == 7
    ensures var name := ColorChannels[i].0;
      |name| == 4 && name[..3] == "led" && name[3] == (49 + i) as char
  {
  }

  /** The channel addresses by pattern: the first byte counts up from 0x20, the
      second is a one-hot mask that starts at 1 and doubles from one channel to
      the next. */
  lemma ChannelAddresses(i: nat)
    requires i < |ColorChannels|
    ensures ColorChannels[i].1.addr1 == 0x20 + i
    ensures ColorChannels[i].1.addr2 == if i == 0 then 1 else 2 * ColorChannels[i - 1].1.addr2
  {
  }

  /** The mode table by family: only the colour-cycle and off modes ignore the
      colour; pulse, flash and double-flash pulse; flash flashes once and
      double-flash twice; colour-cycle steps through seven colours; off and
      static have no speed table, the others their own family's; and each name
      looks up its own entry. */
  lemma ModeTableFamilies(i: nat)
    requires i < |ColorModes|
    ensures Lookup(ColorModes, ColorModes[i].0) == Some(ColorModes[i].1)
    ensures var (name, m) := ColorModes[i];
      && (m.takesColor <==> name != "off" && name != "color-cycle")
      && (m.pulses <==> name in {"pulse", "flash", "double-flash"})
      && m.flashCount == (if name == "flash" then 1 else if name == "double-flash" then 2 else 0)
      && m.cycleCount == (if name == "color-cycle" then 7 else 0)
      && m.value == (if name in {"off", "static"} then 1 else if name == "pulse" then 2
                     else if name == "color-cycle" then 4 else 3)
      && m.speedValues == (if name in {"off", "static"} then None
                           else if name == "pulse" then Some(PulseSpeeds)
                           else if name == "flash" then Some(FlashSpeeds)
                           else if name == "double-flash" then Some(DoubleFlashSpeeds)
                           else Some(ColorCycleSpeeds))
  {
    ModeKeysDistinct();
    LookupEntry(ColorModes, i);
  }

  /** The names `set_color` accepts for a mode, in any letter case. */
  lemma ModeNames(mode: string)
    ensures ModeOf(mode).Some? <==>
      Lower(mode) in ["off", "static", "pulse", "flash", "double-flash", "color-cycle"]
  {
    var names := ["off", "static", "pulse", "flash", "double-flash", "color-cycle"];
    assert forall i :: 0 <= i < |ColorModes| ==> ColorModes[i].0 == names[i];
    if Lower(mode) in names {
      var j :| 0 <= j < |names| && names[j] == Lower(mode);
      assert ColorModes[j].0 == Lower(mode);
    }
  }

  /** `normal`, the default speed of `set_color`, is in every speed table a
      mode uses, so leaving the speed out never fails with `UnknownSpeed`. */
  lemma DefaultSpeedKnown(mode: string)
    requires ModeOf(mode).Some?
    ensures SpeedKnown(ModeOf(mode).value, DefaultSpeed)
  {
    var m := ModeOf(mode).value;
    var i :| 0 <= i < |ColorModes| && ColorModes[i] == (Lower(mode), m);
    LowerOfLowercase(DefaultSpeed);
    assert TierName(Normal) == DefaultSpeed;
    if m.speedValues == Some(PulseSpeeds) {
      PulseCoverage(Normal);
    } else if m.speedValues == Some(FlashSpeeds) {
      FlashCoverage(Normal);
    } else if m.speedValues == Some(DoubleFlashSpeeds) {
      DoubleFlashCoverage(Normal);
    } else if m.speedValues == Some(ColorCycleSpeeds) {
      ColorCycleCoverage(Normal);
    } else {
      ModeTableFamilies(i);
    }
  }

  // ---------------------------------------------------------------------------
  // set_color

  /** The mode the name `mode` selects, if any. */
  function ModeOf(mode: string): Option<ColorMode> {
    Lookup(ColorModes, Lower(mode))
  }

  /** The speed name is acceptable for `m`: either `m` has no speed table or
      the table has an entry for the lower-cased name. */
  predicate SpeedKnown(m: ColorMode, speed: string) {
    m.speedValues.None? || Lookup(m.speedValues.value, Lower(speed)).Some?
  }

  /** The channel name is `sync` or names a table entry, ignoring case. */
  predicate ChannelKnown(channel: string) {
    Lower(channel) == "sync" || Lookup(ColorChannels, Lower(channel)).Some?
  }

  /** The fields a settings report must carry for mode `m`, colours `colors`
      and (lower-cased) speed name `speed`, stated from the tables alone. */
  predicate Honours(f: Fields, m: ColorMode, colors: seq<Rgb>, speed: string) {
    && f.code == m.value
    && f.brightness == (if m.maxBrightness < 100 then m.maxBrightness else 100)
    && (m.takesColor ==> |colors| > 0 && f.color == [colors[0].b, colors[0].g, colors[0].r])
    && (!m.takesColor ==> f.color == [0, 0, 0])
    && (m.speedValues.Some? ==> Lookup(m.speedValues.value, speed) == Some(f.speed))
    && (m.speedValues.None? ==> f.speed == [0, 0, 0, 0, 0, 0])
    && f.cycleCount == m.cycleCount
    && f.pulses == m.pulses
    && f.flashCount == m.flashCount
  }

  /** A mode taken from the table has a non-empty speed table whenever it has
      one at all. */
  lemma TableModeSpeeds(mode: string)
    requires ModeOf(mode).Some?
    ensures ModeOf(mode).value.speedValues.Some? ==> |ModeOf(mode).value.speedValues.value| > 0
  {
    var m := ModeOf(mode).value;
    var i :| 0 <= i < |ColorModes| && ColorModes[i] == (Lower(mode), m);
    ModeSpeedTablesNonEmpty();
  }

  /** `set_color` succeeds exactly when the mode is known, a colour is given if
      the mode takes one, the speed is known if the mode has a speed table and
      the channel is known; and the error raised is the first check, in that
      order, that fails. */
  lemma SetColorOutcome(channel: string, mode: string, colors: seq<Rgb>, speed: string)
    ensures var t := SetColor(channel, mode, colors, speed);
      && (ModeOf(mode).None? ==> t == Transaction([], Failure(UnknownMode)))
      && (ModeOf(mode).Some? ==> var m := ModeOf(mode).value;
           && (m.takesColor && |colors| == 0 ==> t == Transaction([], Failure(MissingColor)))
           && (!(m.takesColor && |colors| == 0) ==>
                 && (!SpeedKnown(m, speed) ==> t.result == Failure(UnknownSpeed))
                 && (SpeedKnown(m, speed) && !ChannelKnown(channel) ==>
                       t.result == Failure(UnknownChannel))
                 && (SpeedKnown(m, speed) && ChannelKnown(channel) ==> t.result.Success?)))
  {
    if ModeOf(mode).Some? {
      TableModeSpeeds(mode);
    }
  }

  /** The timing bytes of a successful speed lookup: the table's entry for the
      name when the mode has a non-empty speed table, six zeros otherwise. */
  lemma SpeedBytesValue(m: ColorMode, speed: string)
    requires SpeedBytes(m, speed).Success?
    ensures m.speedValues.Some? && |m.speedValues.value| > 0 ==>
      Lookup(m.speedValues.value, speed) == Some(SpeedBytes(m, speed).value)
    ensures !(m.speedValues.Some? && |m.speedValues.value| > 0) ==>
      SpeedBytes(m, speed).value == Zeros(6)
  {
  }

  /** The fields `SetColorMode` builds from mode `m` are the ones `Honours`
      prescribes. */
  lemma BuiltHonours(m: ColorMode, colors: seq<Rgb>, speed: string, a: Address)
    requires m.speedValues.Some? ==> |m.speedValues.value| > 0
    requires PickColor(m, colors).Success? && SpeedBytes(m, speed).Success?
    ensures Honours(BuiltFields(m, colors, speed, a), m, colors, speed)
  {
  }

  /** The writes of a successful `WriteSettings` call: one padded settings
      report per selected address, then the execute report. */
  lemma WriteSettingsWrites(m: ColorMode, color: Triple, channel: string, speed: string)
    requires WriteSettings(m, color, channel, speed).result.Success?
    ensures SpeedBytes(m, speed).Success? && SelectChannels(channel).Success?
    ensures var w := Writes(WriteSettings(m, color, channel, speed).events);
      var addrs := SelectChannels(channel).value;
      && |w| == |addrs| + 1
      && w[|addrs|] == Pad(ExecuteReport)
      && forall i :: 0 <= i < |addrs| ==>
           w[i] == Encode(Fields(addrs[i], m.value, Brightness(m), color, SpeedBytes(m, speed).value,
                                 m.cycleCount, m.pulses, m.flashCount))
  {
    var sextet := SpeedBytes(m, speed).value;
    var data := SettingsData(m.value, Brightness(m), color, sextet, m.cycleCount, m.pulses, m.flashCount);
    var addrs := SelectChannels(channel).value;
    var each := WriteEach(data, addrs);
    var tail: seq<Event> := [Write(Pad(ExecuteReport)), Release];
    assert WriteSettings(m, color, channel, speed).events == each + tail;
    WritesAppend(each, tail);
    WritesOfWrites(each);
    assert Writes(tail) == [Pad(ExecuteReport)];
  }

  /** The warning `SetColorMode` may log adds no write. */
  lemma SetColorModeSameWrites(m: ColorMode, channel: string, colors: seq<Rgb>, speed: string)
    requires PickColor(m, colors).Success?
    ensures Writes(SetColorMode(m, channel, colors, speed).events) ==
            Writes(WriteSettings(m, PickColor(m, colors).value.0, channel, speed).events)
  {
    var (color, dropped) := PickColor(m, colors).value;
    var rest := WriteSettings(m, color, channel, speed);
    assert SetColorMode(m, channel, colors, speed).events == WarnIfDropped(dropped) + rest.events;
    WritesAppend(WarnIfDropped(dropped), rest.events);
  }

  /** The fields `SetColorMode` puts in the report for address `a`. */
  function BuiltFields(m: ColorMode, colors: seq<Rgb>, speed: string, a: Address): Fields
    requires PickColor(m, colors).Success? && SpeedBytes(m, speed).Success?
  {
    Fields(a, m.value, Brightness(m), PickColor(m, colors).value.0,
           SpeedBytes(m, speed).value, m.cycleCount, m.pulses, m.flashCount)
  }

  /** Settings reports built for a request, one per address, decode to their
      addresses and to fields that honour the request. */
  lemma WrittenFieldsHonour(m: ColorMode, colors: seq<Rgb>, speed: string,
                            w: seq<seq<byte>>, addrs: seq<Address>)
    requires m.speedValues.Some? ==> |m.speedValues.value| > 0
    requires PickColor(m, colors).Success? && SpeedBytes(m, speed).Success?
    requires |addrs| <= |w|
    requires forall i :: 0 <= i < |addrs| ==> w[i] == Encode(BuiltFields(m, colors, speed, addrs[i]))
    ensures forall i :: 0 <= i < |addrs| ==>
      Decode(w[i]).Some? && Decode(w[i]).value.address == addrs[i] &&
      Honours(Decode(w[i]).value, m, colors, speed)
  {
    forall i | 0 <= i < |addrs|
      ensures Decode(w[i]).Some? && Decode(w[i]).value.address == addrs[i]
      ensures Honours(Decode(w[i]).value, m, colors, speed)
    {
      DecodeEncode(BuiltFields(m, colors, speed, addrs[i]));
      BuiltHonours(m, colors, speed, addrs[i]);
    }
  }

  /** The writes of a successful `SetColorMode` call for a mode whose speed
      table, if any, is non-empty. */
  lemma SetColorModeWrites(m: ColorMode, channel: string, colors: seq<Rgb>, speed: string)
    requires m.speedValues.Some? ==> |m.speedValues.value| > 0
    requires SetColorMode(m, channel, colors, speed).result.Success?
    ensures SelectChannels(channel).Success?
    ensures var w := Writes(SetColorMode(m, channel, colors, speed).events);
      var addrs := SelectChannels(channel).value;
      && |w| == |addrs| + 1
      && w[|addrs|] == Pad(ExecuteReport)
      && forall i :: 0 <= i < |addrs| ==>
           Decode(w[i]).Some? && Decode(w[i]).value.address == addrs[i] &&
           Honours(Decode(w[i]).value, m, colors, speed)
  {
    var color := PickColor(m, colors).value.0;
    assert WriteSettings(m, color, channel, speed).result.Success?;
    SetColorModeSameWrites(m, channel, colors, speed);
    WriteSettingsWrites(m, color, channel, speed);
    var w := Writes(SetColorMode(m, channel, colors, speed).events);
    var addrs := SelectChannels(channel).value;
    assert forall i :: 0 <= i < |addrs| ==> w[i] == Encode(BuiltFields(m, colors, speed, addrs[i]));
    WrittenFieldsHonour(m, colors, speed, w, addrs);
  }

  /** On success, the writes are one settings report per selected channel, in
      selection order, each addressed to its channel and carrying the fields
      the tables prescribe, followed by the execute report. */
  lemma SetColorWrites(channel: string, mode: string, colors: seq<Rgb>, speed: string)
    requires SetColor(channel, mode, colors, speed).result.Success?
    ensures ModeOf(mode).Some? && SelectChannels(Lower(channel)).Success?
    ensures var w := Writes(SetColor(channel, mode, colors, speed).events);
      var addrs := SelectChannels(Lower(channel)).value;
      && |w| == |addrs| + 1
      && w[|addrs|] == Pad(ExecuteReport)
      && forall i :: 0 <= i < |addrs| ==>
           Decode(w[i]).Some? && Decode(w[i]).value.address == addrs[i] &&
           Honours(Decode(w[i]).value, ModeOf(mode).value, colors, Lower(speed))
  {
    TableModeSpeeds(mode);
    SetColorModeWrites(ModeOf(mode).value, Lower(channel), colors, Lower(speed));
  }

  /** A trace made of writes alone is the trace that writes its reports. */
  lemma WriteEventsOfWrites(events: seq<Event>)
    requires forall i :: 0 <= i < |events| ==> events[i].Write?
    ensures events == WriteEvents(Writes(events))
  {
    WritesOfWrites(events);
  }

  /** Events without writes, then writes, then one release: the writes are
      exactly the reports the whole trace writes. */
  lemma WritesThenRelease(pre: seq<Event>, rest: seq<Event>)
    requires forall i :: 0 <= i < |pre| ==> !pre[i].Write?
    requires |rest| > 0 && rest[|rest| - 1] == Release
    requires forall i :: 0 <= i < |rest| - 1 ==> rest[i].Write?
    ensures pre + rest == pre + WriteEvents(Writes(pre + rest)) + [Release]
  {
    var body := rest[..|rest| - 1];
    assert rest == body + [Release];
    WriteEventsOfWrites(body);
    WritesOfNone(pre);
    WritesAppend(pre, rest);
    WritesAppend(body, [Release]);
    assert Writes([Release]) == [];
    assert Writes(rest) == Writes(body);
    assert Writes(pre + rest) == Writes(body);
    assert pre + rest == pre + body + [Release];
  }

  /** A successful `SetColorMode` trace is exactly the warning for surplus
      colours, if any, then the reports it writes, then one release: no read,
      no second release and no other event. */
  lemma SetColorModeTrace(m: ColorMode, channel: string, colors: seq<Rgb>, speed: string)
    requires SetColorMode(m, channel, colors, speed).result.Success?
    ensures ColorsUsed(m) <= |colors|
    ensures var events := SetColorMode(m, channel, colors, speed).events;
      events == WarnIfDropped(|colors| - ColorsUsed(m)) + WriteEvents(Writes(events)) + [Release]
  {
    var (color, dropped) := PickColor(m, colors).value;
    var rest := WriteSettings(m, color, channel, speed);
    assert SetColorMode(m, channel, colors, speed).events == WarnIfDropped(dropped) + rest.events;
    assert dropped == |colors| - ColorsUsed(m);
    WritesThenRelease(WarnIfDropped(dropped), rest.events);
  }

  /** The same for `set_color`, called by names. */
  lemma SetColorTrace(channel: string, mode: string, colors: seq<Rgb>, speed: string)
    requires SetColor(channel, mode, colors, speed).result.Success?
    ensures ModeOf(mode).Some? && ColorsUsed(ModeOf(mode).value) <= |colors|
    ensures var events := SetColor(channel, mode, colors, speed).events;
      events == WarnIfDropped(|colors| - ColorsUsed(ModeOf(mode).value)) +
                WriteEvents(Writes(events)) + [Release]
  {
    var m := ModeOf(mode).value;
    assert SetColor(channel, mode, colors, speed) == SetColorMode(m, Lower(channel), colors, Lower(speed));
    SetColorModeTrace(m, Lower(channel), colors, Lower(speed));
  }

  /** Fields that satisfy the same request agree everywhere except, possibly,
      in the address. */
  lemma HonoursDetermines(f: Fields, g: Fields, m: ColorMode, colors: seq<Rgb>, speed: string)
    requires Honours(f, m, colors, speed) && Honours(g, m, colors, speed)
    ensures f.(address := g.address) == g
  {
  }

  /** Two settings reports whose fields differ at most in the address differ at
      most in bytes 1 and 2. */
  lemma EncodeOutsideAddress(f: Fields, g: Fields)
    requires f.(address := g.address) == g
    ensures |Encode(f)| == |Encode(g)| == WriteLength
    ensures forall k :: 0 <= k < WriteLength && k != 1 && k != 2 ==> Encode(f)[k] == Encode(g)[k]
  {
  }

  /** A named channel receives exactly one settings report, addressed to it,
      then the execute report, then the handle is released; the only other
      event is the leading warning for surplus colours. */
  lemma SetColorNamedChannel(channel: string, mode: string, colors: seq<Rgb>, speed: string)
    requires Lower(channel) != "sync"
    requires SetColor(channel, mode, colors, speed).result.Success?
    ensures Lookup(ColorChannels, Lower(channel)).Some? && ModeOf(mode).Some?
    ensures var w := Writes(SetColor(channel, mode, colors, speed).events);
      && |w| == 2
      && Decode(w[0]).Some?
      && Decode(w[0]).value.address == Lookup(ColorChannels, Lower(channel)).value
      && Honours(Decode(w[0]).value, ModeOf(mode).value, colors, Lower(speed))
      && w[1] == Pad(ExecuteReport)
    ensures ColorsUsed(ModeOf(mode).value) <= |colors|
    ensures var events := SetColor(channel, mode, colors, speed).events;
      var w := Writes(events);
      events == WarnIfDropped(|colors| - ColorsUsed(ModeOf(mode).value)) +
                [Write(w[0]), Write(Pad(ExecuteReport)), Release]
  {
    SetColorWrites(channel, mode, colors, speed);
    SetColorTrace(channel, mode, colors, speed);
    var events := SetColor(channel, mode, colors, speed).events;
    TwoWritesThenRelease(events, WarnIfDropped(|colors| - ColorsUsed(ModeOf(mode).value)));
  }

  /** A trace of a prefix, two writes ending with the execute report, and a
      release, written out. */
  lemma TwoWritesThenRelease(events: seq<Event>, pre: seq<Event>)
    requires events == pre + WriteEvents(Writes(events)) + [Release]
    requires |Writes(events)| == 2 && Writes(events)[1] == Pad(ExecuteReport)
    ensures events == pre + [Write(Writes(events)[0]), Write(Pad(ExecuteReport)), Release]
  {
    var w := Writes(events);
    assert WriteEvents(w) == [Write(w[0]), Write(Pad(ExecuteReport))];
  }

  /** `sync` writes seven settings reports, to led1 through led7 in that order,
      identical except in their address bytes, then the execute report, then
      releases the handle; the only other event is the leading warning for
      surplus colours. */
  lemma SetColorSync(channel: string, mode: string, colors: seq<Rgb>, speed: string)
    requires Lower(channel) == "sync"
    requires SetColor(channel, mode, colors, speed).result.Success?
    ensures var w := Writes(SetColor(channel, mode, colors, speed).events);
      && |w| == 8
      && w[7] == Pad(ExecuteReport)
      && (forall i :: 0 <= i < 7 ==>
            Decode(w[i]).Some? && Decode(w[i]).value.address == ColorChannels[i].1)
      && (forall i, j, k :: 0 <= i < 7 && 0 <= j < 7 && 0 <= k < WriteLength && k != 1 && k != 2 ==>
            |w[i]| == |w[j]| == WriteLength && w[i][k] == w[j][k])
    ensures ModeOf(mode).Some? && ColorsUsed(ModeOf(mode).value) <= |colors|
    ensures var events := SetColor(channel, mode, colors, speed).events;
      events == WarnIfDropped(|colors| - ColorsUsed(ModeOf(mode).value)) +
                WriteEvents(Writes(events)) + [Release]
  {
    SetColorWrites(channel, mode, colors, speed);
    SetColorTrace(channel, mode, colors, speed);
    var w := Writes(SetColor(channel, mode, colors, speed).events);
    var m := ModeOf(mode).value;
    forall i, j, k | 0 <= i < 7 && 0 <= j < 7 && 0 <= k < WriteLength && k != 1 && k != 2
      ensures |w[i]| == |w[j]| == WriteLength && w[i][k] == w[j][k]
    {
      var f := Decode(w[i]).value;
      var g := Decode(w[j]).value;
      EncodeDecode(w[i]);
      EncodeDecode(w[j]);
      HonoursDetermines(f, g, m, colors, Lower(speed));
      EncodeOutsideAddress(f, g);
    }
  }

  /** How many of the supplied colours mode `m` consumes. */
  function ColorsUsed(m: ColorMode): nat {
    if m.takesColor then 1 else 0
  }

  /** Keeping only the colours a mode uses picks the same colour bytes and
      drops nothing; the full list drops the surplus. */
  lemma PickColorPrefix(m: ColorMode, colors: seq<Rgb>)
    requires ColorsUsed(m) <= |colors|
    ensures PickColor(m, colors).Success?
    ensures PickColor(m, colors).value.1 == |colors| - ColorsUsed(m)
    ensures PickColor(m, colors[..ColorsUsed(m)]) == Success((PickColor(m, colors).value.0, 0))
  {
    if m.takesColor {
      assert colors[..1] == [colors[0]];
    } else {
      assert colors[..0] == [];
    }
  }

  /** `SetColorMode` after a successful colour pick: the warning, if any, then
      exactly what `WriteSettings` does. */
  lemma SetColorModeUnfold(m: ColorMode, channel: string, colors: seq<Rgb>, speed: string)
    requires PickColor(m, colors).Success?
    ensures var p := PickColor(m, colors).value;
      var rest := WriteSettings(m, p.0, channel, speed);
      SetColorMode(m, channel, colors, speed) == Transaction(WarnIfDropped(p.1) + rest.events, rest.result)
  {
  }

  /** Surplus colours for an already resolved mode only add a leading warning. */
  lemma SetColorModeExtraColors(m: ColorMode, channel: string, colors: seq<Rgb>, speed: string)
    requires ColorsUsed(m) <= |colors|
    ensures var used := ColorsUsed(m);
      var t := SetColorMode(m, channel, colors, speed);
      var t' := SetColorMode(m, channel, colors[..used], speed);
      && t.result == t'.result
      && t.events == WarnIfDropped(|colors| - used) + t'.events
      && forall i :: 0 <= i < |t'.events| ==> !t'.events[i].Warning?
  {
    var used := ColorsUsed(m);
    PickColorPrefix(m, colors);
    var color := PickColor(m, colors).value.0;
    var rest := WriteSettings(m, color, channel, speed);
    SetColorModeUnfold(m, channel, colors, speed);
    SetColorModeUnfold(m, channel, colors[..used], speed);
    assert WarnIfDropped(0) + rest.events == rest.events;
    assert SetColorMode(m, channel, colors[..used], speed) == rest;
  }

  /** Only the first colour is used: surplus colours change nothing but a
      leading warning that counts them, and the call still succeeds or fails
      exactly as it would without them. */
  lemma ExtraColorsOnlyWarn(channel: string, mode: string, colors: seq<Rgb>, speed: string)
    requires ModeOf(mode).Some?
    requires ColorsUsed(ModeOf(mode).value) <= |colors|
    ensures var used := ColorsUsed(ModeOf(mode).value);
      var t := SetColor(channel, mode, colors, speed);
      var t' := SetColor(channel, mode, colors[..used], speed);
      && t.result == t'.result
      && t.events == (if |colors| > used then [Warning(|colors| - used)] else []) + t'.events
      && forall i :: 0 <= i < |t'.events| ==> !t'.events[i].Warning?
  {
    var m := ModeOf(mode).value;
    var used := ColorsUsed(m);
    SetColorModeExtraColors(m, Lower(channel), colors, Lower(speed));
    var t := SetColorMode(m, Lower(channel), colors, Lower(speed));
    var t' := SetColorMode(m, Lower(channel), colors[..used], Lower(speed));
    assert SetColor(channel, mode, colors, speed) == t;
    assert SetColor(channel, mode, colors[..used], speed) == t';
    if |colors| > used {
      assert t.events == [Warning(|colors| - used)] + t'.events;
    } else {
      assert WarnIfDropped(|colors| - used) == [];
      assert t.events == [] + t'.events;
    }
  }

  /** Mode, channel and speed names are matched without regard to case. */
  lemma SetColorIgnoresCase(channel: string, mode: string, colors: seq<Rgb>, speed: string)
    ensures SetColor(channel, mode, colors, speed) ==
            SetColor(Lower(channel), Lower(mode), colors, Lower(speed))
  {
    LowerIdempotent(channel);
    LowerIdempotent(mode);
    LowerIdempotent(speed);
  }

  /** The name `double-flash` selects the double-flash descriptor. */
  lemma DoubleFlashMode()
    ensures Lookup(ColorModes, "double-flash") == Some(ColorModes[4].1)
    ensures ColorModes[4].1.takesColor && ColorModes[4].1.speedValues == Some(DoubleFlashSpeeds)
  {
    ModeKeysDistinct();
    LookupEntry(ColorModes, 4);
  }

  /** Because of the trailing space in the double-flash table, asking for
      double-flash at speed `slower` fails before any write, whatever the
      channel. */
  lemma DoubleFlashSlowerRejected(channel: string, mode: string, colors: seq<Rgb>, speed: string)
    requires Lower(mode) == "double-flash" && Lower(speed) == "slower" && |colors| > 0
    ensures SetColor(channel, mode, colors, speed).result == Failure(UnknownSpeed)
    ensures Writes(SetColor(channel, mode, colors, speed).events) == []
  {
    DoubleFlashMode();
    DoubleFlashCoverage(Slower);
    var m := ColorModes[4].1;
    assert SpeedBytes(m, Lower(speed)).Failure?;
    var color := PickColor(m, colors).value.0;
    assert WriteSettings(m, color, Lower(channel), Lower(speed)).result == Failure(UnknownSpeed);
    var t := SetColor(channel, mode, colors, speed);
    assert t == SetColorMode(m, Lower(channel), colors, Lower(speed));
    WritesOfNone(t.events);
  }

  // ---------------------------------------------------------------------------
  // reset_all_channels

  /** The reset report for a channel whose first address byte is `addr1`
      reads as a settings report for address (addr1, 0) with every field
      zero: mode code 0, no brightness, no colour, no speed. */
  lemma ResetIsZeroSettings(addr1: byte)
    ensures Decode(Pad([ReportId, addr1, 0])) ==
      Some(Fields(Address(addr1, 0), 0, 0, [0, 0, 0], [0, 0, 0, 0, 0, 0], 0, false, 0))
  {
    var r := Pad([ReportId, addr1, 0]);
    assert r[..3] == [ReportId, addr1, 0];
    assert r[0] == ReportId && r[1] == addr1 && r[2] == 0;
    assert r[ColorOffset..ColorOffset + 3] == [0, 0, 0];
    assert r[SpeedOffset..SpeedOffset + 6] == [0, 0, 0, 0, 0, 0];
  }

  // ---------------------------------------------------------------------------
  // initialize

  /** The name filter distributes over concatenation; with `AsciiOnlyByte`
      this fixes it completely: a mixed name keeps its ASCII bytes, in their
      order, and loses the others. */
  lemma {:induction false} AsciiOnlyAppend(a: seq<byte>, b: seq<byte>)
    ensures AsciiOnly(a + b) == AsciiOnly(a) + AsciiOnly(b)
  {
    if |a| == 0 {
      assert a + b == b;
    } else {
      var head := if a[0] < 128 then [a[0]] else [];
      assert (a + b)[0] == a[0] && (a + b)[1..] == a[1..] + b;
      calc {
        AsciiOnly(a + b);
        { AsciiOnlyFirst(a + b); }
        head + AsciiOnly(a[1..] + b);
        { AsciiOnlyAppend(a[1..], b); }
        head + (AsciiOnly(a[1..]) + AsciiOnly(b));
        (head + AsciiOnly(a[1..])) + AsciiOnly(b);
        { AsciiOnlyFirst(a); }
        AsciiOnly(a) + AsciiOnly(b);
      }
    }
  }

  /** The filter applied to a non-empty name: first byte, then the rest. */
  lemma AsciiOnlyFirst(s: seq<byte>)
    requires |s| > 0
    ensures AsciiOnly(s) == (if s[0] < 128 then [s[0]] else []) + AsciiOnly(s[1..])
  {
  }

  /** One byte survives the name filter exactly when it is ASCII. */
  lemma AsciiOnlyByte(x: byte)
    ensures AsciiOnly([x]) == (if x < 128 then [x] else [])
  {
    assert [x][1..] == [];
  }

  /** `initialize` succeeds exactly when the response starts with the report
      id and status 1 and holds a zero at or after the name offset; on success
      the name is the ASCII bytes up to the first such zero, the firmware
      version is bytes 4 to 7 and the channel count is byte 3. A wrong id or
      status is a handshake failure, whatever follows. */
  lemma InitializeOutcome(response: seq<byte>)
    ensures var t := Initialize(response);
      && (t.result.Success? <==>
            |response| >= 2 && response[0] == ReportId && response[1] == 1 &&
            exists k :: NameOffset <= k < |response| && response[k] == 0)
      && (|response| >= 1 && response[0] != ReportId ==> t.result == Failure(BadHandshake))
      && (|response| >= 2 && response[0] == ReportId && response[1] != 1 ==>
            t.result == Failure(BadHandshake))
      && (t.result.Success? ==>
            exists k :: NameOffset <= k < |response| && response[k] == 0 &&
              (forall j :: NameOffset <= j < k ==> response[j] != 0) &&
              t.result.value == DeviceInfo(AsciiOnly(response[NameOffset..k]), response[4..8], response[3]))
  {
    var t := Initialize(response);
    if |response| >= 2 && response[0] == ReportId && response[1] == 1 {
      var z := FindZero(response, NameOffset);
      if z.Some? {
        assert NameOffset <= z.value < |response| && response[z.value] == 0;
      }
    }
  }

  /** A well-formed handshake response for the given name, firmware version
      and channel count, zero-padded to the read length. */
  function HandshakeResponse(name: seq<byte>, firmware: seq<byte>, channels: byte): (r: seq<byte>)
    requires |firmware| == 4 && |name| < ReadLength - NameOffset
    ensures |r| == ReadLength
  {
    Pad([ReportId, 1, 0, channels] + firmware + [0, 0, 0, 0] + name + [0])
  }

  /** Parsing a well-formed response recovers the name, firmware version and
      channel count it was built from, when the name is ASCII with no zero byte. */
  lemma InitializeRoundTrip(name: seq<byte>, firmware: seq<byte>, channels: byte)
    requires |firmware| == 4 && |name| < ReadLength - NameOffset
    requires forall i :: 0 <= i < |name| ==> 0 < name[i] < 128
    ensures Initialize(HandshakeResponse(name, firmware, channels)).result ==
            Success(DeviceInfo(name, firmware, channels))
  {
    var body := [ReportId, 1, 0, channels] + firmware + [0, 0, 0, 0] + name + [0];
    var r := HandshakeResponse(name, firmware, channels);
    assert r[..|body|] == body;
    assert forall j :: 0 <= j < |body| ==> r[j] == body[j];
    var k := NameOffset + |name|;
    assert r[k] == 0;
    assert forall j :: NameOffset <= j < k ==> r[j] == name[j - NameOffset];
    var z := FindZero(r, NameOffset);
    assert z == Some(k);
    assert r[NameOffset..k] == name;
    assert r[4..8] == firmware;
  }
}
