/** The RGB Fusion 2.0 driver operations, each returning the trace of what it
    does on the device handle (reports written, reports read, warnings logged,
    handle releases) together with its outcome. */
module Driver {
  import opened Wrappers
  import opened Protocol
  import opened Tables
  import opened Settings

  /** One colour as the caller supplies it. */
  datatype Rgb = Rgb(r: byte, g: byte, b: byte)

  /** One observable step of an operation on the device handle. */
  datatype Event =
    | Write(report: seq<byte>)           // a feature report sent to the device
    | Read(reportId: byte, length: nat)  // a feature report requested from the device
    | Release                            // the device handle is given back
    | Warning(dropped: nat)              // extra colours were discarded

  /** Why an operation stopped. */
  datatype Error =
    | UnknownMode       // the mode name is not in the mode table
    | MissingColor      // the mode takes a colour and none was given
    | UnknownSpeed      // the speed name is not in the mode's speed table
    | UnknownChannel    // the channel is neither `sync` nor in the channel table
    | ShortResponse     // the initialization response ends before its status byte
    | BadHandshake      // the initialization response has the wrong id or status
    | UnterminatedName  // no zero byte ends the device name

  /** The events an operation produced, and its outcome. */
  datatype Transaction<T> = Transaction(events: seq<Event>, result: Result<T, Error>)

  /** What the initialization response reports about the controller. */
  datatype DeviceInfo = DeviceInfo(name: seq<byte>, firmware: seq<byte>, channels: byte)

  /** The reports written in a trace, in order. */
  function Writes(events: seq<Event>): (w: seq<seq<byte>>)
    ensures |w| <= |events|
  {
    if |events| == 0 then []
    else (if events[0].Write? then [events[0].report] else []) + Writes(events[1..])
  }

  /** The trace that writes the reports `w`, in order, and does nothing else. */
  function WriteEvents(w: seq<seq<byte>>): (e: seq<Event>)
    ensures |e| == |w|
    ensures forall i :: 0 <= i < |w| ==> e[i] == Write(w[i])
  {
    seq(|w|, i requires 0 <= i < |w| => Write(w[i]))
  }

  /** The default speed name of `set_color`. */
  const DefaultSpeed: string := "normal"

  /** Restriction of `v` to the interval [lo, hi], assuming the usual
      min(max(v, lo), hi) meaning of the utility the driver calls. */
  function Clamp(v: int, lo: int, hi: int): (r: int)
    requires lo <= hi
    ensures lo <= r <= hi
    ensures lo <= v <= hi ==> r == v
    ensures v < lo ==> r == lo
    ensures v > hi ==> r == hi
  {
    if v < lo then lo else if v > hi then hi else v
  }

  /** The brightness written for mode `m`: the requested full brightness of
      100, capped by the mode. */
  function Brightness(m: ColorMode): (b: byte)
    ensures b <= m.maxBrightness
    ensures m.maxBrightness <= 100 ==> b == m.maxBrightness
    ensures m.maxBrightness >= 100 ==> b == 100
  {
    Clamp(100, 0, m.maxBrightness)
  }

  /** The colour bytes for mode `m` and how many supplied colours go unused. */
  function PickColor(m: ColorMode, colors: seq<Rgb>): (r: Result<(Triple, nat), Error>)
    ensures r.Failure? <==> m.takesColor && |colors| == 0
    ensures r.Failure? ==> r.error == MissingColor
    ensures r.Success? && m.takesColor ==>
      r.value == ([colors[0].b, colors[0].g, colors[0].r], |colors| - 1)
    ensures r.Success? && !m.takesColor ==> r.value == ([0, 0, 0], |colors|)
  {
    if m.takesColor then
      if |colors| == 0 then Failure(MissingColor)
      else
        var c := colors[0];
        Success(([c.b, c.g, c.r], |colors| - 1))
    else Success(([0, 0, 0], |colors|))
  }

  /** The warning logged when `dropped` colours are discarded, if any are. */
  function WarnIfDropped(dropped: nat): (w: seq<Event>)
    ensures |w| <= 1
    ensures |w| == 1 <==> dropped > 0
    ensures forall i :: 0 <= i < |w| ==> w[i] == Warning(dropped)
  {
    if dropped > 0 then [Warning(dropped)] else []
  }

  /** The timing bytes for mode `m` at the (already lower-cased) speed name;
      modes without a speed table ignore the name and send zeros. */
  function SpeedBytes(m: ColorMode, speed: string): (r: Result<Sextet, Error>)
    ensures r.Failure? ==> r.error == UnknownSpeed
    ensures r.Failure? <==>
      m.speedValues.Some? && |m.speedValues.value| > 0 && Lookup(m.speedValues.value, speed).None?
  {
    if m.speedValues.Some? && |m.speedValues.value| > 0 then
      match Lookup(m.speedValues.value, speed)
      case None => Failure(UnknownSpeed)
      case Some(s) => Success(s)
    else Success(Zeros(6))
  }

  /** The addresses a (lower-cased) channel name selects: every channel, in
      table order, for `sync`; otherwise that channel's own address. */
  function SelectChannels(channel: string): (r: Result<seq<Address>, Error>)
    ensures r.Failure? ==> r.error == UnknownChannel
    ensures r.Failure? <==> channel != "sync" && Lookup(ColorChannels, channel).None?
    ensures r.Success? && channel != "sync" ==> r.value == [Lookup(ColorChannels, channel).value]
    ensures r.Success? && channel == "sync" ==>
      |r.value| == |ColorChannels| &&
      forall i :: 0 <= i < |ColorChannels| ==> r.value[i] == ColorChannels[i].1
  {
    if channel == "sync" then Success(seq(|ColorChannels|, i requires 0 <= i < |ColorChannels| => ColorChannels[i].1))
    else match Lookup(ColorChannels, channel)
      case None => Failure(UnknownChannel)
      case Some(a) => Success([a])
  }

  /** One padded write per address, in order, each carrying `data` with its
      address bytes overwritten in place for that channel. */
  function WriteEach(data: seq<byte>, addrs: seq<Address>): (w: seq<Event>)
    requires |data| >= 3
    ensures |w| == |addrs|
    ensures forall i :: 0 <= i < |addrs| ==> w[i] == Write(Pad(WithAddress(data, addrs[i])))
    decreases |addrs|
  {
    if |addrs| == 0 then []
    else
      var d := WithAddress(data, addrs[0]);
      assert forall a :: WithAddress(d, a) == WithAddress(data, a);
      [Write(Pad(d))] + WriteEach(d, addrs[1..])
  }

  /** The part of `set_color` after the colour is chosen: look up the speed,
      build the settings report, write it to every channel `channel` selects,
      then write the execute report and release the handle. `channel` and
      `speed` are already lower-cased. Every failure comes before the first
      write. */
  function WriteSettings(m: ColorMode, color: Triple, channel: string, speed: string): (t: Transaction<()>)
    ensures t.result.Failure? ==> t.events == []
    ensures forall i :: 0 <= i < |t.events| ==> !t.events[i].Warning?
    ensures t.result.Success? ==>
      |t.events| >= 2 && t.events[|t.events| - 1] == Release &&
      t.events[|t.events| - 2] == Write(Pad(ExecuteReport)) &&
      forall i :: 0 <= i < |t.events| - 1 ==> t.events[i].Write?
    ensures forall i :: 0 <= i < |t.events| && t.events[i].Write? ==>
      |t.events[i].report| == WriteLength
  {
    match SpeedBytes(m, speed)
    case Failure(e) => Transaction([], Failure(e))
    case Success(sextet) =>
      var data := SettingsData(m.value, Brightness(m), color, sextet,
                               m.cycleCount, m.pulses, m.flashCount);
      match SelectChannels(channel)
      case Failure(e) => Transaction([], Failure(e))
      case Success(addrs) =>
        Transaction(WriteEach(data, addrs) + [Write(Pad(ExecuteReport)), Release], Success(()))
  }

  /** Warnings in front of a trace leave its writes and its last two events
      where they were, counted from the end. */
  lemma WarningsFirst(warn: seq<Event>, rest: seq<Event>)
    requires forall i :: 0 <= i < |warn| ==> warn[i].Warning?
    ensures rest == [] ==> warn + rest == warn
    ensures forall i :: 0 <= i < |warn + rest| && (warn + rest)[i].Write? ==>
      |warn| <= i && (warn + rest)[i] == rest[i - |warn|]
    ensures |rest| >= 2 ==>
      (warn + rest)[|warn + rest| - 1] == rest[|rest| - 1] &&
      (warn + rest)[|warn + rest| - 2] == rest[|rest| - 2]
  {
  }

  /** `set_color` once the mode name has resolved to `m`: pick the colour, log
      how many supplied colours go unused, then write the settings. */
  function SetColorMode(m: ColorMode, channel: string, colors: seq<Rgb>, speed: string): (t: Transaction<()>)
    ensures t.result.Failure? ==> forall i :: 0 <= i < |t.events| ==> t.events[i].Warning?
    ensures t.result.Success? ==>
      |t.events| >= 2 && t.events[|t.events| - 1] == Release &&
      t.events[|t.events| - 2] == Write(Pad(ExecuteReport))
    ensures forall i :: 0 <= i < |t.events| && t.events[i].Write? ==>
      |t.events[i].report| == WriteLength
  {
    match PickColor(m, colors)
    case Failure(e) => Transaction([], Failure(e))
    case Success((color, dropped)) =>
      var rest := WriteSettings(m, color, channel, speed);
      var warn := WarnIfDropped(dropped);
      WarningsFirst(warn, rest.events);
      Transaction(warn + rest.events, rest.result)
  }

  /** `set_color`: resolve the lower-cased mode name, then proceed as
      `SetColorMode` with the lower-cased channel and speed names. An unknown
      mode fails before anything else happens. */
  function SetColor(channel: string, mode: string, colors: seq<Rgb>, speed: string): (t: Transaction<()>)
    ensures t.result.Failure? ==> forall i :: 0 <= i < |t.events| ==> t.events[i].Warning?
    ensures t.result.Success? ==>
      |t.events| >= 2 && t.events[|t.events| - 1] == Release &&
      t.events[|t.events| - 2] == Write(Pad(ExecuteReport))
    ensures forall i :: 0 <= i < |t.events| && t.events[i].Write? ==>
      |t.events[i].report| == WriteLength
  {
    match Lookup(ColorModes, Lower(mode))
    case None => Transaction([], Failure(UnknownMode))
    case Some(m) => SetColorMode(m, Lower(channel), colors, Lower(speed))
  }

  /** The minimal report that resets each channel, keyed on its first address
      byte only. */
  function ResetWrites(channels: seq<(string, Address)>): (w: seq<Event>)
    ensures |w| == |channels|
    ensures forall i :: 0 <= i < |channels| ==>
      w[i] == Write(Pad([ReportId, channels[i].1.addr1, 0]))
    ensures forall i, j :: 0 <= i < |channels| && 0 <= j < WriteLength ==>
      |w[i].report| == WriteLength &&
      w[i].report[j] == (if j == 0 then ReportId else if j == 1 then channels[i].1.addr1 else 0)
  {
    if |channels| == 0 then []
    else [Write(Pad([ReportId, channels[0].1.addr1, 0]))] + ResetWrites(channels[1..])
  }

  /** `reset_all_channels`: one reset report per channel in table order, then
      the execute report. The handle is not released. */
  function ResetAllChannels(): (events: seq<Event>)
    ensures |events| == |ColorChannels| + 1
    ensures forall i :: 0 <= i < |ColorChannels| ==>
      events[i] == Write(Pad([ReportId, ColorChannels[i].1.addr1, 0]))
    ensures events[|ColorChannels|] == Write(Pad(ExecuteReport))
  {
    ResetWrites(ColorChannels) + [Write(Pad(ExecuteReport))]
  }

  /** The first index at or after `from` holding a zero byte. */
  function FindZero(data: seq<byte>, from: nat): (k: Option<nat>)
    ensures k.Some? ==> from <= k.value < |data| && data[k.value] == 0
    ensures k.Some? ==> forall j :: from <= j < k.value ==> data[j] != 0
    ensures k.None? ==> forall j :: from <= j < |data| ==> data[j] != 0
    decreases |data| - from
  {
    if from >= |data| then None
    else if data[from] == 0 then Some(from)
    else FindZero(data, from + 1)
  }

  /** The bytes of `s` that are ASCII, in order: decoding with errors ignored
      drops every byte of 128 or more. */
  function AsciiOnly(s: seq<byte>): (r: seq<byte>)
    ensures |r| <= |s|
    ensures forall i :: 0 <= i < |r| ==> r[i] < 128
    ensures (forall i :: 0 <= i < |s| ==> s[i] < 128) ==> r == s
    ensures (forall i :: 0 <= i < |s| ==> s[i] >= 128) ==> r == []
  {
    if |s| == 0 then []
    else (if s[0] < 128 then [s[0]] else []) + AsciiOnly(s[1..])
  }

  /** Offset of the device name in the initialization response. */
  const NameOffset: nat := 12

  /** `initialize`: send the init request, read the response and release the
      handle, then validate and parse `response`, the bytes the read returned. */
  function Initialize(response: seq<byte>): (t: Transaction<DeviceInfo>)
    ensures t.events == [Write(Pad(InitReport)), Read(ReportId, ReadLength), Release]
  {
    var events := [Write(Pad(InitReport)), Read(ReportId, ReadLength), Release];
    if |response| == 0 then Transaction(events, Failure(ShortResponse))
    else if response[0] != ReportId then Transaction(events, Failure(BadHandshake))
    else if |response| == 1 then Transaction(events, Failure(ShortResponse))
    else if response[1] != 0x01 then Transaction(events, Failure(BadHandshake))
    else match FindZero(response, NameOffset)
      case None => Transaction(events, Failure(UnterminatedName))
      case Some(k) =>
        Transaction(events, Success(DeviceInfo(AsciiOnly(response[NameOffset..k]), response[4..8], response[3])))
  }
}
