/** Layout of the settings report that carries one channel's lighting
    configuration: the builder that assembles it in the driver's append order,
    the per-channel address overwrite, and an independent decoder that reads
    the fields back from their offsets. */
module Settings {
  import opened Wrappers
  import opened Protocol
  import opened Tables

  /** Three colour bytes, in the order they are placed on the wire. */
  type Triple = s: seq<byte> | |s| == 3 witness [0, 0, 0]

  const AddressOffset: nat := 1
  const ModeOffset: nat := 11
  const BrightnessOffset: nat := 12
  const ColorOffset: nat := 14
  const SpeedOffset: nat := 22
  const CycleOffset: nat := 30
  const PulseOffset: nat := 31
  const FlashOffset: nat := 32
  /** Length of the settings report before padding. */
  const SettingsLength: nat := 33

  /** Offsets of a padded settings report that never carry a field and are
      always zero. */
  predicate Reserved(i: int) {
    (3 <= i < ModeOffset) || i == BrightnessOffset + 1 ||
    (ColorOffset + 3 <= i < SpeedOffset) || (SpeedOffset + 6 <= i < CycleOffset) ||
    SettingsLength <= i
  }

  /** The settings report for the given fields, before an address is filled in
      and before padding, built by appending the pieces in the driver's order. */
  function SettingsData(code: byte, brightness: byte, color: Triple, speed: Sextet,
                        cycleCount: byte, pulses: bool, flashCount: byte): (r: seq<byte>)
    ensures |r| == SettingsLength
    ensures r[0] == ReportId && r[1] == 0 && r[2] == 0
    ensures r[ModeOffset] == code && r[BrightnessOffset] == brightness
    ensures r[ColorOffset..ColorOffset + 3] == color
    ensures r[SpeedOffset..SpeedOffset + 6] == speed
    ensures r[CycleOffset] == cycleCount
    ensures r[PulseOffset] == (if pulses then 1 else 0)
    ensures r[FlashOffset] == flashCount
    ensures forall i :: 0 <= i < SettingsLength && Reserved(i) ==> r[i] == 0
  {
    [ReportId, 0, 0, 0, 0, 0, 0, 0, 0, 0, 0, code, brightness, 0]
      + color
      + [0, 0, 0, 0, 0]
      + speed
      + [0, 0, cycleCount, if pulses then 1 else 0, flashCount]
  }

  /** `data` with its address bytes replaced by `a`, as the per-channel slice
      assignment does. */
  function WithAddress(data: seq<byte>, a: Address): (r: seq<byte>)
    requires |data| >= 3
    ensures |r| == |data|
    ensures r[1] == a.addr1 && r[2] == a.addr2
    ensures forall i :: 0 <= i < |data| && i != 1 && i != 2 ==> r[i] == data[i]
  {
    data[1 := a.addr1][2 := a.addr2]
  }

  /** The fields a settings report carries. */
  datatype Fields = Fields(
    address: Address,
    code: byte,
    brightness: byte,
    color: Triple,
    speed: Sextet,
    cycleCount: byte,
    pulses: bool,
    flashCount: byte)

  /** The padded settings report for `f`, as written to the transport. */
  function Encode(f: Fields): seq<byte> {
    Pad(WithAddress(
      SettingsData(f.code, f.brightness, f.color, f.speed, f.cycleCount, f.pulses, f.flashCount),
      f.address))
  }

  /** Reads the fields of a written settings report back from their offsets;
      `None` when `r` is not a well-formed padded settings report. */
  function Decode(r: seq<byte>): (f: Option<Fields>)
    ensures f.Some? ==> |r| == WriteLength && r[0] == ReportId
  {
    if |r| != WriteLength || r[0] != ReportId || r[PulseOffset] > 1 then None
    else if exists i :: 0 <= i < |r| && Reserved(i) && r[i] != 0 then None
    else Some(Fields(
      Address(r[AddressOffset], r[AddressOffset + 1]),
      r[ModeOffset],
      r[BrightnessOffset],
      r[ColorOffset..ColorOffset + 3],
      r[SpeedOffset..SpeedOffset + 6],
      r[CycleOffset],
      r[PulseOffset] == 1,
      r[FlashOffset]))
  }

  /** Every written settings report decodes to the fields it was built from. */
  lemma DecodeEncode(f: Fields)
    ensures Decode(Encode(f)) == Some(f)
  {
    var d := SettingsData(f.code, f.brightness, f.color, f.speed, f.cycleCount, f.pulses, f.flashCount);
    var w := WithAddress(d, f.address);
    var r := Encode(f);
    assert r[..SettingsLength] == w;
    assert forall i :: 0 <= i < SettingsLength ==> r[i] == w[i];
    assert r[ColorOffset..ColorOffset + 3] == d[ColorOffset..ColorOffset + 3];
    assert r[SpeedOffset..SpeedOffset + 6] == d[SpeedOffset..SpeedOffset + 6];
  }

  /** A report that decodes is exactly the encoding of what it decodes to, so
      the layout leaves no byte unaccounted for. */
  lemma EncodeDecode(r: seq<byte>)
    requires Decode(r).Some?
    ensures Encode(Decode(r).value) == r
  {
    var f := Decode(r).value;
    var d := SettingsData(f.code, f.brightness, f.color, f.speed, f.cycleCount, f.pulses, f.flashCount);
    var w := WithAddress(d, f.address);
    forall i | 0 <= i < SettingsLength
      ensures w[i] == r[i]
    {
      if ColorOffset <= i < ColorOffset + 3 {
        assert w[i] == d[ColorOffset..ColorOffset + 3][i - ColorOffset];
      } else if SpeedOffset <= i < SpeedOffset + 6 {
        assert w[i] == d[SpeedOffset..SpeedOffset + 6][i - SpeedOffset];
      }
    }
    assert r[..SettingsLength] == w;
    PadUnique(w, r);
  }
}
