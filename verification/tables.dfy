/** The driver's static lookup tables: channel addresses, per-family speed
    timings and colour-mode descriptors, each reproduced literally as an
    association list in definition order, and the name lookup over them. */
module Tables {
  import opened Wrappers
  import opened Protocol

  /** The pair of bytes that selects one lighting channel on the controller. */
  datatype Address = Address(addr1: byte, addr2: byte)

  /** Six timing bytes sent for a speed tier. */
  type Sextet = s: seq<byte> | |s| == 6 witness [0, 0, 0, 0, 0, 0]

  /** Speed name to timing bytes, for one mode family. */
  type SpeedTable = seq<(string, Sextet)>

  /** Descriptor of a colour mode: the mode code, whether it pulses, how many
      flashes and colour-cycle steps it uses, its brightness cap, whether it
      consumes a colour, and the speed table of its family, if any. */
  datatype ColorMode = ColorMode(
    value: byte,
    pulses: bool,
    flashCount: byte,
    cycleCount: byte,
    maxBrightness: byte,
    takesColor: bool,
    speedValues: Option<SpeedTable>)

  /** The seven lighting channels; `sync` is not an entry but stands for all of
      them in this order. */
  const ColorChannels: seq<(string, Address)> := [
    ("led1", Address(0x20, 0x01)),
    ("led2", Address(0x21, 0x02)),
    ("led3", Address(0x22, 0x04)),
    ("led4", Address(0x23, 0x08)),
    ("led5", Address(0x24, 0x10)),
    ("led6", Address(0x25, 0x20)),
    ("led7", Address(0x26, 0x40))
  ]

  const PulseSpeeds: SpeedTable := [
    ("slowest",   [0x40, 0x06, 0x40, 0x06, 0x20, 0x03]),
    ("slower",    [0x78, 0x05, 0x78, 0x05, 0xbc, 0x02]),
    ("normal",    [0xb0, 0x04, 0xb0, 0x04, 0xf4, 0x01]),
    ("faster",    [0xe8, 0x03, 0xe8, 0x03, 0xf4, 0x01]),
    ("fastest",   [0x84, 0x03, 0x84, 0x03, 0xc2, 0x01]),
    ("ludicrous", [0x20, 0x03, 0x20, 0x03, 0x90, 0x01])
  ]

  const FlashSpeeds: SpeedTable := [
    ("slowest",   [0x64, 0x00, 0x64, 0x00, 0x60, 0x09]),
    ("slower",    [0x64, 0x00, 0x64, 0x00, 0x90, 0x08]),
    ("normal",    [0x64, 0x00, 0x64, 0x00, 0xd0, 0x07]),
    ("faster",    [0x64, 0x00, 0x64, 0x00, 0x08, 0x07]),
    ("fastest",   [0x64, 0x00, 0x64, 0x00, 0x40, 0x06]),
    ("ludicrous", [0x64, 0x00, 0x64, 0x00, 0x78, 0x05])
  ]

  /** Note the second key: it carries a trailing space, so the name `slower`
      is not in this table. */
  const DoubleFlashSpeeds: SpeedTable := [
    ("slowest",   [0x64, 0x00, 0x64, 0x00, 0x28, 0x0a]),
    ("slower ",   [0x64, 0x00, 0x64, 0x00, 0x60, 0x09]),
    ("normal",    [0x64, 0x00, 0x64, 0x00, 0x90, 0x08]),
    ("faster",    [0x64, 0x00, 0x64, 0x00, 0xd0, 0x07]),
    ("fastest",   [0x64, 0x00, 0x64, 0x00, 0x08, 0x07]),
    ("ludicrous", [0x64, 0x00, 0x64, 0x00, 0x40, 0x06])
  ]

  const ColorCycleSpeeds: SpeedTable := [
    ("slowest",   [0x78, 0x05, 0xb0, 0x04, 0x00, 0x00]),
    ("slower",    [0x7e, 0x04, 0x1a, 0x04, 0x00, 0x00]),
    ("normal",    [0x52, 0x03, 0xee, 0x02, 0x00, 0x00]),
    ("faster",    [0xf8, 0x02, 0x94, 0x02, 0x00, 0x00]),
    ("fastest",   [0x26, 0x02, 0xc2, 0x01, 0x00, 0x00]),
    ("ludicrous", [0xcc, 0x01, 0x68, 0x01, 0x00, 0x00])
  ]

  /** The six colour modes, keyed by name. */
  const ColorModes: seq<(string, ColorMode)> := [
    ("off",          ColorMode(0x01, false, 0, 0, 0,   false, None)),
    ("static",       ColorMode(0x01, false, 0, 0, 90,  true,  None)),
    ("pulse",        ColorMode(0x02, true,  0, 0, 90,  true,  Some(PulseSpeeds))),
    ("flash",        ColorMode(0x03, true,  1, 0, 100, true,  Some(FlashSpeeds))),
    ("double-flash", ColorMode(0x03, true,  2, 0, 100, true,  Some(DoubleFlashSpeeds))),
    ("color-cycle",  ColorMode(0x04, false, 0, 7, 100, false, Some(ColorCycleSpeeds)))
  ]

  /** Dictionary lookup over an association list: the value of the first entry
      whose key is `key`, or `None` when no entry has that key. */
  function Lookup<V>(table: seq<(string, V)>, key: string): (r: Option<V>)
    ensures r.Some? <==> exists i :: 0 <= i < |table| && table[i].0 == key
    ensures r.Some? ==>
      exists i :: 0 <= i < |table| && table[i] == (key, r.value) &&
        forall j :: 0 <= j < i ==> table[j].0 != key
  {
    if |table| == 0 then None
    else if table[0].0 == key then Some(table[0].1)
    else
      var r := Lookup(table[1..], key);
      assert forall i :: 1 <= i < |table| ==> table[i] == table[1..][i - 1];
      r
  }

  /** The six speed tiers the driver documents. */
  datatype Tier = Slowest | Slower | Normal | Faster | Fastest | Ludicrous

  /** The name a caller passes to request a tier. */
  function TierName(t: Tier): string {
    match t
    case Slowest => "slowest"
    case Slower => "slower"
    case Normal => "normal"
    case Faster => "faster"
    case Fastest => "fastest"
    case Ludicrous => "ludicrous"
  }

  /** ASCII lower-casing of one character. */
  function LowerChar(c: char): (d: char)
    ensures !('A' <= d <= 'Z')
    ensures !('A' <= c <= 'Z') ==> d == c
    ensures 'A' <= c <= 'Z' ==> d as int - c as int == 'a' as int - 'A' as int
  {
    if 'A' <= c <= 'Z' then (c as int - 'A' as int + 'a' as int) as char else c
  }

  /** Lower-casing of a name before it is looked up. */
  function Lower(s: string): (r: string)
    ensures |r| == |s|
    ensures forall i :: 0 <= i < |s| ==> r[i] == LowerChar(s[i])
  {
    seq(|s|, i requires 0 <= i < |s| => LowerChar(s[i]))
  }

  /** A name without upper-case ASCII letters is its own lower-casing. */
  lemma LowerOfLowercase(s: string)
    requires forall i :: 0 <= i < |s| ==> !('A' <= s[i] <= 'Z')
    ensures Lower(s) == s
  {
  }

  /** Lower-casing twice is lower-casing once, so a name and its lower-cased
      form select the same table entry. */
  lemma LowerIdempotent(s: string)
    ensures Lower(Lower(s)) == Lower(s)
  {
    LowerOfLowercase(Lower(s));
  }

  /** Every speed table that a mode carries is non-empty, so having a table
      and having a truthy table coincide. */
  lemma ModeSpeedTablesNonEmpty()
    ensures forall i :: 0 <= i < |ColorModes| && ColorModes[i].1.speedValues.Some? ==>
      |ColorModes[i].1.speedValues.value| == 6
  {
  }

  /** Position of tier `t` in a speed table. */
  function TierIndex(t: Tier): (k: nat)
    ensures k < 6
  {
    match t
    case Slowest => 0 case Slower => 1 case Normal => 2
    case Faster => 3 case Fastest => 4 case Ludicrous => 5
  }

  /** The pulse table answers every documented tier. */
  lemma PulseCoverage(t: Tier)
    ensures Lookup(PulseSpeeds, TierName(t)).Some?
  {
    assert PulseSpeeds[TierIndex(t)].0 == TierName(t);
  }

  /** The flash table answers every documented tier. */
  lemma FlashCoverage(t: Tier)
    ensures Lookup(FlashSpeeds, TierName(t)).Some?
  {
    assert FlashSpeeds[TierIndex(t)].0 == TierName(t);
  }

  /** The colour-cycle table answers every documented tier. */
  lemma ColorCycleCoverage(t: Tier)
    ensures Lookup(ColorCycleSpeeds, TierName(t)).Some?
  {
    assert ColorCycleSpeeds[TierIndex(t)].0 == TierName(t);
  }

  /** The double-flash table answers every documented tier except `slower`,
      whose key there carries a trailing space. */
  lemma DoubleFlashCoverage(t: Tier)
    ensures Lookup(DoubleFlashSpeeds, TierName(t)).Some? <==> t != Slower
  {
    if t == Slower {
      forall i | 0 <= i < |DoubleFlashSpeeds|
        ensures DoubleFlashSpeeds[i].0 != "slower"
      {
        assert |DoubleFlashSpeeds[i].0| != 6 || DoubleFlashSpeeds[i].0[3] != 'w';
      }
    } else {
      assert DoubleFlashSpeeds[TierIndex(t)].0 == TierName(t);
    }
  }
}
