# RGB Fusion 2.0 lighting driver — a Dafny model

This project models the protocol logic of liquidctl's driver for Gigabyte
RGB Fusion 2.0 USB HID lighting controllers (`liquidctl/driver/rgb_fusion2.py`):

- the static tables: channel name to address pair, mode name to mode
  descriptor, and the four per-family speed tables (`tables.dfy`);
- the settings report that `set_color` builds, its byte layout, and an
  independent decoder that reads the fields back (`settings.dfy`);
- `set_color`, `reset_all_channels` and `initialize` as pure functions that
  return the trace of device events (reports written, report read, warning
  logged, handle released) together with a success value or an error
  (`driver.dfy`);
- the zero padding of every written report to 64 bytes (`protocol.dfy`);
- the properties of these operations (`properties.dfy`).

The device transport is not modelled: a write is a `Write(report)` event, a
read is a `Read(reportId, length)` event whose answer is a parameter of
`Initialize`, and releasing the handle is a `Release` event. The
"too many colors" log message is a `Warning(dropped)` event, placed in the
trace where the driver logs it. Exceptions become `Error` values: a failed
dictionary lookup of the mode, speed or channel is `UnknownMode`,
`UnknownSpeed` or `UnknownChannel`; the `ValueError` for a missing colour is
`MissingColor`; in `initialize`, an index past the end of the response is
`ShortResponse`, the failed assertion on the report id or status is
`BadHandshake`, and the missing name terminator is `UnterminatedName`.

The settings report is 33 bytes before padding. Counted from the list
literal that builds it, the colour sits at offsets 14–16, the speed at 22–27
and the cycle count, pulse flag and flash count at 30, 31 and 32.

Where the code and its documentation differ, the model follows the code:

- The `set_color` docstring calls the colour triples `[red, blue, green]`,
  but the code unpacks them as `r, g, b` and writes them in the order
  (b, g, r). The docstring also lists a speed `slow`, but the key is
  `slower`.
- Extra colours are not rejected. They are counted, logged and ignored.
- `initialize` releases the device before it validates the response, so
  the release happens on the failure paths too.
- `set_color` releases the device only on success: every failure is raised
  before the release at the end, so a failed trace holds no `Release`.
- The double-flash speed table's second key is `'slower '`, with a trailing
  space. The table is reproduced as written, so double-flash at speed
  `slower` fails with `UnknownSpeed`. `DoubleFlashCoverage` and
  `DoubleFlashSlowerRejected` state this.
- Failures are raised in the code's order: mode, then missing colour, then
  the warning is logged, then speed, then channel. An unknown speed or
  channel can therefore follow a logged warning, but never a write.

## Model

| member | source | states |
|---|---|---|
| Protocol.Pad | liquidctl/driver/rgb_fusion2.py:279-281 | a written report of at most 64 bytes becomes exactly 64 bytes: its input followed by zeros; a longer one goes out unchanged |
| Protocol.PadUnique | liquidctl/driver/rgb_fusion2.py:279-281 | any 64-byte report that starts with the input and is zero afterwards equals the padded input |
| Tables.Lookup | liquidctl/driver/rgb_fusion2.py:260-263 | a dictionary lookup hits exactly when some entry has the key, and then yields the value of the first such entry |
| Tables.LowerChar | liquidctl/driver/rgb_fusion2.py:232-235 | A–Z become a–z, every other character is unchanged, and no upper-case ASCII letter remains |
| Tables.Lower | liquidctl/driver/rgb_fusion2.py:232-235 | each character is lower-cased on its own and the length is kept |
| Tables.LowerIdempotent | liquidctl/driver/rgb_fusion2.py:232-235 | lower-casing an already lower-cased name changes nothing |
| Tables.PulseCoverage | liquidctl/driver/rgb_fusion2.py:95-102 | the pulse table has an entry for each of the six documented tiers |
| Tables.FlashCoverage | liquidctl/driver/rgb_fusion2.py:104-111 | the flash table has an entry for each of the six documented tiers |
| Tables.DoubleFlashCoverage | liquidctl/driver/rgb_fusion2.py:113-120 | the double-flash table has an entry for a tier iff the tier is not `slower` |
| Tables.ColorCycleCoverage | liquidctl/driver/rgb_fusion2.py:122-129 | the colour-cycle table has an entry for each of the six documented tiers |
| Settings.SettingsData | liquidctl/driver/rgb_fusion2.py:250-258 | the report is 33 bytes: 0xCC at 0, mode code at 11, brightness at 12, colour at 14–16, speed at 22–27, cycle count, pulse flag and flash count at 30–32, zero elsewhere |
| Settings.WithAddress | liquidctl/driver/rgb_fusion2.py:264-265 | bytes 1 and 2 take the channel's address pair and no other byte changes |
| Settings.DecodeEncode | liquidctl/driver/rgb_fusion2.py:250-266 | every padded settings report decodes, by offset, to exactly the fields it was built from |
| Settings.EncodeDecode | liquidctl/driver/rgb_fusion2.py:250-266 | a report that decodes equals the encoding of its decoded fields: the layout accounts for every byte |
| Driver.Clamp | liquidctl/driver/rgb_fusion2.py:249 | the result lies in [lo, hi], equals the value when inside, and equals the nearer bound otherwise |
| Driver.Brightness | liquidctl/driver/rgb_fusion2.py:249 | the brightness never exceeds the mode's cap; it equals the cap when the cap is at most 100, and 100 otherwise |
| Driver.PickColor | liquidctl/driver/rgb_fusion2.py:237-245 | a colour-taking mode fails with `MissingColor` iff no colour is given; otherwise the colour bytes are the first colour as (b, g, r) and the rest are counted as dropped; other modes get (0, 0, 0) and drop every colour |
| Driver.WarnIfDropped | liquidctl/driver/rgb_fusion2.py:245-247 | a single warning carrying the count is logged iff the count is positive |
| Driver.SpeedBytes | liquidctl/driver/rgb_fusion2.py:254-257 | the speed fails with `UnknownSpeed` iff the mode has a non-empty speed table that lacks the name, and with no other error |
| Properties.SpeedBytesValue | liquidctl/driver/rgb_fusion2.py:254-257 | a successful speed lookup yields the table's entry for the name when the mode has a non-empty speed table, and six zeros otherwise |
| Driver.SelectChannels | liquidctl/driver/rgb_fusion2.py:260-263 | `sync` selects all seven addresses in table order; another name selects its own address, or fails with `UnknownChannel` when it is not in the table |
| Driver.WriteEach | liquidctl/driver/rgb_fusion2.py:264-266 | one padded write per selected address, in order, each the shared report with that address in bytes 1–2 |
| Driver.WriteSettings | liquidctl/driver/rgb_fusion2.py:249-268 | a failure writes nothing; a success writes only reports, all 64 bytes long, ending with the execute report and then a release |
| Driver.SetColorMode | liquidctl/driver/rgb_fusion2.py:237-268 | a failure leaves only warnings in the trace; a success ends with the execute report then a release; every write is 64 bytes |
| Driver.SetColor | liquidctl/driver/rgb_fusion2.py:232-268 | the same three guarantees, for the call by mode, channel and speed names |
| Driver.ResetWrites | liquidctl/driver/rgb_fusion2.py:272-273 | the i-th write is 64 bytes: 0xCC, the first address byte of channel i, then zeros; the second address byte is never sent |
| Driver.ResetAllChannels | liquidctl/driver/rgb_fusion2.py:270-274 | eight writes and nothing else, so no release: for each channel in table order, [0xCC, its first address byte, 0] padded, then the padded execute report |
| Driver.FindZero | liquidctl/driver/rgb_fusion2.py:187 | the result is the first index at or after the start holding zero; no result means no zero there |
| Driver.AsciiOnly | liquidctl/driver/rgb_fusion2.py:188 | only bytes below 128 remain; an all-ASCII name is kept whole and an all-non-ASCII one becomes empty |
| Properties.AsciiOnlyAppend | liquidctl/driver/rgb_fusion2.py:188 | the name filter distributes over concatenation, so each byte is kept or dropped on its own and the kept bytes stay in order |
| Properties.AsciiOnlyByte | liquidctl/driver/rgb_fusion2.py:188 | a single byte is kept iff it is below 128; with the previous row this determines the filter on every name, mixed ones included |
| Driver.Initialize | liquidctl/driver/rgb_fusion2.py:182-184 | whatever the response, the trace is the padded init request, one 64-byte read of report 0xCC, then a release |
| Properties.SetColorOutcome | liquidctl/driver/rgb_fusion2.py:232-263 | `set_color` succeeds iff the mode is known, a colour is given when the mode takes one, the speed is known when the mode has speeds, and the channel is known; the error is the first failing check, and unknown-mode and missing-colour failures leave an empty trace |
| Properties.SetColorWrites | liquidctl/driver/rgb_fusion2.py:249-268 | on success, one settings report per selected channel in order, each decoding to its channel's address and the mode code, capped brightness, (b, g, r) colour or zeros, table speed or zeros, and trailer the tables prescribe, then the execute report |
| Properties.SetColorTrace | liquidctl/driver/rgb_fusion2.py:237-268 | a successful call's trace is exactly the warning for surplus colours, if any, then its writes, then one release: no read and no other release |
| Properties.SetColorNamedChannel | liquidctl/driver/rgb_fusion2.py:260-268 | a named channel's trace is exactly the surplus-colour warning, if any, then its settings report, then the execute report, then one release |
| Properties.SetColorSync | liquidctl/driver/rgb_fusion2.py:260-268 | `sync`'s trace is exactly the surplus-colour warning, if any, then eight writes, then one release; the writes are seven settings reports addressed led1 to led7 in order, identical outside bytes 1–2, then the execute report |
| Properties.DefaultSpeedKnown | liquidctl/driver/rgb_fusion2.py:206 | the default speed `normal` is in every speed table a mode uses, so a call at the default speed never fails with `UnknownSpeed` |
| Properties.ExtraColorsOnlyWarn | liquidctl/driver/rgb_fusion2.py:237-247 | surplus colours change neither the outcome nor any write; they only add a leading warning that counts them |
| Properties.SetColorIgnoresCase | liquidctl/driver/rgb_fusion2.py:232-235 | calling with names in any letter case behaves exactly like calling with their lower-cased forms |
| Properties.DoubleFlashSlowerRejected | liquidctl/driver/rgb_fusion2.py:113-120 | double-flash at speed `slower`, with a colour given, fails with `UnknownSpeed` on every channel and writes nothing |
| Properties.ChannelNames | liquidctl/driver/rgb_fusion2.py:84-92 | the channel table, reproduced literally, has seven entries and entry i is named `led<i+1>` |
| Properties.ChannelAddresses | liquidctl/driver/rgb_fusion2.py:84-92 | the first address byte of channel i is 0x20 + i; the second is a one-hot mask that is 1 for led1 and doubles from one channel to the next |
| Properties.ModeNames | liquidctl/driver/rgb_fusion2.py:135-151 | the mode table, reproduced literally, accepts exactly the names off, static, pulse, flash, double-flash and color-cycle, in any letter case |
| Properties.ModeTableFamilies | liquidctl/driver/rgb_fusion2.py:135-151 | each mode's name looks up its own descriptor; off and color-cycle take no colour; pulse, flash and double-flash pulse; flash flashes once and double-flash twice; color-cycle steps seven colours; the codes are 1, 1, 2, 3, 3, 4; off and static have no speed table and the others their own family's |
| Properties.BrightnessPerMode | liquidctl/driver/rgb_fusion2.py:138-149 | brightness is 0 for off, 90 for static and pulse, 100 for the other modes, and never above the mode's cap |
| Properties.ResetIsZeroSettings | liquidctl/driver/rgb_fusion2.py:272-273 | a reset report reads back as a settings report for address (addr1, 0) with mode code, brightness, colour, speed and trailer all zero |
| Properties.InitializeOutcome | liquidctl/driver/rgb_fusion2.py:182-193 | success iff byte 0 is 0xCC, byte 1 is 1 and a zero exists at or after offset 12; a wrong id or status is `BadHandshake`; on success the name is the ASCII bytes from 12 up to the first such zero, firmware is bytes 4–7 and the channel count byte 3 |
| Properties.InitializeRoundTrip | liquidctl/driver/rgb_fusion2.py:185-193 | parsing a well-formed response gives back the name, firmware version and channel count it was built from |

## Left out

- `probe` and `SUPPORTED_DEVICES`: platform and HID-usage filtering over a device handle, and USB identifiers. There is no protocol logic in them.
- `get_status`: it always returns an empty list.
- The transport (`UsbHidDriver`, `send_feature_report`, `get_feature_report`, `release`) is foreign I/O. Writes, the read and releases are trace events. The bytes the read returns are a parameter. Transport errors are not modelled.
- Logging: the warning is the `Warning(dropped)` event, not a formatted message.
- `Tables.Lower`: only ASCII letters are lower-cased, while Python's `str.lower` maps all of Unicode. Every table key is lower-case ASCII without `k`. The only non-ASCII character that lower-cases to an ASCII letter is the Kelvin sign, which gives `k`. So the difference cannot change a lookup.
- `Driver.SetColor`: the speed is a required argument. The source's default `'normal'` is the constant `DefaultSpeed`, and a call that omits the speed is `SetColor` with `DefaultSpeed`.
- `Driver.Clamp`: `liquidctl.util.clamp` is not part of this model. It is assumed to mean min(max(v, lo), hi).
- Colour components are bytes. The driver does not range-check them, and values outside 0–255 would only fail in the transport. A triple of the wrong arity, which would fail the unpacking, cannot be expressed.
- `Driver.Initialize`: the firmware version is kept as its four bytes, not as the `'%d.%d.%d.%d'` string, and the name is kept as bytes, not as a decoded `str`.
- Python's `assert` is stripped under `-O`, which would skip the handshake check. The model always performs the check.
