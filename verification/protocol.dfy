/** Wire-level constants of the RGB Fusion 2.0 feature-report protocol and the
    zero padding every outgoing report receives. */
module Protocol {

  /** One octet of a USB HID feature report. */
  type byte = x: int | 0 <= x < 256

  /** First byte of every report written, and expected first byte of every read. */
  const ReportId: byte := 0xCC
  /** Command byte of the initialization request. */
  const InitCmd: byte := 0x60
  /** Length requested when reading a feature report. */
  const ReadLength: nat := 64
  /** Length every written feature report is padded to. */
  const WriteLength: nat := 64

  /** The initialization request, before padding. */
  const InitReport: seq<byte> := [ReportId, InitCmd]
  /** The request asking the controller to apply the settings sent so far. */
  const ExecuteReport: seq<byte> := [ReportId, 0x28, 0xFF]

  /** `n` zero bytes. */
  function Zeros(n: nat): (z: seq<byte>)
    ensures |z| == n
    ensures forall i :: 0 <= i < n ==> z[i] == 0
  {
    seq(n, _ => 0)
  }

  /** The report handed to the transport for `data`: `data` followed by zeros
      up to `WriteLength`. A report already longer than that gets no padding
      (a negative repeat count produces an empty list) and goes out as is. */
  function Pad(data: seq<byte>): (r: seq<byte>)
    ensures |data| <= WriteLength ==> |r| == WriteLength
    ensures |data| > WriteLength ==> r == data
    ensures |data| <= |r| && r[..|data|] == data
    ensures forall i :: |data| <= i < |r| ==> r[i] == 0
  {
    if |data| <= WriteLength then data + Zeros(WriteLength - |data|) else data
  }

  /** A report of `WriteLength` bytes that starts with `data` and is zero
      afterwards is exactly the padding of `data`: padding is the only way to
      extend a short report. */
  lemma PadUnique(data: seq<byte>, r: seq<byte>)
    requires |data| <= WriteLength && |r| == WriteLength
    requires r[..|data|] == data
    requires forall i :: |data| <= i < |r| ==> r[i] == 0
    ensures r == Pad(data)
  {
    var p := Pad(data);
    forall i | 0 <= i < WriteLength
      ensures r[i] == p[i]
    {
      if i < |data| {
        assert r[i] == r[..|data|][i] && p[i] == p[..|data|][i];
      }
    }
  }
}
