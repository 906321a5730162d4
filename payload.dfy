/**
 The notification payload decoder of TEMP.py: `decode_temperature` unpacks a
 little-endian record with the struct format '<BHxxxxxxI' (a status byte, a
 16-bit temperature, six pad bytes and a 32-bit device time) and replaces the
 device time by the host clock (`sanitize_timestamp`).
 */
module Payload {
  import opened Wrappers

  type Byte = x: int | 0 <= x < 256

  /** the size of the record format: 1 status byte, 2 temperature bytes, 6 pad bytes, 4 device time bytes */
  const FormatSize: nat := 13
  /** decode_temperature hands unpack at most the first 14 bytes of the payload */
  const SliceEnd: nat := 14
  /** the status byte that marks a reading as valid */
  const ValidStatus: Byte := 0x02

  /** The three values unpack returns (the pad bytes produce none). */
  datatype Fields = Fields(status: nat, temperature: nat, deviceTime: nat)

  /** The dict decode_temperature returns: keys "valid", "temperature", "timestamp". */
  datatype Reading = Reading(valid: bool, temperature: nat, timestamp: nat)

  /** struct.error: the buffer handed to unpack is not exactly FormatSize bytes long. */
  datatype DecodeError = StructError

  /** Python slicing `s[0:n]`, which clamps n to the length of s. */
  function Take(s: seq<Byte>, n: nat): (r: seq<Byte>)
    ensures |r| == if |s| < n then |s| else n
    ensures r == s[..|r|]
  {
    if |s| <= n then s else s[..n]
  }

  function U16(b0: Byte, b1: Byte): nat
  {
    b0 + 256 * b1
  }

  function U32(b0: Byte, b1: Byte, b2: Byte, b3: Byte): nat
  {
    b0 + 256 * (b1 + 256 * (b2 + 256 * b3))
  }

  /** struct.unpack('<BHxxxxxxI', buf): exactly 13 bytes, or struct.error. */
  function Unpack(buf: seq<Byte>): (r: Option<Fields>)
    ensures r.Some? <==> |buf| == FormatSize
    ensures r.Some? ==> r.value.status < 0x100 && r.value.temperature < 0x1_0000
                        && r.value.deviceTime < 0x1_0000_0000
  {
    if |buf| != FormatSize then None
    else Some(Fields(buf[0], U16(buf[1], buf[2]), U32(buf[9], buf[10], buf[11], buf[12])))
  }

  /** struct.pack('<BHxxxxxxI', ...): the inverse of Unpack, pad bytes written as zero. */
  function Pack(f: Fields): (buf: seq<Byte>)
    requires f.status < 0x100 && f.temperature < 0x1_0000 && f.deviceTime < 0x1_0000_0000
    ensures |buf| == FormatSize
  {
    var t, d := f.temperature, f.deviceTime;
    [f.status, t % 256, t / 256, 0, 0, 0, 0, 0, 0,
     d % 256, (d / 256) % 256, (d / 0x1_0000) % 256, d / 0x100_0000]
  }

  /** sanitize_timestamp: the device time is dropped and the host clock reading is used. */
  function SanitizeTimestamp(deviceTime: nat, now: nat): (t: nat)
    ensures t == now
  {
    now
  }

  /** decode_temperature(values), with `now` the value time.time() returns. */
  function DecodeTemperature(values: seq<Byte>, now: nat): (r: Result<Reading, DecodeError>)
    ensures r.Ok? <==> |values| == FormatSize
    ensures r.Ok? ==> r.value.valid == (values[0] == ValidStatus)
                      && r.value.temperature == values[1] as int + 256 * values[2] as int
                      && r.value.temperature < 0x1_0000
  {
    match Unpack(Take(values, SliceEnd))
    case None => Err(StructError)
    case Some(data) =>
      Ok(Reading(data.status == ValidStatus, data.temperature, SanitizeTimestamp(data.deviceTime, now)))
  }

  /** Packing and then unpacking gives back the three fields. */
  lemma UnpackPack(f: Fields)
    requires f.status < 0x100 && f.temperature < 0x1_0000 && f.deviceTime < 0x1_0000_0000
    ensures Unpack(Pack(f)) == Some(f)
  {
  }

  /** Unpacking and then packing gives back every byte but the six pad bytes. */
  lemma PackUnpack(buf: seq<Byte>)
    requires |buf| == FormatSize
    ensures Unpack(buf).Some?
    ensures var b := Pack(Unpack(buf).value); b[..3] == buf[..3] && b[9..] == buf[9..]
  {
    var d := Unpack(buf).value.deviceTime;
    assert d % 256 == buf[9] && d / 256 == buf[10] as int + 256 * (buf[11] as int + 256 * buf[12] as int);
    assert (d / 256) % 256 == buf[10] && (d / 256) / 256 == buf[11] as int + 256 * buf[12] as int;
    assert d / 0x1_0000 == (d / 256) / 256 && d / 0x100_0000 == (d / 0x1_0000) / 256;
  }

  /** Decoding succeeds exactly on 13-byte buffers: shorter ones and ones of 14 bytes or more fail. */
  lemma DecodeLength(values: seq<Byte>, now: nat)
    ensures DecodeTemperature(values, now).Err? <==> |values| < FormatSize || |values| >= SliceEnd
  {
  }

  /** The timestamp of a decoded reading is the clock reading, whatever the device time bytes hold. */
  lemma DecodeTimestampIsClock(values: seq<Byte>, now: nat)
    requires |values| == FormatSize
    ensures DecodeTemperature(values, now).value.timestamp == now
  {
  }

  /** Only the first three bytes reach the reading: the pad bytes and the device time never do. */
  lemma DecodeIgnoresTail(v: seq<Byte>, w: seq<Byte>, now: nat)
    requires |v| == |w| && Take(v, 3) == Take(w, 3)
    ensures DecodeTemperature(v, now) == DecodeTemperature(w, now)
  {
  }

  /** Decoding a packed record gives its status check and temperature, stamped with the clock. */
  lemma DecodePacked(f: Fields, now: nat)
    requires f.status < 0x100 && f.temperature < 0x1_0000 && f.deviceTime < 0x1_0000_0000
    ensures DecodeTemperature(Pack(f), now) == Ok(Reading(f.status == ValidStatus, f.temperature, now))
  {
  }
}
