/**
 * The command/response protocol of the GQ GMC-320: the framed ASCII
 * commands, the flash-read (SPIR) request with its length workaround, and
 * the decoders of the GETDATETIME and GETCPM replies.
 *
 * The serial port itself is a `Link`: the bytes that come back when a
 * command is written and up to `n` bytes are read.
 */
module Wire {
  import opened Wrappers
  import opened Bytes
  import Calendar

  type Link = (seq<byte>, nat) -> seq<byte>

  /** One write-then-read on the link: the command written and the number of bytes asked back. */
  datatype Request = Request(command: seq<byte>, readLength: nat)

  /** A request together with what the link returned for it. */
  datatype Exchange = Exchange(request: Request, reply: seq<byte>)

  const SPIR_OPEN: seq<byte> := [0x3C, 0x53, 0x50, 0x49, 0x52]   // "<SPIR"
  const CLOSE: seq<byte> := [0x3E, 0x3E]                         // ">>"
  const GETDATETIME: seq<byte> := [0x3C, 0x47, 0x45, 0x54, 0x44, 0x41, 0x54, 0x45, 0x54, 0x49, 0x4D, 0x45, 0x3E, 0x3E]  // "<GETDATETIME>>"
  const GETCPM: seq<byte> := [0x3C, 0x47, 0x45, 0x54, 0x43, 0x50, 0x4D, 0x3E, 0x3E]  // "<GETCPM>>"

  const TWO_POW_16: int := 0x1_0000
  const TWO_POW_24: int := 0x100_0000
  const TWO_POW_32: int := 0x1_0000_0000

  /** `struct.pack(">I", x)`. */
  function PackU32(x: int): (r: seq<byte>)
    requires 0 <= x < TWO_POW_32
    ensures |r| == 4
    ensures ((r[0] as int * 0x100 + r[1]) * 0x100 + r[2]) * 0x100 + r[3] == x
  {
    var x1 := x / 0x100;
    var x2 := x1 / 0x100;
    [x2 / 0x100, x2 % 0x100, x1 % 0x100, x % 0x100]
  }

  /** `struct.pack(">H", x)`. */
  function PackU16(x: int): (r: seq<byte>)
    requires 0 <= x < TWO_POW_16
    ensures |r| == 2
    ensures r[0] as int * 0x100 + r[1] == x
  {
    [x / 0x100, x % 0x100]
  }

  /** The big-endian number held in the three address bytes. */
  function Be24(a: byte, b: byte, c: byte): nat
  {
    (a as int * 0x100 + b) * 0x100 + c
  }

  lemma Be24Bound(a: byte, b: byte, c: byte)
    ensures Be24(a, b, c) < TWO_POW_24
  {
  }

  /** The fields of a well-formed SPIR command. */
  datatype SpirFields = SpirFields(address: nat, lengthField: nat)

  /**
   * The SPIR command `getSPIR` writes: `<SPIR`, the low three bytes of the
   * address packed as a big-endian 32-bit number, the big-endian 16-bit
   * `datalength - 1`, then `>>`. `struct.pack` raises for values it cannot
   * pack; that is `None` here.
   */
  function SpirCommand(address: int, datalength: int): (r: Option<seq<byte>>)
    ensures r.Some? <==> 0 <= address < TWO_POW_32 && 1 <= datalength <= TWO_POW_16
    ensures r.Some? ==> |r.value| == 12 && r.value[..5] == SPIR_OPEN && r.value[10..] == CLOSE
    ensures r.Some? ==> Be24(r.value[5], r.value[6], r.value[7]) == address % TWO_POW_24
    ensures r.Some? ==> r.value[8] as int * 0x100 + r.value[9] == datalength - 1
  {
    if 0 <= address < TWO_POW_32 && 1 <= datalength <= TWO_POW_16 then
      var ad := PackU32(address)[1..];
      var dl := PackU16(datalength - 1);
      Some(SPIR_OPEN + ad + dl + CLOSE)
    else
      None
  }

  /** Reads the address and length field back out of a SPIR command. */
  function ParseSpir(cmd: seq<byte>): (r: Option<SpirFields>)
    ensures r.Some? ==> r.value.address < TWO_POW_24 && r.value.lengthField < TWO_POW_16
  {
    if |cmd| == 12 && cmd[..5] == SPIR_OPEN && cmd[10..] == CLOSE then
      Be24Bound(cmd[5], cmd[6], cmd[7]);
      Some(SpirFields(Be24(cmd[5], cmd[6], cmd[7]), cmd[8] as int * 0x100 + cmd[9]))
    else
      None
  }

  /**
   * The wire command carries the low 24 address bits and one less than the
   * requested length.
   */
  lemma ParseSpirCommand(address: int, datalength: int)
    requires 0 <= address < TWO_POW_32 && 1 <= datalength <= TWO_POW_16
    ensures ParseSpir(SpirCommand(address, datalength).value) == Some(SpirFields(address % TWO_POW_24, datalength - 1))
  {
  }

  /**
   * `getSPIR(ser, address, datalength)`: writes the SPIR command and reads
   * `datalength` bytes, not the `datalength - 1` the command announces.
   */
  function GetSpir(link: Link, address: int, datalength: int): (r: Option<Exchange>)
    ensures r.Some? <==> 0 <= address < TWO_POW_32 && 1 <= datalength <= TWO_POW_16
    ensures r.Some? ==> r.value.request.readLength == datalength
    ensures r.Some? ==> ParseSpir(r.value.request.command) == Some(SpirFields(address % TWO_POW_24, datalength - 1))
    ensures r.Some? ==> r.value.reply == link(r.value.request.command, r.value.request.readLength)
  {
    match SpirCommand(address, datalength)
    case None => None
    case Some(cmd) =>
      ParseSpirCommand(address, datalength);
      Some(Exchange(Request(cmd, datalength), link(cmd, datalength)))
  }

  /**
   * The firmware behaviour the workaround answers: for a SPIR command whose
   * length field is `L` the device sends `(L mod 4096) + 1` bytes of flash
   * from the address on (fewer where the flash ends); it sends nothing for
   * anything else.
   */
  function DeviceReply(flash: seq<byte>, cmd: seq<byte>): (r: seq<byte>)
    ensures |r| <= 4096
    ensures ParseSpir(cmd).None? ==> r == []
    ensures ParseSpir(cmd).Some? ==> var from := Min(ParseSpir(cmd).value.address, |flash|);
      from + |r| <= |flash| && r == flash[from .. from + |r|]
    ensures ParseSpir(cmd).Some? && ParseSpir(cmd).value.address + ParseSpir(cmd).value.lengthField % 4096 + 1 <= |flash| ==>
      |r| == ParseSpir(cmd).value.lengthField % 4096 + 1
  {
    match ParseSpir(cmd)
    case None => []
    case Some(f) =>
      var from := Min(f.address, |flash|);
      flash[from .. Min(f.address + f.lengthField % 4096 + 1, |flash|)]
  }

  /** `ser.read(n)`: at most `n` of the bytes that arrive. */
  function SerialRead(arrived: seq<byte>, n: nat): (r: seq<byte>)
    ensures |r| == Min(n, |arrived|) && r <= arrived
  {
    arrived[..Min(n, |arrived|)]
  }

  /**
   * Against that device, asking for `datalength - 1` and reading
   * `datalength` bytes yields exactly `datalength` bytes of flash for any
   * length up to a page.
   */
  lemma SpirWorkaround(flash: seq<byte>, address: nat, datalength: int)
    requires address < TWO_POW_24 && 1 <= datalength <= 4096 && address + datalength <= |flash|
    ensures var cmd := SpirCommand(address, datalength).value;
            SerialRead(DeviceReply(flash, cmd), datalength) == flash[address .. address + datalength]
  {
    var cmd := SpirCommand(address, datalength).value;
    ParseSpirCommand(address, datalength);
    assert address % TWO_POW_24 == address;
    FullReply(flash, cmd, address, datalength);
  }

  /** A SPIR command asking for `n - 1` bytes from `address` brings back the `n` bytes there, and reading `n` keeps them all. */
  lemma FullReply(flash: seq<byte>, cmd: seq<byte>, address: nat, n: int)
    requires 1 <= n <= 4096 && address + n <= |flash|
    requires ParseSpir(cmd) == Some(SpirFields(address, n - 1))
    ensures SerialRead(DeviceReply(flash, cmd), n) == flash[address .. address + n]
  {
    assert (n - 1) % 4096 + 1 == n;
    var reply := DeviceReply(flash, cmd);
    assert reply == flash[address .. address + n];
  }

  /** Passing a page length of 4096 through unmodified would bring back a single byte. */
  lemma LiteralPageLengthFails(flash: seq<byte>, cmd: seq<byte>)
    requires ParseSpir(cmd).Some? && ParseSpir(cmd).value.lengthField == 4096
    ensures |DeviceReply(flash, cmd)| <= 1
  {
  }

  /**
   * `getDate(ser)`: writes GETDATETIME, reads seven bytes (year - 2000,
   * month, day, hour, minute, second and a check byte) and builds a date and
   * time from the first six.
   */
  function GetDate(link: Link): (r: Result<Calendar.DateTime, Calendar.DateError>)
    ensures var rec := link(GETDATETIME, 7);
      |rec| >= 6 ==>
      (r.Success? <==> Calendar.Valid(Calendar.DateTime(rec[0] as int + 2000, rec[1], rec[2], rec[3], rec[4], rec[5])))
    ensures var rec := link(GETDATETIME, 7);
      |rec| >= 6 && r.Success? ==>
      r.value == Calendar.DateTime(rec[0] as int + 2000, rec[1], rec[2], rec[3], rec[4], rec[5])
    ensures |link(GETDATETIME, 7)| == 0 ==> r.Failure?
  {
    var rec := link(GETDATETIME, 7);
    Calendar.FromBytes(rec[..Min(6, |rec|)])
  }

  /**
   * `getCPM(ser)`: writes GETCPM, reads two bytes and combines them high
   * byte first; a reply shorter than two bytes (the `IndexError` the source
   * catches) counts as 0.
   */
  function GetCpm(link: Link): (r: nat)
    ensures r < TWO_POW_16
    ensures var rec := link(GETCPM, 2);
      |rec| >= 2 ==> r == 256 * rec[0] as int + rec[1]
    ensures |link(GETCPM, 2)| < 2 ==> r == 0
  {
    var rec := link(GETCPM, 2);
    if |rec| >= 2 then rec[0] as int * 0x100 + rec[1] else 0
  }

  /** A device whose reply is any packed 16-bit count has that count read back. */
  lemma GetCpmPackU16(link: Link, v: int)
    requires 0 <= v < TWO_POW_16 && link(GETCPM, 2) == PackU16(v)
    ensures GetCpm(link) == v
  {
  }
}
