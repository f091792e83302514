/**
 * TFTPDatagram (tftp.cpp): the packets of section 5 of RFC 1350 as the
 * payload of a UDP segment. filename() and mode() return C strings, read
 * here up to their terminating NUL.
 */
module Tftp {
  import opened Outcome
  import opened Octets

  /** TFTPOperation, in the order of its declaration. */
  datatype Operation = Wrq | Rrq | Data | Ack | Error | NoOperation

  /** header_length(): the 2-byte opcode. */
  const HEADER_LENGTH: nat := 2

  const NO_FILENAME := "TFTP datagram does not contain filename field"
  const NO_ERROR_CODE := "TFTP datagram does not contain error code field"
  const NO_ERROR_MESSAGE := "TFTP datagram does not contain error message field"
  const NO_BLOCK := "TFTP datagram does not contain block field"
  const NO_DATA := "TFTP datagram does not contain data"

  function Opcode(f: Fragment): (n: nat)
    requires 2 <= f.len
    ensures n < 0x1_0000 && n == Char2Word(f.At(0), f.At(1))
  {
    Be16(f, 0)
  }

  /** operation(): opcodes 1 to 4 are named, every other one, 5 included, is none. */
  function OperationOf(opcode: nat): (op: Operation)
    ensures op != Error
    ensures op == Rrq <==> opcode == 1
    ensures op == Wrq <==> opcode == 2
    ensures op == Data <==> opcode == 3
    ensures op == Ack <==> opcode == 4
    ensures op == NoOperation <==> opcode !in {1, 2, 3, 4}
  {
    match opcode
    case 1 => Rrq
    case 2 => Wrq
    case 3 => Data
    case 4 => Ack
    case _ => NoOperation
  }

  /** operation() of a datagram: the mapping applied to bytes 0 and 1. */
  function OperationOfDatagram(f: Fragment): (op: Operation)
    requires 2 <= f.len
    ensures op != Error
    ensures op == Data <==> Char2Word(f.At(0), f.At(1)) == 3
  {
    OperationOf(Opcode(f))
  }

  /** The index of the first NUL at or after position k, as strlen() scans for it. */
  function FirstZero(s: seq<byte>, k: nat): (r: Option<nat>)
    decreases if k < |s| then |s| - k else 0
    ensures r.Some? ==> k <= r.value < |s| && s[r.value] == 0
    ensures r.Some? ==> forall j :: k <= j < r.value ==> s[j] != 0
    ensures r.None? ==> forall j :: k <= j < |s| ==> s[j] != 0
  {
    if |s| <= k then None
    else if s[k] == 0 then Some(k)
    else FirstZero(s, k + 1)
  }

  /**
   * The C string starting at position k: the bytes before the next NUL.
   * A string whose NUL lies beyond the view is Truncated.
   */
  function CString(f: Fragment, k: nat): (r: Result<seq<byte>>)
    ensures r.Err? ==> r.failure == Truncated
    ensures r.Ok? <==> exists i :: k <= i < f.len && f.Bytes()[i] == 0
    ensures r.Ok? ==> k + |r.value| < f.len && r.value == f.Bytes()[k..k + |r.value|]
    ensures r.Ok? ==> f.Bytes()[k + |r.value|] == 0 && forall j :: 0 <= j < |r.value| ==> r.value[j] != 0
  {
    var s := f.Bytes();
    match FirstZero(s, k)
    case None => Err(Truncated)
    case Some(i) => Ok(s[k..i])
  }

  /** filename(): the string after the opcode of a read or write request. */
  function Filename(f: Fragment): (r: Result<seq<byte>>)
    ensures f.len < 2 ==> r == Err(Truncated)
    ensures 2 <= f.len && OperationOfDatagram(f) !in {Rrq, Wrq} ==> r == Err(TransportMismatch(NO_FILENAME))
    ensures 2 <= f.len && OperationOfDatagram(f) in {Rrq, Wrq} ==> r == CString(f, HEADER_LENGTH)
  {
    if f.len < 2 then Err(Truncated)
    else if OperationOfDatagram(f) == Rrq || OperationOfDatagram(f) == Wrq then CString(f, HEADER_LENGTH)
    else Err(TransportMismatch(NO_FILENAME))
  }

  /**
   * mode(): the string after the filename and its NUL; its failure
   * message is the one filename() raises.
   */
  function Mode(f: Fragment): (r: Result<seq<byte>>)
    ensures f.len < 2 ==> r == Err(Truncated)
    ensures 2 <= f.len && OperationOfDatagram(f) !in {Rrq, Wrq} ==> r == Err(TransportMismatch(NO_FILENAME))
    ensures r.Ok? ==> Filename(f).Ok? && r == CString(f, HEADER_LENGTH + |Filename(f).value| + 1)
    ensures 2 <= f.len && OperationOfDatagram(f) in {Rrq, Wrq} ==>
              r == if Filename(f).Ok? then CString(f, HEADER_LENGTH + |Filename(f).value| + 1) else Filename(f)
  {
    var name :- Filename(f);
    CString(f, HEADER_LENGTH + |name| + 1)
  }

  /** The 16-bit word after the opcode, where an error packet holds its code. */
  function ErrorCodeField(f: Fragment): (r: Result<nat>)
    ensures r.Ok? <==> 4 <= f.len
    ensures r.Err? ==> r.failure == Truncated
    ensures r.Ok? ==> r.value == Char2Word(f.At(2), f.At(3))
  {
    if f.len < 4 then Err(Truncated) else Ok(Be16(f, 2))
  }

  /** error_code(): the 16-bit code after the opcode of an error packet. */
  function ErrorCode(f: Fragment): (r: Result<nat>)
    ensures f.len < 2 ==> r == Err(Truncated)
    ensures 2 <= f.len && OperationOfDatagram(f) != Error ==> r == Err(TransportMismatch(NO_ERROR_CODE))
  {
    if f.len < 2 then Err(Truncated)
    else if OperationOfDatagram(f) != Error then Err(TransportMismatch(NO_ERROR_CODE))
    else ErrorCodeField(f)
  }

  /** error_msg(): the string after the error code of an error packet. */
  function ErrorMessage(f: Fragment): (r: Result<seq<byte>>)
    ensures f.len < 2 ==> r == Err(Truncated)
    ensures 2 <= f.len && OperationOfDatagram(f) != Error ==> r == Err(TransportMismatch(NO_ERROR_MESSAGE))
  {
    if f.len < 2 then Err(Truncated)
    else if OperationOfDatagram(f) != Error then Err(TransportMismatch(NO_ERROR_MESSAGE))
    else ErrorMessageField(f)
  }

  /** The C string after the error code, where an error packet holds its message. */
  function ErrorMessageField(f: Fragment): Result<seq<byte>> {
    CString(f, 4)
  }

  /**
   * operation() never yields tftp_error, so error_code() and error_msg()
   * fail on every datagram, an error packet (opcode 5) included.
   */
  lemma ErrorFieldsUnreachable(f: Fragment)
    ensures ErrorCode(f).Err? && ErrorMessage(f).Err?
    ensures 2 <= f.len ==> ErrorCode(f) == Err(TransportMismatch(NO_ERROR_CODE))
  {
  }

  /** block(): the block number after the opcode of a data or acknowledgment packet. */
  function Block(f: Fragment): (r: Result<nat>)
    ensures f.len < 2 ==> r == Err(Truncated)
    ensures 2 <= f.len && OperationOfDatagram(f) !in {Data, Ack} ==> r == Err(TransportMismatch(NO_BLOCK))
    ensures r.Ok? <==> 4 <= f.len && OperationOfDatagram(f) in {Data, Ack}
    ensures r.Ok? ==> r.value == Char2Word(f.At(2), f.At(3))
  {
    if f.len < 2 then Err(Truncated)
    else if !(OperationOfDatagram(f) == Data || OperationOfDatagram(f) == Ack) then Err(TransportMismatch(NO_BLOCK))
    else if f.len < 4 then Err(Truncated)
    else Ok(Be16(f, 2))
  }

  /**
   * data_length(): the bytes after the opcode and block number of a data
   * packet, as the unsigned int p_len - 4. A data packet of 2 or 3 bytes
   * reads no byte past the opcode, and the subtraction wraps around 2^32.
   */
  function DataLength(f: Fragment): (r: Result<nat>)
    ensures f.len < 2 ==> r == Err(Truncated)
    ensures 2 <= f.len && OperationOfDatagram(f) != Data ==> r == Err(TransportMismatch(NO_DATA))
    ensures r.Ok? <==> 2 <= f.len && OperationOfDatagram(f) == Data
    ensures r.Ok? && 4 <= f.len ==> r.value + 4 == f.len
    ensures r.Ok? && f.len < 4 ==> r.value < 0x1_0000_0000 && (r.value + 4) % 0x1_0000_0000 == f.len
  {
    if f.len < 2 then Err(Truncated)
    else if OperationOfDatagram(f) != Data then Err(TransportMismatch(NO_DATA))
    else if f.len < 4 then Ok(f.len + 0x1_0000_0000 - 4)
    else Ok(f.len - 4)
  }

  /** A string without NUL bytes, as requests carry them. */
  ghost predicate NulFree(s: seq<byte>)
  {
    forall j :: 0 <= j < |s| ==> s[j] != 0
  }

  /** A read (opcode 1) or write (opcode 2) request. */
  function EncodeRequest(opcode: nat, filename: seq<byte>, mode: seq<byte>): (s: seq<byte>)
    requires opcode < 0x1_0000
    ensures |s| == 4 + |filename| + |mode|
  {
    Word16Bytes(opcode) + filename + [0] + mode + [0]
  }

  lemma CStringOfTerminated(s: seq<byte>, k: nat, t: seq<byte>)
    requires k + |t| < |s| && s[k..k + |t|] == t && s[k + |t|] == 0 && NulFree(t)
    ensures CString(Whole(s), k) == Ok(t)
  {
    assert forall j :: k <= j < k + |t| ==> s[j] == t[j - k];
  }

  /** A request reads back its operation, its filename and its mode. */
  lemma {:induction false} DecodeRequest(opcode: nat, filename: seq<byte>, mode: seq<byte>)
    requires opcode == 1 || opcode == 2
    requires NulFree(filename) && NulFree(mode)
    ensures var f := Whole(EncodeRequest(opcode, filename, mode));
            && OperationOfDatagram(f) == (if opcode == 1 then Rrq else Wrq)
            && Filename(f) == Ok(filename) && Mode(f) == Ok(mode)
            && Block(f).Err? && DataLength(f).Err?
  {
    var w := Word16Bytes(opcode);
    var s := EncodeRequest(opcode, filename, mode);
    var f := Whole(s);
    assert s[0..2] == w;
    ReadBack16(s, 0, opcode);
    assert OperationOfDatagram(f) == (if opcode == 1 then Rrq else Wrq);
    assert s[2..2 + |filename|] == filename && s[2 + |filename|] == 0;
    CStringOfTerminated(s, 2, filename);
    assert Filename(f) == Ok(filename);
    var m := 2 + |filename| + 1;
    assert s[m..m + |mode|] == mode && s[m + |mode|] == 0;
    CStringOfTerminated(s, m, mode);
    assert Mode(f) == Ok(mode);
    RequestCarriesNoBlock(f);
  }

  /**
   * A request followed by any further bytes (the option fields of RFC 2347,
   * say) still reads back its filename and its mode: each string ends at
   * its own NUL, whatever comes after.
   */
  lemma {:induction false} DecodeRequestWithTrailer(opcode: nat, filename: seq<byte>, mode: seq<byte>, trailer: seq<byte>)
    requires opcode == 1 || opcode == 2
    requires NulFree(filename) && NulFree(mode)
    ensures var f := Whole(EncodeRequest(opcode, filename, mode) + trailer);
            && OperationOfDatagram(f) == (if opcode == 1 then Rrq else Wrq)
            && Filename(f) == Ok(filename) && Mode(f) == Ok(mode)
  {
    var w := Word16Bytes(opcode);
    var s := EncodeRequest(opcode, filename, mode) + trailer;
    var f := Whole(s);
    assert s[0..2] == w;
    ReadBack16(s, 0, opcode);
    assert OperationOfDatagram(f) == (if opcode == 1 then Rrq else Wrq);
    assert s[2..2 + |filename|] == filename && s[2 + |filename|] == 0;
    CStringOfTerminated(s, 2, filename);
    assert Filename(f) == Ok(filename);
    var m := 2 + |filename| + 1;
    assert s[m..m + |mode|] == mode && s[m + |mode|] == 0;
    CStringOfTerminated(s, m, mode);
  }

  /** A read or write request has neither a block number nor data. */
  lemma RequestCarriesNoBlock(f: Fragment)
    requires 2 <= f.len && OperationOfDatagram(f) in {Rrq, Wrq}
    ensures Block(f).Err? && DataLength(f).Err?
  {
  }

  /** The bytes 00 01 "file" 00 "octet" 00: a read request for "file" in octet mode. */
  lemma ReadRequestExample()
    ensures var f := Whole([0, 1, 102, 105, 108, 101, 0, 111, 99, 116, 101, 116, 0]);
            && OperationOfDatagram(f) == Rrq
            && Filename(f) == Ok([102, 105, 108, 101])
            && Mode(f) == Ok([111, 99, 116, 101, 116])
  {
    assert EncodeRequest(1, [102, 105, 108, 101], [111, 99, 116, 101, 116])
        == [0, 1, 102, 105, 108, 101, 0, 111, 99, 116, 101, 116, 0];
    DecodeRequest(1, [102, 105, 108, 101], [111, 99, 116, 101, 116]);
  }

  /* The operation mapping RFC 1350 defines, with opcode 5 for error packets. */

  function OperationOfRfc1350(opcode: nat): (op: Operation)
    ensures op == Error <==> opcode == 5
    ensures opcode != 5 ==> op == OperationOf(opcode)
  {
    if opcode == 5 then Error else OperationOf(opcode)
  }

  function OperationOfDatagramRfc1350(f: Fragment): Operation
    requires 2 <= f.len
  {
    OperationOfRfc1350(Opcode(f))
  }

  /** error_code() with the RFC 1350 mapping. */
  function ErrorCodeRfc1350(f: Fragment): (r: Result<nat>)
    ensures f.len < 2 ==> r == Err(Truncated)
    ensures 2 <= f.len && OperationOfDatagramRfc1350(f) != Error ==> r == Err(TransportMismatch(NO_ERROR_CODE))
    ensures r.Ok? <==> 4 <= f.len && OperationOfDatagramRfc1350(f) == Error
    ensures r.Ok? ==> r.value == Char2Word(f.At(2), f.At(3))
  {
    if f.len < 2 then Err(Truncated)
    else if OperationOfDatagramRfc1350(f) != Error then Err(TransportMismatch(NO_ERROR_CODE))
    else ErrorCodeField(f)
  }

  /** error_msg() with the RFC 1350 mapping. */
  function ErrorMessageRfc1350(f: Fragment): (r: Result<seq<byte>>)
    ensures f.len < 2 ==> r == Err(Truncated)
    ensures 2 <= f.len && OperationOfDatagramRfc1350(f) != Error ==> r == Err(TransportMismatch(NO_ERROR_MESSAGE))
    ensures 2 <= f.len && OperationOfDatagramRfc1350(f) == Error ==> r == CString(f, 4)
  {
    if f.len < 2 then Err(Truncated)
    else if OperationOfDatagramRfc1350(f) != Error then Err(TransportMismatch(NO_ERROR_MESSAGE))
    else ErrorMessageField(f)
  }

  /** An error packet: opcode 5, the error code, the message and its NUL. */
  function EncodeError(code: nat, message: seq<byte>): (s: seq<byte>)
    requires code < 0x1_0000
    ensures |s| == 5 + |message|
  {
    Word16Bytes(5) + Word16Bytes(code) + message + [0]
  }

  /**
   * An error packet: as written, both error accessors fail on it; with
   * the RFC 1350 mapping they read back the code and the message.
   */
  lemma {:induction false} ErrorPacketIgnored(code: nat, message: seq<byte>)
    requires code < 0x1_0000 && NulFree(message)
    ensures var f := Whole(EncodeError(code, message));
            && OperationOfDatagram(f) == NoOperation
            && ErrorCode(f) == Err(TransportMismatch(NO_ERROR_CODE))
            && ErrorMessage(f) == Err(TransportMismatch(NO_ERROR_MESSAGE))
            && OperationOfDatagramRfc1350(f) == Error
            && ErrorCodeRfc1350(f) == Ok(code)
            && ErrorMessageRfc1350(f) == Ok(message)
  {
    var s := EncodeError(code, message);
    assert s[0..2] == Word16Bytes(5) && s[2..4] == Word16Bytes(code);
    ReadBack16(s, 0, 5);
    ReadBack16(s, 2, code);
    assert s[4..4 + |message|] == message && s[4 + |message|] == 0;
    CStringOfTerminated(s, 4, message);
  }
}
