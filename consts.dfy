/**
 Protocol constants of include/usbip/consts.h: the device status codes
 reported in op_common.status, the error codes of the user-space tools,
 the fixed field sizes, and `make_error`, which packs either kind of code
 into one `int` shifted left by 16 bits.
 */
module Consts {

  /** op_status_t, values 0 .. 5 in declaration order. */
  datatype OpStatus = ST_OK | ST_NA | ST_DEV_BUSY | ST_DEV_ERR | ST_NODEV | ST_ERROR

  /** err_t, consecutive values starting at ERR_PORTFULL = -9. */
  datatype Err =
    | ERR_PORTFULL | ERR_DRIVER | ERR_NOTEXIST | ERR_STATUS | ERR_PROTOCOL
    | ERR_VERSION | ERR_NETWORK | ERR_INVARG | ERR_GENERAL | ERR_NONE

  const USBIP_PORT: string := "3240"
  const USBIP_VERSION: int := 0x111
  const USBIP_DEV_PATH_MAX: int := 256
  const USBIP_BUS_ID_SIZE: int := 32

  /** The integer value of a status code; only ST_OK is zero. */
  function StatusValue(s: OpStatus): (v: int)
    ensures 0 <= v <= 5
    ensures v == 0 <==> s == ST_OK
  {
    match s
    case ST_OK => 0
    case ST_NA => 1
    case ST_DEV_BUSY => 2
    case ST_DEV_ERR => 3
    case ST_NODEV => 4
    case ST_ERROR => 5
  }

  /** The integer value of an error code; only ERR_NONE is zero, all others are negative. */
  function ErrValue(e: Err): (v: int)
    ensures -9 <= v <= 0
    ensures v == 0 <==> e == ERR_NONE
  {
    match e
    case ERR_PORTFULL => -9
    case ERR_DRIVER => -8
    case ERR_NOTEXIST => -7
    case ERR_STATUS => -6
    case ERR_PROTOCOL => -5
    case ERR_VERSION => -4
    case ERR_NETWORK => -3
    case ERR_INVARG => -2
    case ERR_GENERAL => -1
    case ERR_NONE => 0
  }

  /** The error code with a given value: every integer in -9 .. 0 names exactly one code. */
  function ErrOf(v: int): (e: Err)
    requires -9 <= v <= 0
    ensures ErrValue(e) == v
  {
    if v == -9 then ERR_PORTFULL
    else if v == -8 then ERR_DRIVER
    else if v == -7 then ERR_NOTEXIST
    else if v == -6 then ERR_STATUS
    else if v == -5 then ERR_PROTOCOL
    else if v == -4 then ERR_VERSION
    else if v == -3 then ERR_NETWORK
    else if v == -2 then ERR_INVARG
    else if v == -1 then ERR_GENERAL
    else ERR_NONE
  }

  /** The status code with a given value: every integer in 0 .. 5 names exactly one code. */
  function StatusOf(v: int): (s: OpStatus)
    requires 0 <= v <= 5
    ensures StatusValue(s) == v
  {
    if v == 0 then ST_OK
    else if v == 1 then ST_NA
    else if v == 2 then ST_DEV_BUSY
    else if v == 3 then ST_DEV_ERR
    else if v == 4 then ST_NODEV
    else ST_ERROR
  }

  /** Distinct error codes have distinct values, so ErrOf inverts ErrValue. */
  lemma ErrValueRoundTrip(e: Err)
    ensures ErrOf(ErrValue(e)) == e
  {
  }

  /** Distinct status codes have distinct values; in particular ST_DEV_ERR and ST_ERROR differ. */
  lemma StatusValueRoundTrip(s: OpStatus)
    ensures StatusOf(StatusValue(s)) == s
    ensures StatusValue(ST_DEV_ERR) == 3 && StatusValue(ST_ERROR) == 5
  {
  }

  /** The C++ conversion of an integer to the 32-bit two's-complement `int`. */
  function Int32(v: int): (r: int)
    ensures -0x8000_0000 <= r < 0x8000_0000
    ensures (r - v) % 0x1_0000_0000 == 0
    ensures -0x8000_0000 <= v < 0x8000_0000 ==> r == v
  {
    var m := v % 0x1_0000_0000;
    if m < 0x8000_0000 then m else m - 0x1_0000_0000
  }

  /** `int(x) << 16` on a 32-bit `int` (well defined for negative x since C++20: the value modulo 2^32). */
  function ShiftLeft16(x: int): (r: int)
    ensures -0x8000 <= x < 0x8000 ==> r == x * 0x1_0000
  {
    Int32(x * 0x1_0000)
  }

  /**
   make_error(err, status = ST_OK): a non-OK status wins and err is ignored;
   otherwise the error code is used. The shift never wraps for these codes.
   */
  function MakeError(err: Err, status: OpStatus := ST_OK): (r: int)
    ensures status != ST_OK ==> r == StatusValue(status) * 0x1_0000
    ensures status == ST_OK ==> r == ErrValue(err) * 0x1_0000
  {
    ShiftLeft16(if status != ST_OK then StatusValue(status) else ErrValue(err))
  }

  /** make_error(ERR_NONE) is zero (the header's static_assert). */
  lemma MakeErrorNoneIsZero()
    ensures MakeError(ERR_NONE) == 0
  {
  }

  /**
   Sign of make_error: negative exactly for a real error under ST_OK, positive
   exactly for a non-OK status, zero only for (ERR_NONE, ST_OK); so the two
   ranges never overlap.
   */
  lemma MakeErrorSign(err: Err, status: OpStatus)
    ensures MakeError(err, status) < 0 <==> status == ST_OK && err != ERR_NONE
    ensures MakeError(err, status) > 0 <==> status != ST_OK
    ensures MakeError(err, status) == 0 <==> status == ST_OK && err == ERR_NONE
  {
  }

  /** Every error code lands in -9*65536 .. -65536 and every status in 65536 .. 5*65536. */
  lemma MakeErrorRanges(err: Err, status: OpStatus)
    ensures status != ST_OK ==> 0x1_0000 <= MakeError(err, status) <= 5 * 0x1_0000
    ensures status == ST_OK && err != ERR_NONE ==> -9 * 0x1_0000 <= MakeError(err, status) <= -0x1_0000
  {
  }

  /** make_error loses nothing: the code it encodes can be read back from the result. */
  lemma MakeErrorDecodes(err: Err, status: OpStatus)
    ensures status != ST_OK ==> StatusOf(MakeError(err, status) / 0x1_0000) == status
    ensures status == ST_OK ==> ErrOf(MakeError(err, status) / 0x1_0000) == err
  {
    StatusValueRoundTrip(status);
    ErrValueRoundTrip(err);
  }

  /** When the status is not ST_OK the error argument has no effect. */
  lemma MakeErrorIgnoresErr(e1: Err, e2: Err, status: OpStatus)
    requires status != ST_OK
    ensures MakeError(e1, status) == MakeError(e2, status)
  {
  }
}
