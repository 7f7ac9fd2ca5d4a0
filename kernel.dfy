/**
 Kernel vocabulary shared by the modelled driver files: optional values,
 results, NTSTATUS codes and the fixed-width integers of the C++ source.

 The numeric values of NTSTATUS codes and of the driver's own
 ERROR_USBIP_* messages live in headers that are not part of this model
 (the Windows DDK and resources/messages.h). The driver only ever tests a
 status for "non-zero" or compares it with a named code, so the codes are
 modelled symbolically.
 */
module Kernel {

  datatype Option<+T> = None | Some(value: T)

  datatype Result<+T, +E> = Ok(value: T) | Err(error: E)

  /** A non-zero status value. */
  type NonZero = c: int | c != 0 witness 1

  /**
   NTSTATUS values the modelled code names; every other failure is
   `OtherStatus`. The numeric values of the named codes are not modelled, so
   an `OtherStatus` code stands for a value distinct from all of them.
   */
  datatype NtStatus =
    | StatusSuccess
    | StatusInvalidParameter
    | ErrorUsbipAddrinfo
    | ErrorUsbipConnect
    | ErrorUsbipNetwork
    | OtherStatus(code: NonZero)
  {
    /** The C++ test `if (auto err = f(...))`: STATUS_SUCCESS is the only zero status. */
    predicate Failed() { !StatusSuccess? }
  }

  /**
   STATUS_SUCCESS is the only status that passes the test; every status the
   driver names as an error, and every other non-zero code, fails it.
   */
  lemma OnlySuccessSucceeds(s: NtStatus)
    ensures !s.Failed() <==> s == StatusSuccess
    ensures StatusInvalidParameter.Failed() && ErrorUsbipAddrinfo.Failed()
    ensures ErrorUsbipConnect.Failed() && ErrorUsbipNetwork.Failed()
    ensures forall c: NonZero :: OtherStatus(c).Failed()
  {
  }

  /** The index of the first failing status, or |statuses| if none fails. */
  function FirstFailure(statuses: seq<NtStatus>): (k: nat)
    ensures k <= |statuses|
    ensures forall i :: 0 <= i < k ==> !statuses[i].Failed()
    ensures k < |statuses| ==> statuses[k].Failed()
  {
    if statuses == [] then 0
    else if statuses[0].Failed() then 0
    else 1 + FirstFailure(statuses[1..])
  }

  /** Nothing fails exactly when the first failure is past the end; a failure found is the first one. */
  lemma FirstFailureCharacterized(statuses: seq<NtStatus>, j: nat)
    ensures FirstFailure(statuses) == |statuses| <==> forall i :: 0 <= i < |statuses| ==> !statuses[i].Failed()
    ensures j < |statuses| && statuses[j].Failed() ==> FirstFailure(statuses) <= j
  {
  }

  const ULONG_LIMIT: int := 0x1_0000_0000

  /** A value of the 32-bit unsigned type ULONG. */
  type ULong = n: int | 0 <= n < ULONG_LIMIT

  function Min(a: int, b: int): (r: int)
    ensures r <= a && r <= b && (r == a || r == b)
  {
    if a < b then a else b
  }
}
