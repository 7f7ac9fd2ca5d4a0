/**
 Replay of persisted device attachments (drivers/ude/persistent.cpp).

 At start-up the driver reads a list of `host,service,busid` records and,
 in retry rounds, sends an attach request for each one to itself. A record
 is dropped when it is malformed, when the attach succeeds, or when the
 attach fails for a reason that retrying cannot fix; it is kept for the next
 round when the failure is a transient network one. Rounds are spaced by a
 backoff delay that is slept in 5-second slices so that a stop request is
 noticed quickly.

 Oracles: the UTF-16 to UTF-8 conversion (`Utf8Oracle`); the attach IOCTL
 sent to the driver itself, answered per round and position (`IoctlCalls`);
 and the moment another thread sets `stop_thread`, given as the number of
 the first read of the flag that sees it set (`VhciCtx.stopFrom`).
 */
module Persistent {
  import opened Kernel

  /** A persisted record as a UNICODE_STRING: its UTF-16 code units. */
  type Line = seq<char>

  newtype byte = x: int | 0 <= x < 256

  /** The three fields of an attach request, in the order `copy` fills them. */
  datatype Field = Host | Service | BusId

  /** What unicode_to_utf8 reports: a status and, on success, the bytes written. */
  datatype Conversion = Conversion(status: NtStatus, bytes: seq<byte>)

  /** unicode_to_utf8 for the destination field named, applied to the given text. */
  type Utf8Oracle = (Field, Line) -> Conversion

  /** The converted text fields of vhci::ioctl::plugin_hardware. */
  datatype Fields = Fields(host: seq<byte>, service: seq<byte>, busid: seq<byte>)

  /** The attach request sent to the driver; `port` is written back by the driver. */
  datatype PluginRequest = PluginRequest(host: seq<byte>, service: seq<byte>, busid: seq<byte>, port: int)

  /** The status of the synchronous PLUGIN_HARDWARE IOCTL for a request. */
  type IoctlOracle = PluginRequest -> NtStatus

  // ---------------------------------------------------------------------
  // Backoff
  // ---------------------------------------------------------------------

  const UNIT: int := 10
  const MAX_DELAY: int := 30 * 60

  /**
   get_delay(attempt, cnt): no delay for the first two attempts, then
   UNIT*attempt/cnt seconds capped at MAX_DELAY. The product is a ULONG and
   wraps modulo 2^32; below attempt 429496730 it does not wrap.
   */
  function GetDelay(attempt: ULong, cnt: ULong): (secs: ULong)
    requires cnt != 0
    ensures secs <= MAX_DELAY
    ensures attempt <= 1 ==> secs == 0
    ensures 1 < attempt && UNIT * attempt < ULONG_LIMIT ==> secs == Min(UNIT * attempt / cnt, MAX_DELAY)
  {
    if attempt > 1 then Min((UNIT * attempt % ULONG_LIMIT) / cnt, MAX_DELAY) else 0
  }

  /** Below the wrap-around the delay grows with the attempt number. */
  lemma GetDelayGrowsWithAttempt(a1: ULong, a2: ULong, cnt: ULong)
    requires cnt != 0 && a1 <= a2 && UNIT * a2 < ULONG_LIMIT
    ensures GetDelay(a1, cnt) <= GetDelay(a2, cnt)
  {
    if a1 > 1 {
      DivIsMonotone(UNIT * a1, UNIT * a2, cnt);
    }
  }

  /** The delay shrinks as more records remain pending. */
  lemma GetDelayShrinksWithCount(attempt: ULong, c1: ULong, c2: ULong)
    requires 0 < c1 <= c2
    ensures GetDelay(attempt, c2) <= GetDelay(attempt, c1)
  {
    if attempt > 1 {
      DivIsAntitone(UNIT * attempt % ULONG_LIMIT, c1, c2);
    }
  }

  lemma MulIsMonotone(d: nat, a: int, b: int)
    ensures a <= b ==> d * a <= d * b
  {
  }

  lemma DivIsMonotone(x: nat, y: nat, d: nat)
    requires x <= y && d > 0
    ensures x / d <= y / d
  {
    var qx, qy := x / d, y / d;
    assert d * qx <= x;
    assert y < d * (qy + 1);
    MulIsMonotone(d, qy + 1, qx);
  }

  lemma DivIsAntitone(x: nat, d1: nat, d2: nat)
    requires 0 < d1 <= d2
    ensures x / d2 <= x / d1
  {
    var q := x / d2;
    assert d2 * q <= x;
    MulIsMonotone(q, d1, d2);
    assert x < d1 * (x / d1 + 1);
    MulIsMonotone(d1, x / d1 + 1, q);
  }

  /** The cap: from attempt 180*cnt up to the wrap-around the delay is 30 minutes. */
  lemma GetDelayCap(attempt: ULong, cnt: ULong)
    requires cnt != 0 && MAX_DELAY * cnt <= UNIT * attempt < ULONG_LIMIT && attempt > 1
    ensures GetDelay(attempt, cnt) == MAX_DELAY
  {
    var x := UNIT * attempt;
    var q := x / cnt;
    assert x < cnt * (q + 1);
    MulIsMonotone(cnt, q + 1, MAX_DELAY);
    assert q >= MAX_DELAY;
  }

  /** The 32-bit product wraps at attempt 429496730: the delay falls back from 1800 to 4 seconds. */
  lemma GetDelayWrapsAround()
    ensures GetDelay(429496729, 1) == MAX_DELAY
    ensures GetDelay(429496730, 1) == 4
  {
  }

  // ---------------------------------------------------------------------
  // Interruptible sleep
  // ---------------------------------------------------------------------

  const RESOLUTION: int := 5

  /**
   C++ `/` on int: the quotient truncated toward zero. What is left over,
   a - q*b, is smaller than the divisor and has the sign of the dividend.
   */
  function TruncDiv(a: int, b: int): (q: int)
    requires b > 0
    ensures a >= 0 ==> 0 <= a - q * b < b
    ensures a < 0 ==> -b < a - q * b <= 0
  {
    if a >= 0 then a / b else -((-a) / b)
  }

  /** C++ `%` on int: the remainder takes the sign of the dividend. */
  function TruncRem(a: int, b: int): (r: int)
    requires b > 0
    ensures a == TruncDiv(a, b) * b + r
    ensures -b < r < b && (a >= 0 ==> r >= 0) && (a <= 0 ==> r <= 0)
  {
    a - TruncDiv(a, b) * b
  }

  /**
   `seconds/RESOLUTION + bool(seconds % RESOLUTION)`: the number of 5-second
   slices sleep runs. For a non-negative delay this is the delay divided by
   5 and rounded up. The delays the driver passes are never negative; one
   of -4 .. -1 seconds would still give one slice, one of -5 or less none.
   */
  function SliceCount(seconds: int): (n: int)
    ensures seconds >= 0 ==> n == (seconds + RESOLUTION - 1) / RESOLUTION
    ensures seconds < 0 ==> n <= 1 && (seconds <= -RESOLUTION ==> n <= 0)
  {
    TruncDiv(seconds, RESOLUTION) + (if TruncRem(seconds, RESOLUTION) != 0 then 1 else 0)
  }

  /** For a non-negative delay the slices cover it with less than one slice to spare; 0 seconds means no slice. */
  lemma SliceCountCovers(seconds: int)
    requires seconds >= 0
    ensures SliceCount(seconds) >= 0
    ensures RESOLUTION * SliceCount(seconds) >= seconds
    ensures RESOLUTION * SliceCount(seconds) < seconds + RESOLUTION
    ensures SliceCount(seconds) == 0 <==> seconds == 0
  {
    var q, r := TruncDiv(seconds, RESOLUTION), TruncRem(seconds, RESOLUTION);
    assert seconds == q * RESOLUTION + r && 0 <= r < RESOLUTION;
  }

  /** The cap of 1800 seconds is slept as at most 360 slices. */
  lemma SliceCountOfMaxDelay()
    ensures SliceCount(MAX_DELAY) == 360
  {
  }

  // ---------------------------------------------------------------------
  // Retry classification
  // ---------------------------------------------------------------------

  /** The transport-establishment failures after which a record is kept for another round. */
  const RETRYABLE: set<NtStatus> := {ErrorUsbipAddrinfo, ErrorUsbipConnect, ErrorUsbipNetwork}

  /** can_retry(error). */
  function CanRetry(error: NtStatus): (r: bool)
    ensures r <==> error in RETRYABLE
  {
    match error
    case ErrorUsbipAddrinfo => true
    case ErrorUsbipConnect => true
    case ErrorUsbipNetwork => true
    case _ => false
  }

  // ---------------------------------------------------------------------
  // Parsing a persisted record
  // ---------------------------------------------------------------------

  const SEPARATOR: char := ','

  /**
   empty(s): no characters, or a NUL first character. Read as a C string,
   the record holds no text before its terminator.
   */
  predicate Empty(s: Line)
    ensures Empty(s) <==> s[..IndexOf(s, '\0')] == []
  {
    |s| == 0 || s[0] == '\0'
  }

  /** The index of the first `sep` in `s`, or |s|. */
  function IndexOf(s: Line, sep: char): (i: nat)
    ensures i <= |s|
    ensures sep !in s[..i]
    ensures i < |s| ==> s[i] == sep
  {
    if s == [] then 0
    else if s[0] == sep then 0
    else 1 + IndexOf(s[1..], sep)
  }

  /**
   libdrv::split(head, tail, str, sep): the text before the first separator
   and the text after it; without a separator, all of `str` and nothing.
   */
  function Split(s: Line, sep: char): (r: (Line, Line))
    ensures sep !in r.0
    ensures sep in s ==> s == r.0 + [sep] + r.1
    ensures sep !in s ==> r.0 == s && r.1 == []
  {
    var i := IndexOf(s, sep);
    if i < |s| then (s[..i], s[i + 1..])
    else (s, [])
  }

  lemma {:induction false} IndexOfFirst(head: Line, sep: char, tail: Line)
    requires sep !in head
    ensures IndexOf(head + [sep] + tail, sep) == |head|
  {
    if head != [] {
      assert (head + [sep] + tail)[1..] == head[1..] + [sep] + tail;
      IndexOfFirst(head[1..], sep, tail);
    }
  }

  /** Splitting `head + [sep] + tail` where `head` has no separator gives back the two parts. */
  lemma SplitAtFirst(head: Line, sep: char, tail: Line)
    requires sep !in head
    ensures Split(head + [sep] + tail, sep) == (head, tail)
  {
    var s := head + [sep] + tail;
    IndexOfFirst(head, sep, tail);
    assert s[..|head|] == head;
    assert s[|head| + 1..] == tail;
  }

  /** The record split into host, service and bus-id texts, before conversion. */
  datatype Record = Record(host: Line, service: Line, busid: Line)

  /**
   The splitting and checking half of parse_string: host is the text before
   the first comma, service the text before the next comma, bus-id the rest
   verbatim; any empty field makes the record STATUS_INVALID_PARAMETER.
   */
  function SplitRecord(str: Line): (r: Result<Record, NtStatus>)
    ensures r.Err? ==> r.error == StatusInvalidParameter
  {
    var (host, rest) := Split(str, SEPARATOR);
    if Empty(host) then Err(StatusInvalidParameter)
    else
      var (service, busid) := Split(rest, SEPARATOR);
      if Empty(service) || Empty(busid) then Err(StatusInvalidParameter)
      else Ok(Record(host, service, busid))
  }

  /** `host,service,busid` with no comma in host or service. */
  ghost predicate Joins(str: Line, rec: Record)
  {
    && str == rec.host + [SEPARATOR] + rec.service + [SEPARATOR] + rec.busid
    && SEPARATOR !in rec.host
    && SEPARATOR !in rec.service
  }

  /** Whatever SplitRecord accepts is three non-empty fields joined by the first two commas. */
  lemma SplitRecordSound(str: Line)
    requires SplitRecord(str).Ok?
    ensures var rec := SplitRecord(str).value;
      Joins(str, rec) && !Empty(rec.host) && !Empty(rec.service) && !Empty(rec.busid)
  {
    var first := Split(str, SEPARATOR);
    var second := Split(first.1, SEPARATOR);
    assert SplitRecord(str) == Ok(Record(first.0, second.0, second.1));
    assert first.1 != [];
    assert SEPARATOR in str;
    assert second.1 != [];
    assert SEPARATOR in first.1;
    JoinAssociates(first.0, second.0, second.1);
  }

  lemma JoinAssociates(a: Line, b: Line, c: Line)
    ensures a + [SEPARATOR] + (b + [SEPARATOR] + c) == a + [SEPARATOR] + b + [SEPARATOR] + c
  {
  }

  /** Three non-empty fields joined by commas, none in host or service, are split back exactly. */
  lemma SplitRecordComplete(rec: Record)
    requires SEPARATOR !in rec.host && SEPARATOR !in rec.service
    requires !Empty(rec.host) && !Empty(rec.service) && !Empty(rec.busid)
    ensures SplitRecord(rec.host + [SEPARATOR] + rec.service + [SEPARATOR] + rec.busid) == Ok(rec)
  {
    var rest := rec.service + [SEPARATOR] + rec.busid;
    var str := rec.host + [SEPARATOR] + rec.service + [SEPARATOR] + rec.busid;
    assert str == rec.host + [SEPARATOR] + rest;
    SplitAtFirst(rec.host, SEPARATOR, rest);
    SplitAtFirst(rec.service, SEPARATOR, rec.busid);
  }

  /** A record with an empty host, service or bus-id never splits into fields. */
  lemma SplitRecordRejectsEmptyField(rec: Record)
    requires SEPARATOR !in rec.host && SEPARATOR !in rec.service
    requires Empty(rec.host) || Empty(rec.service) || Empty(rec.busid)
    ensures SplitRecord(rec.host + [SEPARATOR] + rec.service + [SEPARATOR] + rec.busid) == Err(StatusInvalidParameter)
  {
    var rest := rec.service + [SEPARATOR] + rec.busid;
    assert rec.host + [SEPARATOR] + rec.service + [SEPARATOR] + rec.busid == rec.host + [SEPARATOR] + rest;
    SplitAtFirst(rec.host, SEPARATOR, rest);
    SplitAtFirst(rec.service, SEPARATOR, rec.busid);
  }

  /** Worked example: `h,s,b` gives host `h`, service `s`, bus-id `b`. */
  lemma SplitRecordExample()
    ensures SplitRecord("h,s,b") == Ok(Record("h", "s", "b"))
  {
    assert "h,s,b" == "h" + [SEPARATOR] + "s,b";
    SplitAtFirst("h", SEPARATOR, "s,b");
    assert "s,b" == "s" + [SEPARATOR] + "b";
    SplitAtFirst("s", SEPARATOR, "b");
  }

  /** Worked example: only the first two commas split, so `h,s,b,x` has bus-id `b,x`. */
  lemma SplitRecordExampleCommaInBusId()
    ensures SplitRecord("h,s,b,x") == Ok(Record("h", "s", "b,x"))
  {
    assert "h,s,b,x" == "h" + [SEPARATOR] + "s,b,x";
    SplitAtFirst("h", SEPARATOR, "s,b,x");
    assert "s,b,x" == "s" + [SEPARATOR] + "b,x";
    SplitAtFirst("s", SEPARATOR, "b,x");
  }

  /** Worked example: `h,,b` has an empty service and is rejected. */
  lemma SplitRecordExampleNoService()
    ensures SplitRecord("h,,b") == Err(StatusInvalidParameter)
  {
    assert "h,,b" == "h" + [SEPARATOR] + ",b";
    SplitAtFirst("h", SEPARATOR, ",b");
    assert ",b" == [] + [SEPARATOR] + "b";
    SplitAtFirst([], SEPARATOR, "b");
  }

  /** Worked example: `,s,b` has an empty host and is rejected. */
  lemma SplitRecordExampleNoHost()
    ensures SplitRecord(",s,b") == Err(StatusInvalidParameter)
  {
    assert ",s,b" == [] + [SEPARATOR] + "s,b";
    SplitAtFirst([], SEPARATOR, "s,b");
  }

  /** Worked example: `h,s,` has an empty bus-id and is rejected. */
  lemma SplitRecordExampleNoBusId()
    ensures SplitRecord("h,s,") == Err(StatusInvalidParameter)
  {
    assert "h,s," == "h" + [SEPARATOR] + "s,";
    SplitAtFirst("h", SEPARATOR, "s,");
    assert "s," == "s" + [SEPARATOR] + [];
    SplitAtFirst("s", SEPARATOR, []);
  }

  /** A record with a single comma has no bus-id and is rejected. */
  lemma SplitRecordRejectsTwoFields(host: Line, service: Line)
    requires SEPARATOR !in host && SEPARATOR !in service
    ensures SplitRecord(host + [SEPARATOR] + service).Err?
  {
    SplitAtFirst(host, SEPARATOR, service);
  }

  // ---------------------------------------------------------------------
  // Converting the fields
  // ---------------------------------------------------------------------

  /** One conversion copy performs: a destination field and its source text. */
  datatype Job = Job(field: Field, src: Line)

  /** The status each job's conversion reports, in job order. */
  function Statuses(conv: Utf8Oracle, jobs: seq<Job>): (s: seq<NtStatus>)
    ensures |s| == |jobs|
    ensures forall i :: 0 <= i < |jobs| ==> s[i] == conv(jobs[i].field, jobs[i].src).status
  {
    seq(|jobs|, i requires 0 <= i < |jobs| => conv(jobs[i].field, jobs[i].src).status)
  }

  /**
   The loop of usbip::copy: convert each job in order and return the first
   failing status; on success, the converted bytes in job order.
   */
  function ConvertEach(conv: Utf8Oracle, jobs: seq<Job>): (r: Result<seq<seq<byte>>, NtStatus>)
    ensures r.Ok? <==> FirstFailure(Statuses(conv, jobs)) == |jobs|
    ensures r.Ok? ==> (|r.value| == |jobs| &&
      forall i :: 0 <= i < |jobs| ==> r.value[i] == conv(jobs[i].field, jobs[i].src).bytes)
    ensures r.Err? ==> r.error == Statuses(conv, jobs)[FirstFailure(Statuses(conv, jobs))]
  {
    if jobs == [] then Ok([])
    else
      var c := conv(jobs[0].field, jobs[0].src);
      assert Statuses(conv, jobs)[1..] == Statuses(conv, jobs[1..]);
      if c.status.Failed() then Err(c.status)
      else match ConvertEach(conv, jobs[1..])
        case Ok(rest) => Ok([c.bytes] + rest)
        case Err(e) => Err(e)
  }

  /**
   Nothing after the first failing job is converted: the result is the same
   as for the jobs up to and including it, whatever follows.
   */
  lemma {:induction false} ConvertEachStopsAtFirstFailure(conv: Utf8Oracle, jobs: seq<Job>, later: seq<Job>)
    requires FirstFailure(Statuses(conv, jobs)) < |jobs|
    ensures ConvertEach(conv, jobs + later) == ConvertEach(conv, jobs)
  {
    assert (jobs + later)[0] == jobs[0];
    if !conv(jobs[0].field, jobs[0].src).status.Failed() {
      assert (jobs + later)[1..] == jobs[1..] + later;
      assert Statuses(conv, jobs)[1..] == Statuses(conv, jobs[1..]);
      ConvertEachStopsAtFirstFailure(conv, jobs[1..], later);
    }
  }

  /** usbip::copy: host, then service, then bus-id. */
  function Copy(conv: Utf8Oracle, rec: Record): (r: Result<Fields, NtStatus>)
    ensures r.Ok? <==>
      && !conv(Host, rec.host).status.Failed()
      && !conv(Service, rec.service).status.Failed()
      && !conv(BusId, rec.busid).status.Failed()
    ensures r.Ok? ==> r.value == Fields(conv(Host, rec.host).bytes, conv(Service, rec.service).bytes, conv(BusId, rec.busid).bytes)
    ensures conv(Host, rec.host).status.Failed() ==> r == Err(conv(Host, rec.host).status)
    ensures !conv(Host, rec.host).status.Failed() && conv(Service, rec.service).status.Failed() ==>
      r == Err(conv(Service, rec.service).status)
    ensures (!conv(Host, rec.host).status.Failed() && !conv(Service, rec.service).status.Failed()
      && conv(BusId, rec.busid).status.Failed()) ==> r == Err(conv(BusId, rec.busid).status)
  {
    var jobs := [Job(Host, rec.host), Job(Service, rec.service), Job(BusId, rec.busid)];
    match ConvertEach(conv, jobs)
    case Ok(bytes) => Ok(Fields(bytes[0], bytes[1], bytes[2]))
    case Err(e) => Err(e)
  }

  /** parse_string: split and check the record, then convert its three fields. */
  function ParseString(str: Line, conv: Utf8Oracle): (r: Result<Fields, NtStatus>)
    ensures SplitRecord(str).Err? ==> r == Err(StatusInvalidParameter)
    ensures SplitRecord(str).Ok? ==> r == Copy(conv, SplitRecord(str).value)
  {
    match SplitRecord(str)
    case Err(e) => Err(e)
    case Ok(rec) => Copy(conv, rec)
  }

  // ---------------------------------------------------------------------
  // One record
  // ---------------------------------------------------------------------

  /** The request plugin_hardware sends: the converted fields with port reset to 0. */
  function RequestFor(f: Fields): (req: PluginRequest)
    ensures req.port == 0
    ensures req.host == f.host && req.service == f.service && req.busid == f.busid
  {
    PluginRequest(f.host, f.service, f.busid, 0)
  }

  /**
   plugin_hardware: true ("remove") for a malformed record, for a successful
   attach and for a failure that retrying cannot fix; false only when the
   attach failed with a retryable network error.
   */
  function PluginHardware(line: Line, conv: Utf8Oracle, ioctl: IoctlOracle): (remove: bool)
    ensures !remove <==>
      ParseString(line, conv).Ok? && ioctl(RequestFor(ParseString(line, conv).value)) in RETRYABLE
    ensures ParseString(line, conv).Err? ==> remove
  {
    match ParseString(line, conv)
    case Err(_) => true
    case Ok(f) =>
      var err := ioctl(RequestFor(f));
      if err.Failed() then !CanRetry(err) else true
  }

  // ---------------------------------------------------------------------
  // Retry rounds
  // ---------------------------------------------------------------------

  /**
   The IOCTL's answer to every call the replay can make: the round (0 for
   the first pass over the records, counted without wrapping), how many
   records that round handled before this call, and the request. Every call
   is a separate exchange with the driver, so two identical records may be
   answered differently, in the same round or in different rounds.
   */
  type IoctlCalls = (nat, nat, PluginRequest) -> NtStatus

  /** The IOCTL as seen by the j-th record handled in round `round`. */
  function Send(ioctl: IoctlCalls, round: nat, j: nat): IoctlOracle
  {
    (req: PluginRequest) => ioctl(round, j, req)
  }

  /**
   Whether to remove a record, for every call the retry loop can make:
   `decide(round, j, line)` answers for `line` handled as the j-th record
   of round `round`.
   */
  type Decisions = (nat, nat, Line) -> bool

  /** plugin_hardware's answers, each with the IOCTL answer of its own call. */
  function Decider(conv: Utf8Oracle, ioctl: IoctlCalls): (decide: Decisions)
    ensures forall r, j, line :: decide(r, j, line) == PluginHardware(line, conv, Send(ioctl, r, j))
  {
    (r: nat, j: nat, line: Line) => PluginHardware(line, conv, Send(ioctl, r, j))
  }

  /** The answers of round `round`, by position in the round and record. */
  function RoundDecision(decide: Decisions, round: nat): (remove: (nat, Line) -> bool)
    ensures forall j, line :: remove(j, line) == decide(round, j, line)
  {
    (j: nat, line: Line) => decide(round, j, line)
  }

  /** No call of any round would remove `x`. */
  ghost predicate AlwaysKept(decide: Decisions, x: Line)
  {
    forall r: nat, j: nat :: !decide(r, j, x)
  }

  /**
   The records a round keeps, in order: the record at position `from + k`
   is dropped when `remove(from + k, record)` holds.
   */
  function Survivors(lines: seq<Line>, remove: (nat, Line) -> bool, from: nat): (kept: seq<Line>)
    ensures |kept| <= |lines|
    decreases |lines|
  {
    if lines == [] then []
    else (if remove(from, lines[0]) then [] else [lines[0]]) + Survivors(lines[1..], remove, from + 1)
  }

  lemma {:induction false} SurvivorsAppend(a: seq<Line>, b: seq<Line>, remove: (nat, Line) -> bool, from: nat)
    ensures Survivors(a + b, remove, from) == Survivors(a, remove, from) + Survivors(b, remove, from + |a|)
    decreases |a|
  {
    if a == [] {
      assert a + b == b;
    } else {
      assert (a + b)[0] == a[0];
      assert (a + b)[1..] == a[1..] + b;
      SurvivorsAppend(a[1..], b, remove, from + 1);
    }
  }

  /** `sub` is `s` with some elements removed, the rest in their original order. */
  ghost predicate IsSubsequence<T>(sub: seq<T>, s: seq<T>)
    decreases |s|
  {
    if sub == [] then true
    else if s == [] then false
    else (sub[0] == s[0] && IsSubsequence(sub[1..], s[1..])) || IsSubsequence(sub, s[1..])
  }

  lemma {:induction false} SubsequenceOfSelf<T>(s: seq<T>)
    ensures IsSubsequence(s, s)
  {
    if s != [] {
      SubsequenceOfSelf(s[1..]);
    }
  }

  lemma {:induction false} SubsequenceTransitive<T>(a: seq<T>, b: seq<T>, c: seq<T>)
    requires IsSubsequence(a, b) && IsSubsequence(b, c)
    ensures IsSubsequence(a, c)
    decreases |c|
  {
    if a != [] {
      if b[0] == c[0] && IsSubsequence(b[1..], c[1..]) {
        if a[0] == b[0] && IsSubsequence(a[1..], b[1..]) {
          SubsequenceTransitive(a[1..], b[1..], c[1..]);
        } else {
          SubsequenceTransitive(a, b[1..], c[1..]);
        }
      } else {
        SubsequenceTransitive(a, b, c[1..]);
      }
    }
  }

  /** Anything that can be dropped from a sequence can be dropped after a prefix too. */
  lemma {:induction false} SubsequenceAfterPrefix<T>(a: seq<T>, b: seq<T>, prefix: seq<T>)
    requires IsSubsequence(a, b)
    ensures IsSubsequence(a, prefix + b)
    decreases |prefix|
  {
    if prefix == [] {
      assert prefix + b == b;
    } else if a != [] {
      assert (prefix + b)[1..] == prefix[1..] + b;
      SubsequenceAfterPrefix(a, b, prefix[1..]);
    }
  }

  lemma {:induction false} SubsequenceAppend<T>(a: seq<T>, b: seq<T>, c: seq<T>)
    requires IsSubsequence(a, b)
    ensures IsSubsequence(a + c, b + c)
    decreases |b|
  {
    if a == [] {
      assert a + c == c;
      SubsequenceOfSelf(c);
      SubsequenceAfterPrefix(c, c, b);
    } else {
      assert (a + c)[0] == a[0] && (a + c)[1..] == a[1..] + c;
      assert (b + c)[0] == b[0] && (b + c)[1..] == b[1..] + c;
      if a[0] == b[0] && IsSubsequence(a[1..], b[1..]) {
        SubsequenceAppend(a[1..], b[1..], c);
      } else {
        SubsequenceAppend(a, b[1..], c);
      }
    }
  }

  /** Replacing a prefix by a subsequence of it gives a subsequence of the whole. */
  lemma SubsequenceSplice<T>(kept: seq<T>, s: seq<T>, n: nat)
    requires n <= |s| && IsSubsequence(kept, s[..n])
    ensures IsSubsequence(kept + s[n..], s)
  {
    SubsequenceAppend(kept, s[..n], s[n..]);
    assert s[..n] + s[n..] == s;
  }

  /** A round keeps its records in their original relative order. */
  lemma {:induction false} SurvivorsIsSubsequence(lines: seq<Line>, remove: (nat, Line) -> bool, from: nat)
    ensures IsSubsequence(Survivors(lines, remove, from), lines)
    decreases |lines|
  {
    if lines != [] {
      SurvivorsIsSubsequence(lines[1..], remove, from + 1);
      var rest := Survivors(lines[1..], remove, from + 1);
      if remove(from, lines[0]) {
        assert Survivors(lines, remove, from) == rest;
        SubsequenceAfterPrefix(rest, lines[1..], [lines[0]]);
        assert [lines[0]] + lines[1..] == lines;
      } else {
        assert Survivors(lines, remove, from) == [lines[0]] + rest;
        assert ([lines[0]] + rest)[1..] == rest;
      }
    }
  }

  /** A round never adds occurrences of a record. */
  lemma {:induction false} SurvivorsNeverAdd(lines: seq<Line>, remove: (nat, Line) -> bool, from: nat, x: Line)
    ensures multiset(Survivors(lines, remove, from))[x] <= multiset(lines)[x]
    decreases |lines|
  {
    if lines != [] {
      var tail := lines[1..];
      SurvivorsNeverAdd(tail, remove, from + 1, x);
      SurvivorsSplit(lines, remove, from, x);
    }
  }

  /** If every position holding x answers "keep", all occurrences of x stay. */
  lemma {:induction false} SurvivorsKeepAll(lines: seq<Line>, remove: (nat, Line) -> bool, from: nat, x: Line)
    requires forall k :: 0 <= k < |lines| && lines[k] == x ==> !remove(from + k, x)
    ensures multiset(Survivors(lines, remove, from))[x] == multiset(lines)[x]
    decreases |lines|
  {
    if lines != [] {
      var tail := lines[1..];
      forall k | 0 <= k < |tail| && tail[k] == x
        ensures !remove(from + 1 + k, x)
      {
        assert lines[k + 1] == tail[k];
      }
      SurvivorsKeepAll(tail, remove, from + 1, x);
      SurvivorsSplit(lines, remove, from, x);
      if lines[0] == x {
        assert !remove(from + 0, x);
      }
    }
  }

  /** If every position holding x answers "remove", no occurrence of x stays. */
  lemma {:induction false} SurvivorsDropAll(lines: seq<Line>, remove: (nat, Line) -> bool, from: nat, x: Line)
    requires forall k :: 0 <= k < |lines| && lines[k] == x ==> remove(from + k, x)
    ensures multiset(Survivors(lines, remove, from))[x] == 0
    decreases |lines|
  {
    if lines != [] {
      var tail := lines[1..];
      forall k | 0 <= k < |tail| && tail[k] == x
        ensures remove(from + 1 + k, x)
      {
        assert lines[k + 1] == tail[k];
      }
      SurvivorsDropAll(tail, remove, from + 1, x);
      SurvivorsSplit(lines, remove, from, x);
      if lines[0] == x {
        assert remove(from + 0, x);
      }
    }
  }

  /** The occurrences of x in a non-empty stretch and in what survives of it: the first record's share plus the rest's. */
  lemma SurvivorsSplit(lines: seq<Line>, remove: (nat, Line) -> bool, from: nat, x: Line)
    requires lines != []
    ensures multiset(lines)[x] == (if lines[0] == x then 1 else 0) + multiset(lines[1..])[x]
    ensures multiset(Survivors(lines, remove, from))[x] ==
      (if lines[0] == x && !remove(from, lines[0]) then 1 else 0) + multiset(Survivors(lines[1..], remove, from + 1))[x]
  {
    var head := if remove(from, lines[0]) then [] else [lines[0]];
    assert Survivors(lines, remove, from) == head + Survivors(lines[1..], remove, from + 1);
    assert lines == [lines[0]] + lines[1..];
  }

  // ---------------------------------------------------------------------
  // Reading the stop flag
  // ---------------------------------------------------------------------

  /**
   A loop of at most `n` steps that reads the stop flag before each step
   and ends at the first read that finds it set, its first read being read
   number `at`; the flag reads as set from read number `stopFrom` on. The
   result is how many steps start: every one of them follows a read that
   found the flag clear (the last of those reads, number at + k - 1, comes
   before `stopFrom`), and the loop ends short only on a read that found
   it set.
   */
  function GatedSteps(n: int, at: nat, stopFrom: nat): (k: nat)
    ensures n <= 0 ==> k == 0
    ensures n > 0 ==> k <= n
    ensures k > 0 ==> at + k <= stopFrom
    ensures k < n ==> at + k >= stopFrom
  {
    if n <= 0 || at >= stopFrom then 0 else Min(n, stopFrom - at)
  }

  /** How many reads that loop makes: one before each step, and the one that ended it short, if any. */
  function GatedReads(n: int, at: nat, stopFrom: nat): nat
  {
    GatedSteps(n, at, stopFrom) + (if GatedSteps(n, at, stopFrom) < n then 1 else 0)
  }

  /** The reads decide the loop: any step count that fits the description of GatedSteps is GatedSteps. */
  lemma GatedStepsUnique(n: int, at: nat, stopFrom: nat, k: nat)
    requires n <= 0 ==> k == 0
    requires n > 0 ==> k <= n
    requires k > 0 ==> at + k <= stopFrom
    requires k < n ==> at + k >= stopFrom
    ensures k == GatedSteps(n, at, stopFrom)
  {
  }

  /** ARRAYSIZE(ctx.devices): a C++ array has at least one element. */
  type Capacity = n: int | 0 < n < ULONG_LIMIT witness 1

  /** The driver's context as the replay sees it. */
  class VhciCtx {
    /**
     ctx.stop_thread is set by another thread at a moment of its choosing
     and never cleared, so the replay's reads of it find it clear up to some
     read and set from then on. `stopFrom` is the number of the first read
     that finds it set; a flag that is never set is a `stopFrom` beyond
     every read the replay makes.
     */
    const stopFrom: nat
    /** How many times the replay has read the flag. */
    var polls: nat
    /** ARRAYSIZE(ctx.devices): at most this many records are handled per round. */
    const devicesCapacity: Capacity

    constructor (capacity: Capacity, stopFrom: nat)
      ensures devicesCapacity == capacity && this.stopFrom == stopFrom && polls == 0
    {
      devicesCapacity := capacity;
      this.stopFrom := stopFrom;
      polls := 0;
    }

    /** One read of the volatile flag: set exactly when this read comes at or after `stopFrom`. */
    method PollStop() returns (stop: bool)
      modifies this`polls
      ensures stop <==> old(polls) >= stopFrom
      ensures polls == old(polls) + 1
    {
      stop := polls >= stopFrom;
      polls := polls + 1;
    }

    /**
     sleep(seconds, stopped): up to SliceCount(seconds) waits of RESOLUTION
     seconds, the flag read before each; returns how many waits started.
     */
    method Sleep(seconds: int) returns (slices: nat)
      modifies this`polls
      ensures slices == GatedSteps(SliceCount(seconds), old(polls), stopFrom)
      ensures polls == old(polls) + GatedReads(SliceCount(seconds), old(polls), stopFrom)
    {
      var n := SliceCount(seconds);
      slices := 0;
      while slices < n
        invariant slices <= n || slices == 0
        invariant polls == old(polls) + slices
        invariant slices > 0 ==> polls <= stopFrom
        decreases n - slices
      {
        var stop := PollStop();
        if stop {
          return;
        }
        // KeDelayExecutionThread for RESOLUTION seconds
        slices := slices + 1;
      }
    }
  }

  /** The persisted records still pending, as held in a WDFCOLLECTION of strings. */
  class Collection {
    var items: seq<Line>

    constructor (lines: seq<Line>)
      ensures items == lines
    {
      items := lines;
    }

    /** WdfCollectionRemove of the item at index i. */
    method Remove(i: nat)
      requires i < |items|
      modifies this`items
      ensures items == old(items[..i] + items[i + 1..])
    {
      items := items[..i] + items[i + 1..];
    }
  }

  /**
   The inner loop of plugin_persistent_devices: walk the first cnt records
   with index i, removing each record plugin_hardware answers true for and
   stepping over the others, the flag read before each record, until cnt
   records are handled or a read finds the flag set. `processed` is how
   many records were handled; they are replaced by their survivors, in
   order, and the rest is untouched.
   */
  method PluginRound(ctx: VhciCtx, col: Collection, cnt: nat, remove: (nat, Line) -> bool)
    returns (processed: nat)
    requires cnt <= |col.items|
    modifies ctx`polls, col`items
    ensures processed == GatedSteps(cnt, old(ctx.polls), ctx.stopFrom)
    ensures ctx.polls == old(ctx.polls) + GatedReads(cnt, old(ctx.polls), ctx.stopFrom)
    ensures col.items == RoundResult(old(col.items), processed, remove)
  {
    ghost var orig := col.items;
    ghost var kept: seq<Line> := [];
    var i, remaining := 0, cnt;
    processed := 0;
    while i < remaining
      invariant processed <= cnt && remaining == i + (cnt - processed)
      invariant kept == Survivors(orig[..processed], remove, 0) && |kept| == i
      invariant col.items == kept + orig[processed..]
      invariant ctx.polls == old(ctx.polls) + processed
      invariant processed > 0 ==> ctx.polls <= ctx.stopFrom
      decreases remaining - i
    {
      var stop := ctx.PollStop();
      if stop {
        break;
      }
      RoundStepOn(orig, processed, remove, kept, col.items);
      if remove(processed, col.items[i]) {
        col.Remove(i);
        remaining := remaining - 1;
      } else {
        kept := kept + [orig[processed]];
        i := i + 1;
      }
      processed := processed + 1;
    }
  }

  /**
   One step of a round on the collection: the record at index
   |kept prefix| is the next unhandled one; removing it, or stepping over
   it, leaves the collection in the shape the round's invariant describes
   with one more record handled.
   */
  lemma RoundStepOn(orig: seq<Line>, processed: nat, remove: (nat, Line) -> bool, kept: seq<Line>, items: seq<Line>)
    requires processed < |orig|
    requires kept == Survivors(orig[..processed], remove, 0)
    requires items == kept + orig[processed..]
    ensures |kept| < |items| && items[|kept|] == orig[processed]
    ensures remove(processed, orig[processed]) ==>
      && Survivors(orig[..processed + 1], remove, 0) == kept
      && items[..|kept|] + items[|kept| + 1..] == kept + orig[processed + 1..]
    ensures !remove(processed, orig[processed]) ==>
      && Survivors(orig[..processed + 1], remove, 0) == kept + [orig[processed]]
      && items == (kept + [orig[processed]]) + orig[processed + 1..]
  {
    RoundStep(orig, processed, remove);
    var rest := orig[processed..];
    assert rest[0] == orig[processed] && rest[1..] == orig[processed + 1..];
    assert items[..|kept|] == kept;
    assert items[|kept| + 1..] == rest[1..];
    assert items == (kept + [rest[0]]) + rest[1..];
  }

  /** Handling one more record appends its survivor, if any, to the kept prefix. */
  lemma RoundStep(lines: seq<Line>, processed: nat, remove: (nat, Line) -> bool)
    requires processed < |lines|
    ensures Survivors(lines[..processed + 1], remove, 0) ==
      Survivors(lines[..processed], remove, 0) + (if remove(processed, lines[processed]) then [] else [lines[processed]])
  {
    assert lines[..processed + 1] == lines[..processed] + [lines[processed]];
    SurvivorsAppend(lines[..processed], [lines[processed]], remove, 0);
    assert Survivors([lines[processed]], remove, processed) ==
      (if remove(processed, lines[processed]) then [] else [lines[processed]]) + Survivors([], remove, processed + 1);
  }

  /** What a round with answers `remove` leaves of `before` when it handled its first `processed` records. */
  ghost function RoundResult(before: seq<Line>, processed: nat, remove: (nat, Line) -> bool): seq<Line>
    requires processed <= |before|
  {
    Survivors(before[..processed], remove, 0) + before[processed..]
  }

  /** What a round leaves is a subsequence of what it started with. */
  lemma RoundKeepsOrder(lines: seq<Line>, processed: nat, remove: (nat, Line) -> bool)
    requires processed <= |lines|
    ensures IsSubsequence(RoundResult(lines, processed, remove), lines)
  {
    SurvivorsIsSubsequence(lines[..processed], remove, 0);
    SubsequenceSplice(Survivors(lines[..processed], remove, 0), lines, processed);
  }

  /** A record that no call would remove keeps all its occurrences through a round. */
  lemma RoundKeepsAlwaysKept(before: seq<Line>, processed: nat, decide: Decisions, round: nat, x: Line)
    requires processed <= |before| && AlwaysKept(decide, x)
    ensures multiset(RoundResult(before, processed, RoundDecision(decide, round)))[x] == multiset(before)[x]
  {
    var remove := RoundDecision(decide, round);
    assert forall j :: 0 <= j < processed ==> !remove(j, x);
    SurvivorsKeepAll(before[..processed], remove, 0, x);
    assert before == before[..processed] + before[processed..];
  }

  /** What one round did: the waits of its backoff sleep, the records it handled, and the flag reads after its opening one. */
  datatype RoundCounts = RoundCounts(slept: nat, handled: nat, polls: nat)

  /** The 5-second waits the backoff of a round asks for: none exactly when get_delay is 0, else enough to cover it. */
  function Backoff(attempt: ULong, cnt: ULong): (n: nat)
    requires cnt != 0
    ensures n == 0 <==> GetDelay(attempt, cnt) == 0
    ensures GetDelay(attempt, cnt) <= RESOLUTION * n < GetDelay(attempt, cnt) + RESOLUTION
  {
    SliceCountCovers(GetDelay(attempt, cnt));
    SliceCount(GetDelay(attempt, cnt))
  }

  /**
   One round once its opening read found the flag clear, its next read
   being read number `at`: sleep(get_delay(attempt, cnt)) when the delay is
   not zero, then the inner loop over `cnt` records, every wait and every
   record gated by a read of the flag. The round sleeps its whole backoff
   and handles all cnt records exactly when none of its reads finds the
   flag set, and it handles no record once its sleep was cut short.
   */
  function RoundRun(attempt: ULong, cnt: ULong, at: nat, stopFrom: nat): (c: RoundCounts)
    requires cnt != 0
    ensures c.slept <= Backoff(attempt, cnt) && c.handled <= cnt && c.polls > 0
    ensures c.slept == Backoff(attempt, cnt) && c.handled == cnt <==> at + c.polls <= stopFrom
    ensures c.slept < Backoff(attempt, cnt) ==> c.handled == 0
  {
    var sleepReads := GatedReads(Backoff(attempt, cnt), at, stopFrom);
    RoundCounts(GatedSteps(Backoff(attempt, cnt), at, stopFrom),
                GatedSteps(cnt, at + sleepReads, stopFrom),
                sleepReads + GatedReads(cnt, at + sleepReads, stopFrom))
  }

  /**
   Attempt 2 with one pending record waits 20 seconds, 4 slices: with the
   flag clear throughout, the round makes 4 waits, handles the record and
   reads the flag 5 times.
   */
  lemma RoundRunExampleClear()
    ensures RoundRun(2, 1, 0, 100) == RoundCounts(4, 1, 5)
  {
    assert GetDelay(2, 1) == 20;
    assert SliceCount(20) == 4;
  }

  /**
   The same round when the flag reads as set from read 2 on: two waits
   start, the third read ends the sleep, and the inner loop's one read
   finds the flag set too, so no record is handled.
   */
  lemma RoundRunExampleStopDuringSleep()
    ensures RoundRun(2, 1, 0, 2) == RoundCounts(2, 0, 4)
  {
    assert GetDelay(2, 1) == 20;
    assert SliceCount(20) == 4;
  }

  /**
   One round of plugin_persistent_devices once the flag was found clear:
   the backoff sleep for `cnt` pending records at this attempt, then the
   inner loop over the first `cnt` records with this round's answers.
   */
  method DelayedRound(ctx: VhciCtx, col: Collection, decide: Decisions, round: nat, attempt: ULong, cnt: ULong)
    returns (slices: nat, processed: nat)
    requires 0 < cnt <= |col.items|
    modifies ctx`polls, col`items
    ensures ctx.polls >= old(ctx.polls)
    ensures RoundCounts(slices, processed, ctx.polls - old(ctx.polls)) == RoundRun(attempt, cnt, old(ctx.polls), ctx.stopFrom)
    ensures col.items == RoundResult(old(col.items), processed, RoundDecision(decide, round))
  {
    slices := 0;
    var secs := GetDelay(attempt, cnt);
    if secs != 0 {
      slices := ctx.Sleep(secs);
    }
    var remove := RoundDecision(decide, round);
    processed := PluginRound(ctx, col, cnt, remove);
  }

  /**
   Round r, opened by read number `start` with `before` pending: that read
   found the flag clear with records pending, the round ran as RoundRun
   says for min(count, capacity) records at its attempt number, its last
   read was number `next` - 1, and it left `after`, what its answers leave.
   */
  ghost predicate RoundOf(before: seq<Line>, after: seq<Line>, c: RoundCounts, start: nat, next: nat,
                          r: nat, decide: Decisions, cap: Capacity, stopFrom: nat)
  {
    && start < stopFrom && |before| > 0
    && c == RoundRun(AttemptOf(r), Min(|before|, cap), start + 1, stopFrom)
    && next == start + 1 + c.polls
    && after == RoundResult(before, c.handled, RoundDecision(decide, r))
  }

  /**
   `history[r]` is the collection at the start of round r, `starts[r]` the
   number of the read that opened it, and `log[r]` what it did: every round
   in the log is RoundOf its collection and its opening read.
   */
  ghost predicate Replays(history: seq<seq<Line>>, log: seq<RoundCounts>, starts: seq<nat>,
                          decide: Decisions, cap: Capacity, stopFrom: nat)
  {
    && |history| == |log| + 1 && |starts| == |log| + 1
    && forall r {:trigger log[r]} :: 0 <= r < |log| ==>
         RoundOf(history[r], history[r + 1], log[r], starts[r], starts[r + 1], r, decide, cap, stopFrom)
  }

  lemma ReplaysExtend(history: seq<seq<Line>>, log: seq<RoundCounts>, starts: seq<nat>,
                      decide: Decisions, cap: Capacity, stopFrom: nat, c: RoundCounts, next: seq<Line>, polled: nat)
    requires Replays(history, log, starts, decide, cap, stopFrom)
    requires RoundOf(history[|log|], next, c, starts[|log|], polled, |log|, decide, cap, stopFrom)
    ensures Replays(history + [next], log + [c], starts + [polled], decide, cap, stopFrom)
  {
    var h, l, s := history + [next], log + [c], starts + [polled];
    forall r | 0 <= r < |l|
      ensures RoundOf(h[r], h[r + 1], l[r], s[r], s[r + 1], r, decide, cap, stopFrom)
    {
      if r < |log| {
        assert h[r] == history[r] && h[r + 1] == history[r + 1] && l[r] == log[r];
        assert s[r] == starts[r] && s[r + 1] == starts[r + 1];
      } else {
        assert h[r] == history[|log|] && h[r + 1] == next && l[r] == c;
        assert s[r] == starts[|log|] && s[r + 1] == polled;
      }
    }
  }

  /** After any number of rounds the records left are the original ones with some removed, in order. */
  lemma {:induction false} ReplaysKeepOrder(history: seq<seq<Line>>, log: seq<RoundCounts>, starts: seq<nat>,
                                            decide: Decisions, cap: Capacity, stopFrom: nat, r: nat)
    requires Replays(history, log, starts, decide, cap, stopFrom) && r <= |log|
    ensures IsSubsequence(history[r], history[0])
  {
    if r == 0 {
      SubsequenceOfSelf(history[0]);
    } else {
      ReplaysKeepOrder(history, log, starts, decide, cap, stopFrom, r - 1);
      assert log[r - 1] == log[r - 1];
      RoundKeepsOrder(history[r - 1], log[r - 1].handled, RoundDecision(decide, r - 1));
      SubsequenceTransitive(history[r], history[r - 1], history[0]);
    }
  }

  /** After any number of rounds a record that no call would remove keeps all its occurrences. */
  lemma {:induction false} ReplaysKeepAlwaysKept(history: seq<seq<Line>>, log: seq<RoundCounts>, starts: seq<nat>,
                                                 decide: Decisions, cap: Capacity, stopFrom: nat, r: nat, x: Line)
    requires Replays(history, log, starts, decide, cap, stopFrom) && r <= |log| && AlwaysKept(decide, x)
    ensures multiset(history[r])[x] == multiset(history[0])[x]
  {
    if r > 0 {
      ReplaysKeepAlwaysKept(history, log, starts, decide, cap, stopFrom, r - 1, x);
      assert log[r - 1] == log[r - 1];
      RoundKeepsAlwaysKept(history[r - 1], log[r - 1].handled, decide, r - 1, x);
    }
  }

  /**
   Only the last round can be cut short: every earlier round slept its
   whole backoff and handled min(count, capacity) records, and a last round
   that fell short of either ended on a read that found the flag set.
   */
  lemma ReplaysEarlyRoundsFull(history: seq<seq<Line>>, log: seq<RoundCounts>, starts: seq<nat>,
                               decide: Decisions, cap: Capacity, stopFrom: nat)
    requires Replays(history, log, starts, decide, cap, stopFrom)
    ensures forall r :: 0 <= r < |log| - 1 ==>
      && log[r].slept == Backoff(AttemptOf(r), Min(|history[r]|, cap))
      && log[r].handled == Min(|history[r]|, cap)
    ensures 0 < |log| && (log[|log| - 1].slept < Backoff(AttemptOf(|log| - 1), Min(|history[|log| - 1]|, cap))
                          || log[|log| - 1].handled < Min(|history[|log| - 1]|, cap)) ==>
      starts[|log|] > stopFrom
  {
    forall r | 0 <= r < |log| - 1
      ensures && log[r].slept == Backoff(AttemptOf(r), Min(|history[r]|, cap))
              && log[r].handled == Min(|history[r]|, cap)
    {
      assert log[r + 1] == log[r + 1];
      assert starts[r + 1] < stopFrom;
    }
    if 0 < |log| {
      assert log[|log| - 1] == log[|log| - 1];
    }
  }

  /**
   The retry loop of plugin_persistent_devices over the records in `col`,
   for any answers `decide`: while a read of the flag finds it clear and
   records are pending, a round handles min(count, capacity) records after
   its backoff sleep, up to `rounds` rounds. `history`, `log` and `starts`
   record the rounds run, each as Replays describes; the loop stops before
   `rounds` only on a read that found the flag set or with nothing left.
   */
  method RetryRounds(ctx: VhciCtx, col: Collection, decide: Decisions, rounds: nat)
    returns (done: nat, ghost history: seq<seq<Line>>, ghost log: seq<RoundCounts>, ghost starts: seq<nat>)
    modifies ctx`polls, col`items
    ensures done <= rounds
    ensures Replays(history, log, starts, decide, ctx.devicesCapacity, ctx.stopFrom)
    ensures |log| == done && history[0] == old(col.items) && history[done] == col.items && starts[0] == old(ctx.polls)
    ensures |old(col.items)| == 0 ==> done == 0 && ctx.polls == old(ctx.polls)
    ensures |old(col.items)| > 0 ==> ctx.polls == starts[done] + (if done < rounds then 1 else 0)
    ensures done < rounds ==> |col.items| == 0 || starts[done] >= ctx.stopFrom
  {
    done := 0;
    history, log, starts := [col.items], [], [ctx.polls];
    if |col.items| > 0 {
      var attempt: ULong := 0;
      while done < rounds
        invariant done <= rounds && attempt == AttemptOf(done) && |log| == done
        invariant Replays(history, log, starts, decide, ctx.devicesCapacity, ctx.stopFrom)
        invariant history[0] == old(col.items) && history[done] == col.items
        invariant starts[0] == old(ctx.polls) && starts[done] == ctx.polls
        decreases rounds - done
      {
        var stop := ctx.PollStop();
        if stop {
          break;
        }
        var cnt: ULong := Min(|col.items|, ctx.devicesCapacity);
        if cnt == 0 {
          break;
        }
        var slices, processed := DelayedRound(ctx, col, decide, done, attempt, cnt);
        ghost var c := RoundCounts(slices, processed, ctx.polls - (starts[done] + 1));
        ReplaysExtend(history, log, starts, decide, ctx.devicesCapacity, ctx.stopFrom, c, col.items, ctx.polls);
        history, log, starts := history + [col.items], log + [c], starts + [ctx.polls];
        attempt := NextAttempt(attempt);
        done := done + 1;
      }
    }
  }

  /**
   plugin_persistent_devices: the retry loop with plugin_hardware's answers,
   one IOCTL call per record handled. Besides what RetryRounds states, the
   records left are the original ones with some removed, in order; a
   record for which every call would end in a retryable failure keeps all
   its occurrences; and a flag already set changes nothing.
   */
  method PluginPersistentDevices(ctx: VhciCtx, col: Collection, conv: Utf8Oracle, ioctl: IoctlCalls, rounds: nat)
    returns (done: nat, ghost history: seq<seq<Line>>, ghost log: seq<RoundCounts>, ghost starts: seq<nat>)
    modifies ctx`polls, col`items
    ensures done <= rounds
    ensures Replays(history, log, starts, Decider(conv, ioctl), ctx.devicesCapacity, ctx.stopFrom)
    ensures |log| == done && history[0] == old(col.items) && history[done] == col.items && starts[0] == old(ctx.polls)
    ensures |old(col.items)| == 0 ==> done == 0 && ctx.polls == old(ctx.polls)
    ensures |old(col.items)| > 0 ==> ctx.polls == starts[done] + (if done < rounds then 1 else 0)
    ensures done < rounds ==> |col.items| == 0 || starts[done] >= ctx.stopFrom
    ensures forall r :: 0 <= r < done - 1 ==>
      && log[r].slept == Backoff(AttemptOf(r), Min(|history[r]|, ctx.devicesCapacity))
      && log[r].handled == Min(|history[r]|, ctx.devicesCapacity)
    ensures IsSubsequence(col.items, old(col.items))
    ensures forall x :: (forall r: nat, j: nat :: !PluginHardware(x, conv, Send(ioctl, r, j))) ==>
      multiset(col.items)[x] == multiset(old(col.items))[x]
    ensures old(ctx.polls) >= ctx.stopFrom ==> done == 0 && col.items == old(col.items)
  {
    var decide := Decider(conv, ioctl);
    done, history, log, starts := RetryRounds(ctx, col, decide, rounds);
    ReplaysEarlyRoundsFull(history, log, starts, decide, ctx.devicesCapacity, ctx.stopFrom);
    ReplaysKeepOrder(history, log, starts, decide, ctx.devicesCapacity, ctx.stopFrom, done);
    forall x | forall r: nat, j: nat :: !PluginHardware(x, conv, Send(ioctl, r, j))
      ensures multiset(col.items)[x] == multiset(old(col.items))[x]
    {
      assert AlwaysKept(decide, x);
      ReplaysKeepAlwaysKept(history, log, starts, decide, ctx.devicesCapacity, ctx.stopFrom, done, x);
    }
    if 0 < done {
      assert log[0] == log[0];
    }
  }

  /** `++attempt` on a ULONG: wraps from 2^32 - 1 to 0. */
  function NextAttempt(attempt: ULong): (next: ULong)
    ensures attempt < ULONG_LIMIT - 1 ==> next == attempt + 1
    ensures attempt == ULONG_LIMIT - 1 ==> next == 0
  {
    (attempt + 1) % ULONG_LIMIT
  }

  /** The attempt number of round r: r increments from 0. */
  function AttemptOf(r: nat): ULong
  {
    if r == 0 then 0 else NextAttempt(AttemptOf(r - 1))
  }

  /** The attempt number of round r is r modulo 2^32. */
  lemma {:induction false} AttemptOfIsRoundModulo(r: nat)
    ensures AttemptOf(r) == r % ULONG_LIMIT
  {
    if r > 0 {
      AttemptOfIsRoundModulo(r - 1);
      AttemptNext(r - 1);
    }
  }

  lemma AttemptNext(r: nat)
    ensures (r % ULONG_LIMIT + 1) % ULONG_LIMIT == (r + 1) % ULONG_LIMIT
  {
    var q := r / ULONG_LIMIT;
    assert r == q * ULONG_LIMIT + r % ULONG_LIMIT;
    if r % ULONG_LIMIT + 1 == ULONG_LIMIT {
      assert r + 1 == (q + 1) * ULONG_LIMIT;
    } else {
      assert r + 1 == q * ULONG_LIMIT + (r % ULONG_LIMIT + 1);
    }
  }
}
