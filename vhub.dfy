/**
 Port numbering of the virtual hub (driver/vhci/vhub.h). Ports are numbered
 1 .. NUM_PORTS; 0 means "no port assigned". NUM_PORTS is a member of
 vhub_dev_t declared in dev.h, which is not part of this model: it is any
 positive constant here.
 */
module Vhub {

  type Positive = n: int | n > 0 witness 1

  /** vhub_dev_t::NUM_PORTS. */
  const NUM_PORTS: Positive

  /** is_valid_port(port): exactly the port numbers 1 .. NUM_PORTS. */
  predicate IsValidPort(port: int)
    ensures IsValidPort(port) <==> port in PortsUpTo(NUM_PORTS)
  {
    PortsUpToContents(NUM_PORTS);
    port > 0 && port <= NUM_PORTS
  }

  /** The set of port numbers 1 .. n. */
  ghost function PortsUpTo(n: nat): set<int>
  {
    if n == 0 then {} else PortsUpTo(n - 1) + {n}
  }

  lemma {:induction false} PortsUpToContents(n: nat)
    ensures |PortsUpTo(n)| == n
    ensures forall p: int :: p in PortsUpTo(n) <==> 1 <= p <= n
  {
    if n > 0 {
      PortsUpToContents(n - 1);
      assert n !in PortsUpTo(n - 1);
    }
  }

  /**
   Port 0 ("unassigned") and every negative number are invalid, every number in
   1 .. NUM_PORTS is valid, nothing above NUM_PORTS is: exactly NUM_PORTS valid ports.
   */
  lemma ValidPortsAreExactlyOneToNumPorts()
    ensures !IsValidPort(0)
    ensures forall p: int :: p < 0 ==> !IsValidPort(p)
    ensures forall p: int :: 1 <= p <= NUM_PORTS ==> IsValidPort(p)
    ensures forall p: int :: p > NUM_PORTS ==> !IsValidPort(p)
    ensures forall p: int :: IsValidPort(p) <==> p in PortsUpTo(NUM_PORTS)
    ensures |PortsUpTo(NUM_PORTS)| == NUM_PORTS
  {
    PortsUpToContents(NUM_PORTS);
  }
}
