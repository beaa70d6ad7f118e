/** What the UDP pinger is asked to do. */
module PingPlans {
  import opened Options

  type Addr = string
  type Network = string

  // address is None if the configured string is not an IP address
  datatype Target = Target(address: Option<Addr>, name: string, network: Network)

  datatype TestPlan = TestPlan(target: Target, numPackets: int, packetsSent: nat)
}
