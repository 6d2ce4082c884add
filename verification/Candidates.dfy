/** Disruption candidates (pkg/controllers/disruption/types.go), as far as any decision looks at them. */
module Candidates {
  /**
   A node that may be disrupted: its name, provider ID and NodeClaim, its node pool and whether that
   pool has the Balanced policy, its price and its rescheduling disruption cost.
   */
  datatype Candidate = Candidate(name: string, providerID: string, nodeClaim: string, pool: string, balanced: bool,
                                 price: real, disruption: real)

  function IDs(cs: seq<Candidate>): set<string> {
    set c | c in cs :: c.providerID
  }

  lemma NextID(cs: seq<Candidate>, i: nat)
    requires i < |cs|
    ensures IDs(cs[..i + 1]) == IDs(cs[..i]) + {cs[i].providerID}
  {
    assert cs[..i + 1] == cs[..i] + [cs[i]];
  }

  function Pools(cs: seq<Candidate>): set<string> {
    set c | c in cs :: c.pool
  }

  lemma PoolsNext(cs: seq<Candidate>, i: nat)
    requires i < |cs|
    ensures Pools(cs[..i + 1]) == Pools(cs[..i]) + {cs[i].pool}
  {
    assert cs[..i + 1] == cs[..i] + [cs[i]];
  }
}
