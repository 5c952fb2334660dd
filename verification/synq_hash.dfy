/**
 * The bucket function of the half-open (SYN) table, `inet_synq_hash`.
 */
module SynqHash {
  import opened Bits

  /**
   * `jhash_2words(a, b, seed)`. The model knows nothing about this mixing
   * function except that it is a function: callers supply it.
   */
  type JHash = (nat, nat, nat) -> nat

  /**
   * The bucket of a remote address and port: the seeded hash masked with
   * `synq_hsize - 1`. For a power-of-two table the mask keeps every hash
   * value inside the table.
   */
  function InetSynqHash(raddr: nat, rport: nat, rnd: nat, synqHsize: nat, jhash: JHash, ghost log: nat): (h: nat)
    requires synqHsize == Pow2(log)
    ensures h < synqHsize
  {
    AndMaskBound(jhash(raddr, rport, rnd), log);
    BitAnd(jhash(raddr, rport, rnd), synqHsize - 1)
  }
}
