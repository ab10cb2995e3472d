/**
 * Poll tokens (src/io/token.rs): a connection id and a per-connection
 * asynchronous token packed into one `usize`. Shifts are written as
 * multiplication and division by powers of two, masks as remainders, and
 * the `|` of two values whose bits do not overlap as their sum.
 */
module Tokens {
  import opened Arith

  const Pow32: nat := 0x1_0000_0000
  const Pow22: nat := 0x40_0000
  const Pow10: nat := 0x400

  /** `create_token` on a 64-bit target: the connection id in the high 32 bits, the async token in the low 32. */
  function CreateToken64(connId: u32, asyncToken: u32): (t: u64)
    ensures t % Pow32 == asyncToken
  {
    connId * Pow32 + asyncToken
  }

  /** `split_token` on a 64-bit target: `(token >> 32, token & 0xFFFFFFFF)`. */
  function SplitToken64(token: u64): (r: (u32, u32))
    ensures r.0 * Pow32 + r.1 == token
  {
    (token / Pow32, token % Pow32)
  }

  /** On a 64-bit target splitting a created token gives back both parts. */
  lemma SplitCreate64(connId: u32, asyncToken: u32)
    ensures SplitToken64(CreateToken64(connId, asyncToken)) == (connId, asyncToken)
  {
    var t := connId * Pow32 + asyncToken;
    DivMod(t, Pow32, connId, asyncToken);
  }

  /** ... and creating a token from the parts of a split gives back the token. */
  lemma CreateSplit64(token: u64)
    ensures CreateToken64(SplitToken64(token).0, SplitToken64(token).1) == token
  {
  }

  /** So `create_token` is injective on a 64-bit target. */
  lemma CreateInjective64(c1: u32, a1: u32, c2: u32, a2: u32)
    requires CreateToken64(c1, a1) == CreateToken64(c2, a2)
    ensures c1 == c2 && a1 == a2
  {
    SplitCreate64(c1, a1);
    SplitCreate64(c2, a2);
  }

  /**
   * `create_token` on a 32-bit target: the connection id shifted left by
   * 22, dropping the bits that leave the 32-bit `usize`, then the 16-bit
   * async token in the low bits.
   */
  function CreateToken32(connId: u32, asyncToken: u16): (t: nat)
    ensures t < Pow32 && t % Pow22 == asyncToken
  {
    ShiftedFits(connId, asyncToken);
    (connId * Pow22) % Pow32 + asyncToken
  }

  /**
   * The connection id shifted by 22 and cut to 32 bits leaves the 22 low
   * bits clear, so adding a value below 2^22 stays within 32 bits and
   * leaves that value in the low bits.
   */
  lemma ShiftedFits(connId: u32, a: nat)
    requires a < Pow22
    ensures (connId * Pow22) % Pow32 + a < Pow32
    ensures ((connId * Pow22) % Pow32 + a) % Pow22 == a
  {
    var q, m := connId / Pow10, connId % Pow10;
    assert connId == q * Pow10 + m;
    assert connId * Pow22 == q * Pow32 + m * Pow22;
    DivMod(connId * Pow22, Pow32, q, m * Pow22);
    DivMod(m * Pow22 + a, Pow22, m, a);
  }

  /** `split_token` on a 32-bit target: `(token >> 10, token & 0b11_1111_1111)`. */
  function SplitToken32(token: nat): (r: (nat, nat))
    ensures r.1 < Pow10 && r.0 * Pow10 + r.1 == token
  {
    (token / Pow10, token % Pow10)
  }

  /**
   * On a 32-bit target the two functions disagree: `create_token` shifts by
   * 22 but `split_token` by 10, so the connection id 5 comes back as
   * 5 * 4096; and the 10-bit mask loses an async token of 1024.
   */
  lemma SplitCreate32Differs()
    ensures SplitToken32(CreateToken32(5, 2)) == (5 * 4096, 2)
    ensures SplitToken32(CreateToken32(5, 1024)) == (5 * 4096 + 1, 0)
  {
    assert CreateToken32(5, 2) == 5 * Pow22 + 2;
    DivMod(5 * Pow22 + 2, Pow10, 5 * 4096, 2);
    assert CreateToken32(5, 1024) == 5 * Pow22 + 1024;
    DivMod(5 * Pow22 + 1024, Pow10, 5 * 4096 + 1, 0);
  }

  /**
   * `split_token` for a 32-bit target as `create_token` packs the token:
   * the connection id above bit 22, the async token in the 22 bits below.
   */
  function SplitToken32Corrected(token: nat): (r: (nat, nat))
    ensures r.1 < Pow22 && r.0 * Pow22 + r.1 == token
  {
    (token / Pow22, token % Pow22)
  }

  /**
   * With the split shifting by 22 like the creation, every connection id
   * that fits the 10 bits left above the async token comes back, and so
   * does every 16-bit async token, 1024 included.
   */
  lemma SplitCreate32Corrected(connId: u32, asyncToken: u16)
    requires connId < Pow10
    ensures SplitToken32Corrected(CreateToken32(connId, asyncToken)) == (connId, asyncToken)
  {
    MulMonotone(connId + 1, Pow10, Pow22);
    assert connId * Pow22 < Pow32;
    assert CreateToken32(connId, asyncToken) == connId * Pow22 + asyncToken;
    DivMod(connId * Pow22 + asyncToken, Pow22, connId, asyncToken);
  }

  /** The tests' pairs (5, 2) and (5, 1024) round-trip on a 64-bit target. */
  lemma TokenExamples64()
    ensures SplitToken64(CreateToken64(5, 2)) == (5, 2)
    ensures SplitToken64(CreateToken64(5, 1024)) == (5, 1024)
  {
    SplitCreate64(5, 2);
    SplitCreate64(5, 1024);
  }
}
