/** The permutation Keccak-p[1600, 24] of section 3 of FIPS 202, on strings of 1600 bits. */
module KeccakSpec {
  import opened Digits

  /** A state as a string: bit (x, y, z) is at 64 (5 y + x) + z. */
  type State = s: seq<bool> | |s| == 1600 witness seq(1600, _ => false)

  function At(s: State, x: nat, y: nat, z: nat): bool { s[64 * (5 * (y % 5) + x % 5) + z % 64] }

  function X(k: nat): nat { k / 64 % 5 }

  function Y(k: nat): nat { k / 320 }

  function Z(k: nat): nat { k % 64 }

  function Parity(s: State, x: nat, z: nat): bool {
    ((((At(s, x, 0, z) != At(s, x, 1, z)) != At(s, x, 2, z)) != At(s, x, 3, z)) != At(s, x, 4, z))
  }

  function ThetaBit(s: State, x: nat, y: nat, z: nat): bool {
    At(s, x, y, z) != (Parity(s, x + 4, z) != Parity(s, x + 1, z + 63))
  }

  function Theta(s: State): State { seq(1600, k requires 0 <= k < 1600 => ThetaBit(s, X(k), Y(k), Z(k))) }

  /** The offsets of rho, lane 5 y + x by lane. */
  const OFFSETS: seq<nat> :=
    [  0,   1, 190,  28,  91,
      36, 300,   6,  55, 276,
       3,  10, 171, 153, 231,
     105,  45,  15,  21, 136,
     210,  66, 253, 120,  78]

  function Offset(x: nat, y: nat): nat { OFFSETS[5 * (y % 5) + x % 5] }

  function RhoBit(s: State, x: nat, y: nat, z: nat): bool { At(s, x, y, z + 64 - Offset(x, y) % 64) }

  function Rho(s: State): State { seq(1600, k requires 0 <= k < 1600 => RhoBit(s, X(k), Y(k), Z(k) )) }

  function PiBit(s: State, x: nat, y: nat, z: nat): bool { At(s, x + 3 * y, x, z) }

  function Pi(s: State): State { seq(1600, k requires 0 <= k < 1600 => PiBit(s, X(k), Y(k), Z(k))) }

  function ChiBit(s: State, x: nat, y: nat, z: nat): bool {
    At(s, x, y, z) != (!At(s, x + 1, y, z) && At(s, x + 2, y, z))
  }

  function Chi(s: State): State { seq(1600, k requires 0 <= k < 1600 => ChiBit(s, X(k), Y(k), Z(k))) }

  /** The register of algorithm 5 after t steps. */
  function Register(t: nat): (r: seq<bool>)
    ensures |r| == 8
  {
    if t == 0 then [true, false, false, false, false, false, false, false]
    else
      var r := Register(t - 1);
      [r[7], r[0], r[1], r[2], r[3] != r[7], r[4] != r[7], r[5] != r[7], r[6]]
  }

  function Rc(t: nat): bool { Register(t % 255)[0] }

  /** Bit z of the constant of round ir, from its first n nonzero positions 2^j - 1. */
  function ConstantBit(ir: nat, n: nat, z: nat): bool {
    n > 0 && ((z == Two(n - 1) - 1 && Rc(n - 1 + 7 * ir)) || ConstantBit(ir, n - 1, z))
  }

  function IotaBit(s: State, ir: nat, x: nat, y: nat, z: nat): bool {
    At(s, x, y, z) != (x == 0 && y == 0 && ConstantBit(ir, 7, z))
  }

  function Iota(s: State, ir: nat): State { seq(1600, k requires 0 <= k < 1600 => IotaBit(s, ir, X(k), Y(k), Z(k))) }

  function Round(s: State, ir: nat): State { Iota(Chi(Pi(Rho(Theta(s)))), ir) }

  function Rounds(s: State, n: nat): State {
    if n == 0 then s else Round(Rounds(s, n - 1), n - 1)
  }

  /** Keccak-f[1600]. */
  function KeccakF(s: State): State { Rounds(s, 24) }
}
