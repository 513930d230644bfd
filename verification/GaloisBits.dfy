/** Multiplication by x, bit by bit. */
module GaloisBits {
  import opened Arithmetic
  import opened Octets
  import opened GaloisDoubling

  /** The places of x^4 + x^3 + x + 1, x^7 + x^2 + x + 1 and x^10 + x^5 + x + 1. */
  predicate IsTap(length: nat, k: nat) {
    || (length == 8 && (k == 0 || k == 1 || k == 3 || k == 4))
    || (length == 16 && (k == 0 || k == 1 || k == 2 || k == 7))
    || (length == 32 && (k == 0 || k == 1 || k == 5 || k == 10))
  }

  function HalvesOfTail(length: nat): seq<nat> {
    if length == 8 then [0x1b, 0xd, 6, 3, 1, 0]
    else if length == 16 then [0x87, 0x43, 0x21, 0x10, 8, 4, 2, 1, 0]
    else if length == 32 then [0x423, 0x211, 0x108, 0x84, 0x42, 0x21, 0x10, 8, 4, 2, 1, 0]
    else [0]
  }

  lemma TailBits(length: nat, k: nat)
    ensures GetBit(Tail(length), k) <==> IsTap(length, k)
  {
    hide GetBit;
    var bits := HalvesOfTail(length);
    BitFrom(bits, 0, k);
    BitOfHalf(bits[Min(k, |bits| - 1)]);
  }

  lemma BitOfHalf(e: nat)
    ensures GetBit(e, 0) <==> e % 2 == 1
  {
  }

  /** A list of halves gives the bits of its first number. */
  lemma {:induction false} BitFrom(halves: seq<nat>, i: nat, k: nat)
    requires i < |halves| && halves[|halves| - 1] == 0
    requires forall j :: 0 <= j < |halves| - 1 ==> halves[j + 1] == halves[j] / 2
    ensures GetBit(halves[i], k) == GetBit(halves[Min(i + k, |halves| - 1)], 0)
    decreases k
  {
    if k > 0 {
      ShrHead(halves[i], k);
      if i < |halves| - 1 {
        BitFrom(halves, i + 1, k - 1);
      } else {
        BitFrom(halves, i, k - 1);
      }
    }
  }

  lemma BitOfDouble(v: nat, k: nat)
    ensures GetBit(2 * v, k) <==> k > 0 && GetBit(v, k - 1)
  {
    if k > 0 {
      ShrHead(2 * v, k);
    }
  }

  /** The top bit of w bits says whether the number is at least half of what they hold. */
  lemma TopBit(v: nat, w: nat)
    requires w > 0 && v < Pow2(w)
    ensures GetBit(v, w - 1) <==> 2 * v >= Pow2(w)
  {
    ShrIsDiv(v, w - 1);
    var p := Pow2(w - 1);
    if v >= p {
      DivModUnique(v, p, 1, v - p);
    } else {
      DivModUnique(v, p, 0, v);
    }
  }

  /** A power of two does not show in the bits below. */
  lemma BitBelow(r: nat, w: nat, k: nat)
    requires k < w
    ensures GetBit(Pow2(w) + r, k) == GetBit(r, k)
  {
    hide Shr, Pow2;
    Pow2Add(w - k, k);
    ShrShift(r, k, Pow2(w - k));
    EvenPower(w - k);
    EvenSum(Shr(r, k), Pow2(w - k));
  }

  lemma EvenPower(n: nat)
    requires n > 0
    ensures Pow2(n) % 2 == 0
  {
  }

  /** Multiplication by x: every bit moves up by one, and the top one comes back at the places of the polynomial. */
  lemma TimesXBits(v: nat, length: nat, k: nat)
    requires length > 0 && v < Pow256(length) && k < 8 * length
    ensures GetBit(TimesX(v, length), k) <==>
              (k > 0 && GetBit(v, k - 1)) != (GetBit(v, 8 * length - 1) && IsTap(length, k))
  {
    hide GetBit, Pow256, Pow2, XorBits, IsTap, Tail;
    Pow256IsPow2(length);
    TopBit(v, 8 * length);
    BitOfDouble(v, k);
    if 2 * v >= Pow256(length) {
      BitOfXor(2 * v, Pow256(length) + Tail(length), k);
      BitBelow(Tail(length), 8 * length, k);
      TailBits(length, k);
    }
  }
}
