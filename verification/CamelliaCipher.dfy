/** The Camellia cipher of RFC 3713 as steps on two halves of a block, and why reversing the subkeys inverts it. */
module CamelliaCipher {
  import opened Words
  import opened Sequences
  import opened CamelliaRounds

  datatype Block = Block(d1: Half, d2: Half)

  function SwapHalves(b: Block): Block {
    Block(b.d2, b.d1)
  }

  function Rotl1(x: bv32): bv32 {
    (x << 1) | (x >> 31)
  }

  function AndRotl1(x: bv32, k: bv32): bv32 {
    Rotl1(x & k)
  }

  function Or(x: bv32, k: bv32): bv32 {
    x | k
  }

  /** FL */
  function Fl(x: Half, k: Half): Half {
    var l := Xor32(x.l, AndRotl1(x.h, k.h));
    Half(Xor32(x.h, Or(l, k.l)), l)
  }

  /** FLINV */
  function FlInv(y: Half, k: Half): Half {
    var h := Xor32(y.h, Or(y.l, k.l));
    Half(h, Xor32(y.l, AndRotl1(h, k.h)))
  }

  datatype Step =
    | White(k1: Half, k2: Half)
    | RoundLeft(k: Half)   // D2 changes by F of D1
    | RoundRight(k: Half)  // D1 changes by F of D2
    | Layer(k1: Half, k2: Half)

  function Apply(t: Tables, s: Step, b: Block): Block {
    match s
    case White(k1, k2) => Block(XorHalf(b.d1, k1), XorHalf(b.d2, k2))
    case RoundLeft(k) => Block(b.d1, XorHalf(b.d2, F(t, b.d1, k)))
    case RoundRight(k) => Block(XorHalf(b.d1, F(t, b.d2, k)), b.d2)
    case Layer(k1, k2) => Block(Fl(b.d1, k1), FlInv(b.d2, k2))
  }

  ghost predicate IsSchedule(ks: seq<Half>, m: nat) {
    m >= 1 && |ks| == 8 * m + 2
  }

  /** Step n of 7m + 1: every seventh one whitens or is a layer, the six in between are rounds. */
  function StepAt(ks: seq<Half>, m: nat, n: nat): Step
    requires IsSchedule(ks, m) && n <= 7 * m
  {
    var q, r := n / 7, n % 7;
    if r == 0 then
      if n == 0 || n == 7 * m then White(ks[8 * q], ks[8 * q + 1]) else Layer(ks[8 * q], ks[8 * q + 1])
    else if r % 2 == 1 then RoundLeft(ks[8 * q + r + 1])
    else RoundRight(ks[8 * q + r + 1])
  }

  function Run(t: Tables, ks: seq<Half>, m: nat, n: nat, b: Block): Block
    requires IsSchedule(ks, m) && n <= 7 * m + 1
  {
    if n == 0 then b else Apply(t, StepAt(ks, m, n - 1), Run(t, ks, m, n - 1, b))
  }

  /** The cipher: all the steps, then the halves change places. */
  function Encrypt(t: Tables, ks: seq<Half>, m: nat, b: Block): Block
    requires IsSchedule(ks, m)
  {
    SwapHalves(Run(t, ks, m, 7 * m + 1, b))
  }

  // Inversion

  /** The step that undoes a step on a block whose halves have changed places. */
  function Mirror(s: Step): Step {
    match s
    case White(k1, k2) => White(k2, k1)
    case RoundLeft(k) => RoundRight(k)
    case RoundRight(k) => RoundLeft(k)
    case Layer(k1, k2) => Layer(k2, k1)
  }

  lemma XorHalfTwice(x: Half, y: Half)
    ensures XorHalf(XorHalf(x, y), y) == x
  {
    hide Xor32;
    XorWordTwice(x.h, y.h);
    XorWordTwice(x.l, y.l);
  }

  lemma FlInverts(x: Half, k: Half)
    ensures FlInv(Fl(x, k), k) == x && Fl(FlInv(x, k), k) == x
  {
    hide AndRotl1, Or, Xor32;
    var l, h := Fl(x, k).l, FlInv(x, k).h;
    XorWordTwice(x.h, Or(l, k.l));
    XorWordTwice(x.l, AndRotl1(x.h, k.h));
    XorWordTwice(x.h, Or(x.l, k.l));
    XorWordTwice(x.l, AndRotl1(h, k.h));
  }

  lemma MirrorUndoes(t: Tables, s: Step, b: Block)
    ensures Apply(t, Mirror(s), SwapHalves(Apply(t, s, b))) == SwapHalves(b)
  {
    hide XorHalf, F, Fl, FlInv;
    match s
    case White(k1, k2) =>
      XorHalfTwice(b.d1, k1);
      XorHalfTwice(b.d2, k2);
    case RoundLeft(k) =>
      XorHalfTwice(b.d2, F(t, b.d1, k));
    case RoundRight(k) =>
      XorHalfTwice(b.d1, F(t, b.d2, k));
    case Layer(k1, k2) =>
      FlInverts(b.d1, k1);
      FlInverts(b.d2, k2);
  }

  /** The steps for the reversed subkeys are the mirrored steps in reverse order. */
  lemma StepsMirror(ks: seq<Half>, m: nat, n: nat)
    requires IsSchedule(ks, m) && n <= 7 * m
    ensures IsSchedule(Reverse(ks), m) && StepAt(Reverse(ks), m, 7 * m - n) == Mirror(StepAt(ks, m, n))
  {
    var q, r := n / 7, n % 7;
    assert n == 7 * q + r;
    if r == 0 {
      assert (7 * m - n) / 7 == m - q && (7 * m - n) % 7 == 0;
    } else {
      assert (7 * m - n) / 7 == m - q - 1 && (7 * m - n) % 7 == 7 - r;
    }
  }

  lemma {:induction false} RunBack(t: Tables, ks: seq<Half>, m: nat, n: nat, b: Block)
    requires IsSchedule(ks, m) && n <= 7 * m + 1
    ensures IsSchedule(Reverse(ks), m)
    ensures Run(t, Reverse(ks), m, 7 * m + 1 - n, SwapHalves(Run(t, ks, m, 7 * m + 1, b)))
            == SwapHalves(Run(t, ks, m, n, b))
    decreases 7 * m + 1 - n
  {
    hide Apply, StepAt, Reverse, Mirror;
    if n <= 7 * m {
      RunBack(t, ks, m, n + 1, b);
      StepsMirror(ks, m, n);
      MirrorUndoes(t, StepAt(ks, m, n), Run(t, ks, m, n, b));
    }
  }

  /** With the subkeys reversed, the cipher decrypts. */
  lemma ReversedKeysDecrypt(t: Tables, ks: seq<Half>, m: nat, b: Block)
    requires IsSchedule(ks, m)
    ensures IsSchedule(Reverse(ks), m) && Encrypt(t, Reverse(ks), m, Encrypt(t, ks, m, b)) == b
  {
    RunBack(t, ks, m, 0, b);
  }
}
