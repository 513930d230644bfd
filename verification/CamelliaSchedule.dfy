/** The key schedule of Camellia: section 2.2 of RFC 3713, and how it is stored. */
module CamelliaSchedule {
  import opened Sequences
  import opened CamelliaRounds

  // 128-bit keys

  /** A 128-bit key as its two 64-bit halves. */
  datatype Key = Key(l: bv64, r: bv64)

  function Joined(k: Key): bv128 {
    (k.l as bv128 << 64) | k.r as bv128
  }

  /** The 128-bit rotation of the standard. */
  function Rotated(k: Key, n: bv8): bv128
    requires n <= 128
  {
    (Joined(k) << n) | (Joined(k) >> (128 - n))
  }

  function ToHalf(v: bv64): Half {
    Half((v >> 32) as bv32, (v & 0xffff_ffff) as bv32)
  }

  function FromHalf(x: Half): bv64 {
    (x.h as bv64 << 32) | x.l as bv64
  }

  function Upper64(k: Key, n: bv8): bv64
    requires n <= 128
  {
    (Rotated(k, n) >> 64) as bv64
  }

  function Lower64(k: Key, n: bv8): bv64
    requires n <= 128
  {
    (Rotated(k, n) & 0xffff_ffff_ffff_ffff) as bv64
  }

  /** The upper 64 bits of the rotated key, and the lower ones. */
  function Upper(k: Key, n: bv8): Half
    requires n <= 128
  {
    ToHalf(Upper64(k, n))
  }

  function Lower(k: Key, n: bv8): Half
    requires n <= 128
  {
    ToHalf(Lower64(k, n))
  }

  /** The upper bits of `a`, then `b`, rotated by fewer than 64 places. */
  function Shifted(a: bv64, b: bv64, n: bv8): bv64
    requires 0 < n < 64
  {
    (a << n) | (b >> (64 - n))
  }

  lemma Rotation0(k: Key)
    ensures Upper64(k, 0) == k.l && Lower64(k, 0) == k.r
  {
  }

  lemma UpperRotation15(k: Key, n: bv8)
    requires n == 15
    ensures Upper64(k, n) == Shifted(k.l, k.r, n)
  {
  }

  lemma LowerRotation15(k: Key, n: bv8)
    requires n == 15
    ensures Lower64(k, n) == Shifted(k.r, k.l, n)
  {
  }

  lemma UpperRotation30(k: Key, n: bv8)
    requires n == 30
    ensures Upper64(k, n) == Shifted(k.l, k.r, n)
  {
  }

  lemma LowerRotation30(k: Key, n: bv8)
    requires n == 30
    ensures Lower64(k, n) == Shifted(k.r, k.l, n)
  {
  }

  lemma UpperRotation45(k: Key, n: bv8)
    requires n == 45
    ensures Upper64(k, n) == Shifted(k.l, k.r, n)
  {
  }

  lemma LowerRotation45(k: Key, n: bv8)
    requires n == 45
    ensures Lower64(k, n) == Shifted(k.r, k.l, n)
  {
  }

  lemma UpperRotation47(k: Key, n: bv8)
    requires n == 47
    ensures Upper64(k, n) == Shifted(k.l, k.r, n)
  {
  }

  lemma LowerRotation47(k: Key, n: bv8)
    requires n == 47
    ensures Lower64(k, n) == Shifted(k.r, k.l, n)
  {
  }

  lemma UpperRotation60(k: Key, n: bv8)
    requires n == 60
    ensures Upper64(k, n) == Shifted(k.l, k.r, n)
  {
  }

  lemma LowerRotation60(k: Key, n: bv8)
    requires n == 60
    ensures Lower64(k, n) == Shifted(k.r, k.l, n)
  {
  }

  lemma UpperRotation77(k: Key, n: bv8)
    requires n == 77
    ensures Upper64(k, n) == Shifted(k.r, k.l, n - 64)
  {
  }

  lemma LowerRotation77(k: Key, n: bv8)
    requires n == 77
    ensures Lower64(k, n) == Shifted(k.l, k.r, n - 64)
  {
  }

  lemma UpperRotation94(k: Key, n: bv8)
    requires n == 94
    ensures Upper64(k, n) == Shifted(k.r, k.l, n - 64)
  {
  }

  lemma LowerRotation94(k: Key, n: bv8)
    requires n == 94
    ensures Lower64(k, n) == Shifted(k.l, k.r, n - 64)
  {
  }

  lemma UpperRotation111(k: Key, n: bv8)
    requires n == 111
    ensures Upper64(k, n) == Shifted(k.r, k.l, n - 64)
  {
  }

  lemma LowerRotation111(k: Key, n: bv8)
    requires n == 111
    ensures Lower64(k, n) == Shifted(k.l, k.r, n - 64)
  {
  }

  /** The rotation amounts of the key schedule. */
  predicate IsAmount(n: bv8) {
    n == 15 || n == 30 || n == 45 || n == 47 || n == 60 || n == 77 || n == 94 || n == 111
  }

  /** What `KS_ROUND` computes for the upper and lower half of a rotated key. */
  function RoundUpper(k: Key, n: bv8): bv64
    requires IsAmount(n)
  {
    if n < 64 then Shifted(k.l, k.r, n) else Shifted(k.r, k.l, n - 64)
  }

  function RoundLower(k: Key, n: bv8): bv64
    requires IsAmount(n)
  {
    if n < 64 then Shifted(k.r, k.l, n) else Shifted(k.l, k.r, n - 64)
  }

  /** Shifting the halves is rotating the key. */
  lemma RotationOf(k: Key, n: bv8)
    requires IsAmount(n)
    ensures RoundUpper(k, n) == Upper64(k, n) && RoundLower(k, n) == Lower64(k, n)
  {
    hide Upper64, Lower64, Shifted;
    if n == 15 {
      UpperRotation15(k, n);
      LowerRotation15(k, n);
    } else if n == 30 {
      UpperRotation30(k, n);
      LowerRotation30(k, n);
    } else if n == 45 {
      UpperRotation45(k, n);
      LowerRotation45(k, n);
    } else if n == 47 {
      UpperRotation47(k, n);
      LowerRotation47(k, n);
    } else if n == 60 {
      UpperRotation60(k, n);
      LowerRotation60(k, n);
    } else if n == 77 {
      UpperRotation77(k, n);
      LowerRotation77(k, n);
    } else if n == 94 {
      UpperRotation94(k, n);
      LowerRotation94(k, n);
    } else {
      UpperRotation111(k, n);
      LowerRotation111(k, n);
    }
  }

  // Where a subkey is kept

  /** `EFI` */
  function Efi(littleEndian: bool, i: nat): nat
    requires i <= 1
    ensures Efi(littleEndian, i) <= 1
  {
    if littleEndian then 1 - i else i
  }

  /** The index of `KS(i, j)` */
  function KsIndex(littleEndian: bool, i: nat, j: nat): nat
    requires j < 4
    ensures 4 * i <= KsIndex(littleEndian, i, j) < 4 * i + 4
  {
    i * 4 + Efi(littleEndian, j / 2) * 2 + Efi(littleEndian, j % 2)
  }

  /** Subkey t, as the rounds read it. */
  function ReadKey(words: seq<bv32>, littleEndian: bool, t: nat): Half
    requires |words| % 4 == 0 && 2 * t < |words|
  {
    Half(words[KsIndex(littleEndian, t / 2, 2 * (t % 2))], words[KsIndex(littleEndian, t / 2, 2 * (t % 2) + 1)])
  }

  function ReadKeys(words: seq<bv32>, littleEndian: bool): (ks: seq<Half>)
    requires |words| % 4 == 0
    ensures |ks| == |words| / 2
  {
    seq(|words| / 2, t requires 0 <= t < |words| / 2 => ReadKey(words, littleEndian, t))
  }

  /** A 64-bit store, in the byte order of the machine. */
  function Store64(words: seq<bv32>, littleEndian: bool, slot: nat, v: bv64): (r: seq<bv32>)
    requires 2 * slot + 1 < |words|
    ensures |r| == |words|
  {
    words[2 * slot + Efi(littleEndian, 0) := ToHalf(v).h][2 * slot + Efi(littleEndian, 1) := ToHalf(v).l]
  }

  /** `CALC_ADDR`, in units of 8 bytes: `base + i + ((-2 * i) & m)` */
  function Slot(base: int, i: nat, m: int): int
    requires m == 0 || m == -1
  {
    base + i + if m == -1 then -2 * i else 0
  }

  /** The order of the subkeys that is meant: decryption keeps them in reverse. */
  function Ordered(ks: seq<Half>, forward: bool): (r: seq<Half>)
    ensures |r| == |ks|
  {
    if forward then ks else Reverse(ks)
  }

  lemma ReadKeyIs(words: seq<bv32>, littleEndian: bool, i: nat, h: nat)
    requires |words| % 4 == 0 && 4 * i + 3 < |words| && h <= 1
    ensures var slot := 2 * i + Efi(littleEndian, h);
            ReadKey(words, littleEndian, 2 * i + h)
              == Half(words[2 * slot + Efi(littleEndian, 0)], words[2 * slot + Efi(littleEndian, 1)])
  {
    assert (2 * i + h) / 2 == i && (2 * i + h) % 2 == h;
    assert (2 * h) / 2 == h && (2 * h) % 2 == 0 && (2 * h + 1) / 2 == h && (2 * h + 1) % 2 == 1;
  }

  lemma ReadAfterStore(words: seq<bv32>, littleEndian: bool, pair: nat, e: nat, v: bv64, i: nat, h: nat)
    requires |words| % 4 == 0 && 4 * pair + 3 < |words| && e <= 1 && 4 * i + 3 < |words| && h <= 1
    ensures var after := Store64(words, littleEndian, 2 * pair + Efi(littleEndian, e), v);
            ReadKey(after, littleEndian, 2 * i + h)
              == if i == pair && h == e then ToHalf(v) else ReadKey(words, littleEndian, 2 * i + h)
  {
    hide ToHalf, ReadKey;
    ReadKeyIs(words, littleEndian, i, h);
    ReadKeyIs(Store64(words, littleEndian, 2 * pair + Efi(littleEndian, e), v), littleEndian, i, h);
  }

  lemma StoreChangesOne(words: seq<bv32>, littleEndian: bool, pair: nat, e: nat, v: bv64)
    requires |words| % 4 == 0 && 4 * pair + 3 < |words| && e <= 1
    ensures ReadKeys(Store64(words, littleEndian, 2 * pair + Efi(littleEndian, e), v), littleEndian)
         == ReadKeys(words, littleEndian)[2 * pair + e := ToHalf(v)]
  {
    hide ToHalf, ReadKey, Store64;
    var after := Store64(words, littleEndian, 2 * pair + Efi(littleEndian, e), v);
    var a, b := ReadKeys(after, littleEndian), ReadKeys(words, littleEndian)[2 * pair + e := ToHalf(v)];
    forall t | 0 <= t < |a| ensures a[t] == b[t] {
      ReadAfterStore(words, littleEndian, pair, e, v, t / 2, t % 2);
    }
  }

  /** Forwards, a store through the address macro sets one subkey. */
  lemma StoreForward(words: seq<bv32>, littleEndian: bool, i: nat, b: nat, v: bv64)
    requires |words| % 4 == 0 && i % 2 == 0 && b <= 1 && 2 * (i + b) < |words|
    ensures 0 <= Slot(0, i + Efi(littleEndian, b), 0) && 2 * Slot(0, i + Efi(littleEndian, b), 0) + 1 < |words|
    ensures ReadKeys(Store64(words, littleEndian, Slot(0, i + Efi(littleEndian, b), 0), v), littleEndian)
         == ReadKeys(words, littleEndian)[i + b := ToHalf(v)]
  {
    hide ToHalf, Store64, ReadKeys;
    ForwardSlot(littleEndian, |words|, i, b);
    StoreChangesOne(words, littleEndian, i / 2, b, v);
  }

  lemma ForwardSlot(littleEndian: bool, words: nat, i: nat, b: nat)
    requires words % 4 == 0 && i % 2 == 0 && b <= 1 && 2 * (i + b) < words
    ensures var slot := Slot(0, i + Efi(littleEndian, b), 0);
            slot == 2 * (i / 2) + Efi(littleEndian, b) && i == 2 * (i / 2) && 0 <= slot && 2 * slot + 1 < words
            && 4 * (i / 2) + 3 < words
  {
  }

  /** Backwards, it sets that subkey of the reversed schedule. */
  lemma StoreBackward(words: seq<bv32>, littleEndian: bool, i: nat, b: nat, v: bv64)
    requires |words| % 4 == 0 && i % 2 == 0 && b <= 1 && 2 * (i + b) < |words|
    ensures var n := |words| / 2; var slot := Slot(n - 1, i + Efi(littleEndian, b), -1);
            0 <= slot < n
            && Reverse(ReadKeys(Store64(words, littleEndian, slot, v), littleEndian))
            == Reverse(ReadKeys(words, littleEndian))[i + b := ToHalf(v)]
  {
    hide ToHalf, Store64, ReadKeys, Reverse, Slot;
    var pair := |words| / 2 / 2 - 1 - i / 2;
    BackwardSlot(littleEndian, |words|, i, b);
    StoreChangesOne(words, littleEndian, pair, 1 - b, v);
    ReverseUpdate(ReadKeys(words, littleEndian), 2 * pair + (1 - b), ToHalf(v));
  }

  lemma BackwardSlot(littleEndian: bool, words: nat, i: nat, b: nat)
    requires words % 4 == 0 && i % 2 == 0 && b <= 1 && 2 * (i + b) < words
    ensures var n := words / 2; var pair := n / 2 - 1 - i / 2;
            && 0 <= pair && 4 * pair + 3 < words && n - 1 - (2 * pair + (1 - b)) == i + b
            && Slot(n - 1, i + Efi(littleEndian, b), -1) == 2 * pair + Efi(littleEndian, 1 - b)
  {
  }

  lemma ReverseUpdate(s: seq<Half>, k: nat, x: Half)
    requires k < |s|
    ensures Reverse(s[k := x]) == Reverse(s)[|s| - 1 - k := x]
  {
  }

  // The subkeys of the standard: kw1, kw2, k1 to k6, ke1, ke2, k7 to k12 and so on, and at the end kw4, kw3

  function Subkeys128(kl: Key, ka: Key): (s: seq<Half>)
    ensures |s| == 26
  {
    [Upper(kl, 0), Lower(kl, 0), Upper(ka, 0), Lower(ka, 0), Upper(kl, 15), Lower(kl, 15), Upper(ka, 15), Lower(ka, 15),
     Upper(ka, 30), Lower(ka, 30),
     Upper(kl, 45), Lower(kl, 45), Upper(ka, 45), Lower(kl, 60), Upper(ka, 60), Lower(ka, 60),
     Upper(kl, 77), Lower(kl, 77),
     Upper(kl, 94), Lower(kl, 94), Upper(ka, 94), Lower(ka, 94), Upper(kl, 111), Lower(kl, 111),
     Lower(ka, 111), Upper(ka, 111)]
  }

  function Subkeys256(kl: Key, kr: Key, ka: Key, kb: Key): (s: seq<Half>)
    ensures |s| == 34
  {
    [Upper(kl, 0), Lower(kl, 0), Upper(kb, 0), Lower(kb, 0), Upper(kr, 15), Lower(kr, 15), Upper(ka, 15), Lower(ka, 15),
     Upper(kr, 30), Lower(kr, 30),
     Upper(kb, 30), Lower(kb, 30), Upper(kl, 45), Lower(kl, 45), Upper(ka, 45), Lower(ka, 45),
     Upper(kl, 60), Lower(kl, 60),
     Upper(kr, 60), Lower(kr, 60), Upper(kb, 60), Lower(kb, 60), Upper(kl, 77), Lower(kl, 77),
     Upper(ka, 77), Lower(ka, 77),
     Upper(kr, 94), Lower(kr, 94), Upper(ka, 94), Lower(ka, 94), Upper(kl, 111), Lower(kl, 111),
     Lower(kb, 111), Upper(kb, 111)]
  }

  /** Rotation by 47 and by 111 differ in the order of the halves. */
  lemma Rotation47And111(k: Key)
    ensures Upper(k, 47) == Lower(k, 111) && Lower(k, 47) == Upper(k, 111)
  {
    hide Upper64, Lower64, Shifted, ToHalf;
    RotationOf(k, 47);
    RotationOf(k, 111);
  }

  /** What one `KS_ROUND` changes. */
  function SetPair(s: seq<Half>, i: nat, which: nat, upper: Half, lower: Half): (r: seq<Half>)
    requires i + 1 < |s|
    ensures |r| == |s|
  {
    var s' := if which == 1 || which == 3 then s[i := upper] else s;
    if which == 2 || which == 3 then s'[i + 1 := lower] else s'
  }

  function SetRotated(s: seq<Half>, i: nat, n: bv8, which: nat, k: Key): (r: seq<Half>)
    requires i + 1 < |s| && n <= 128
    ensures |r| == |s|
  {
    SetPair(s, i, which, Upper(k, n), Lower(k, n))
  }

  /** The stores made from the key, for a key of 16 bytes. */
  function FromKl128(s: seq<Half>, kl: Key): (r: seq<Half>)
    requires |s| == 26
    ensures |r| == 26
  {
    var s := SetRotated(SetRotated(SetRotated(s, 0, 0, 3, kl), 4, 15, 3, kl), 10, 45, 3, kl);
    var s := SetRotated(SetRotated(s, 12, 60, 2, kl), 16, 77, 3, kl);
    SetRotated(SetRotated(s, 18, 94, 3, kl), 22, 111, 3, kl)
  }

  /** The stores made from the derived key. */
  function FromKa128(s: seq<Half>, ka: Key): (r: seq<Half>)
    requires |s| == 26
    ensures |r| == 26
  {
    var s := SetRotated(SetRotated(SetRotated(s, 2, 0, 3, ka), 6, 15, 3, ka), 8, 30, 3, ka);
    var s := SetRotated(SetRotated(s, 12, 45, 1, ka), 14, 60, 3, ka);
    SetRotated(SetRotated(s, 20, 94, 3, ka), 24, 47, 3, ka)
  }

  lemma Stores128(s: seq<Half>, kl: Key, ka: Key)
    requires |s| == 26
    ensures FromKa128(FromKl128(s, kl), ka) == Subkeys128(kl, ka)
  {
    hide Upper, Lower;
    Rotation47And111(ka);
  }

  // The same for keys of 24 and 32 bytes

  function FromKl256(s: seq<Half>, kl: Key): (r: seq<Half>)
    requires |s| == 34
    ensures |r| == 34
  {
    var s := SetRotated(SetRotated(SetRotated(s, 0, 0, 3, kl), 12, 45, 3, kl), 16, 60, 3, kl);
    SetRotated(SetRotated(s, 22, 77, 3, kl), 30, 111, 3, kl)
  }

  function FromKr256(s: seq<Half>, kr: Key): (r: seq<Half>)
    requires |s| == 34
    ensures |r| == 34
  {
    var s := SetRotated(SetRotated(s, 4, 15, 3, kr), 8, 30, 3, kr);
    SetRotated(SetRotated(s, 18, 60, 3, kr), 26, 94, 3, kr)
  }

  function FromKa256(s: seq<Half>, ka: Key): (r: seq<Half>)
    requires |s| == 34
    ensures |r| == 34
  {
    var s := SetRotated(SetRotated(s, 6, 15, 3, ka), 14, 45, 3, ka);
    SetRotated(SetRotated(s, 24, 77, 3, ka), 28, 94, 3, ka)
  }

  function FromKb256(s: seq<Half>, kb: Key): (r: seq<Half>)
    requires |s| == 34
    ensures |r| == 34
  {
    var s := SetRotated(SetRotated(s, 2, 0, 3, kb), 10, 30, 3, kb);
    SetRotated(SetRotated(s, 20, 60, 3, kb), 32, 47, 3, kb)
  }

  lemma StoresLeftRight(s: seq<Half>, kl: Key, kr: Key)
    requires |s| == 34
    ensures FromKr256(FromKl256(s, kl), kr) ==
            [Upper(kl, 0), Lower(kl, 0), s[2], s[3], Upper(kr, 15), Lower(kr, 15), s[6], s[7], Upper(kr, 30),
             Lower(kr, 30),
             s[10], s[11], Upper(kl, 45), Lower(kl, 45), s[14], s[15], Upper(kl, 60), Lower(kl, 60),
             Upper(kr, 60), Lower(kr, 60), s[20], s[21], Upper(kl, 77), Lower(kl, 77), s[24], s[25],
             Upper(kr, 94), Lower(kr, 94), s[28], s[29], Upper(kl, 111), Lower(kl, 111), s[32], s[33]]
  {
    hide Upper, Lower;
  }

  lemma StoresDerived(s: seq<Half>, ka: Key, kb: Key)
    requires |s| == 34
    ensures FromKb256(FromKa256(s, ka), kb) ==
            [s[0], s[1], Upper(kb, 0), Lower(kb, 0), s[4], s[5], Upper(ka, 15), Lower(ka, 15), s[8], s[9],
             Upper(kb, 30), Lower(kb, 30), s[12], s[13], Upper(ka, 45), Lower(ka, 45), s[16], s[17],
             s[18], s[19], Upper(kb, 60), Lower(kb, 60), s[22], s[23], Upper(ka, 77), Lower(ka, 77),
             s[26], s[27], Upper(ka, 94), Lower(ka, 94), s[30], s[31], Lower(kb, 111), Upper(kb, 111)]
  {
    hide Upper, Lower;
    Rotation47And111(kb);
  }

  lemma Stores256(s: seq<Half>, kl: Key, kr: Key, ka: Key, kb: Key)
    requires |s| == 34
    ensures FromKb256(FromKa256(FromKr256(FromKl256(s, kl), kr), ka), kb) == Subkeys256(kl, kr, ka, kb)
  {
    hide Upper, Lower, FromKl256, FromKr256, FromKa256, FromKb256;
    StoresLeftRight(s, kl, kr);
    StoresDerived(FromKr256(FromKl256(s, kl), kr), ka, kb);
  }

  // The derived keys

  const SIGMA1 := Half(0xA09E667F, 0x3BCC908B)
  const SIGMA2 := Half(0xB67AE858, 0x4CAA73B2)
  const SIGMA3 := Half(0xC6EF372F, 0xE94F82BE)
  const SIGMA4 := Half(0x54FF53A5, 0xF1D36F1C)
  const SIGMA5 := Half(0x10E527FA, 0xDE682D1D)
  const SIGMA6 := Half(0xB05688C2, 0xB3E6C1FD)

  /** A key, or a block, as two halves. */
  datatype Halves = Halves(d1: Half, d2: Half)

  function XorHalves(x: Halves, y: Halves): Halves {
    Halves(XorHalf(x.d1, y.d1), XorHalf(x.d2, y.d2))
  }

  /** Two rounds with constants as subkeys. */
  function SigmaRounds(t: Tables, x: Halves, a: Half, b: Half): Halves {
    var d2 := XorHalf(x.d2, F(t, x.d1, a));
    Halves(XorHalf(x.d1, F(t, d2, b)), d2)
  }

  /** KA */
  function DeriveKa(t: Tables, kl: Halves, kr: Halves): Halves {
    SigmaRounds(t, XorHalves(SigmaRounds(t, XorHalves(kl, kr), SIGMA1, SIGMA2), kl), SIGMA3, SIGMA4)
  }

  /** KB */
  function DeriveKb(t: Tables, ka: Halves, kr: Halves): Halves {
    SigmaRounds(t, XorHalves(ka, kr), SIGMA5, SIGMA6)
  }

  function ToKey(x: Halves): Key {
    Key(FromHalf(x.d1), FromHalf(x.d2))
  }

  /** A key of 4, 6 or 8 words. */
  predicate IsUserKey(key: seq<bv32>) {
    |key| == 4 || |key| == 6 || |key| == 8
  }

  /** The subkeys of a user key. */
  function Subkeys(t: Tables, key: seq<bv32>): (s: seq<Half>)
    requires IsUserKey(key)
    ensures |s| == if |key| == 4 then 26 else 34
  {
    var kl := Halves(Half(key[0], key[1]), Half(key[2], key[3]));
    if |key| == 4 then
      // KR is zero, and KA starts from KL
      Subkeys128(ToKey(kl), ToKey(DeriveKa(t, kl, Halves(Half(0, 0), Half(0, 0)))))
    else
      var kr := Halves(Half(key[4], key[5]), if |key| == 6 then Half(!key[4], !key[5]) else Half(key[6], key[7]));
      var ka := DeriveKa(t, kl, kr);
      Subkeys256(ToKey(kl), ToKey(kr), ToKey(ka), ToKey(DeriveKb(t, ka, kr)))
  }
}
