/**
  The two portable multiply-accumulate kernels of bn_mul.h, iterated over n limbs. A limb is a machine word below
  b2 = h * h, where h is two to the power of half the word length; additions and shifts wrap at b2.
 */
module MulAdd {

  // ----- words -----

  predicate Word(x: int, w: nat) {
    0 <= x < w
  }

  /** Word addition. */
  function Add(x: nat, y: nat, w: nat): nat
    requires w > 0
  {
    (x + y) % w
  }

  /** Word multiplication. */
  function Mul(x: nat, y: nat, w: nat): nat
    requires w > 0
  {
    (x * y) % w
  }

  /** Shifting left by half a word. */
  function ShiftUp(x: nat, h: nat): nat
    requires h > 0
  {
    (x * h) % (h * h)
  }

  /** Shifting right by half a word. */
  function ShiftDown(x: nat, h: nat): nat
    requires h > 0
  {
    x / h
  }

  function Bit(b: bool): nat {
    if b then 1 else 0
  }

  /** The number in a pair of words, and the first one that no pair of words holds. */
  function Pair(low: nat, high: nat, w: nat): nat {
    low + high * w
  }

  function Square(w: nat): nat {
    w * w
  }

  // ----- numbers in limbs, least significant first -----

  function Power(w: nat, n: nat): nat {
    if n == 0 then 1 else w * Power(w, n - 1)
  }

  function Number(limbs: seq<nat>, w: nat): nat {
    if limbs == [] then 0
    else Number(limbs[..|limbs| - 1], w) + limbs[|limbs| - 1] * Power(w, |limbs| - 1)
  }

  ghost predicate Limbs(limbs: seq<nat>, w: nat) {
    forall i | 0 <= i < |limbs| :: limbs[i] < w
  }

  lemma {:induction false} NumberBound(limbs: seq<nat>, w: nat)
    requires Limbs(limbs, w)
    ensures Number(limbs, w) < Power(w, |limbs|)
    decreases |limbs|
  {
    if limbs != [] {
      var k := |limbs| - 1;
      NumberBound(limbs[..k], w);
      assert limbs[k] * Power(w, k) <= (w - 1) * Power(w, k) by {
        Scale(limbs[k], w - 1, Power(w, k));
      }
      assert (w - 1) * Power(w, k) + Power(w, k) == w * Power(w, k);
    }
  }

  lemma Scale(x: nat, y: nat, z: nat)
    requires x <= y
    ensures x * z <= y * z
  {
  }

  /** The limbs and the carry are determined by the number they make up. */
  lemma {:induction false} LimbsUnique(d: seq<nat>, c: nat, e: seq<nat>, f: nat, w: nat)
    requires |d| == |e| && Limbs(d, w) && Limbs(e, w)
    requires Number(d, w) + c * Power(w, |d|) == Number(e, w) + f * Power(w, |d|)
    ensures d == e && c == f
    decreases |d|
  {
    hide Number, Power;
    NumberBound(d, w);
    NumberBound(e, w);
    Digits(Number(d, w), c, Number(e, w), f, Power(w, |d|));
    if d != [] {
      var k := |d| - 1;
      NumberPush(d[..k], d[k], w);
      NumberPush(e[..k], e[k], w);
      assert d == d[..k] + [d[k]] && e == e[..k] + [e[k]];
      LimbsUnique(d[..k], d[k], e[..k], e[k], w);
    }
  }

  lemma Digits(x: nat, c: nat, y: nat, f: nat, p: nat)
    requires x < p && y < p && x + c * p == y + f * p
    ensures x == y && c == f
  {
    if c < f {
      HigherDigit(x, c, y, f, p);
    } else if f < c {
      HigherDigit(y, f, x, c, p);
    }
  }

  lemma HigherDigit(x: nat, c: nat, y: nat, f: nat, p: nat)
    requires x < p && c < f
    ensures x + c * p < y + f * p
  {
    assert (c + 1) * p == c * p + p;
    Scale(c + 1, f, p);
  }

  // ----- one step -----

  /** What one step owes: the new limb and the new carry hold the product plus both addends. */
  ghost predicate Accumulated(s: nat, b: nat, c: nat, d: nat, newD: nat, newC: nat, w: nat) {
    newD < w && newC < w && Pair(newD, newC, w) == s * b + c + d
  }

  /** Nothing is lost: the product of two words and two more words fit into two words. */
  lemma DoubleWord(s: nat, b: nat, c: nat, d: nat, w: nat)
    requires Word(s, w) && Word(b, w) && Word(c, w) && Word(d, w)
    ensures s * b + c + d < Square(w)
  {
    Scale(s, w - 1, b);
    Scale(b, w - 1, w - 1);
    assert (w - 1) * (w - 1) + 2 * (w - 1) == w * w - 1;
  }

  lemma Small(x: nat, m: nat)
    requires x < m
    ensures x % m == x
  {
  }

  lemma Halves(x: nat, w: nat)
    requires w > 0
    ensures x == x % w + (x / w) * w && x % w < w
  {
  }

  /** A word addition wrapped exactly when the sum is below the addend. */
  lemma Carried(r: nat, x: nat, w: nat)
    requires Word(r, w) && Word(x, w)
    ensures Add(r, x, w) + Bit(Add(r, x, w) < x) * w == r + x && Add(r, x, w) < w
  {
    if r + x < w {
      Small(r + x, w);
    } else {
      Halves(r + x, w);
      Digits((r + x) % w, (r + x) / w, r + x - w, 1, w);
    }
  }

  /** A high word that counts less than a double word does not wrap. */
  lemma HighWord(r0: nat, r1: nat, w: nat)
    requires Pair(r0, r1, w) < Square(w)
    ensures r1 < w
  {
    if r1 >= w {
      Scale(w, r1, w);
    }
  }

  /** Adding a word to a pair of words, as both kernels do: the low word wraps, the high word takes the carry. */
  lemma AddCarry(r0: nat, r1: nat, x: nat, w: nat)
    requires Word(r0, w) && Word(x, w) && Pair(r0, r1, w) + x < Square(w)
    ensures var low := Add(r0, x, w);
            var high := Add(r1, Bit(low < x), w);
            low < w && high < w && Pair(low, high, w) == Pair(r0, r1, w) + x
  {
    Carried(r0, x, w);
    var low := Add(r0, x, w);
    var sum := r1 + Bit(low < x);
    assert sum * w == r1 * w + Bit(low < x) * w;
    HighWord(low, sum, w);
    Small(sum, w);
  }

  /** The double-width product in its two words. */
  lemma WideProduct(s: nat, b: nat, w: nat)
    requires w > 0 && s * b < Square(w)
    ensures Square(w) > 0 && Mul(s, b, Square(w)) == s * b
    ensures (s * b) / w % w < w && Pair(s * b % w, (s * b) / w % w, w) == s * b
  {
    Small(s * b, w * w);
    Halves(s * b, w);
    HighWord(s * b % w, s * b / w, w);
    Small(s * b / w, w);
  }

  /** MULADDC_CORE where a double-width word exists. */
  method CoreWide(s: nat, b: nat, c: nat, d: nat, w: nat) returns (newD: nat, newC: nat)
    requires Word(s, w) && Word(b, w) && Word(c, w) && Word(d, w)
    ensures Accumulated(s, b, c, d, newD, newC, w)
  {
    hide Add, Bit, Pair, Square, Mul;
    DoubleWord(s, b, c, d, w);
    WideProduct(s, b, w);
    var r := Mul(s, b, Square(w));
    var r0 := r % w;
    var r1 := (r / w) % w;
    AddCarry(r0, r1, c, w);
    r0 := Add(r0, c, w);
    r1 := Add(r1, Bit(r0 < c), w);
    AddCarry(r0, r1, d, w);
    r0 := Add(r0, d, w);
    r1 := Add(r1, Bit(r0 < d), w);
    newC := r1;
    newD := r0;
  }

  // ----- half words -----

  lemma Distribute(x: nat, y: nat, z: nat)
    ensures (x + y) * z == x * z + y * z
  {
  }

  lemma Associate(x: nat, y: nat, z: nat)
    ensures x * y * z == x * (y * z) && x * y * z == x * z * y
  {
  }

  /** Quotient and remainder are determined. */
  lemma Division(x: nat, w: nat, q: nat, r: nat)
    requires r < w && x == r + q * w
    ensures x % w == r && x / w == q
  {
    Halves(x, w);
    Digits(x % w, x / w, r, q, w);
  }

  lemma Shifted(x: nat, h: nat, q: nat, r: nat)
    requires x == r + q * h && r < h
    ensures x * h == r * h + q * (h * h) && r * h < h * h
  {
    Distribute(r, q * h, h);
    Associate(q, h, h);
    Distribute(r, h - r, h);
  }

  lemma ShiftedUp(x: nat, h: nat)
    requires h > 0
    ensures ShiftUp(x, h) == (x % h) * h && ShiftUp(x, h) < h * h
    ensures x * h == (x / h) * (h * h) + ShiftUp(x, h)
  {
    Halves(x, h);
    Shifted(x, h, x / h, x % h);
    Division(x * h, h * h, x / h, (x % h) * h);
  }

  lemma LowHalf(x: nat, h: nat)
    requires h > 0
    ensures ShiftDown(ShiftUp(x, h), h) == x % h
  {
    ShiftedUp(x, h);
    Division((x % h) * h, h, x % h, 0);
  }

  lemma HalfProduct(x: nat, y: nat, h: nat)
    requires x < h && y < h
    ensures Mul(x, y, h * h) == x * y && x * y < h * h
  {
    Scale(x, h, y);
    Scale(y, h, h);
    Small(x * y, h * h);
  }

  /** Multiplying by halves. */
  lemma Product(s: nat, s0: nat, s1: nat, b: nat, b0: nat, b1: nat, h: nat)
    requires s == s0 + s1 * h && b == b0 + b1 * h
    ensures s * b == s1 * b1 * (h * h) + (s0 * b1) * h + (s1 * b0) * h + s0 * b0
  {
    Distribute(s0, s1 * h, b);
    Row(s0, b0, b1, h);
    Row(s1, b0, b1, h);
    Associate(s1, h, b);
    Associate(s1, b, h);
    Distribute(s1 * b0, s1 * b1 * h, h);
    Associate(s1 * b1, h, h);
  }

  lemma Row(x: nat, b0: nat, b1: nat, h: nat)
    ensures x * (b0 + b1 * h) == x * b0 + x * b1 * h
  {
    Distribute(b0, b1 * h, x);
    Associate(x, b1, h);
  }

  /** The four half products, put in place: what is left to add to the pair of words. */
  lemma Crossed(low: nat, x: nat, y: nat, high: nat, h: nat, w: nat, product: nat)
    requires h > 0 && w == h * h && product == high * w + x * h + y * h + low && product < Square(w)
    ensures ShiftUp(x, h) < w && ShiftUp(y, h) < w && high + ShiftDown(x, h) + ShiftDown(y, h) < w
    ensures Pair(low, high + ShiftDown(x, h) + ShiftDown(y, h), w) + ShiftUp(x, h) + ShiftUp(y, h) == product
  {
    hide ShiftUp;
    ShiftedUp(x, h);
    ShiftedUp(y, h);
    Distribute(high + x / h, y / h, w);
    Distribute(high, x / h, w);
    HighWord(low + ShiftUp(x, h) + ShiftUp(y, h), high + x / h + y / h, w);
  }

  lemma HalfWords(x: nat, h: nat)
    requires h > 0 && x < h * h
    ensures x % h < h && x / h < h && x == x % h + (x / h) * h
  {
    Halves(x, h);
    HighWord(x % h, x / h, h);
  }

  /** The half words of both factors, and their four products. */
  lemma HalfProducts(s: nat, b: nat, h: nat)
    requires h > 0 && Word(s, h * h) && Word(b, h * h)
    ensures s % h < h && s / h < h && b % h < h && b / h < h
    ensures s * b == (s / h) * (b / h) * (h * h) + (s % h) * (b / h) * h + (s / h) * (b % h) * h + (s % h) * (b % h)
    ensures s * b < Square(h * h)
  {
    HalfWords(s, h);
    HalfWords(b, h);
    Product(s, s % h, s / h, b, b % h, b / h, h);
    DoubleWord(s, b, 0, 0, h * h);
  }

  /** MULADDC_CORE where no double-width word exists: only half words are multiplied. */
  method CoreHalf(s: nat, b: nat, c: nat, d: nat, h: nat) returns (newD: nat, newC: nat)
    requires h > 0 && Word(s, h * h) && Word(b, h * h) && Word(c, h * h) && Word(d, h * h)
    ensures Accumulated(s, b, c, d, newD, newC, h * h)
  {
    hide Add, Bit, ShiftUp, Mul, Pair, Square;
    var w := h * h;
    LowHalf(b, h);
    LowHalf(s, h);
    HalfProducts(s, b, h);
    var b0 := ShiftDown(ShiftUp(b, h), h);
    var b1 := ShiftDown(b, h);
    var s0 := ShiftDown(ShiftUp(s, h), h);
    var s1 := ShiftDown(s, h);
    HalfProduct(s0, b1, h);
    HalfProduct(s0, b0, h);
    HalfProduct(s1, b0, h);
    HalfProduct(s1, b1, h);
    var rx := Mul(s0, b1, w);
    var r0 := Mul(s0, b0, w);
    var ry := Mul(s1, b0, w);
    var r1 := Mul(s1, b1, w);
    DoubleWord(s, b, c, d, w);
    newD, newC := PutTogether(r0, rx, ry, r1, c, d, h, w, s * b);
  }

  /** The second half of that kernel, with what the four half products add up to. */
  method PutTogether(low: nat, x: nat, y: nat, high: nat, c: nat, d: nat, h: nat, w: nat, ghost product: nat)
    returns (newD: nat, newC: nat)
    requires h > 0 && w == h * h && product == high * w + x * h + y * h + low && product + c + d < Square(w)
    requires Word(low, w) && Word(c, w) && Word(d, w)
    ensures newD < w && newC < w && Pair(newD, newC, w) == product + c + d
  {
    hide Add, Bit, ShiftUp, ShiftDown, Mul, Pair, Square;
    Crossed(low, x, y, high, h, w, product);
    var rx, ry, r0, r1: nat := x, y, low, high;
    AddSmall(r1, ShiftDown(rx, h), w);
    r1 := Add(r1, ShiftDown(rx, h), w);
    AddSmall(r1, ShiftDown(ry, h), w);
    r1 := Add(r1, ShiftDown(ry, h), w);
    rx := ShiftUp(rx, h);
    ry := ShiftUp(ry, h);
    newD, newC := Carries(r0, r1, rx, ry, c, d, w);
  }

  /** Adding four words, one after the other, to a pair of words. */
  method Carries(low: nat, high: nat, rx: nat, ry: nat, c: nat, d: nat, w: nat) returns (newD: nat, newC: nat)
    requires Word(low, w) && Word(rx, w) && Word(ry, w) && Word(c, w) && Word(d, w)
    requires Pair(low, high, w) + rx + ry + c + d < Square(w)
    ensures newD < w && newC < w && Pair(newD, newC, w) == Pair(low, high, w) + rx + ry + c + d
  {
    hide Add, Bit, Pair, Square;
    var r0, r1 := low, high;
    AddCarry(r0, r1, rx, w);
    r0 := Add(r0, rx, w);
    r1 := Add(r1, Bit(r0 < rx), w);
    AddCarry(r0, r1, ry, w);
    r0 := Add(r0, ry, w);
    r1 := Add(r1, Bit(r0 < ry), w);
    AddCarry(r0, r1, c, w);
    r0 := Add(r0, c, w);
    r1 := Add(r1, Bit(r0 < c), w);
    AddCarry(r0, r1, d, w);
    r0 := Add(r0, d, w);
    r1 := Add(r1, Bit(r0 < d), w);
    newC := r1;
    newD := r0;
  }

  lemma AddSmall(x: nat, y: nat, w: nat)
    requires x + y < w
    ensures Add(x, y, w) == x + y
  {
    Small(x + y, w);
  }

  // ----- n limbs -----

  /** The whole multiply-accumulate: d + c * w^n has grown by s * b, and nothing was lost. */
  ghost predicate MultipliedIn(s: seq<nat>, b: nat, d: seq<nat>, c: nat, newD: seq<nat>, newC: nat, w: nat) {
    && |s| == |d| == |newD| && Limbs(newD, w) && newC < w
    && Number(newD, w) + newC * Power(w, |d|) == Number(d, w) + Number(s, w) * b + c
  }

  lemma {:induction false} NumberPush(limbs: seq<nat>, x: nat, w: nat)
    ensures Number(limbs + [x], w) == Number(limbs, w) + x * Power(w, |limbs|)
  {
    assert (limbs + [x])[..|limbs|] == limbs;
  }

  lemma OneMore(s: seq<nat>, b: nat, d: seq<nat>, c: nat, newD: seq<nat>, newC: nat, w: nat,
                x: nat, y: nat, z: nat, carry: nat)
    requires MultipliedIn(s, b, d, c, newD, newC, w) && Accumulated(x, b, newC, y, z, carry, w)
    ensures MultipliedIn(s + [x], b, d + [y], c, newD + [z], carry, w)
  {
    hide Number, Power;
    NumberPush(s, x, w);
    NumberPush(d, y, w);
    NumberPush(newD, z, w);
    PowerNext(w, |d|);
    Combine(Number(s, w), b, Number(d, w), c, Number(newD, w), newC, w, x, y, z, carry, Power(w, |d|));
  }

  lemma PowerNext(w: nat, n: nat)
    ensures Power(w, n + 1) == w * Power(w, n)
  {
  }

  lemma Combine(s: nat, b: nat, d: nat, c: nat, e: nat, f: nat, w: nat, x: nat, y: nat, z: nat, g: nat, p: nat)
    requires e + f * p == d + s * b + c && z + g * w == x * b + f + y
    ensures (e + z * p) + g * (w * p) == (d + y * p) + (s + x * p) * b + c
  {
    Distribute(z, g * w, p);
    Associate(g, w, p);
    Distribute(x * b + f, y, p);
    Distribute(x * b, f, p);
    Distribute(s, x * p, b);
    Associate(x, p, b);
  }

  /** The kernel with double-width words, iterated over the limbs of s and d. */
  method MultiplyAddWide(s: array<nat>, b: nat, d: array<nat>, n: nat, carry: nat, w: nat) returns (c: nat)
    requires n <= s.Length && n <= d.Length && Limbs(s[..], w) && Limbs(d[..], w) && b < w && carry < w
    modifies d
    ensures MultipliedIn(old(s[..n]), b, old(d[..n]), carry, d[..n], c, w)
    ensures d[n..] == old(d[n..])
  {
    hide MultipliedIn, Accumulated;
    c := carry;
    Nothing(b, carry, w);
    for i := 0 to n
      invariant MultipliedIn(old(s[..i]), b, old(d[..i]), carry, d[..i], c, w) && c < w
      invariant s[i..] == old(s[i..]) && d[i..] == old(d[i..])
    {
      ghost var before := d[..i];
      var z, high := CoreWide(s[i], b, c, d[i], w);
      OneMore(old(s[..i]), b, old(d[..i]), carry, before, c, w, old(s[i]), old(d[i]), z, high);
      CarryWord(s[i], b, c, d[i], z, high, w);
      c := high;
      d[i] := z;
      assert old(s[..i + 1]) == old(s[..i]) + [old(s[i])] && old(d[..i + 1]) == old(d[..i]) + [old(d[i])];
      assert d[..i + 1] == before + [z];
    }
  }

  lemma Nothing(b: nat, carry: nat, w: nat)
    requires carry < w
    ensures MultipliedIn([], b, [], carry, [], carry, w)
  {
  }

  lemma CarryWord(s: nat, b: nat, c: nat, d: nat, newD: nat, newC: nat, w: nat)
    requires Accumulated(s, b, c, d, newD, newC, w)
    ensures newC < w && newD < w
  {
  }

  /** The kernel with half-word products, iterated over the limbs of s and d. */
  method MultiplyAddHalf(s: array<nat>, b: nat, d: array<nat>, n: nat, carry: nat, h: nat) returns (c: nat)
    requires h > 0 && n <= s.Length && n <= d.Length && Limbs(s[..], h * h) && Limbs(d[..], h * h)
    requires b < h * h && carry < h * h
    modifies d
    ensures MultipliedIn(old(s[..n]), b, old(d[..n]), carry, d[..n], c, h * h)
    ensures d[n..] == old(d[n..])
  {
    hide MultipliedIn, Accumulated;
    ghost var w := h * h;
    c := carry;
    Nothing(b, carry, w);
    for i := 0 to n
      invariant MultipliedIn(old(s[..i]), b, old(d[..i]), carry, d[..i], c, w) && c < w
      invariant s[i..] == old(s[i..]) && d[i..] == old(d[i..])
    {
      ghost var before := d[..i];
      var z, high := CoreHalf(s[i], b, c, d[i], h);
      OneMore(old(s[..i]), b, old(d[..i]), carry, before, c, w, old(s[i]), old(d[i]), z, high);
      CarryWord(s[i], b, c, d[i], z, high, w);
      c := high;
      d[i] := z;
      assert old(s[..i + 1]) == old(s[..i]) + [old(s[i])] && old(d[..i + 1]) == old(d[..i]) + [old(d[i])];
      assert d[..i + 1] == before + [z];
    }
  }

  /** Whatever meets the contract has the same limbs and the same carry: the two kernels agree. */
  lemma KernelsAgree(s: seq<nat>, b: nat, d: seq<nat>, c: nat, d1: seq<nat>, c1: nat, d2: seq<nat>, c2: nat, w: nat)
    requires MultipliedIn(s, b, d, c, d1, c1, w) && MultipliedIn(s, b, d, c, d2, c2, w)
    ensures d1 == d2 && c1 == c2
  {
    LimbsUnique(d1, c1, d2, c2, w);
  }
}
