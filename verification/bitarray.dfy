/** `MyU3.int_to_bitarray` of labjack.py: an unsigned integer written as a
    fixed-width list of booleans, most significant bit first.

    The source formats the integer with `'{0:0Nb}'` (binary, zero-padded to
    width N) and turns each digit into a boolean. The model follows the same
    two steps, and relates them to an independent reference: the low `w` bits
    of `n` (`Bits`) and the value of a bit list (`MsbValue`). */
module BitArray {
  import opened Results

  /** Python raises `AssertionError` when the guard of `int_to_bitarray` fails. */
  datatype Error = AssertionError

  function Pow2(n: nat): (p: nat)
    ensures p >= 1
  {
    if n == 0 then 1 else 2 * Pow2(n - 1)
  }

  /** Bit `i` of `n`, counting from the least significant bit. */
  predicate BitOf(n: nat, i: nat) {
    (n / Pow2(i)) % 2 == 1
  }

  // ---------------------------------------------------------------------
  // The formatting steps, as the source performs them
  // ---------------------------------------------------------------------

  function DigitChar(d: nat): char
    requires d < 2
  {
    if d == 0 then '0' else '1'
  }

  /** Python's `format(n, 'b')`: the shortest binary numeral of `n` ("0" for 0). */
  function BinaryDigits(n: nat): string
  {
    if n < 2 then [DigitChar(n)] else BinaryDigits(n / 2) + [DigitChar(n % 2)]
  }

  function Zeros(n: nat): string {
    seq(n, _ => '0')
  }

  /** The `0` fill of a format spec: pad on the left with '0' up to `width`;
      a numeral that is already at least `width` long is left as it is. */
  function ZeroPad(s: string, width: int): string {
    if |s| >= width then s else Zeros(width - |s|) + s
  }

  /** `'{0:0<width>b}'.format(n)` */
  function FormatBinary(n: nat, width: int): string {
    ZeroPad(BinaryDigits(n), width)
  }

  /** Each binary digit of `s` read as a boolean: '1' is true, '0' is false. */
  function DigitsToBools(s: string): seq<bool> {
    seq(|s|, i requires 0 <= i < |s| => s[i] == '1')
  }

  // ---------------------------------------------------------------------
  // Reference definitions
  // ---------------------------------------------------------------------

  /** The `w` low bits of `n`, most significant first. */
  function Bits(n: nat, w: nat): seq<bool>
  {
    if w == 0 then [] else Bits(n / 2, w - 1) + [n % 2 == 1]
  }

  /** The unsigned value of a bit list read most significant first:
      the sum of `bs[k] * 2^(|bs|-1-k)`. */
  function MsbValue(bs: seq<bool>): nat
  {
    if |bs| == 0 then 0
    else 2 * MsbValue(bs[..|bs| - 1]) + (if bs[|bs| - 1] then 1 else 0)
  }

  predicate AllOnes(bs: seq<bool>) {
    forall k :: 0 <= k < |bs| ==> bs[k]
  }

  // ---------------------------------------------------------------------
  // The operation
  // ---------------------------------------------------------------------

  /** The guard of `int_to_bitarray` as written: `0 <= uint < 2**bits - 1`.
      For a negative `bits`, `2**bits` is a fraction in (0, 1), so no
      `uint >= 0` passes; for `bits == 0` the bound is 0 and none passes either. */
  predicate GuardAsWritten(uint: int, bits: int) {
    bits >= 0 && 0 <= uint < Pow2(bits) - 1
  }

  /** The guard the function evidently means: every `bits`-wide mask,
      the all-ones mask `2**bits - 1` included, for a positive width. Width 0
      stays excluded: a zero-width format still writes the digit "0". */
  predicate GuardIntended(uint: int, bits: int) {
    bits >= 1 && 0 <= uint < Pow2(bits)
  }

  /** `MyU3.int_to_bitarray(uint, bits)` as written. */
  function IntToBitArrayAsWritten(uint: int, bits: int): (r: Result<seq<bool>, Error>)
    ensures r.Success? <==> GuardAsWritten(uint, bits)
    ensures r.Success? ==> |r.value| == bits && MsbValue(r.value) == uint
    ensures r.Success? ==> forall k :: 0 <= k < bits ==> r.value[k] == BitOf(uint, bits - 1 - k)
  {
    if !GuardAsWritten(uint, bits) then Failure(AssertionError)
    else
      FormatIsBits(uint, bits);
      BitsDecode(uint, bits);
      Success(DigitsToBools(FormatBinary(uint, bits)))
  }

  /** `int_to_bitarray` with the guard corrected to admit every mask of the width. */
  function IntToBitArray(uint: int, bits: int): (r: Result<seq<bool>, Error>)
    ensures r.Success? <==> GuardIntended(uint, bits)
    ensures r.Success? ==> |r.value| == bits && MsbValue(r.value) == uint
    ensures r.Success? ==> forall k :: 0 <= k < bits ==> r.value[k] == BitOf(uint, bits - 1 - k)
  {
    if !GuardIntended(uint, bits) then Failure(AssertionError)
    else
      FormatIsBits(uint, bits);
      BitsDecode(uint, bits);
      Success(DigitsToBools(FormatBinary(uint, bits)))
  }

  // ---------------------------------------------------------------------
  // Lemmas
  // ---------------------------------------------------------------------

  lemma {:induction false} BitsLength(n: nat, w: nat)
    ensures |Bits(n, w)| == w
  {
    if w > 0 {
      BitsLength(n / 2, w - 1);
    }
  }

  lemma {:induction false} BitsOfZero(w: nat)
    ensures Bits(0, w) == seq(w, _ => false)
  {
    if w > 0 {
      BitsOfZero(w - 1);
    }
  }

  lemma {:induction false} BinaryDigitsFit(n: nat, w: nat)
    requires w >= 1 && n < Pow2(w)
    ensures |BinaryDigits(n)| <= w
  {
    if n >= 2 {
      BinaryDigitsFit(n / 2, w - 1);
    }
  }

  lemma DigitsToBoolsAppend(a: string, c: char)
    ensures DigitsToBools(a + [c]) == DigitsToBools(a) + [c == '1']
  {
  }

  lemma DigitsToBoolsZeros(n: nat, c: char)
    ensures DigitsToBools(Zeros(n) + [c]) == seq(n, _ => false) + [c == '1']
  {
  }

  lemma ZeroPadAppend(s: string, c: char, w: nat)
    requires |s| + 1 <= w
    ensures ZeroPad(s + [c], w) == ZeroPad(s, w - 1) + [c]
  {
    if |s| + 1 < w {
      assert Zeros(w - |s| - 1) + (s + [c]) == (Zeros(w - 1 - |s|) + s) + [c];
    }
  }

  /** The digits the source formats, read as booleans, are the `w` low bits of `n`. */
  lemma {:induction false} FormatIsBits(n: nat, w: int)
    requires w >= 1 && n < Pow2(w)
    ensures DigitsToBools(FormatBinary(n, w)) == Bits(n, w)
  {
    if n < 2 {
      var c := DigitChar(n);
      assert FormatBinary(n, w) == Zeros(w - 1) + [c];
      DigitsToBoolsZeros(w - 1, c);
      BitsOfZero(w - 1);
    } else {
      var s := BinaryDigits(n / 2);
      var c := DigitChar(n % 2);
      assert w >= 2;
      BinaryDigitsFit(n / 2, w - 1);
      ZeroPadAppend(s, c, w);
      DigitsToBoolsAppend(ZeroPad(s, w - 1), c);
      FormatIsBits(n / 2, w - 1);
    }
  }

  lemma DivModUnique(a: int, d: int, q: int, r: int)
    requires d > 0 && a == q * d + r && 0 <= r < d
    ensures a / d == q && a % d == r
  {
    var q0 := a / d;
    var r0 := a % d;
    assert (q - q0) * d == r0 - r;
    if q > q0 {
      MulAtLeast(q - q0, d);
    } else if q < q0 {
      MulAtLeast(q0 - q, d);
    }
  }

  lemma MulAtLeast(x: int, d: int)
    requires x >= 1 && d > 0
    ensures x * d >= d
  {
    assert x * d == (x - 1) * d + d;
  }

  /** Halving then dividing by `2^i` is dividing by `2^(i+1)`. */
  lemma HalfDiv(n: nat, i: nat)
    ensures (n / 2) / Pow2(i) == n / Pow2(i + 1)
  {
    var p := Pow2(i);
    var q := n / 2;
    var a := q / p;
    var b := q % p;
    assert q == a * p + b;
    assert n == a * (2 * p) + (2 * b + n % 2);
    DivModUnique(n, 2 * p, a, 2 * b + n % 2);
  }

  /** Halving then reducing modulo `p` keeps all but the lowest bit of `n mod 2p`. */
  lemma HalfMod(n: nat, p: nat)
    requires p > 0
    ensures n % (2 * p) == 2 * ((n / 2) % p) + n % 2
  {
    var q := n / 2;
    assert q == (q / p) * p + q % p;
    assert n == (q / p) * (2 * p) + (2 * (q % p) + n % 2);
    DivModUnique(n, 2 * p, q / p, 2 * (q % p) + n % 2);
  }

  /** Element `k` of `Bits(n, w)` is bit `w-1-k` of `n`: most significant first. */
  lemma {:induction false} BitsIndex(n: nat, w: nat, k: nat)
    requires k < w
    ensures |Bits(n, w)| == w
    ensures Bits(n, w)[k] == BitOf(n, w - 1 - k)
  {
    BitsLength(n, w);
    BitsLength(n / 2, w - 1);
    if k == w - 1 {
      assert Bits(n, w)[k] == (n % 2 == 1);
    } else {
      assert Bits(n, w)[k] == Bits(n / 2, w - 1)[k];
      BitsIndex(n / 2, w - 1, k);
      HalfDiv(n, w - 2 - k);
    }
  }

  /** Reading the `w` low bits of `n` back gives `n` modulo `2^w`. */
  lemma {:induction false} MsbValueBits(n: nat, w: nat)
    ensures MsbValue(Bits(n, w)) == n % Pow2(w)
  {
    if w > 0 {
      var bs := Bits(n, w);
      BitsLength(n / 2, w - 1);
      assert bs[..w - 1] == Bits(n / 2, w - 1);
      MsbValueBits(n / 2, w - 1);
      assert MsbValue(bs) == 2 * ((n / 2) % Pow2(w - 1)) + n % 2;
      HalfMod(n, Pow2(w - 1));
    }
  }

  /** A bit list of width `w` has a value below `2^w`. */
  lemma {:induction false} MsbValueBound(bs: seq<bool>)
    ensures MsbValue(bs) < Pow2(|bs|)
  {
    if |bs| > 0 {
      MsbValueBound(bs[..|bs| - 1]);
    }
  }

  /** The all-ones list is exactly the list of value `2^w - 1`. */
  lemma {:induction false} MsbValueAllOnes(bs: seq<bool>)
    ensures AllOnes(bs) <==> MsbValue(bs) == Pow2(|bs|) - 1
  {
    if |bs| > 0 {
      var init := bs[..|bs| - 1];
      MsbValueAllOnes(init);
      MsbValueBound(init);
      assert AllOnes(bs) <==> AllOnes(init) && bs[|bs| - 1];
    }
  }

  lemma {:induction false} BitsDecode(n: nat, w: nat)
    requires n < Pow2(w)
    ensures |Bits(n, w)| == w && MsbValue(Bits(n, w)) == n
    ensures forall k :: 0 <= k < w ==> Bits(n, w)[k] == BitOf(n, w - 1 - k)
  {
    BitsLength(n, w);
    MsbValueBits(n, w);
    DivModUnique(n, Pow2(w), 0, n);
    forall k | 0 <= k < w
      ensures Bits(n, w)[k] == BitOf(n, w - 1 - k)
    {
      BitsIndex(n, w, k);
    }
  }

  /** Encoding a bit list and decoding it again at the same width gives it back. */
  lemma {:induction false} BitsOfMsbValue(bs: seq<bool>)
    ensures Bits(MsbValue(bs), |bs|) == bs
  {
    if |bs| > 0 {
      var init := bs[..|bs| - 1];
      var v := MsbValue(bs);
      var b := if bs[|bs| - 1] then 1 else 0;
      DivModUnique(v, 2, MsbValue(init), b);
      BitsOfMsbValue(init);
      assert bs == init + [bs[|bs| - 1]];
    }
  }

  /** Round trip, decode side: every non-empty bit list is what the corrected
      function returns for its own value and width. */
  lemma RoundTrip(bs: seq<bool>)
    requires |bs| >= 1
    ensures IntToBitArray(MsbValue(bs), |bs|) == Success(bs)
  {
    MsbValueBound(bs);
    BitsOfMsbValue(bs);
    FormatIsBits(MsbValue(bs), |bs|);
  }

  /** Round trip as written: it holds exactly for the lists that are not all ones. */
  lemma RoundTripAsWritten(bs: seq<bool>)
    requires |bs| >= 1
    ensures IntToBitArrayAsWritten(MsbValue(bs), |bs|) == Success(bs) <==> !AllOnes(bs)
  {
    MsbValueBound(bs);
    MsbValueAllOnes(bs);
    BitsOfMsbValue(bs);
    if !AllOnes(bs) {
      FormatIsBits(MsbValue(bs), |bs|);
    }
  }

  /** The two guards differ on exactly one value per width: the all-ones mask. */
  lemma GuardsDiffer(uint: int, bits: int)
    requires bits >= 1
    ensures GuardAsWritten(uint, bits) <==> GuardIntended(uint, bits) && uint != Pow2(bits) - 1
  {
  }

  /** The 8-bit all-ones mask 255: the source raises, the corrected function
      returns eight `true`s. */
  lemma AllOnesRejected()
    ensures IntToBitArrayAsWritten(255, 8) == Failure(AssertionError)
    ensures IntToBitArray(255, 8) == Success([true, true, true, true, true, true, true, true])
  {
    assert Pow2(8) == 256;
    var ones := [true, true, true, true, true, true, true, true];
    MsbValueAllOnes(ones);
    RoundTrip(ones);
  }
}
