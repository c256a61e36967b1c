/**
  Rule decoding: a Wolfram rule number becomes a 2x2x2 lookup table.
  The source converts the rule to uint8, unpacks its bits least-significant
  first and reshapes the eight bits to (2, 2, 2) in row-major order, so that
  the entry for neighbourhood (left, centre, right) is bit 4*left + 2*centre + right.
*/
module RuleDecoder {
  import opened Cells

  /** The decoded rule: nested sequences indexed [left][centre][right]. */
  type Table = seq<seq<seq<int>>>

  /** The table has the shape (2, 2, 2). */
  predicate Shaped(t: Table) {
    |t| == 2 && forall l :: 0 <= l < 2 ==> |t[l]| == 2 && forall c :: 0 <= c < 2 ==> |t[l][c]| == 2
  }

  /** Every entry of a shaped table is 0 or 1. */
  predicate BinaryTable(t: Table)
    requires Shaped(t)
  {
    forall l, c, r :: 0 <= l < 2 && 0 <= c < 2 && 0 <= r < 2 ==> IsBit(t[l][c][r])
  }

  /** Every entry of a shaped table is `v`. */
  predicate ConstantTable(t: Table, v: int)
    requires Shaped(t)
  {
    forall l, c, r :: 0 <= l < 2 && 0 <= c < 2 && 0 <= r < 2 ==> t[l][c][r] == v
  }

  function Pow2(k: nat): (p: nat)
    ensures p >= 1
  {
    if k == 0 then 1 else 2 * Pow2(k - 1)
  }

  /** `n >> k`: k successive halvings. */
  function ShiftRight(n: nat, k: nat): nat {
    if k == 0 then n else ShiftRight(n / 2, k - 1)
  }

  /** `(n >> k) & 1`. */
  function BitAt(n: nat, k: nat): (b: int)
    ensures IsBit(b)
  {
    ShiftRight(n, k) % 2
  }

  /** Halving k times is dividing by 2^k. */
  lemma {:induction false} ShiftRightIsDivision(n: nat, k: nat)
    ensures ShiftRight(n, k) == n / Pow2(k)
  {
    if k > 0 {
      ShiftRightIsDivision(n / 2, k - 1);
      DivideTwice(n, Pow2(k - 1));
    }
  }

  lemma DivideTwice(n: nat, m: nat)
    requires m >= 1
    ensures n / 2 / m == n / (2 * m)
  {
    var q, r := n / (2 * m), n % (2 * m);
    assert n == (2 * m) * q + r;
    DivisionUnique(n, 2, m * q + r / 2, r % 2);
    DivisionUnique(n / 2, m, q, r / 2);
  }

  /** The quotient is the only q with a == m*q + s and 0 <= s < m. */
  lemma DivisionUnique(a: int, m: int, q: int, s: int)
    requires m >= 1 && 0 <= s < m && a == m * q + s
    ensures a / m == q
  {
    var q', s' := a / m, a % m;
    assert a == m * q' + s';
    if q' > q {
      MultiplyMonotone(m, q + 1, q');
    } else if q' < q {
      MultiplyMonotone(m, q' + 1, q);
    }
  }

  lemma MultiplyMonotone(m: int, x: int, y: int)
    requires m >= 0 && x <= y
    ensures m * x <= m * y
  {
    assert m * y - m * x == m * (y - x);
  }

  /** jnp.unpackbits(.., bitorder='little') over `count` bits: least-significant bit first. */
  function UnpackLittle(n: nat, count: nat): (bits: Row)
    ensures |bits| == count
    ensures IsBinary(bits)
  {
    if count == 0 then [] else [n % 2] + UnpackLittle(n / 2, count - 1)
  }

  /** The inverse of UnpackLittle: bits[0] + 2*bits[1] + 4*bits[2] + ... */
  function PackLittle(bits: Row): int {
    if bits == [] then 0 else bits[0] + 2 * PackLittle(bits[1..])
  }

  /** Bit i of the unpacked sequence is `(n >> i) & 1`. */
  lemma {:induction false} UnpackLittleAt(n: nat, count: nat, i: nat)
    requires i < count
    ensures UnpackLittle(n, count)[i] == BitAt(n, i)
  {
    if i > 0 {
      UnpackLittleAt(n / 2, count - 1, i - 1);
    }
  }

  /** Packing the unpacked bits gives back every number that fits in them. */
  lemma {:induction false} PackUnpack(n: nat, count: nat)
    requires n < Pow2(count)
    ensures PackLittle(UnpackLittle(n, count)) == n
  {
    if count > 0 {
      var bits := UnpackLittle(n, count);
      assert bits[1..] == UnpackLittle(n / 2, count - 1);
      PackUnpack(n / 2, count - 1);
    }
  }

  /** Unpacking a packed binary sequence gives back that sequence. */
  lemma {:induction false} UnpackPack(bits: Row)
    requires IsBinary(bits)
    ensures 0 <= PackLittle(bits) < Pow2(|bits|)
    ensures UnpackLittle(PackLittle(bits), |bits|) == bits
  {
    if bits != [] {
      var n := PackLittle(bits);
      UnpackPack(bits[1..]);
      assert n % 2 == bits[0] && n / 2 == PackLittle(bits[1..]);
      assert UnpackLittle(n, |bits|) == [bits[0]] + bits[1..];
    }
  }

  /** jnp.unpackbits(jnp.uint8(rule), bitorder='little'). */
  function RuleBits(rule: int): (bits: Row)
    requires 0 <= rule < 256
    ensures |bits| == 8 && IsBinary(bits)
    ensures PackLittle(bits) == rule
  {
    PackUnpack(rule, 8);
    UnpackLittle(rule, 8)
  }

  /** reshape(2, 2, 2) in row-major order. */
  function Reshape(bits: Row): (t: Table)
    requires |bits| == 8
    ensures Shaped(t)
    ensures forall l, c, r :: 0 <= l < 2 && 0 <= c < 2 && 0 <= r < 2 ==> t[l][c][r] == bits[4 * l + 2 * c + r]
  {
    seq(2, l requires 0 <= l < 2 => seq(2, c requires 0 <= c < 2 => seq(2, r requires 0 <= r < 2 => bits[4 * l + 2 * c + r])))
  }

  /** The eight entries of a shaped table in row-major order (the inverse of Reshape). */
  function Flatten(t: Table): (bits: Row)
    requires Shaped(t)
    ensures |bits| == 8
    ensures forall l, c, r :: 0 <= l < 2 && 0 <= c < 2 && 0 <= r < 2 ==> bits[4 * l + 2 * c + r] == t[l][c][r]
  {
    [t[0][0][0], t[0][0][1], t[0][1][0], t[0][1][1], t[1][0][0], t[1][0][1], t[1][1][0], t[1][1][1]]
  }

  /** The rule table of `simulate`. */
  function Decode(rule: int): (t: Table)
    requires 0 <= rule < 256
    ensures Shaped(t)
  {
    Reshape(RuleBits(rule))
  }

  /** The rule number a shaped table stands for, in Wolfram's numbering. */
  function Encode(t: Table): (rule: int)
    requires Shaped(t)
  {
    PackLittle(Flatten(t))
  }

  /** The entry for neighbourhood (l, c, r) is `(rule >> (4l + 2c + r)) & 1`, so every entry is 0 or 1. */
  lemma DecodeEntry(rule: int, l: nat, c: nat, r: nat)
    requires 0 <= rule < 256 && l < 2 && c < 2 && r < 2
    ensures Decode(rule)[l][c][r] == BitAt(rule, 4 * l + 2 * c + r)
    ensures IsBit(Decode(rule)[l][c][r])
  {
    UnpackLittleAt(rule, 8, 4 * l + 2 * c + r);
  }

  /** Every bit of rule 0 is 0 and every bit of rule 255 is 1. */
  lemma ConstantRuleBit(rule: int, v: int, k: nat)
    requires (rule == 0 && v == 0) || (rule == 255 && v == 1)
    requires k < 8
    ensures BitAt(rule, k) == v
  {
    if k == 0 {
    } else if k == 1 {
    } else if k == 2 {
    } else if k == 3 {
    } else if k == 4 {
    } else if k == 5 {
    } else if k == 6 {
    } else {
      assert k == 7;
    }
  }

  /** Decoding a rule whose eight bits are all `v` gives a table whose every entry is `v`. */
  lemma ConstantRule(rule: int, v: int)
    requires (rule == 0 && v == 0) || (rule == 255 && v == 1)
    ensures ConstantTable(Decode(rule), v)
  {
    forall l, c, r | 0 <= l < 2 && 0 <= c < 2 && 0 <= r < 2 ensures Decode(rule)[l][c][r] == v {
      DecodeEntry(rule, l, c, r);
      ConstantRuleBit(rule, v, 4 * l + 2 * c + r);
    }
  }

  /** Every entry of a decoded table is 0 or 1. */
  lemma DecodeIsBinary(rule: int)
    requires 0 <= rule < 256
    ensures BinaryTable(Decode(rule))
  {
    forall l, c, r | 0 <= l < 2 && 0 <= c < 2 && 0 <= r < 2
      ensures IsBit(Decode(rule)[l][c][r])
    {
      DecodeEntry(rule, l, c, r);
    }
  }

  /** Decoding loses nothing: re-assembling the eight entries in bit order gives the rule back. */
  lemma EncodeDecode(rule: int)
    requires 0 <= rule < 256
    ensures Encode(Decode(rule)) == rule
  {
    var bits := RuleBits(rule);
    assert Flatten(Reshape(bits)) == bits;
  }

  /** Reshaping the flattened entries rebuilds the table. */
  lemma ReshapeFlatten(t: Table)
    requires Shaped(t)
    ensures Reshape(Flatten(t)) == t
  {
    var u := Reshape(Flatten(t));
    forall l | 0 <= l < 2 ensures u[l] == t[l] {
      assert forall c :: 0 <= c < 2 ==> u[l][c] == t[l][c];
    }
  }

  lemma FlattenIsBinary(t: Table)
    requires Shaped(t) && BinaryTable(t)
    ensures IsBinary(Flatten(t))
  {
    var bits := Flatten(t);
    forall i | 0 <= i < 8 ensures IsBit(bits[i]) {
      var l, c, r := i / 4, i / 2 % 2, i % 2;
      assert i == 4 * l + 2 * c + r;
    }
  }

  /** Every binary (2, 2, 2) table is the decoding of exactly one rule: its encoding. */
  lemma DecodeEncode(t: Table)
    requires Shaped(t) && BinaryTable(t)
    ensures 0 <= Encode(t) < 256
    ensures Decode(Encode(t)) == t
  {
    var bits := Flatten(t);
    FlattenIsBinary(t);
    UnpackPack(bits);
    assert Pow2(8) == 256;
    assert RuleBits(Encode(t)) == bits;
    ReshapeFlatten(t);
  }

  /** Two rules decode to the same table only if they are the same rule. */
  lemma DecodeInjective(rule1: int, rule2: int)
    requires 0 <= rule1 < 256 && 0 <= rule2 < 256
    ensures Decode(rule1) == Decode(rule2) <==> rule1 == rule2
  {
    EncodeDecode(rule1);
    EncodeDecode(rule2);
  }

  /**
    For `count` >= 1, `f'{n:0<count>b}'`: the binary digits of n, most significant first,
    padded with leading zeros to at least `count` places; a number of 2^count or more
    keeps all of its digits, as Python's format does. (At `count` = 0 zero gives no
    digits, where Python prints "0"; the banner never asks for that.) The banner prints
    `count` = 8 of them under the neighbourhoods 111, 110, ..., 000.
  */
  function DigitsMsbFirst(n: nat, count: nat): (digits: Row)
    ensures |digits| >= count
    ensures n < Pow2(count) ==> |digits| == count
    ensures n >= Pow2(count) ==> |digits| > count
    decreases n, count
  {
    if count == 0 then
      if n == 0 then [] else DigitsMsbFirst(n / 2, 0) + [n % 2]
    else
      DigitsMsbFirst(n / 2, count - 1) + [n % 2]
  }

  /** The neighbourhood printed above column j of the banner: 111 for j = 0 down to 000 for j = 7. */
  function BannerNeighbourhood(j: nat): (lcr: (nat, nat, nat))
    requires j < 8
    ensures lcr.0 < 2 && lcr.1 < 2 && lcr.2 < 2
    ensures 4 * lcr.0 + 2 * lcr.1 + lcr.2 == 7 - j
  {
    var k := 7 - j;
    (k / 4, k / 2 % 2, k % 2)
  }

  /** The last `count` printed digits are the unpacked bits in reverse. */
  lemma {:induction false} DigitsReverseBits(n: nat, count: nat, i: nat)
    requires i < count
    ensures var digits := DigitsMsbFirst(n, count); digits[|digits| - 1 - i] == UnpackLittle(n, count)[i]
  {
    if i > 0 {
      DigitsReverseBits(n / 2, count - 1, i - 1);
    }
  }

  /**
    Wolfram's numbering: the digit the banner prints under neighbourhood (l, c, r)
    is the table entry the engine uses for it (111 is the most significant bit, 000 the least).
  */
  lemma BannerMatchesTable(rule: int, j: nat)
    requires 0 <= rule < 256 && j < 8
    ensures var (l, c, r) := BannerNeighbourhood(j); DigitsMsbFirst(rule, 8)[j] == Decode(rule)[l][c][r]
  {
    assert Pow2(8) == 256;
    DigitsReverseBits(rule, 8, 7 - j);
  }
}
