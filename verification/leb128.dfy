/** Unsigned LEB128 (DWARF 5, section 7.6, "Variable Length Data"): a number
    is split into groups of seven bits, least significant group first, and
    every byte but the last has its high (continuation) bit set. */
module Leb128 {
  import opened Parse

  /** The seven data bits a byte contributes. */
  function Digit(b: byte): nat
  {
    (b as int) % 128
  }

  /** True when the byte's continuation bit is set. */
  predicate Continues(b: byte)
  {
    b >= 128
  }

  function Pow128(k: nat): (r: nat)
    ensures r >= 1
  {
    if k == 0 then 1 else 128 * Pow128(k - 1)
  }

  /** The number a run of bytes denotes: the sum of `Digit(s[i]) * 128^i`. */
  function Value(s: seq<byte>): nat
  {
    if |s| == 0 then 0 else Value(s[..|s| - 1]) + Digit(s[|s| - 1]) * Pow128(|s| - 1)
  }

  /** One complete ULEB128 number: the continuation bit is set on every byte
      except the last. */
  predicate IsGroup(s: seq<byte>)
  {
    && |s| > 0
    && !Continues(s[|s| - 1])
    && forall i :: 0 <= i < |s| - 1 ==> Continues(s[i])
  }

  /** The shortest group for its value: no redundant trailing zero byte. */
  predicate IsCanonical(s: seq<byte>)
  {
    IsGroup(s) && (|s| == 1 || s[|s| - 1] != 0)
  }

  /** Peeling the first byte off a run: the positional value is the first
      digit plus 128 times the value of the rest. */
  lemma {:induction false} ValueCons(b: byte, s: seq<byte>)
    ensures Value([b] + s) == Digit(b) + 128 * Value(s)
    decreases |s|
  {
    if |s| == 0 {
      assert [b] + s == [b];
      assert [b][..0] == [];
    } else {
      var init, last := s[..|s| - 1], s[|s| - 1];
      var bs := [b] + s;
      assert bs[..|bs| - 1] == [b] + init;
      assert bs[|bs| - 1] == last;
      ValueCons(b, init);
      assert Pow128(|s|) == 128 * Pow128(|s| - 1);
      calc {
        Value(bs);
        Value([b] + init) + Digit(last) * Pow128(|s|);
        Digit(b) + 128 * Value(init) + Digit(last) * (128 * Pow128(|s| - 1));
        { assert Digit(last) * (128 * Pow128(|s| - 1)) == 128 * (Digit(last) * Pow128(|s| - 1)); }
        Digit(b) + 128 * (Value(init) + Digit(last) * Pow128(|s| - 1));
        Digit(b) + 128 * Value(s);
      }
    }
  }

  /** A one-byte run denotes its digit. */
  lemma ValueSingle(b: byte)
    ensures Value([b]) == Digit(b)
  {
    assert [b][..0] == [];
  }

  /** A continuation byte in front of a canonical group of nonzero value is
      again a canonical group. */
  lemma ConsCanonical(b: byte, t: seq<byte>)
    requires Continues(b)
    requires IsCanonical(t)
    requires Value(t) >= 1
    ensures IsCanonical([b] + t)
  {
    GroupCons(b, t);
    assert ([b] + t)[|t|] == t[|t| - 1];
    if |t| == 1 {
      ValueSingle(t[0]);
    }
  }

  /** encode_uleb128: the canonical group for `n`. */
  function EncodeUleb128(n: nat): (r: seq<byte>)
    ensures IsCanonical(r)
    ensures Value(r) == n
    decreases n
  {
    if n < 128 then
      ValueSingle(n as byte);
      [n as byte]
    else
      var tail := EncodeUleb128(n / 128);
      var b := (n % 128 + 128) as byte;
      assert Digit(b) == n % 128;
      ValueCons(b, tail);
      ConsCanonical(b, tail);
      [b] + tail
  }

  /** `input` starts with one group denoting `v`, and `rest` is what follows
      it. */
  predicate ReadsGroup(input: seq<byte>, rest: seq<byte>, v: nat)
  {
    && |rest| < |input|
    && var k := |input| - |rest|;
    && IsGroup(input[..k])
    && Value(input[..k]) == v
    && input[k..] == rest
  }

  /** Reads one ULEB128 number. It fails only when no byte of the input ends
      a group, and then always for lack of input: the model's numbers are
      unbounded, so there is no overflow error. On success the consumed
      prefix is exactly one group and denotes the returned value. */
  function ParseUleb128(input: seq<byte>): (r: ParseResult<nat>)
    ensures r.Failed? <==> forall i :: 0 <= i < |input| ==> Continues(input[i])
    ensures r.Failed? ==> r.error == NotEnoughInput
    ensures r.Parsed? ==> ReadsGroup(input, r.rest, r.value)
    decreases |input|
  {
    if |input| == 0 then
      Failed(NotEnoughInput)
    else if !Continues(input[0]) then
      ReadsSingle(input);
      Parsed(input[1..], input[0] as nat)
    else
      match ParseUleb128(input[1..])
      case Failed(e) =>
        AllContinue(input);
        Failed(e)
      case Parsed(rest, v) =>
        ReadsCons(input, rest, v);
        Parsed(rest, Digit(input[0]) + 128 * v)
  }

  lemma ReadsSingle(input: seq<byte>)
    requires |input| > 0 && !Continues(input[0])
    ensures ReadsGroup(input, input[1..], input[0] as nat)
  {
    assert input[..1] == [input[0]];
    ValueSingle(input[0]);
  }

  lemma AllContinue(input: seq<byte>)
    requires |input| > 0 && Continues(input[0])
    ensures (forall i :: 0 <= i < |input| - 1 ==> Continues(input[1..][i])) <==>
            (forall i :: 0 <= i < |input| ==> Continues(input[i]))
  {
    assert forall i :: 1 <= i < |input| ==> input[i] == input[1..][i - 1];
  }

  /** A continuation byte in front of a group that denotes `v` starts a
      group that denotes `Digit(b) + 128 * v`. */
  lemma ReadsCons(input: seq<byte>, rest: seq<byte>, v: nat)
    requires |input| > 0 && Continues(input[0])
    requires ReadsGroup(input[1..], rest, v)
    ensures ReadsGroup(input, rest, Digit(input[0]) + 128 * v)
  {
    var k := |input| - |rest|;
    var g := input[1..][..k - 1];
    assert input[..k] == [input[0]] + g;
    GroupCons(input[0], g);
    ValueCons(input[0], g);
    assert input[k..] == input[1..][k - 1..];
  }

  /** A continuation byte in front of a group is again a group. */
  lemma GroupCons(b: byte, g: seq<byte>)
    requires Continues(b)
    requires IsGroup(g)
    ensures IsGroup([b] + g)
  {
    var r := [b] + g;
    assert r[|r| - 1] == g[|g| - 1];
    assert forall i :: 1 <= i < |r| - 1 ==> r[i] == g[i - 1];
  }

  /** Any group followed by anything parses back to the group's value and
      leaves exactly what followed it. */
  lemma {:induction false} ParseGroup(g: seq<byte>, rest: seq<byte>)
    requires IsGroup(g)
    ensures ParseUleb128(g + rest) == Parsed(rest, Value(g))
    decreases |g|
  {
    var input := g + rest;
    if |g| == 1 {
      assert input[1..] == rest;
      assert Value(g) == Value([]) + Digit(g[0]) * Pow128(0);
    } else {
      var tail := g[1..];
      assert g == [g[0]] + tail;
      assert IsGroup(tail) by {
        assert forall i :: 0 <= i < |tail| - 1 ==> tail[i] == g[i + 1];
      }
      assert input[1..] == tail + rest;
      ParseGroup(tail, rest);
      ValueCons(g[0], tail);
    }
  }

  /** Decoding what the encoder wrote gives back the number and leaves the
      trailing bytes alone. */
  lemma ParseEncoded(n: nat, rest: seq<byte>)
    ensures ParseUleb128(EncodeUleb128(n) + rest) == Parsed(rest, n)
  {
    ParseGroup(EncodeUleb128(n), rest);
  }

  /** A canonical group's value has only one canonical encoding: the
      encoder's output is the unique shortest form. */
  lemma {:induction false} CanonicalUnique(s: seq<byte>)
    requires IsCanonical(s)
    ensures s == EncodeUleb128(Value(s))
    decreases |s|
  {
    if |s| == 1 {
      CanonicalSingle(s);
    } else {
      var t := s[1..];
      assert s == [s[0]] + t;
      TailCanonical(s);
      CanonicalUnique(t);
      ValueCons(s[0], t);
      NonzeroLast(t);
      HeadDigits(s[0], Value(s), Value(t));
      assert EncodeUleb128(Value(s)) == [s[0]] + EncodeUleb128(Value(t));
    }
  }

  lemma CanonicalSingle(s: seq<byte>)
    requires IsCanonical(s) && |s| == 1
    ensures s == EncodeUleb128(Value(s))
  {
    ValueSingle(s[0]);
    assert s == [s[0]];
  }

  /** Dropping the first byte of a longer canonical group leaves a canonical
      group. */
  lemma TailCanonical(s: seq<byte>)
    requires IsCanonical(s) && |s| > 1
    ensures IsCanonical(s[1..])
  {
    var t := s[1..];
    assert forall i :: 0 <= i < |t| - 1 ==> t[i] == s[i + 1];
    assert t[|t| - 1] == s[|s| - 1];
  }

  /** The arithmetic behind one encoder step: the continuation byte written
      for `n` is `n % 128 + 128`, and what remains to encode is `n / 128`. */
  lemma HeadDigits(b: byte, n: nat, q: nat)
    requires Continues(b) && q >= 1
    requires n == Digit(b) + 128 * q
    ensures n >= 128
    ensures (n % 128 + 128) as byte == b
    ensures n / 128 == q
  {
    DivMod128(n, b as int - 128, q);
  }

  /** A group whose last byte is nonzero denotes a nonzero number. */
  lemma NonzeroLast(t: seq<byte>)
    requires |t| > 0 && t[|t| - 1] != 0 && !Continues(t[|t| - 1])
    ensures Value(t) >= 1
  {
    var d, w := Digit(t[|t| - 1]), Pow128(|t| - 1);
    assert Value(t) == Value(t[..|t| - 1]) + d * w;
    assert d == t[|t| - 1] as int;
    MulAtLeast(d, w);
  }

  lemma MulAtLeast(d: nat, w: nat)
    requires d >= 1
    ensures d * w >= w
  {
  }

  lemma DivMod128(n: int, d: int, q: int)
    requires 0 <= d < 128 && n == d + 128 * q
    ensures n % 128 == d && n / 128 == q
  {
  }
}
