/**
 Unit flags of a combat-log entity (src/parser/flags.rs) and the decoding of
 the `0x`-prefixed hexadecimal flag field into an `i32`
 (`strip_prefix("0x")` followed by `i32::from_str_radix(_, 16)`).
 */
module Flags {
  import opened Wrappers
  import opened Scan

  newtype i32 = x: int | -0x8000_0000 <= x < 0x8000_0000

  /** The two flags the parser tests. */
  datatype Flag = ControlPlayer | TypePlayer {
    function Value(): (v: i32)
      ensures v > 0
    {
      match this
      case ControlPlayer => 0x100
      case TypePlayer => 0x400
    }
  }

  /** The 32 bits of a two's-complement `i32`, read as an unsigned number. */
  function Unsigned(x: i32): (u: nat)
    ensures u < 0x1_0000_0000
    ensures x >= 0 ==> u == x as int
  {
    if x >= 0 then x as nat else (x as int + 0x1_0000_0000) as nat
  }

  /** Bitwise and of two non-negative numbers. */
  function BitAnd(a: nat, b: nat): nat {
    if a == 0 || b == 0 then 0 else 2 * BitAnd(a / 2, b / 2) + (a % 2) * (b % 2)
  }

  function Pow2(k: nat): (r: nat)
    ensures r >= 1
  {
    if k == 0 then 1 else 2 * Pow2(k - 1)
  }

  /** `HasFlag::has_flag`: the bitwise and of the value and the flag is non-zero. */
  predicate HasFlag(x: i32, f: Flag) {
    BitAnd(Unsigned(x), f.Value() as nat) != 0
  }

  /** The flag's single bit. */
  function Bit(f: Flag): (k: nat)
    ensures Pow2(k) == f.Value() as nat
  {
    match f
    case ControlPlayer => assert Pow2(8) == 0x100; 8
    case TypePlayer => assert Pow2(10) == 0x400; 10
  }

  /** Binary digit `k` of `a`, found by halving `k` times. */
  function BitOf(a: nat, k: nat): (d: nat)
    ensures d < 2
  {
    if k == 0 then a % 2 else BitOf(a / 2, k - 1)
  }

  /** And-ing with a power of two keeps exactly that binary digit. */
  lemma {:induction false} BitAndPow2(a: nat, k: nat)
    ensures BitAnd(a, Pow2(k)) == Pow2(k) * BitOf(a, k)
  {
    if k > 0 && a > 0 {
      BitAndPow2(a / 2, k - 1);
      assert Pow2(k) == 2 * Pow2(k - 1);
      assert BitAnd(a, Pow2(k)) == 2 * BitAnd(a / 2, Pow2(k - 1));
    } else if k > 0 {
      assert BitOf(0, k) == 0 by { BitOfZero(k); }
    }
  }

  lemma {:induction false} BitOfZero(k: nat)
    ensures BitOf(0, k) == 0
  {
    if k > 0 {
      BitOfZero(k - 1);
    }
  }

  /**
   `has_flag` tests exactly the flag's one binary digit of the two's-complement
   word: bit 8 for `ControlPlayer`, bit 10 for `TypePlayer`.
   */
  lemma HasFlagIsBitTest(x: i32, f: Flag)
    ensures HasFlag(x, f) <==> BitOf(Unsigned(x), Bit(f)) == 1
  {
    BitAndPow2(Unsigned(x), Bit(f));
  }

  /** The test `various` of flags.rs. */
  lemma FlagExamples()
    ensures HasFlag(0x514, ControlPlayer) && HasFlag(0x514, TypePlayer)
    ensures HasFlag(0x100, ControlPlayer) && !HasFlag(0x100, TypePlayer)
    ensures !HasFlag(0x400, ControlPlayer) && HasFlag(0x400, TypePlayer)
  {
    assert Bit(ControlPlayer) == 8 && Bit(TypePlayer) == 10;
    assert Unsigned(0x514) == 0x514 && Unsigned(0x100) == 0x100 && Unsigned(0x400) == 0x400;
    assert BitOf(0x514, 8) == 1 && BitOf(0x514, 10) == 1;
    assert BitOf(0x100, 8) == 1 && BitOf(0x100, 10) == 0;
    assert BitOf(0x400, 8) == 0 && BitOf(0x400, 10) == 1;
    HasFlagIsBitTest(0x514, ControlPlayer);
    HasFlagIsBitTest(0x514, TypePlayer);
    HasFlagIsBitTest(0x100, ControlPlayer);
    HasFlagIsBitTest(0x100, TypePlayer);
    HasFlagIsBitTest(0x400, ControlPlayer);
    HasFlagIsBitTest(0x400, TypePlayer);
  }

  /** Value of one hexadecimal digit, either case. */
  function HexDigit(b: byte): (r: Option<nat>)
    ensures r.Some? ==> r.value < 16
  {
    if 48 <= b <= 57 then Some((b - 48) as nat)
    else if 97 <= b <= 102 then Some((b - 87) as nat)
    else if 65 <= b <= 70 then Some((b - 55) as nat)
    else None
  }

  /** Value of a string of hexadecimal digits, most significant first. */
  function HexValue(s: seq<byte>): (r: Option<nat>)
    ensures r.Some? ==> r.value < Pow16(|s|)
  {
    if s == [] then Some(0)
    else match HexValue(s[..|s| - 1])
      case None => None
      case Some(hi) =>
        match HexDigit(s[|s| - 1])
        case None => None
        case Some(lo) => Some(hi * 16 + lo)
  }

  function Pow16(n: nat): (r: nat)
    ensures r >= 1
  {
    if n == 0 then 1 else 16 * Pow16(n - 1)
  }

  /**
   `i32::from_str_radix(s, 16)`: an optional `+` or `-` sign followed by at
   least one hexadecimal digit, whose value must fit in an `i32`.
   */
  function FromStrRadix16(s: seq<byte>): (r: Option<i32>)
    ensures r.Some? ==> |s| > 0
    ensures var signed := |s| > 0 && (s[0] == PLUS || s[0] == MINUS);
      var digits := if signed then s[1..] else s;
      var negative := signed && s[0] == MINUS;
      && (r.Some? <==>
            && |digits| > 0 && HexValue(digits).Some?
            && -0x8000_0000 <= (if negative then 0 - HexValue(digits).value else HexValue(digits).value) < 0x8000_0000)
      && (r.Some? ==> r.value as int == if negative then 0 - HexValue(digits).value else HexValue(digits).value)
  {
    if s == [] then None
    else
      var negative := s[0] == MINUS;
      var digits := if s[0] == PLUS || s[0] == MINUS then s[1..] else s;
      if digits == [] then None
      else match HexValue(digits)
        case None => None
        case Some(n) =>
          var v: int := if negative then 0 - n else n;
          if -0x8000_0000 <= v < 0x8000_0000 then Some(v as i32) else None
  }

  const PLUS: byte := 43
  const MINUS: byte := 45

  /** A string decodes exactly when every byte of it is a hexadecimal digit. */
  lemma {:induction false} HexValueDigits(s: seq<byte>)
    ensures HexValue(s).Some? <==> forall i | 0 <= i < |s| :: HexDigit(s[i]).Some?
  {
    if s != [] {
      var init := s[..|s| - 1];
      HexValueDigits(init);
      forall i | 0 <= i < |init|
        ensures init[i] == s[i]
      {
      }
    }
  }

  /** A digit string without a sign decodes to its value when it fits. */
  lemma FromStrRadix16Bare(h: seq<byte>, n: nat)
    requires |h| > 0 && HexValue(h) == Some(n) && HexDigit(h[0]).Some? && n < 0x8000_0000
    ensures var r := FromStrRadix16(h); r.Some? && r.value as int == n
  {
    assert h[0] != PLUS && h[0] != MINUS;
  }

  /** Behind a `+`, a digit string decodes to its value when it fits. */
  lemma FromStrRadix16Plus(h: seq<byte>, n: nat)
    requires |h| > 0 && HexValue(h) == Some(n) && n < 0x8000_0000
    ensures var r := FromStrRadix16([PLUS] + h); r.Some? && r.value as int == n
  {
    var s := [PLUS] + h;
    assert s[0] == PLUS && s[1..] == h;
  }

  /** Behind a `-`, a digit string decodes to its negated value when that fits. */
  lemma FromStrRadix16Minus(h: seq<byte>, n: nat)
    requires |h| > 0 && HexValue(h) == Some(n) && n <= 0x8000_0000
    ensures var r := FromStrRadix16([MINUS] + h); r.Some? && r.value as int == 0 - n
  {
    var s := [MINUS] + h;
    assert s[0] == MINUS && s[1..] == h;
  }

  /**
   `from_str_radix` inverts the hexadecimal digits of a magnitude under
   either sign, down to `i32::MIN`, whose magnitude only fits behind a `-`.
   */
  lemma FromStrRadix16OfSigned(n: nat)
    ensures n < 0x8000_0000 ==> var r := FromStrRadix16(ToHex(n)); r.Some? && r.value as int == n
    ensures n < 0x8000_0000 ==> var r := FromStrRadix16([PLUS] + ToHex(n)); r.Some? && r.value as int == n
    ensures n <= 0x8000_0000 ==>
      var r := FromStrRadix16([MINUS] + ToHex(n)); r.Some? && r.value as int == 0 - n
  {
    var h := ToHex(n);
    HexValueOfToHex(n);
    HexValueDigits(h);
    if n < 0x8000_0000 {
      FromStrRadix16Bare(h, n);
      FromStrRadix16Plus(h, n);
    }
    if n <= 0x8000_0000 {
      FromStrRadix16Minus(h, n);
    }
  }

  /** `0x` */
  const HEX_PREFIX: seq<byte> := [48, 120]

  /** The flag field of a `UNIT_DIED` line: `0x` then `i32` hexadecimal. */
  function ParseFlagField(field: seq<byte>): (r: Option<i32>)
    ensures r.Some? ==> |field| > 2 && field[..2] == HEX_PREFIX
  {
    if |field| < 2 || field[..2] != HEX_PREFIX then None
    else FromStrRadix16(field[2..])
  }

  /** Lower-case hexadecimal digits of `n`, without leading zeros. */
  function ToHex(n: nat): (r: seq<byte>)
    ensures |r| > 0
  {
    if n < 16 then [HexChar(n)] else ToHex(n / 16) + [HexChar(n % 16)]
  }

  function HexChar(d: nat): (b: byte)
    requires d < 16
    ensures HexDigit(b) == Some(d)
  {
    var x := d as byte;
    if d < 10 then 48 + x else 87 + x
  }

  lemma {:induction false} HexValueOfToHex(n: nat)
    ensures HexValue(ToHex(n)) == Some(n)
  {
    if n >= 16 {
      HexValueOfToHex(n / 16);
      var s := ToHex(n);
      assert s[..|s| - 1] == ToHex(n / 16);
    } else {
      assert [HexChar(n)][..0] == [];
    }
  }

  /**
   Decoding inverts the log's encoding of a flag word: `0x` followed by the
   lower-case hexadecimal digits of a non-negative `i32` decodes to that value.
   */
  lemma ParseFlagFieldOfHex(x: i32)
    requires x >= 0
    ensures ParseFlagField(HEX_PREFIX + ToHex(x as nat)) == Some(x)
  {
    var h := ToHex(x as nat);
    var field := HEX_PREFIX + h;
    assert field[..2] == HEX_PREFIX;
    assert field[2..] == h;
    HexValueOfToHex(x as nat);
    assert h[0] != MINUS && h[0] != PLUS by {
      assert HexDigit(h[0]).Some? by {
        HexValuePrefixDigits(h, 0);
      }
    }
  }

  /** Every byte of a decodable digit string is a hexadecimal digit. */
  lemma {:induction false} HexValuePrefixDigits(s: seq<byte>, i: nat)
    requires HexValue(s).Some? && i < |s|
    ensures HexDigit(s[i]).Some?
  {
    if i < |s| - 1 {
      assert s[..|s| - 1][i] == s[i];
      HexValuePrefixDigits(s[..|s| - 1], i);
    }
  }

  /** The test `with_parse` of flags.rs: `"0x514"` decodes to 1300, with both flags. */
  lemma WithParseExample()
    ensures ParseFlagField([48, 120, 53, 49, 52]) == Some(1300)
    ensures HasFlag(1300, ControlPlayer) && HasFlag(1300, TypePlayer)
  {
    var field: seq<byte> := [48, 120, 53, 49, 52];
    assert field[..2] == HEX_PREFIX;
    var d := field[2..];
    assert d == [53, 49, 52];
    assert d[..2] == [53, 49];
    assert d[..1] == [53];
    assert HexValue([53, 49]) == Some(0x51) by {
      assert [53, 49][..1] == [53];
      assert [53][..0] == [];
    }
    assert HexValue(d) == Some(1300);
    assert Unsigned(1300) == 1300 && BitOf(1300, 8) == 1 && BitOf(1300, 10) == 1;
    assert Bit(ControlPlayer) == 8 && Bit(TypePlayer) == 10;
    HasFlagIsBitTest(1300, ControlPlayer);
    HasFlagIsBitTest(1300, TypePlayer);
  }
}
