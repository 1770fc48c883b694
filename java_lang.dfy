/**
 * The pieces of java.lang the service leans on: 32-bit int arithmetic,
 * String.split with a one-character separator, and Integer.parseInt.
 */
module JavaLang {

  const INT_MIN: int := -0x8000_0000
  const INT_MAX: int := 0x7fff_ffff

  predicate InInt(x: int) {
    INT_MIN <= x <= INT_MAX
  }

  /** The Java int that a mathematical result wraps around to (two's complement). */
  function WrapInt(x: int): (r: int)
    ensures InInt(r)
    ensures (x - r) % 0x1_0000_0000 == 0
    ensures InInt(x) ==> r == x
  {
    (x - INT_MIN) % 0x1_0000_0000 + INT_MIN
  }

  /** Java's `a - b` on int. */
  function IntSub(a: int, b: int): int {
    WrapInt(a - b)
  }

  /** Java's `a * b` on int. */
  function IntMul(a: int, b: int): int {
    WrapInt(a * b)
  }

  // ---------------------------------------------------------------------
  // String.split

  /** The number of occurrences of c in s. */
  function Occurrences(s: string, c: char): nat {
    if s == [] then 0 else (if s[0] == c then 1 else 0) + Occurrences(s[1..], c)
  }

  /**
   * The pieces of s between the occurrences of sep, empty pieces
   * included: one more piece than s has separators, none holding sep.
   */
  function Pieces(s: string, sep: char): (r: seq<string>)
    ensures |r| == Occurrences(s, sep) + 1
    ensures forall i :: 0 <= i < |r| ==> sep !in r[i]
  {
    if s == [] then [[]]
    else
      var rest := Pieces(s[1..], sep);
      if s[0] == sep then [[]] + rest
      else [[s[0]] + rest[0]] + rest[1..]
  }

  /** The pieces written back with sep between them. */
  function Join(ps: seq<string>, sep: char): string
    requires |ps| > 0
  {
    if |ps| == 1 then ps[0] else ps[0] + [sep] + Join(ps[1..], sep)
  }

  /** ps without its trailing run of empty strings. */
  function DropTrailingEmpty(ps: seq<string>): (r: seq<string>)
    ensures |r| <= |ps| && r == ps[..|r|]
    ensures r == [] || r[|r| - 1] != []
    ensures forall i :: |r| <= i < |ps| ==> ps[i] == []
  {
    if ps == [] then []
    else if ps[|ps| - 1] == [] then DropTrailingEmpty(ps[..|ps| - 1])
    else ps
  }

  /**
   * `s.split(sep)` for a separator that is not a regular-expression
   * metacharacter: the pieces with trailing empty ones removed, except that
   * a string without any match (the empty string in particular) gives
   * itself as the only piece.
   */
  function Split(s: string, sep: char): (r: seq<string>)
    ensures forall i :: 0 <= i < |r| ==> sep !in r[i]
  {
    if s == [] then [[]] else DropTrailingEmpty(Pieces(s, sep))
  }

  lemma {:induction false} JoinPieces(s: string, sep: char)
    ensures Join(Pieces(s, sep), sep) == s
  {
    if s != [] {
      JoinPieces(s[1..], sep);
      var rest := Pieces(s[1..], sep);
      if s[0] != sep {
        if |rest| == 1 {
          assert Join(Pieces(s, sep), sep) == [s[0]] + rest[0];
        } else {
          assert Join(rest, sep) == rest[0] + [sep] + Join(rest[1..], sep);
          assert Join(Pieces(s, sep), sep) == ([s[0]] + rest[0]) + [sep] + Join(rest[1..], sep);
        }
        assert s == [s[0]] + s[1..];
      } else {
        assert s == [sep] + s[1..];
      }
    }
  }

  /** A prefix without the separator joins the first piece of what follows it. */
  lemma {:induction false} PiecesOfPrefix(p: string, t: string, sep: char)
    requires sep !in p
    ensures Pieces(p + t, sep) == [p + Pieces(t, sep)[0]] + Pieces(t, sep)[1..]
  {
    if p != [] {
      PiecesOfPrefix(p[1..], t, sep);
      assert (p + t)[1..] == p[1..] + t;
      assert [p[0]] + (p[1..] + Pieces(t, sep)[0]) == p + Pieces(t, sep)[0];
    } else {
      assert p + t == t && p + Pieces(t, sep)[0] == Pieces(t, sep)[0];
      assert Pieces(t, sep) == [Pieces(t, sep)[0]] + Pieces(t, sep)[1..];
    }
  }

  /** Splitting a join of separator-free pieces gives the pieces back. */
  lemma {:induction false} PiecesJoin(ps: seq<string>, sep: char)
    requires |ps| > 0
    requires forall i :: 0 <= i < |ps| ==> sep !in ps[i]
    ensures Pieces(Join(ps, sep), sep) == ps
  {
    if |ps| == 1 {
      PiecesOfPrefix(ps[0], [], sep);
      assert ps[0] + [] == ps[0];
    } else {
      PiecesJoin(ps[1..], sep);
      var t := [sep] + Join(ps[1..], sep);
      PiecesOfPrefix(ps[0], t, sep);
      assert Pieces(t, sep) == [[]] + ps[1..] by {
        assert t[0] == sep && t[1..] == Join(ps[1..], sep);
      }
      assert ps[0] + t == Join(ps, sep);
      assert ps[0] + [] == ps[0];
      assert [ps[0]] + ps[1..] == ps;
    }
  }

  /**
   * A comma list as a client writes it, separator-free items and a
   * non-empty last one, splits back into exactly those items.
   */
  lemma SplitJoin(ps: seq<string>, sep: char)
    requires |ps| > 0 && ps[|ps| - 1] != []
    requires forall i :: 0 <= i < |ps| ==> sep !in ps[i]
    ensures Split(Join(ps, sep), sep) == ps
  {
    PiecesJoin(ps, sep);
    assert Join(ps, sep) != [] by {
      if |ps| > 1 {
        assert Join(ps, sep) == ps[0] + [sep] + Join(ps[1..], sep);
      }
    }
  }

  // ---------------------------------------------------------------------
  // Integer.parseInt (radix 10)

  predicate IsDigit(c: char) {
    '0' <= c <= '9'
  }

  predicate IsDigits(ds: string) {
    |ds| > 0 && forall i :: 0 <= i < |ds| ==> IsDigit(ds[i])
  }

  /** The value of a string of decimal digits, most significant first. */
  function DigitsValue(ds: string): nat
    requires forall i :: 0 <= i < |ds| ==> IsDigit(ds[i])
  {
    if ds == [] then 0
    else
      assert IsDigit(ds[|ds| - 1]);
      DigitsValue(ds[..|ds| - 1]) * 10 + (ds[|ds| - 1] as int - '0' as int)
  }

  predicate HasSign(s: string) {
    |s| > 0 && (s[0] == '-' || s[0] == '+')
  }

  /** An optional sign followed by at least one digit. */
  predicate IsNumeral(s: string) {
    if HasSign(s) then IsDigits(s[1..]) else IsDigits(s)
  }

  function NumeralValue(s: string): int
    requires IsNumeral(s)
  {
    if HasSign(s) then
      var magnitude: int := DigitsValue(s[1..]);
      if s[0] == '-' then -magnitude else magnitude
    else DigitsValue(s)
  }

  /** What Integer.parseInt accepts: a numeral whose value fits an int. */
  predicate IsIntLiteral(s: string) {
    IsNumeral(s) && InInt(NumeralValue(s))
  }

  /** Integer.parseInt(s) on the strings it accepts. */
  function ParseInt(s: string): (r: int)
    requires IsIntLiteral(s)
    ensures InInt(r)
    ensures r < 0 ==> s[0] == '-'
  {
    NumeralValue(s)
  }

  function DigitChar(d: nat): char
    requires d < 10
  {
    ('0' as int + d) as char
  }

  /** The decimal digits of n without leading zeros. */
  function Digits(n: nat): (ds: string)
    ensures IsDigits(ds)
  {
    if n < 10 then [DigitChar(n)] else Digits(n / 10) + [DigitChar(n % 10)]
  }

  /** Integer.toString(n): a minus sign for negative values, then the digits. */
  function IntToString(n: int): string {
    if n < 0 then "-" + Digits(-n) else Digits(n)
  }

  lemma {:induction false} DigitsValueOfDigits(n: nat)
    ensures DigitsValue(Digits(n)) == n
  {
    if n >= 10 {
      DigitsValueOfDigits(n / 10);
      var ds := Digits(n);
      assert ds[..|ds| - 1] == Digits(n / 10);
    }
  }

  /** parseInt reads back what toString writes, for every int. */
  lemma ParseIntToString(n: int)
    requires InInt(n)
    ensures IsIntLiteral(IntToString(n)) && ParseInt(IntToString(n)) == n
  {
    DigitsValueOfDigits(if n < 0 then -n else n);
    if n < 0 {
      assert IntToString(n)[1..] == Digits(-n);
    } else {
      assert !HasSign(Digits(n));
    }
  }
}
