/**
 * The JavaScript string primitives the application code relies on, written
 * out over `seq<char>`: `trim`, `toLowerCase`, `includes`, `startsWith`,
 * `split` on one character, `join`, integer formatting with `${n}`,
 * `parseInt` and `Number` on strings.
 */
module Text {
  import opened Wrappers

  /**
   * Whitespace as `String.prototype.trim` and the regular-expression class
   * `\s` see it: the ECMAScript WhiteSpace and LineTerminator characters.
   */
  predicate IsSpace(c: char) {
    c == ' ' || c == '\t' || c == '\n' || c == '\r' || c == '\U{000B}' || c == '\U{000C}' ||
    c == '\U{00A0}' || c == '\U{1680}' || '\U{2000}' <= c <= '\U{200A}' ||
    c == '\U{2028}' || c == '\U{2029}' || c == '\U{202F}' || c == '\U{205F}' ||
    c == '\U{3000}' || c == '\U{FEFF}'
  }

  predicate IsDigit(c: char) {
    '0' <= c <= '9'
  }

  predicate IsHexDigit(c: char) {
    IsDigit(c) || 'a' <= c <= 'f' || 'A' <= c <= 'F'
  }

  predicate AllDigits(s: string) {
    forall k :: 0 <= k < |s| ==> IsDigit(s[k])
  }

  // ---------------------------------------------------------------------------
  // trim, toLowerCase, includes, startsWith
  // ---------------------------------------------------------------------------

  /** `s.trimStart()`: drops the leading whitespace and nothing else. */
  function TrimStart(s: string): (r: string)
    ensures |r| <= |s|
    ensures r == [] || !IsSpace(r[0])
  {
    if |s| > 0 && IsSpace(s[0]) then TrimStart(s[1..]) else s
  }

  /** `s.trimEnd()`: drops the trailing whitespace and nothing else. */
  function TrimEnd(s: string): (r: string)
    ensures |r| <= |s|
    ensures r == [] || !IsSpace(r[|r| - 1])
  {
    if |s| > 0 && IsSpace(s[|s| - 1]) then TrimEnd(s[..|s| - 1]) else s
  }

  /** What trimStart keeps is a suffix of its input. */
  lemma {:induction false} TrimStartSuffix(s: string)
    ensures TrimStart(s) == s[|s| - |TrimStart(s)|..]
  {
    if |s| > 0 && IsSpace(s[0]) {
      TrimStartSuffix(s[1..]);
      assert s[1..][|s| - 1 - |TrimStart(s)|..] == s[|s| - |TrimStart(s)|..];
    }
  }

  /** What trimEnd keeps is a prefix of its input. */
  lemma {:induction false} TrimEndPrefix(s: string)
    ensures TrimEnd(s) == s[..|TrimEnd(s)|]
  {
    if |s| > 0 && IsSpace(s[|s| - 1]) {
      TrimEndPrefix(s[..|s| - 1]);
      assert s[..|s| - 1][..|TrimEnd(s)|] == s[..|TrimEnd(s)|];
    }
  }

  /** `s.trim()`. */
  function Trim(s: string): (r: string)
    ensures |r| <= |s|
    ensures r == [] || (!IsSpace(r[0]) && !IsSpace(r[|r| - 1]))
  {
    var t := TrimStart(s);
    TrimEndPrefix(t);
    TrimEnd(t)
  }

  /** A string that begins and ends with a non-space character is its own trim. */
  lemma TrimOfTrimmed(s: string)
    requires s == [] || (!IsSpace(s[0]) && !IsSpace(s[|s| - 1]))
    ensures Trim(s) == s
  {
  }

  /** Trimming a non-blank, already trimmed text padded with one space on each side gives the text back. */
  lemma TrimPadded(x: string)
    requires x != [] && !IsSpace(x[0]) && !IsSpace(x[|x| - 1])
    ensures Trim(" " + x + " ") == x
  {
    assert (" " + x + " ")[1..] == x + " ";
    assert TrimStart(" " + x + " ") == TrimStart(x + " ");
    assert TrimStart(x + " ") == x + " ";
    assert (x + " ")[..|x|] == x;
    assert TrimEnd(x + " ") == TrimEnd(x);
  }

  /** What trimStart drops is whitespace. */
  lemma {:induction false} TrimStartDropsSpaces(s: string)
    ensures forall k :: 0 <= k < |s| - |TrimStart(s)| ==> IsSpace(s[k])
  {
    if |s| > 0 && IsSpace(s[0]) {
      TrimStartDropsSpaces(s[1..]);
      forall k | 0 <= k < |s| - |TrimStart(s)| ensures IsSpace(s[k]) {
        if k > 0 {
          assert s[k] == s[1..][k - 1];
        }
      }
    }
  }

  /** What trimEnd drops is whitespace. */
  lemma {:induction false} TrimEndDropsSpaces(s: string)
    ensures forall k :: |TrimEnd(s)| <= k < |s| ==> IsSpace(s[k])
  {
    if |s| > 0 && IsSpace(s[|s| - 1]) {
      TrimEndDropsSpaces(s[..|s| - 1]);
      forall k | |TrimEnd(s)| <= k < |s| ensures IsSpace(s[k]) {
        if k < |s| - 1 {
          assert s[k] == s[..|s| - 1][k];
        }
      }
    }
  }

  /** A string is blank (its trim is empty, so JavaScript reads the trim as false) iff it is all whitespace. */
  lemma BlankIffAllSpace(s: string)
    ensures Trim(s) == [] <==> forall k :: 0 <= k < |s| ==> IsSpace(s[k])
  {
    var t := TrimStart(s);
    TrimStartSuffix(s);
    TrimStartDropsSpaces(s);
    TrimEndDropsSpaces(t);
    if t != [] {
      assert !IsSpace(t[0]) && t[0] == s[|s| - |t|];
    }
  }

  function LowerChar(c: char): char {
    if 'A' <= c <= 'Z' then (c as int + 32) as char else c
  }

  /** `s.toLowerCase()` on ASCII letters. */
  function Lower(s: string): (r: string)
    ensures |r| == |s|
  {
    if s == [] then [] else [LowerChar(s[0])] + Lower(s[1..])
  }

  /** Lowering works character by character. */
  lemma {:induction false} LowerAt(s: string, k: nat)
    requires k < |s|
    ensures Lower(s)[k] == LowerChar(s[k])
  {
    if k > 0 {
      LowerAt(s[1..], k - 1);
    }
  }

  /** Lowering twice lowers once. */
  lemma {:induction false} LowerIdempotent(s: string)
    ensures Lower(Lower(s)) == Lower(s)
  {
    if s != [] {
      LowerIdempotent(s[1..]);
      var r := Lower(s);
      assert r[0] == LowerChar(s[0]) && r[1..] == Lower(s[1..]);
    }
  }

  /** `t` occurs in `s` starting at index `i`. */
  predicate MatchAt(s: string, t: string, i: int) {
    0 <= i && i + |t| <= |s| && s[i..i + |t|] == t
  }

  /** `s.includes(t)`. */
  predicate Contains(s: string, t: string) {
    exists i | 0 <= i <= |s| - |t| :: MatchAt(s, t, i)
  }

  /** `s.startsWith(t)`. */
  predicate StartsWith(s: string, t: string) {
    MatchAt(s, t, 0)
  }

  /** A pattern that holds a character the text lacks never occurs in it. */
  lemma NotContainsMissingChar(s: string, t: string, c: char)
    requires c in t && c !in s
    ensures !Contains(s, t)
  {
    var j :| 0 <= j < |t| && t[j] == c;
    forall i | 0 <= i <= |s| - |t|
      ensures !MatchAt(s, t, i)
    {
      assert s[i..i + |t|][j] == s[i + j] != c;
    }
  }

  // ---------------------------------------------------------------------------
  // split and join on one character
  // ---------------------------------------------------------------------------

  /**
   * `s.split(d)`: the pieces between the occurrences of `d`, built one
   * character at a time from the end; an empty text gives one empty piece.
   */
  function Split(s: string, d: char): (r: seq<string>)
    ensures |r| >= 1
    ensures d in s ==> |r| >= 2
  {
    if s == [] then [[]]
    else
      var r := Split(s[1..], d);
      assert s[0] != d && d in s ==> d in s[1..] by {
        if s[0] != d && d in s {
          var k :| 0 <= k < |s| && s[k] == d;
          assert s[1..][k - 1] == d;
        }
      }
      if s[0] == d then [[]] + r else [[s[0]] + r[0]] + r[1..]
  }

  /** No piece of a split holds the separator. */
  lemma {:induction false} SplitPiecesFree(s: string, d: char)
    ensures forall k :: 0 <= k < |Split(s, d)| ==> d !in Split(s, d)[k]
  {
    if s != [] {
      var r := Split(s[1..], d);
      SplitPiecesFree(s[1..], d);
      var q := Split(s, d);
      forall k | 0 <= k < |q| ensures d !in q[k] {
        if s[0] == d {
          if k > 0 {
            assert q[k] == r[k - 1];
          }
        } else if k == 0 {
          assert q[0] == [s[0]] + r[0];
        } else {
          assert q[k] == r[k];
        }
      }
    }
  }

  /** `parts.join(sep)`. */
  function Join(parts: seq<string>, sep: string): string {
    if |parts| == 0 then ""
    else if |parts| == 1 then parts[0]
    else parts[0] + sep + Join(parts[1..], sep)
  }

  /** Splitting right after a separator-free piece peels that piece off. */
  lemma {:induction false} SplitAfterPiece(a: string, d: char, b: string)
    requires d !in a
    ensures Split(a + [d] + b, d) == [a] + Split(b, d)
  {
    var s := a + [d] + b;
    if a == [] {
      assert s[0] == d && s[1..] == b;
    } else {
      assert s[0] == a[0] && s[1..] == a[1..] + [d] + b;
      SplitAfterPiece(a[1..], d, b);
      assert [a[0]] + a[1..] == a;
    }
  }

  /** A piece without the separator splits to itself. */
  lemma {:induction false} SplitOfPiece(a: string, d: char)
    requires d !in a
    ensures Split(a, d) == [a]
  {
    if a != [] {
      SplitOfPiece(a[1..], d);
      assert [a[0]] + a[1..] == a;
    }
  }

  /** Split undoes Join when no piece holds the separator. */
  lemma {:induction false} SplitJoin(parts: seq<string>, d: char)
    requires |parts| >= 1
    requires forall k :: 0 <= k < |parts| ==> d !in parts[k]
    ensures Split(Join(parts, [d]), d) == parts
  {
    if |parts| == 1 {
      SplitOfPiece(parts[0], d);
    } else {
      SplitJoin(parts[1..], d);
      SplitAfterPiece(parts[0], d, Join(parts[1..], [d]));
      assert [parts[0]] + parts[1..] == parts;
    }
  }

  /** Join undoes Split: no character is lost or added. */
  lemma {:induction false} JoinSplit(s: string, d: char)
    ensures Join(Split(s, d), [d]) == s
  {
    if s != [] {
      var r := Split(s[1..], d);
      JoinSplit(s[1..], d);
      if s[0] == d {
        var q := [[]] + r;
        assert q[0] == [] && q[1..] == r;
        assert Join(q, [d]) == [] + [d] + Join(r, [d]);
      } else {
        JoinCons(s[0], r, d);
      }
      assert s == [s[0]] + s[1..];
    }
  }

  /** Putting a character in front of the first piece puts it in front of the joined text. */
  lemma JoinCons(c: char, r: seq<string>, d: char)
    requires |r| >= 1
    ensures Join([[c] + r[0]] + r[1..], [d]) == [c] + Join(r, [d])
  {
    var q := [[c] + r[0]] + r[1..];
    assert q[0] == [c] + r[0] && q[1..] == r[1..] && |q| == |r|;
    if |r| == 1 {
      assert Join(q, [d]) == [c] + r[0];
    } else {
      var j := Join(r[1..], [d]);
      var x, y := [c], [d];
      assert Join(q, [d]) == x + r[0] + y + j;
      assert Join(r, [d]) == r[0] + y + j;
      Assoc(x + r[0], y, j);
      Assoc(x, r[0], y + j);
      Assoc(r[0], y, j);
    }
  }

  lemma Assoc(a: string, b: string, c: string)
    ensures a + b + c == a + (b + c)
  {
  }

  // ---------------------------------------------------------------------------
  // integers as decimal text
  // ---------------------------------------------------------------------------

  function DigitChar(n: nat): (c: char)
    requires n < 10
    ensures IsDigit(c) && c as int - '0' as int == n
  {
    ('0' as int + n) as char
  }

  function DigitValue(c: char): nat
    requires IsDigit(c)
  {
    c as int - '0' as int
  }

  /** `${n}` for a non-negative integer: decimal digits without leading zeros. */
  function NatToString(n: nat): (r: string)
    ensures |r| >= 1 && AllDigits(r)
    ensures |r| > 1 ==> r[0] != '0'
  {
    if n < 10 then [DigitChar(n)] else NatToString(n / 10) + [DigitChar(n % 10)]
  }

  /** `${n}` for any integer. */
  function IntToString(n: int): (r: string)
    ensures |r| >= 1
    ensures n >= 0 <==> AllDigits(r)
    ensures n < 0 <==> r[0] == '-'
  {
    if n < 0 then
      var r := "-" + NatToString(-n);
      assert !IsDigit(r[0]);
      r
    else NatToString(n)
  }

  /** The value of a run of decimal digits. */
  function DecValue(ds: string): nat
    requires AllDigits(ds)
  {
    if ds == [] then 0 else DecValue(ds[..|ds| - 1]) * 10 + DigitValue(ds[|ds| - 1])
  }

  function HexDigitValue(c: char): nat
    requires IsHexDigit(c)
  {
    if IsDigit(c) then c as int - '0' as int
    else if 'a' <= c <= 'f' then c as int - 'a' as int + 10
    else c as int - 'A' as int + 10
  }

  /** The value of a run of hexadecimal digits. */
  function HexValue(ds: string): nat
    requires forall k :: 0 <= k < |ds| ==> IsHexDigit(ds[k])
  {
    if ds == [] then 0 else HexValue(ds[..|ds| - 1]) * 16 + HexDigitValue(ds[|ds| - 1])
  }

  /** The length of the longest prefix of decimal digits. */
  function DigitRun(s: string): (n: nat)
    ensures n <= |s| && AllDigits(s[..n])
    ensures n < |s| ==> !IsDigit(s[n])
  {
    if |s| > 0 && IsDigit(s[0]) then
      assert s[..1 + DigitRun(s[1..])] == [s[0]] + s[1..][..DigitRun(s[1..])];
      1 + DigitRun(s[1..])
    else 0
  }

  /** The length of the longest prefix of hexadecimal digits. */
  function HexRun(s: string): (n: nat)
    ensures n <= |s| && forall k :: 0 <= k < n ==> IsHexDigit(s[k])
    ensures n < |s| ==> !IsHexDigit(s[n])
  {
    if |s| > 0 && IsHexDigit(s[0]) then 1 + HexRun(s[1..]) else 0
  }

  /** The unsigned part of `parseInt`: a `0x` prefix selects hexadecimal, otherwise decimal; no digit at all is NaN. */
  function ParseMagnitude(u: string): (r: Option<int>)
    ensures r.Some? ==> r.value >= 0
  {
    if |u| >= 2 && u[0] == '0' && (u[1] == 'x' || u[1] == 'X') then
      var k := HexRun(u[2..]);
      if k == 0 then None else Some(HexValue(u[2..][..k]))
    else
      var k := DigitRun(u);
      if k == 0 then None else Some(DecValue(u[..k]))
  }

  /** `parseInt` gives NaN exactly when no digit follows the sign and the optional `0x`. */
  lemma ParseMagnitudeNaN(u: string)
    ensures ParseMagnitude(u).None? <==>
      (if |u| >= 2 && u[0] == '0' && (u[1] == 'x' || u[1] == 'X')
       then |u| == 2 || !IsHexDigit(u[2])
       else u == [] || !IsDigit(u[0]))
  {
  }

  /**
   * `parseInt(s)` with no radix: leading whitespace skipped, one optional
   * sign, then the longest digit prefix; `None` stands for NaN.
   */
  function ParseInt(s: string): Option<int> {
    var t := TrimStart(s);
    if |t| > 0 && t[0] == '-' then Negated(ParseMagnitude(t[1..]))
    else if |t| > 0 && t[0] == '+' then ParseMagnitude(t[1..])
    else ParseMagnitude(t)
  }

  function Negated(o: Option<int>): Option<int> {
    match o
    case None => None
    case Some(v) => Some(-v)
  }

  lemma {:induction false} DecValueOfNatToString(n: nat)
    ensures DecValue(NatToString(n)) == n
  {
    if n >= 10 {
      var s := NatToString(n);
      DecValueOfNatToString(n / 10);
      assert s[..|s| - 1] == NatToString(n / 10);
    }
  }

  /** A run of decimal digits without a leading zero is read whole. */
  lemma ParseMagnitudeOfDecimal(ds: string)
    requires |ds| >= 1 && AllDigits(ds) && (|ds| > 1 ==> ds[0] != '0')
    ensures ParseMagnitude(ds) == Some(DecValue(ds))
  {
    var k := DigitRun(ds);
    assert ds[..k] == ds;
  }

  lemma TrimStartOfDigits(ds: string)
    requires |ds| >= 1 && !IsSpace(ds[0])
    ensures TrimStart(ds) == ds
  {
  }

  /** `parseInt` on a leading minus sign negates what follows it. */
  lemma ParseIntOfMinus(u: string)
    ensures ParseInt("-" + u) == Negated(ParseMagnitude(u))
  {
    var s := "-" + u;
    assert s[1..] == u;
    TrimStartOfDigits(s);
  }

  lemma ParseMagnitudeOfNat(m: nat)
    ensures ParseMagnitude(NatToString(m)) == Some(m)
  {
    DecValueOfNatToString(m);
    ParseMagnitudeOfDecimal(NatToString(m));
  }

  lemma ParseIntOfNat(m: nat)
    ensures ParseInt(NatToString(m)) == Some(m)
  {
    var ds := NatToString(m);
    TrimStartOfDigits(ds);
    ParseMagnitudeOfNat(m);
    assert ds[0] != '-' && ds[0] != '+';
  }

  lemma ParseIntOfNegative(n: int)
    requires n < 0
    ensures ParseInt("-" + NatToString(-n)) == Some(n)
  {
    var u := NatToString(-n);
    ParseIntOfMinus(u);
    ParseMagnitudeOfNat(-n);
    NegatedSome(-n);
  }

  lemma NegatedSome(v: int)
    ensures Negated(Some(v)) == Some(-v)
  {
  }

  /** `parseInt` reads back every integer that `${n}` writes. */
  lemma ParseIntOfIntToString(n: int)
    ensures ParseInt(IntToString(n)) == Some(n)
  {
    if n < 0 {
      ParseIntOfNegative(n);
    } else {
      ParseIntOfNat(n);
    }
  }

  /**
   * `Number(s)` for the strings it reads as integers: surrounding whitespace
   * ignored, the empty string is 0, otherwise an optional sign and decimal
   * digits; anything else is NaN (`None`).
   */
  function NumberOf(s: string): (r: Option<int>)
    ensures Trim(s) == [] ==> r == Some(0)
  {
    var t := Trim(s);
    if t == [] then Some(0)
    else if AllDigits(t) then Some(DecValue(t))
    else if |t| > 1 && (t[0] == '-' || t[0] == '+') && AllDigits(t[1..]) then
      var d: int := DecValue(t[1..]);
      Some(if t[0] == '-' then -d else d)
    else None
  }

  /** `Number` reads back every non-negative integer `${n}` writes, and its zero-padded form. */
  lemma NumberOfPadded(n: nat, pad: string)
    requires forall k :: 0 <= k < |pad| ==> pad[k] == '0'
    ensures NumberOf(pad + NatToString(n)) == Some(n)
  {
    var ds := NatToString(n);
    var s := pad + ds;
    DecValueLeadingZeros(pad, ds);
    PadIsZero(pad);
    assert DecValue(s) == DecValue(ds);
    assert !IsSpace(s[0]) && !IsSpace(s[|s| - 1]);
    TrimOfTrimmed(s);
    DecValueOfNatToString(n);
  }

  lemma {:induction false} DecValueLeadingZeros(pad: string, ds: string)
    requires forall k :: 0 <= k < |pad| ==> pad[k] == '0'
    requires AllDigits(ds)
    ensures AllDigits(pad + ds) && DecValue(pad + ds) == DecValue(ds) + DecValue(pad) * Pow10(|ds|)
    decreases |ds|
  {
    var s := pad + ds;
    if ds == [] {
      assert s == pad;
    } else {
      DecValueLeadingZeros(pad, ds[..|ds| - 1]);
      assert s[..|s| - 1] == pad + ds[..|ds| - 1];
    }
    PadIsZero(pad);
  }

  lemma {:induction false} PadIsZero(pad: string)
    requires forall k :: 0 <= k < |pad| ==> pad[k] == '0'
    ensures AllDigits(pad) && DecValue(pad) == 0
  {
    if pad != [] {
      PadIsZero(pad[..|pad| - 1]);
    }
  }

  function Pow10(n: nat): (r: nat)
    ensures r >= 1
  {
    if n == 0 then 1 else 10 * Pow10(n - 1)
  }
}
