/** The pieces of Python's string formatting that the backtrace lines use: the decimal
    rendering of a depth or a line number, a 64-bit address as 16 zero-padded
    lower-case hex digits, left alignment of the depth in a field of three, and the
    matching readers, so that each rendering is shown to keep its number recoverable. */
module Format {
  import opened Host

  predicate IsDigit(c: char) { '0' <= c <= '9' }

  predicate IsHexDigit(c: char) { IsDigit(c) || 'a' <= c <= 'f' }

  function DigitChar(d: nat): (c: char)
    requires d < 10
    ensures IsDigit(c) && DigitValue(c) == d
  {
    ['0', '1', '2', '3', '4', '5', '6', '7', '8', '9'][d]
  }

  function DigitValue(c: char): nat
    requires IsDigit(c)
  {
    (c as int - '0' as int) as nat
  }

  function HexChar(d: nat): (c: char)
    requires d < 16
    ensures IsHexDigit(c) && HexValue(c) == d
  {
    ['0', '1', '2', '3', '4', '5', '6', '7', '8', '9', 'a', 'b', 'c', 'd', 'e', 'f'][d]
  }

  function HexValue(c: char): nat
    requires IsHexDigit(c)
  {
    if IsDigit(c) then DigitValue(c) else (c as int - 'a' as int + 10) as nat
  }

  /** The decimal rendering of a non-negative integer, without leading zeros. */
  function Decimal(n: nat): (r: string)
    ensures |r| > 0 && forall i :: 0 <= i < |r| ==> IsDigit(r[i])
    ensures r[0] == '0' ==> n == 0
  {
    if n < 10 then [DigitChar(n)] else Decimal(n / 10) + [DigitChar(n % 10)]
  }

  /** The value of a string of decimal digits. */
  function ReadDecimal(s: string): nat
    requires forall i :: 0 <= i < |s| ==> IsDigit(s[i])
  {
    if |s| == 0 then 0 else 10 * ReadDecimal(s[..|s| - 1]) + DigitValue(s[|s| - 1])
  }

  lemma {:induction false} DecimalRoundTrip(n: nat)
    ensures ReadDecimal(Decimal(n)) == n
  {
    var r := Decimal(n);
    if n >= 10 {
      DecimalRoundTrip(n / 10);
      assert r[..|r| - 1] == Decimal(n / 10);
    }
  }

  function Pow16(k: nat): (p: nat)
    ensures p > 0
  {
    if k == 0 then 1 else 16 * Pow16(k - 1)
  }

  /** The last `k` hex digits of `n`, zero-padded: all of them when n < 16^k. */
  function HexDigits(n: nat, k: nat): (r: string)
    ensures |r| == k && forall i :: 0 <= i < |r| ==> IsHexDigit(r[i])
  {
    if k == 0 then "" else HexDigits(n / 16, k - 1) + [HexChar(n % 16)]
  }

  /** A 64-bit word as exactly 16 lower-case hexadecimal digits, zero-padded. */
  function Hex16(w: nat): (r: string)
    requires w < 0x1_0000_0000_0000_0000
    ensures |r| == 16 && forall i :: 0 <= i < |r| ==> IsHexDigit(r[i])
  {
    HexDigits(w, 16)
  }

  /** The value of a string of lowercase hex digits. */
  function ReadHex(s: string): nat
    requires forall i :: 0 <= i < |s| ==> IsHexDigit(s[i])
  {
    if |s| == 0 then 0 else 16 * ReadHex(s[..|s| - 1]) + HexValue(s[|s| - 1])
  }

  lemma {:induction false} HexRoundTrip(n: nat, k: nat)
    requires n < Pow16(k)
    ensures ReadHex(HexDigits(n, k)) == n
  {
    if k > 0 {
      var r, q, d := HexDigits(n, k), n / 16, n % 16;
      DivideBy16(n, Pow16(k - 1));
      HexRoundTrip(q, k - 1);
      assert r[..|r| - 1] == HexDigits(q, k - 1) && r[|r| - 1] == HexChar(d);
      assert ReadHex(r) == 16 * q + d;
    }
  }

  lemma DivideBy16(n: nat, p: nat)
    requires n < 16 * p
    ensures n / 16 < p && n == 16 * (n / 16) + n % 16
  {
  }

  lemma Hex16RoundTrip(w: nat)
    requires w < 0x1_0000_0000_0000_0000
    ensures ReadHex(Hex16(w)) == w
  {
    assert Pow16(4) == 0x1_0000;
    assert Pow16(8) == 0x1_0000_0000;
    assert Pow16(12) == 0x1_0000_0000_0000;
    assert Pow16(16) == 0x1_0000_0000_0000_0000;
    HexRoundTrip(w, 16);
  }

  /** `n` copies of `c`. */
  function Repeat(c: char, n: nat): (r: string)
    ensures |r| == n && forall i :: 0 <= i < n ==> r[i] == c
  {
    if n == 0 then "" else Repeat(c, n - 1) + [c]
  }

  /** Left alignment in a field of width `w`: `s` followed by spaces up to width `w`;
      a longer `s` is kept whole. */
  function LeftAlign(s: string, w: nat): (r: string)
    ensures |r| == if |s| < w then w else |s|
    ensures r[..|s|] == s
    ensures forall i :: |s| <= i < |r| ==> r[i] == ' '
    ensures r == s + Repeat(' ', |r| - |s|)
  {
    if |s| < w then s + Repeat(' ', w - |s|) else s
  }

  /** Length of the longest prefix of `s` made of decimal digits. */
  function DigitSpan(s: string): (n: nat)
    ensures n <= |s| && forall i :: 0 <= i < n ==> IsDigit(s[i])
    ensures n < |s| ==> !IsDigit(s[n])
  {
    if |s| > 0 && IsDigit(s[0]) then 1 + DigitSpan(s[1..]) else 0
  }

  /** Length of the longest prefix of `s` made of copies of `c`. */
  function CharSpan(s: string, c: char): (n: nat)
    ensures n <= |s| && forall i :: 0 <= i < n ==> s[i] == c
    ensures n < |s| ==> s[n] != c
  {
    if |s| > 0 && s[0] == c then 1 + CharSpan(s[1..], c) else 0
  }

  /** A maximal digit run is exactly the digits before the first non-digit. */
  lemma {:induction false} DigitSpanOf(d: string, t: string)
    requires forall i :: 0 <= i < |d| ==> IsDigit(d[i])
    requires t == [] || !IsDigit(t[0])
    ensures DigitSpan(d + t) == |d|
  {
    if |d| > 0 {
      assert (d + t)[1..] == d[1..] + t;
      DigitSpanOf(d[1..], t);
    } else {
      assert d + t == t;
    }
  }

  /** A run of copies of `c` is exactly the copies before the first other character. */
  lemma {:induction false} CharSpanOf(c: char, p: string, t: string)
    requires forall i :: 0 <= i < |p| ==> p[i] == c
    requires t == [] || t[0] != c
    ensures CharSpan(p + t, c) == |p|
  {
    if |p| > 0 {
      assert (p + t)[1..] == p[1..] + t;
      CharSpanOf(c, p[1..], t);
    } else {
      assert p + t == t;
    }
  }

  /** Reads the head `#<depth><spaces>0x<16 hex digits>` of a backtrace line: the
      depth and the address it shows. */
  function ReadFrameHead(l: string): Option<(nat, nat)> {
    if |l| == 0 || l[0] != '#' then None else ReadDepthAndAddress(l[1..])
  }

  function ReadDepthAndAddress(body: string): Option<(nat, nat)> {
    var d := DigitSpan(body);
    if d == 0 then None
    else match ReadAddress(body[d..])
      case None => None
      case Some(a) => Some((ReadDecimal(body[..d]), a))
  }

  /** Skips spaces, then reads `0x` and 16 hex digits. */
  function ReadAddress(rest: string): Option<nat> {
    var hex := rest[CharSpan(rest, ' ')..];
    if |hex| < 18 || hex[..2] != "0x" || !(forall i :: 2 <= i < 18 ==> IsHexDigit(hex[i])) then None
    else Some(ReadHex(hex[2..18]))
  }

  lemma ReadAddressOf(spaces: string, hex: string, tail: string)
    requires |spaces| > 0 && forall i :: 0 <= i < |spaces| ==> spaces[i] == ' '
    requires |hex| == 16 && forall i :: 0 <= i < 16 ==> IsHexDigit(hex[i])
    ensures ReadAddress(spaces + ("0x" + (hex + tail))) == Some(ReadHex(hex))
  {
    var after := "0x" + (hex + tail);
    CharSpanOf(' ', spaces, after);
    assert (spaces + after)[|spaces|..] == after;
    assert after[..2] == "0x" && after[2..18] == hex;
  }

  lemma ReadDepthOf(dec: string, rest: string)
    requires |dec| > 0 && forall i :: 0 <= i < |dec| ==> IsDigit(dec[i])
    requires rest == [] || !IsDigit(rest[0])
    ensures ReadDepthAndAddress(dec + rest) == match ReadAddress(rest)
              case None => None
              case Some(a) => Some((ReadDecimal(dec), a))
  {
    DigitSpanOf(dec, rest);
    assert (dec + rest)[..|dec|] == dec;
    assert (dec + rest)[|dec|..] == rest;
  }

  /** The pieces of a head line, regrouped as the reader takes them apart. */
  lemma HeadShape(dec: string, sp: string, hex: string, tail: string)
    ensures var l := "#" + ((dec + sp) + (" 0x" + (hex + tail)));
            |l| > 0 && l[0] == '#' && l[1..] == dec + ((sp + " ") + ("0x" + (hex + tail)))
  {
    var after := "0x" + (hex + tail);
    assert " 0x" + (hex + tail) == " " + after;
    assert (dec + sp) + (" " + after) == dec + ((sp + " ") + after);
  }

  /** A head made of `#`, digits, spaces, ` 0x` and 16 hex digits reads back as the
      values of those digits, whatever follows it. */
  lemma ReadHeadOf(dec: string, sp: string, hex: string, tail: string)
    requires |dec| > 0 && forall i :: 0 <= i < |dec| ==> IsDigit(dec[i])
    requires forall i :: 0 <= i < |sp| ==> sp[i] == ' '
    requires |hex| == 16 && forall i :: 0 <= i < 16 ==> IsHexDigit(hex[i])
    ensures ReadFrameHead("#" + ((dec + sp) + (" 0x" + (hex + tail)))) == Some((ReadDecimal(dec), ReadHex(hex)))
  {
    HeadShape(dec, sp, hex, tail);
    var rest := (sp + " ") + ("0x" + (hex + tail));
    ReadAddressOf(sp + " ", hex, tail);
    assert rest[0] == ' ';
    ReadDepthOf(dec, rest);
  }

  /** A head written as `#`, the depth padded with `pad` spaces, ` 0x` and the
      address reads back as that depth and address, whatever follows it. */
  lemma FrameHeadRoundTrip(depth: nat, padded: string, pad: nat, address: nat, tail: string)
    requires padded == Decimal(depth) + Repeat(' ', pad)
    requires address < 0x1_0000_0000_0000_0000
    ensures ReadFrameHead("#" + (padded + (" 0x" + (Hex16(address) + tail)))) == Some((depth, address))
  {
    ReadHeadOf(Decimal(depth), Repeat(' ', pad), Hex16(address), tail);
    DecimalRoundTrip(depth);
    Hex16RoundTrip(address);
  }
}
