/** Python string behaviour the Tasmotizer core relies on: decimal
    formatting (`str(int)`, `%02d`-style padding), `str.split` on one
    character and its inverse `join`, and the character-set forms of
    `rstrip` / `lstrip`. Strings are sequences of code points. */
module Strings {

  datatype Option<+T> = None | Some(value: T)

  predicate IsDigit(c: char) {
    '0' <= c <= '9'
  }

  predicate AllDigits(s: string) {
    forall i :: 0 <= i < |s| ==> IsDigit(s[i])
  }

  function DigitChar(d: nat): (c: char)
    requires d < 10
    ensures IsDigit(c)
  {
    ('0' as int + d) as char
  }

  function DigitValue(c: char): (d: nat)
    requires IsDigit(c)
    ensures d < 10 && DigitChar(d) == c
  {
    c as int - '0' as int
  }

  function Pow10(k: nat): (p: nat)
    ensures p >= 1
  {
    if k == 0 then 1 else 10 * Pow10(k - 1)
  }

  /** The value of a string of decimal digits (leading zeros allowed). */
  function ParseDigits(s: string): nat
    requires AllDigits(s)
  {
    if |s| == 0 then 0
    else ParseDigits(s[..|s| - 1]) * 10 + DigitValue(s[|s| - 1])
  }

  /** `str(n)` for a non-negative Python int. */
  function NatToString(n: nat): (s: string)
    ensures |s| >= 1 && AllDigits(s)
    ensures |s| > 1 ==> s[0] != '0'
  {
    if n < 10 then [DigitChar(n)] else NatToString(n / 10) + [DigitChar(n % 10)]
  }

  /** `str(i)` for any Python int. */
  function IntToString(i: int): string {
    if i < 0 then "-" + NatToString(-i) else NatToString(i)
  }

  function ParseInt(s: string): Option<int> {
    if |s| >= 2 && s[0] == '-' && AllDigits(s[1..]) then Some(0 - ParseDigits(s[1..]))
    else if |s| >= 1 && AllDigits(s) then Some(ParseDigits(s))
    else None
  }

  lemma {:induction false} ParseNatToString(n: nat)
    ensures ParseDigits(NatToString(n)) == n
  {
    var s := NatToString(n);
    if n >= 10 {
      ParseNatToString(n / 10);
      assert s[..|s| - 1] == NatToString(n / 10);
    }
  }

  /** Decimal formatting of an int reads back as the same int. */
  lemma IntToStringRoundTrip(i: int)
    ensures ParseInt(IntToString(i)) == Some(i)
  {
    var s := IntToString(i);
    if i < 0 {
      ParseNatToString(-i);
      assert s[1..] == NatToString(-i);
    } else {
      ParseNatToString(i);
    }
  }

  lemma {:induction false} NatToStringLength(n: nat, k: nat)
    requires k >= 1 && n < Pow10(k)
    ensures |NatToString(n)| <= k
  {
    if n >= 10 {
      NatToStringLength(n / 10, k - 1);
    }
  }

  lemma DigitsFitWidth(n: nat, width: nat)
    ensures width >= 1 && n < Pow10(width) ==> |NatToString(n)| <= width
  {
    if width >= 1 && n < Pow10(width) {
      NatToStringLength(n, width);
    }
  }

  function Zeros(k: nat): (z: string)
    ensures |z| == k && AllDigits(z)
    ensures forall i :: 0 <= i < k ==> z[i] == '0'
  {
    if k == 0 then "" else "0" + Zeros(k - 1)
  }

  lemma {:induction false} ParseLeadingZeros(k: nat, s: string)
    requires AllDigits(s)
    ensures AllDigits(Zeros(k) + s) && ParseDigits(Zeros(k) + s) == ParseDigits(s)
    decreases |s|
  {
    var t := Zeros(k) + s;
    if |s| == 0 {
      assert t == Zeros(k);
      ZerosParseToZero(k);
    } else {
      ParseLeadingZeros(k, s[..|s| - 1]);
      assert t[..|t| - 1] == Zeros(k) + s[..|s| - 1];
    }
  }

  lemma {:induction false} ZerosParseToZero(k: nat)
    ensures ParseDigits(Zeros(k)) == 0
  {
    if k > 0 {
      var z := Zeros(k);
      assert z[..|z| - 1] == Zeros(k - 1);
      ZerosParseToZero(k - 1);
    }
  }

  /** `"%0*d" % (width, n)`: the decimal digits of `n`, padded on the left
      with zeros to at least `width` characters (strftime's `%m`, `%d`, ...). */
  function ZeroPad(n: nat, width: nat): (s: string)
    ensures AllDigits(s) && ParseDigits(s) == n
    ensures n < Pow10(width) && width >= 1 ==> |s| == width
    ensures |s| >= width
  {
    var digits := NatToString(n);
    ParseNatToString(n);
    DigitsFitWidth(n, width);
    var pad := if |digits| < width then width - |digits| else 0;
    ParseLeadingZeros(pad, digits);
    Zeros(pad) + digits
  }

  /** `sep.join(parts)`. */
  function Join(parts: seq<string>, sep: string): string {
    if |parts| == 0 then ""
    else if |parts| == 1 then parts[0]
    else parts[0] + sep + Join(parts[1..], sep)
  }

  lemma JoinCons(p: string, rest: seq<string>, sep: string)
    requires |rest| >= 1
    ensures Join([p] + rest, sep) == p + sep + Join(rest, sep)
  {
    assert ([p] + rest)[1..] == rest;
  }

  /** `s.split(c)`: the maximal runs of `s` between occurrences of `c`,
      including the empty runs at either end. */
  function Split(s: string, c: char): (parts: seq<string>)
    ensures |parts| >= 1
    ensures forall k :: 0 <= k < |parts| ==> c !in parts[k]
    decreases |s|
  {
    if |s| == 0 then [""]
    else
      var rest := Split(s[1..], c);
      if s[0] == c then [""] + rest
      else [[s[0]] + rest[0]] + rest[1..]
  }

  /** Joining the parts of a split with the separator gives back the string. */
  lemma {:induction false} JoinSplit(s: string, c: char)
    ensures Join(Split(s, c), [c]) == s
    decreases |s|
  {
    if |s| > 0 {
      var rest := Split(s[1..], c);
      JoinSplit(s[1..], c);
      var parts := Split(s, c);
      if s[0] == c {
        assert parts[1..] == rest;
      } else {
        assert parts[1..] == rest[1..];
        if |rest| > 1 {
          assert Join(rest, [c]) == rest[0] + [c] + Join(rest[1..], [c]);
        }
      }
    }
  }

  /** Splitting at the first separator: a piece without the separator,
      then the separator, then anything. */
  lemma {:induction false} SplitAtFirst(u: string, c: char, v: string)
    requires c !in u
    ensures Split(u + [c] + v, c) == [u] + Split(v, c)
    decreases |u|
  {
    var s := u + [c] + v;
    if |u| == 0 {
      assert s[1..] == v;
    } else {
      assert s[1..] == u[1..] + [c] + v;
      SplitAtFirst(u[1..], c, v);
      assert [u[0]] + u[1..] == u;
    }
  }

  lemma {:induction false} SplitWithoutSeparator(s: string, c: char)
    requires c !in s
    ensures Split(s, c) == [s]
    decreases |s|
  {
    if |s| > 0 {
      SplitWithoutSeparator(s[1..], c);
      assert [s[0]] + s[1..] == s;
    }
  }

  /** Splitting a join of separator-free parts gives back the parts. */
  lemma {:induction false} SplitJoin(parts: seq<string>, c: char)
    requires |parts| >= 1
    requires forall k :: 0 <= k < |parts| ==> c !in parts[k]
    ensures Split(Join(parts, [c]), c) == parts
  {
    if |parts| == 1 {
      SplitWithoutSeparator(parts[0], c);
    } else {
      SplitJoin(parts[1..], c);
      SplitAtFirst(parts[0], c, Join(parts[1..], [c]));
    }
  }

  /** `s.rstrip(chars)`: drops every trailing character that belongs to the
      set, not a suffix string. */
  function RStrip(s: string, chars: set<char>): (r: string)
    ensures |r| <= |s| && r == s[..|r|]
    ensures forall i :: |r| <= i < |s| ==> s[i] in chars
    ensures |r| == 0 || r[|r| - 1] !in chars
    decreases |s|
  {
    if |s| > 0 && s[|s| - 1] in chars then RStrip(s[..|s| - 1], chars) else s
  }

  /** `s.lstrip(chars)`: drops every leading character that belongs to the set. */
  function LStrip(s: string, chars: set<char>): (r: string)
    ensures |r| <= |s| && r == s[|s| - |r|..]
    ensures forall i :: 0 <= i < |s| - |r| ==> s[i] in chars
    ensures |r| == 0 || r[0] !in chars
    decreases |s|
  {
    if |s| > 0 && s[0] in chars then LStrip(s[1..], chars) else s
  }

  /** rstrip removes exactly a tail drawn from the set when what precedes it
      does not end in a character of the set. */
  lemma {:induction false} RStripExactTail(stem: string, tail: string, chars: set<char>)
    requires forall i :: 0 <= i < |tail| ==> tail[i] in chars
    requires |stem| == 0 || stem[|stem| - 1] !in chars
    ensures RStrip(stem + tail, chars) == stem
  {
    if |tail| == 0 {
      assert stem + tail == stem;
    } else {
      var s := stem + tail;
      assert s[..|s| - 1] == stem + tail[..|tail| - 1];
      RStripExactTail(stem, tail[..|tail| - 1], chars);
    }
  }

  /** lstrip removes exactly a head drawn from the set when what follows it
      does not start with a character of the set. */
  lemma {:induction false} LStripExactHead(head: string, rest: string, chars: set<char>)
    requires forall i :: 0 <= i < |head| ==> head[i] in chars
    requires |rest| == 0 || rest[0] !in chars
    ensures LStrip(head + rest, chars) == rest
  {
    if |head| == 0 {
      assert head + rest == rest;
    } else {
      var s := head + rest;
      assert s[1..] == head[1..] + rest;
      LStripExactHead(head[1..], rest, chars);
    }
  }
}
