/**
 * The JavaScript string operations the handlers rely on: `split` on one
 * character, `startsWith`, `parseInt(_, 10)` and the `\s` character class.
 */
module Strings {
  import opened Common

  /** The characters JavaScript's `\s` matches: the ECMAScript white-space and line-terminator characters. */
  predicate IsSpace(c: char)
  {
    c == '\t' || c == '\n' || c == '\U{000B}' || c == '\U{000C}' || c == '\r' || c == ' '
    || c == '\U{00A0}' || c == '\U{1680}' || ('\U{2000}' <= c <= '\U{200A}')
    || c == '\U{2028}' || c == '\U{2029}' || c == '\U{202F}' || c == '\U{205F}'
    || c == '\U{3000}' || c == '\U{FEFF}'
  }

  /** An ASCII decimal digit, the only characters `[0-9]` and `parseInt(_, 10)` accept. */
  predicate IsDigit(c: char)
  {
    '0' <= c <= '9'
  }

  function DigitValue(c: char): (v: nat)
    requires IsDigit(c)
    ensures v < 10
  {
    (c as int) - ('0' as int)
  }

  function DigitChar(v: nat): (c: char)
    requires v < 10
    ensures IsDigit(c) && DigitValue(c) == v
  {
    (('0' as int) + v) as char
  }

  /** The index of the first occurrence of `c` in `s`. */
  function IndexOf(s: string, c: char): (k: nat)
    requires c in s
    ensures k < |s| && s[k] == c && c !in s[..k]
  {
    if s[0] == c then 0
    else
      var k := 1 + IndexOf(s[1..], c);
      assert s[..k] == [s[0]] + s[1..][..k - 1];
      k
  }

  /** `s.split(sep)` for a one-character separator: the separator-free pieces between separators, in order. */
  function Split(s: string, sep: char): (parts: seq<string>)
    ensures |parts| >= 1
    ensures forall i :: 0 <= i < |parts| ==> sep !in parts[i]
    decreases |s|
  {
    if sep !in s then [s]
    else
      var k := IndexOf(s, sep);
      [s[..k]] + Split(s[k + 1..], sep)
  }

  /** `parts.join(sep)`, the inverse of `Split`. */
  function Join(parts: seq<string>, sep: char): string
    requires |parts| >= 1
  {
    if |parts| == 1 then parts[0] else parts[0] + [sep] + Join(parts[1..], sep)
  }

  /** `s.split(sep)[i]`: `None` where JavaScript yields `undefined`. */
  function Field(s: string, sep: char, i: nat): (r: Option<string>)
    ensures r.Some? ==> sep !in r.value
    ensures sep !in s ==> r == (if i == 0 then Some(s) else None)
  {
    var parts := Split(s, sep);
    if i < |parts| then Some(parts[i]) else None
  }

  /** `s.startsWith(prefix)`. */
  function StartsWith(s: string, prefix: string): (b: bool)
    ensures b <==> exists rest :: s == prefix + rest
  {
    PrefixIffConcat(s, prefix);
    |prefix| <= |s| && s[..|prefix|] == prefix
  }

  lemma PrefixIffConcat(s: string, prefix: string)
    ensures (|prefix| <= |s| && s[..|prefix|] == prefix) <==> exists rest :: s == prefix + rest
  {
    if |prefix| <= |s| && s[..|prefix|] == prefix {
      assert s == prefix + s[|prefix|..];
    }
    forall rest | s == prefix + rest ensures |prefix| <= |s| && s[..|prefix|] == prefix {
      assert (prefix + rest)[..|prefix|] == prefix;
    }
  }

  lemma {:induction false} JoinSplit(s: string, sep: char)
    ensures Join(Split(s, sep), sep) == s
    decreases |s|
  {
    if sep in s {
      var k := IndexOf(s, sep);
      JoinSplit(s[k + 1..], sep);
      assert s == s[..k] + [sep] + s[k + 1..];
    }
  }

  lemma IndexOfAfterPrefix(p: string, sep: char, rest: string)
    requires sep !in p
    ensures sep in p + [sep] + rest && IndexOf(p + [sep] + rest, sep) == |p|
  {
    var s := p + [sep] + rest;
    assert s[|p|] == sep;
  }

  lemma {:induction false} SplitJoin(parts: seq<string>, sep: char)
    requires |parts| >= 1
    requires forall i :: 0 <= i < |parts| ==> sep !in parts[i]
    ensures Split(Join(parts, sep), sep) == parts
  {
    if |parts| > 1 {
      var tail := Join(parts[1..], sep);
      var s := parts[0] + [sep] + tail;
      IndexOfAfterPrefix(parts[0], sep, tail);
      assert s[..|parts[0]|] == parts[0];
      assert s[|parts[0]| + 1..] == tail;
      SplitJoin(parts[1..], sep);
      assert parts == [parts[0]] + parts[1..];
    }
  }

  /** How many characters at the front of `s` are decimal digits. */
  function DigitRun(s: string): (n: nat)
    ensures n <= |s|
    ensures forall i :: 0 <= i < n ==> IsDigit(s[i])
    ensures n < |s| ==> !IsDigit(s[n])
  {
    if |s| > 0 && IsDigit(s[0]) then 1 + DigitRun(s[1..]) else 0
  }

  /** The number a string of decimal digits denotes. */
  function DecimalValue(ds: string): nat
    requires forall i :: 0 <= i < |ds| ==> IsDigit(ds[i])
  {
    if ds == [] then 0 else DecimalValue(ds[..|ds| - 1]) * 10 + DigitValue(ds[|ds| - 1])
  }

  /** `s` without its leading white space, as `parseInt` skips it. */
  function TrimStart(s: string): (t: string)
    ensures |t| <= |s| && t == s[|s| - |t|..]
    ensures t != [] ==> !IsSpace(t[0])
    ensures forall i :: 0 <= i < |s| - |t| ==> IsSpace(s[i])
  {
    if |s| > 0 && IsSpace(s[0]) then
      var t := TrimStart(s[1..]);
      assert forall i :: 1 <= i < |s| ==> s[i] == s[1..][i - 1];
      t
    else s
  }

  /**
   * `parseInt(s, 10)`, with `None` for `NaN`: skip leading white space, read
   * an optional sign, then the longest run of decimal digits; whatever
   * follows the digits is ignored.
   */
  function ParseInt(s: string): (r: Option<int>)
    ensures r.Some? ==> exists i :: 0 <= i < |s| && IsDigit(s[i])
    ensures s != [] && IsDigit(s[0]) ==> r == Some(DecimalValue(s[..DigitRun(s)]))
  {
    SignedNeedsDigit(s);
    SignedOfLeadingDigit(s);
    ParseSigned(TrimStart(s))
  }

  /** `NaN` unless some character after the white space and sign is a digit. */
  lemma SignedNeedsDigit(s: string)
    ensures ParseSigned(TrimStart(s)).Some? ==> exists i :: 0 <= i < |s| && IsDigit(s[i])
  {
    var t := TrimStart(s);
    if ParseSigned(t).Some? {
      if t[0] == '-' || t[0] == '+' {
        assert DigitRun(t[1..]) > 0;
        assert IsDigit(s[|s| - |t| + 1]);
      } else {
        assert DigitRun(t) > 0;
        assert IsDigit(s[|s| - |t|]);
      }
    }
  }

  lemma SignedOfLeadingDigit(s: string)
    ensures s != [] && IsDigit(s[0]) ==> ParseSigned(TrimStart(s)) == Some(DecimalValue(s[..DigitRun(s)]))
  {
    if s != [] && IsDigit(s[0]) {
      DigitNotSpace(s[0]);
      TrimStartKeeps(s);
      UnsignedWithoutSign(s);
    }
  }

  function ParseSigned(t: string): Option<int>
  {
    if |t| > 0 && t[0] == '-' then
      match ParseUnsigned(t[1..])
      case None => None
      case Some(n) => Some(-(n as int))
    else if |t| > 0 && t[0] == '+' then
      match ParseUnsigned(t[1..])
      case None => None
      case Some(n) => Some(n)
    else
      match ParseUnsigned(t)
      case None => None
      case Some(n) => Some(n)
  }

  /** The value of the leading run of digits of `u`, `None` when there is none. */
  function ParseUnsigned(u: string): Option<nat>
  {
    var n := DigitRun(u);
    if n == 0 then None else Some(DecimalValue(u[..n]))
  }

  lemma {:induction false} DigitRunOfDigits(ds: string, rest: string)
    requires forall i :: 0 <= i < |ds| ==> IsDigit(ds[i])
    requires rest == [] || !IsDigit(rest[0])
    ensures DigitRun(ds + rest) == |ds|
  {
    if ds != [] {
      assert (ds + rest)[1..] == ds[1..] + rest;
      DigitRunOfDigits(ds[1..], rest);
    } else {
      assert ds + rest == rest;
    }
  }

  lemma DigitNotSpace(c: char)
    requires IsDigit(c)
    ensures !IsSpace(c) && c != '-' && c != '+'
  {
  }

  /** `parseInt` reads a leading run of digits and ignores what follows it. */
  lemma ParseIntDigitsPrefix(ds: string, rest: string)
    requires |ds| > 0 && forall i :: 0 <= i < |ds| ==> IsDigit(ds[i])
    requires rest == [] || !IsDigit(rest[0])
    ensures ParseInt(ds + rest) == Some(DecimalValue(ds))
  {
    var s := ds + rest;
    assert s[0] == ds[0];
    DigitNotSpace(s[0]);
    TrimStartKeeps(s);
    UnsignedWithoutSign(s);
    ParseUnsignedDigitsPrefix(ds, rest);
  }

  lemma TrimStartKeeps(s: string)
    requires s != [] && !IsSpace(s[0])
    ensures TrimStart(s) == s
  {
  }

  lemma UnsignedWithoutSign(t: string)
    requires t != [] && t[0] != '-' && t[0] != '+'
    ensures ParseSigned(t) == if ParseUnsigned(t).None? then None else Some(ParseUnsigned(t).value as int)
  {
  }

  lemma ParseUnsignedDigitsPrefix(ds: string, rest: string)
    requires forall i :: 0 <= i < |ds| ==> IsDigit(ds[i])
    requires rest == [] || !IsDigit(rest[0])
    ensures ParseUnsigned(ds + rest) == if ds == [] then None else Some(DecimalValue(ds))
  {
    DigitRunOfDigits(ds, rest);
    assert (ds + rest)[..|ds|] == ds;
  }

  /** The shortest decimal rendering of `n`. */
  function Decimal(n: nat): (ds: string)
    ensures |ds| > 0 && forall i :: 0 <= i < |ds| ==> IsDigit(ds[i])
  {
    if n < 10 then [DigitChar(n)] else Decimal(n / 10) + [DigitChar(n % 10)]
  }

  lemma {:induction false} DecimalValueOfDecimal(n: nat)
    ensures DecimalValue(Decimal(n)) == n
  {
    if n >= 10 {
      var ds := Decimal(n);
      assert ds[..|ds| - 1] == Decimal(n / 10);
      DecimalValueOfDecimal(n / 10);
    }
  }

  /** `parseInt` inverts the decimal rendering of a natural number. */
  lemma ParseIntDecimal(n: nat)
    ensures ParseInt(Decimal(n)) == Some(n)
  {
    DecimalValueOfDecimal(n);
    ParseIntDigitsPrefix(Decimal(n), []);
    assert Decimal(n) + [] == Decimal(n);
  }

  /** The two-digit, zero-padded rendering of `n` used in `"HH:MM"` labels. */
  function Pad2(n: nat): (ds: string)
    requires n < 100
    ensures |ds| == 2 && IsDigit(ds[0]) && IsDigit(ds[1])
  {
    [DigitChar(n / 10), DigitChar(n % 10)]
  }

  lemma Pad2Value(n: nat)
    requires n < 100
    ensures DecimalValue(Pad2(n)) == n
  {
    var ds := Pad2(n);
    var head := ds[..1];
    assert head == [DigitChar(n / 10)] && head[..0] == [];
    assert DecimalValue(head) == n / 10;
    assert ds[..|ds| - 1] == head;
    assert DecimalValue(ds) == DecimalValue(head) * 10 + n % 10;
  }

  lemma ParseIntPad2(n: nat)
    requires n < 100
    ensures ParseInt(Pad2(n)) == Some(n)
  {
    var ds := Pad2(n);
    Pad2Value(n);
    ParseIntDigitsPrefix(ds, []);
    assert ds + [] == ds;
  }
}
