/**
 Python string primitives the repository leans on: `str(int)`, `int(str)`,
 `str.split`, `str.join`, `str.rfind`, `str.zfill` and POSIX `os.path.join`,
 with the edge cases of Python's `int`, `str.split`, `rfind` and `zfill`.
 */
module Strings {
  import opened Wrappers

  predicate IsDigit(c: char) {
    '0' <= c <= '9'
  }

  predicate AllDigits(s: string) {
    forall i :: 0 <= i < |s| ==> IsDigit(s[i])
  }

  /** The ASCII characters Python's `str.strip()` and `int()` treat as white space. */
  predicate IsSpace(c: char) {
    c == ' ' || ('\t' <= c <= '\r') || ('\U{1C}' <= c <= '\U{1F}')
  }

  function DigitChar(d: nat): (c: char)
    requires d < 10
    ensures IsDigit(c)
  {
    (('0' as int) + d) as char
  }

  function DigitValue(c: char): (d: nat)
    requires IsDigit(c)
    ensures d < 10 && DigitChar(d) == c
  {
    (c as int) - ('0' as int)
  }

  /** `str(n)` for a non-negative int: decimal digits without leading zeros. */
  function NatToString(n: nat): (s: string)
    ensures |s| >= 1 && AllDigits(s)
    ensures (s[0] == '0') == (n == 0)
    decreases n
  {
    if n < 10 then [DigitChar(n)] else NatToString(n / 10) + [DigitChar(n % 10)]
  }

  /** `str(n)` for any int. */
  function IntToString(n: int): (s: string)
    ensures |s| >= 1 && !IsSpace(s[0]) && !IsSpace(s[|s| - 1])
    ensures ',' !in s && '.' !in s
  {
    var digits := if n < 0 then NatToString(-n) else NatToString(n);
    assert forall i :: 0 <= i < |digits| ==> IsDigit(digits[i]);
    if n < 0 then "-" + digits else digits
  }

  /** Value of a string of decimal digits, most significant first. */
  function DigitsValue(s: string): nat
    requires AllDigits(s)
    decreases |s|
  {
    if |s| == 0 then 0 else DigitsValue(s[..|s| - 1]) * 10 + DigitValue(s[|s| - 1])
  }

  lemma {:induction false} DigitsOfNat(n: nat)
    ensures DigitsValue(NatToString(n)) == n
    decreases n
  {
    if n >= 10 {
      var s := NatToString(n);
      assert s[..|s| - 1] == NatToString(n / 10);
      DigitsOfNat(n / 10);
    }
  }

  function Zeros(k: nat): (z: string)
    ensures |z| == k && AllDigits(z)
    ensures forall i :: 0 <= i < k ==> z[i] == '0'
  {
    seq(k, _ => '0')
  }

  /** Leading zeros do not change the value of a digit string. */
  lemma {:induction false} LeadingZeros(k: nat, s: string)
    requires AllDigits(s)
    ensures AllDigits(Zeros(k) + s)
    ensures DigitsValue(Zeros(k) + s) == DigitsValue(s)
    decreases |s|, k
  {
    var t := Zeros(k) + s;
    assert AllDigits(t) by {
      forall i | 0 <= i < |t| ensures IsDigit(t[i]) {
        if i < k { assert t[i] == Zeros(k)[i]; } else { assert t[i] == s[i - k]; }
      }
    }
    if |s| == 0 {
      assert t == Zeros(k);
      if k > 0 {
        assert t[..|t| - 1] == Zeros(k - 1) + s;
        LeadingZeros(k - 1, s);
      }
    } else {
      assert t[..|t| - 1] == Zeros(k) + s[..|s| - 1];
      LeadingZeros(k, s[..|s| - 1]);
    }
  }

  /** Drops leading white space, as `str.lstrip()` does. */
  function TrimStart(s: string): (r: string)
    ensures |r| <= |s| && r == s[|s| - |r|..]
    ensures |r| > 0 ==> !IsSpace(r[0])
    ensures |s| > 0 && !IsSpace(s[0]) ==> r == s
    decreases |s|
  {
    if |s| > 0 && IsSpace(s[0]) then TrimStart(s[1..]) else s
  }

  /** Drops trailing white space, as `str.rstrip()` does. */
  function TrimEnd(s: string): (r: string)
    ensures |r| <= |s| && r == s[..|r|]
    ensures |r| > 0 ==> !IsSpace(r[|r| - 1])
    ensures |s| > 0 && !IsSpace(s[|s| - 1]) ==> r == s
    decreases |s|
  {
    if |s| > 0 && IsSpace(s[|s| - 1]) then TrimEnd(s[..|s| - 1]) else s
  }

  function Strip(s: string): string {
    TrimEnd(TrimStart(s))
  }

  /**
   Python's `int(s)` in base 10: surrounding white space is ignored, one
   optional sign, then at least one decimal digit; anything else raises
   `ValueError` (here `None`).
   */
  function ParseInt(s: string): (r: Option<int>)
    ensures |Strip(s)| == 0 ==> r.None?
    ensures r.Some? <==>
      var t := Strip(s);
      var start := if |t| > 0 && (t[0] == '-' || t[0] == '+') then 1 else 0;
      start < |t| && forall i :: start <= i < |t| ==> IsDigit(t[i])
  {
    ParseStripped(Strip(s))
  }

  /** `int()` on text with the surrounding white space already removed. */
  function ParseStripped(t: string): (r: Option<int>)
    ensures r.Some? <==>
      var start := if |t| > 0 && (t[0] == '-' || t[0] == '+') then 1 else 0;
      start < |t| && forall i :: start <= i < |t| ==> IsDigit(t[i])
  {
    if |t| > 0 && (t[0] == '-' || t[0] == '+') then
      var d := t[1..];
      assert AllDigits(d) <==> forall i :: 1 <= i < |t| ==> IsDigit(t[i]) by {
        assert forall i :: 1 <= i < |t| ==> t[i] == d[i - 1];
      }
      if |d| > 0 && AllDigits(d) then
        var v: int := DigitsValue(d);
        Some(if t[0] == '-' then -v else v)
      else None
    else if |t| > 0 && AllDigits(t) then Some(DigitsValue(t))
    else None
  }

  /**
   What `int()` returns when it accepts: the decimal value of the digits
   after the optional sign, negated after '-'.
   */
  lemma ParseIntValue(s: string)
    requires ParseInt(s).Some?
    ensures
      var t := Strip(s);
      var start := if t[0] == '-' || t[0] == '+' then 1 else 0;
      && AllDigits(t[start..])
      && ParseInt(s).value == if t[0] == '-' then -(DigitsValue(t[start..]) as int) else DigitsValue(t[start..])
  {
  }

  /**
   `int()` raises `ValueError` on any character of the stripped text that is
   neither a digit nor a leading sign, and on a sign with no digits after it.
   */
  lemma ParseIntRejects(s: string, i: nat)
    requires i < |Strip(s)|
    requires !IsDigit(Strip(s)[i]) && !(i == 0 && (Strip(s)[0] == '-' || Strip(s)[0] == '+'))
    ensures ParseInt(s) == None
  {
  }

  lemma ParseIntRejectsBareSign(s: string)
    requires Strip(s) == "-" || Strip(s) == "+"
    ensures ParseInt(s) == None
  {
  }

  /** Text with no white space at either end is left alone by `strip`. */
  lemma StripUnspaced(s: string)
    requires |s| > 0 && !IsSpace(s[0]) && !IsSpace(s[|s| - 1])
    ensures Strip(s) == s
  {
    assert TrimStart(s) == s;
    assert TrimEnd(s) == s;
  }

  predicate AllSpaces(s: string) {
    forall i :: 0 <= i < |s| ==> IsSpace(s[i])
  }

  lemma {:induction false} TrimStartSpaces(pre: string, u: string)
    requires AllSpaces(pre) && |u| > 0 && !IsSpace(u[0])
    ensures TrimStart(pre + u) == u
    decreases |pre|
  {
    if |pre| > 0 {
      assert (pre + u)[0] == pre[0];
      assert (pre + u)[1..] == pre[1..] + u;
      TrimStartSpaces(pre[1..], u);
    } else {
      assert pre + u == u;
    }
  }

  lemma {:induction false} TrimEndSpaces(u: string, post: string)
    requires AllSpaces(post) && |u| > 0 && !IsSpace(u[|u| - 1])
    ensures TrimEnd(u + post) == u
    decreases |post|
  {
    if |post| > 0 {
      assert (u + post)[|u + post| - 1] == post[|post| - 1];
      assert (u + post)[..|u + post| - 1] == u + post[..|post| - 1];
      TrimEndSpaces(u, post[..|post| - 1]);
    } else {
      assert u + post == u;
    }
  }

  /** White space around the text does not change what `int()` reads. */
  lemma ParseIntSurrounded(pre: string, t: string, post: string)
    requires AllSpaces(pre) && AllSpaces(post)
    requires |t| > 0 && !IsSpace(t[0]) && !IsSpace(t[|t| - 1])
    ensures ParseInt(pre + t + post) == ParseInt(t)
  {
    assert pre + t + post == pre + (t + post);
    TrimStartSpaces(pre, t + post);
    TrimEndSpaces(t, post);
    StripUnspaced(t);
  }

  /** A leading '+' is accepted and changes nothing: `int("+" + str(n)) == n`. */
  lemma ParseIntPlus(n: nat)
    ensures ParseInt("+" + IntToString(n)) == Some(n)
  {
    var d := NatToString(n);
    var s := "+" + d;
    assert IntToString(n) == d;
    StripUnspaced(s);
    assert s[1..] == d;
    DigitsOfNat(n);
  }

  /** `int(str(n)) == n`. */
  lemma IntRoundTrip(n: int)
    ensures ParseInt(IntToString(n)) == Some(n)
  {
    if n < 0 {
      NegativeRoundTrip(n);
    } else {
      NatRoundTrip(n);
    }
  }

  lemma NegativeRoundTrip(n: int)
    requires n < 0
    ensures ParseInt(IntToString(n)) == Some(n)
  {
    var s := IntToString(n);
    var d := NatToString(-n);
    StripUnspaced(s);
    assert s == "-" + d;
    assert s[1..] == d;
    assert AllDigits(d);
    DigitsOfNat(-n);
    assert DigitsValue(d) == -n;
  }

  lemma NatRoundTrip(n: int)
    requires n >= 0
    ensures ParseInt(IntToString(n)) == Some(n)
  {
    var s := IntToString(n);
    StripUnspaced(s);
    assert s == NatToString(n);
    assert AllDigits(s) && IsDigit(s[0]);
    DigitsOfNat(n);
    assert DigitsValue(s) == n;
  }

  /**
   `s.split(sep)` with a one-character separator: the pieces between
   separators, so an empty string gives one empty piece.
   */
  function Split(s: string, sep: char): (r: seq<string>)
    ensures |r| >= 1
    ensures forall i :: 0 <= i < |r| ==> sep !in r[i]
    decreases |s|
  {
    if |s| == 0 then [""]
    else if s[0] == sep then [""] + Split(s[1..], sep)
    else
      var rest := Split(s[1..], sep);
      [[s[0]] + rest[0]] + rest[1..]
  }

  /** `sep.join(parts)`. */
  function Join(parts: seq<string>, sep: char): string
    decreases |parts|
  {
    if |parts| == 0 then ""
    else if |parts| == 1 then parts[0]
    else parts[0] + [sep] + Join(parts[1..], sep)
  }

  /** Splitting a separator-free prefix glued to the rest extends the first piece. */
  lemma {:induction false} SplitPrefix(p: string, t: string, sep: char)
    requires sep !in p
    ensures Split(p + t, sep) == [p + Split(t, sep)[0]] + Split(t, sep)[1..]
    decreases |p|
  {
    if |p| > 0 {
      assert (p + t)[1..] == p[1..] + t;
      SplitPrefix(p[1..], t, sep);
      assert [p[0]] + (p[1..] + Split(t, sep)[0]) == p + Split(t, sep)[0];
    } else {
      assert p + t == t;
      var r := Split(t, sep);
      assert r == [r[0]] + r[1..];
      assert p + r[0] == r[0];
    }
  }

  /** `sep.join(parts).split(sep) == parts` when no part contains the separator. */
  lemma {:induction false} SplitJoin(parts: seq<string>, sep: char)
    requires |parts| >= 1
    requires forall i :: 0 <= i < |parts| ==> sep !in parts[i]
    ensures Split(Join(parts, sep), sep) == parts
    decreases |parts|
  {
    if |parts| == 1 {
      SplitPrefix(parts[0], "", sep);
      assert parts[0] + "" == parts[0];
    } else {
      var tail := Join(parts[1..], sep);
      SplitJoin(parts[1..], sep);
      assert Split([sep] + tail, sep) == [""] + parts[1..];
      assert parts[0] + [sep] + tail == parts[0] + ([sep] + tail);
      SplitPrefix(parts[0], [sep] + tail, sep);
      assert parts[0] + "" == parts[0];
      assert [parts[0]] + parts[1..] == parts;
    }
  }

  /** `sep.join(s.split(sep)) == s`. */
  lemma {:induction false} JoinSplit(s: string, sep: char)
    ensures Join(Split(s, sep), sep) == s
    decreases |s|
  {
    if |s| > 0 {
      var rest := Split(s[1..], sep);
      JoinSplit(s[1..], sep);
      if s[0] == sep {
        assert Split(s, sep)[1..] == rest;
        assert s == [sep] + s[1..];
      } else {
        var r := Split(s, sep);
        assert r[1..] == rest[1..];
        if |rest| == 1 {
          assert s == [s[0]] + rest[0];
        } else {
          assert rest == [rest[0]] + rest[1..];
          assert Join(rest, sep) == rest[0] + [sep] + Join(rest[1..], sep);
          assert s == [s[0]] + rest[0] + [sep] + Join(rest[1..], sep);
        }
      }
    }
  }

  /** `s.split(sep)` has a single piece exactly when `s` holds no separator. */
  lemma SplitOnePiece(s: string, sep: char)
    ensures (|Split(s, sep)| == 1) == (sep !in s)
  {
    var r := Split(s, sep);
    JoinSplit(s, sep);
    if |r| > 1 {
      assert Join(r, sep) == r[0] + [sep] + Join(r[1..], sep);
      assert s[|r[0]|] == sep;
    }
  }

  /** The last piece of `s.split(sep)` is the text after the last separator. */
  lemma {:induction false} SplitLast(s: string, sep: char)
    ensures var r := Split(s, sep); r[|r| - 1] == s[RFind(s, sep) + 1..]
    decreases |s|
  {
    if |s| == 0 {
      assert Split(s, sep) == [""];
    } else {
      SplitLast(s[1..], sep);
      if s[0] == sep {
        SplitLastSep(s, sep);
      } else {
        SplitLastOther(s, sep);
      }
    }
  }

  lemma {:induction false} SplitLastSep(s: string, sep: char)
    requires |s| > 0 && s[0] == sep
    requires var rest := Split(s[1..], sep); rest[|rest| - 1] == s[1..][RFind(s[1..], sep) + 1..]
    ensures var r := Split(s, sep); r[|r| - 1] == s[RFind(s, sep) + 1..]
  {
    var t := s[1..];
    var rest := Split(t, sep);
    var r := Split(s, sep);
    assert r == [""] + rest;
    assert r[|r| - 1] == rest[|rest| - 1];
    RFindShift(s, sep);
    var j := RFind(t, sep);
    assert t[j + 1..] == s[j + 2..];
  }

  lemma {:induction false} SplitLastOther(s: string, sep: char)
    requires |s| > 0 && s[0] != sep
    requires var rest := Split(s[1..], sep); rest[|rest| - 1] == s[1..][RFind(s[1..], sep) + 1..]
    ensures var r := Split(s, sep); r[|r| - 1] == s[RFind(s, sep) + 1..]
  {
    var t := s[1..];
    var rest := Split(t, sep);
    var r := Split(s, sep);
    assert r == [[s[0]] + rest[0]] + rest[1..];
    RFindShift(s, sep);
    var j := RFind(t, sep);
    SplitOnePiece(t, sep);
    if |rest| == 1 {
      assert r[|r| - 1] == [s[0]] + rest[0];
      assert j == -1;
      assert [s[0]] + t == s;
    } else {
      assert r[|r| - 1] == rest[|rest| - 1];
      assert j >= 0;
      assert t[j + 1..] == s[j + 2..];
    }
  }

  /**
   `s.rfind(c)`: the index of the last `c`, or -1 when `s` holds none.
   */
  function RFind(s: string, c: char): (r: int)
    ensures -1 <= r < |s|
    ensures r >= 0 ==> s[r] == c
    ensures forall j :: r < j < |s| ==> s[j] != c
    decreases |s|
  {
    if |s| == 0 then -1
    else if s[|s| - 1] == c then |s| - 1
    else RFind(s[..|s| - 1], c)
  }

  /** How `RFind` of a string relates to `RFind` of the string without its first character. */
  lemma RFindShift(s: string, c: char)
    requires |s| > 0
    ensures RFind(s[1..], c) >= 0 ==> RFind(s, c) == RFind(s[1..], c) + 1
    ensures RFind(s[1..], c) < 0 && s[0] == c ==> RFind(s, c) == 0
    ensures RFind(s[1..], c) < 0 && s[0] != c ==> RFind(s, c) == -1
  {
    var i := RFind(s, c);
    var j := RFind(s[1..], c);
    if j >= 0 {
      assert s[j + 1] == c;
    }
  }

  /**
   `s.zfill(width)`: pads with '0' on the left up to `width`, keeping a
   leading sign in front of the padding.
   */
  function Zfill(s: string, width: nat): (r: string)
    ensures |r| == if |s| >= width then |s| else width
    ensures var sign := if |s| > 0 && (s[0] == '+' || s[0] == '-') then 1 else 0;
      && r[..sign] == s[..sign]
      && (forall i :: sign <= i < sign + (|r| - |s|) ==> r[i] == '0')
      && r[sign + (|r| - |s|)..] == s[sign..]
  {
    if |s| >= width then s
    else if |s| > 0 && (s[0] == '+' || s[0] == '-') then [s[0]] + Zeros(width - |s|) + s[1..]
    else Zeros(width - |s|) + s
  }

  /**
   POSIX `os.path.join(a, b)`: an absolute `b` replaces `a`; otherwise a
   '/' is inserted unless `a` is empty or already ends in one.
   */
  function PathJoin(a: string, b: string): string {
    if |b| > 0 && b[0] == '/' then b
    else if |a| == 0 || a[|a| - 1] == '/' then a + b
    else a + "/" + b
  }
}
