/** Bytes, ASCII conversion, splitting and decimal integers, as Python's
    bytes/str methods and int() behave on the inputs the modelled code uses. */
module Text {
  import opened Wrappers

  newtype byte = x: int | 0 <= x < 256

  // ---------------------------------------------------------------------------
  // ASCII

  predicate IsAscii(s: string) {
    forall i :: 0 <= i < |s| ==> s[i] as int < 128
  }

  /** Bytes to characters, one character per byte (latin-1 style view). */
  function ToChars(b: seq<byte>): (s: string)
    ensures |s| == |b|
    ensures forall i :: 0 <= i < |b| ==> s[i] as int == b[i] as int
  {
    seq(|b|, i requires 0 <= i < |b| => b[i] as int as char)
  }

  /** str.encode("ascii") for a string that is known to be ASCII. */
  function EncodeAscii(s: string): (b: seq<byte>)
    requires IsAscii(s)
    ensures |b| == |s|
    ensures forall i :: 0 <= i < |s| ==> b[i] as int == s[i] as int
  {
    seq(|s|, i requires 0 <= i < |s| => s[i] as int as byte)
  }

  /** bytes.decode("ascii"): fails exactly when some byte is 128 or above. */
  function DecodeAscii(b: seq<byte>): (r: Option<string>)
    ensures r.Some? <==> forall i :: 0 <= i < |b| ==> b[i] < 128
    ensures r.Some? ==> IsAscii(r.value) && EncodeAscii(r.value) == b
  {
    if forall i :: 0 <= i < |b| ==> b[i] < 128 then Some(ToChars(b)) else None
  }

  lemma CharsOfAscii(s: string)
    requires IsAscii(s)
    ensures ToChars(EncodeAscii(s)) == s
  {
  }

  lemma EncodeDecodeAscii(s: string)
    requires IsAscii(s)
    ensures DecodeAscii(EncodeAscii(s)) == Some(s)
  {
    assert ToChars(EncodeAscii(s)) == s;
  }

  // ---------------------------------------------------------------------------
  // Searching and splitting

  /** Index of the first occurrence of x in s, or -1 (IndexOfFirst says it is
      the first). */
  function IndexOf<T(==)>(s: seq<T>, x: T): (i: int)
    ensures -1 <= i < |s|
    ensures 0 <= i ==> s[i] == x
  {
    IndexOfFrom(s, x, 0)
  }

  /** Index of the first occurrence of x in s at k or later, or -1. */
  function IndexOfFrom<T(==)>(s: seq<T>, x: T, k: nat): (i: int)
    requires k <= |s|
    ensures i == -1 || k <= i < |s|
    ensures 0 <= i ==> s[i] == x
    decreases |s| - k
  {
    if k == |s| then -1
    else if s[k] == x then k
    else IndexOfFrom(s, x, k + 1)
  }

  lemma {:induction false} IndexOfFromFirst<T>(s: seq<T>, x: T, k: nat)
    requires k <= |s|
    ensures IndexOfFrom(s, x, k) == -1 ==> forall j :: k <= j < |s| ==> s[j] != x
    ensures IndexOfFrom(s, x, k) >= 0 ==> forall j :: k <= j < IndexOfFrom(s, x, k) ==> s[j] != x
    decreases |s| - k
  {
    if k < |s| && s[k] != x {
      IndexOfFromFirst(s, x, k + 1);
    }
  }

  /** No occurrence precedes the one IndexOf finds, and -1 means none at all. */
  lemma IndexOfFirst<T>(s: seq<T>, x: T)
    ensures IndexOf(s, x) == -1 ==> forall j :: 0 <= j < |s| ==> s[j] != x
    ensures IndexOf(s, x) >= 0 ==> forall j :: 0 <= j < IndexOf(s, x) ==> s[j] != x
  {
    IndexOfFromFirst(s, x, 0);
  }

  lemma {:induction false} IndexOfFromAt<T>(s: seq<T>, x: T, k: nat, i: nat)
    requires k <= i < |s| && s[i] == x && forall j :: k <= j < i ==> s[j] != x
    ensures IndexOfFrom(s, x, k) == i
    decreases i - k
  {
    if k < i {
      IndexOfFromAt(s, x, k + 1, i);
    }
  }

  /** The first occurrence is the one IndexOf finds. */
  lemma IndexOfAt<T>(s: seq<T>, x: T, i: nat)
    requires i < |s| && s[i] == x && forall j :: 0 <= j < i ==> s[j] != x
    ensures IndexOf(s, x) == i
  {
    IndexOfFromAt(s, x, 0, i);
  }

  /** bytes.split(sep, maxsplit) / str.split(sep, maxsplit) for a one-element separator. */
  function Split<T(==)>(s: seq<T>, sep: T, maxsplit: nat): (parts: seq<seq<T>>)
    ensures 1 <= |parts| <= maxsplit + 1
    ensures maxsplit == 0 ==> parts == [s]
  {
    assert s[0..] == s;
    SplitFrom(s, sep, 0, maxsplit)
  }

  /** The split of the suffix s[k..], written with indices into s. */
  function SplitFrom<T(==)>(s: seq<T>, sep: T, k: nat, maxsplit: nat): (parts: seq<seq<T>>)
    requires k <= |s|
    ensures 1 <= |parts| <= maxsplit + 1
    ensures maxsplit == 0 ==> parts == [s[k..]]
    decreases maxsplit
  {
    if maxsplit == 0 then [s[k..]]
    else
      var i := IndexOfFrom(s, sep, k);
      if i == -1 then [s[k..]] else [s[k..i]] + SplitFrom(s, sep, i + 1, maxsplit - 1)
  }

  /** The split of s[k..] at its first separator, at i. */
  lemma SplitFromAt<T>(s: seq<T>, sep: T, k: nat, maxsplit: nat, i: nat)
    requires maxsplit > 0 && k <= i < |s| && s[i] == sep && forall j :: k <= j < i ==> s[j] != sep
    ensures SplitFrom(s, sep, k, maxsplit) == [s[k..i]] + SplitFrom(s, sep, i + 1, maxsplit - 1)
  {
    IndexOfFromAt(s, sep, k, i);
  }

  /** Without a separator in s[k..] there is nothing to split. */
  lemma SplitFromNone<T>(s: seq<T>, sep: T, k: nat, maxsplit: nat)
    requires k <= |s| && forall j :: k <= j < |s| ==> s[j] != sep
    ensures SplitFrom(s, sep, k, maxsplit) == [s[k..]]
  {
  }

  /** Splitting once gives the whole sequence when sep does not occur, and
      otherwise the parts before and after its first occurrence. */
  lemma SplitOnce<T>(s: seq<T>, sep: T)
    ensures var i := IndexOf(s, sep);
            Split(s, sep, 1) == if i == -1 then [s] else [s[..i], s[i + 1..]]
  {
    var i := IndexOf(s, sep);
    IndexOfFirst(s, sep);
    assert s[0..] == s;
    if i == -1 {
      SplitFromNone(s, sep, 0, 1);
    } else {
      SplitFromAt(s, sep, 0, 1, i);
      assert s[0..i] == s[..i];
    }
  }

  /** Number of occurrences of x in s. */
  function Count<T(==)>(s: seq<T>, x: T): nat {
    if |s| == 0 then 0 else (if s[0] == x then 1 else 0) + Count(s[1..], x)
  }

  /** No x in s[k..] means a count of zero. */
  lemma {:induction false} CountAbsent<T>(s: seq<T>, x: T, k: nat)
    requires k <= |s| && forall j :: k <= j < |s| ==> s[j] != x
    ensures Count(s[k..], x) == 0
    decreases |s| - k
  {
    if k < |s| {
      assert s[k..][1..] == s[k + 1..];
      CountAbsent(s, x, k + 1);
    }
  }

  lemma {:induction false} CountAppend<T>(a: seq<T>, b: seq<T>, x: T)
    ensures Count(a + b, x) == Count(a, x) + Count(b, x)
  {
    if |a| > 0 {
      assert (a + b)[1..] == a[1..] + b;
      CountAppend(a[1..], b, x);
    } else {
      assert a + b == b;
    }
  }

  /** The first occurrence of x in s[k..], at i, contributes one to its count. */
  lemma {:induction false} CountFirst<T>(s: seq<T>, x: T, k: nat, i: nat)
    requires k <= i < |s| && s[i] == x && forall j :: k <= j < i ==> s[j] != x
    ensures Count(s[k..], x) == 1 + Count(s[i + 1..], x)
    decreases i - k
  {
    assert s[k..][1..] == s[k + 1..];
    if k < i {
      CountFirst(s, x, k + 1, i);
    }
  }

  /** min(c, m) + 1: the number of parts a split into at most m + 1 parts
      makes of a sequence with c separators. */
  function PartCount(c: nat, m: nat): nat {
    (if c < m then c else m) + 1
  }

  /** The split of s[k..] has one more part than there are separators, up to
      maxsplit + 1. */
  lemma {:induction false} SplitFromLength(s: seq<byte>, sep: byte, k: nat, maxsplit: nat)
    requires k <= |s|
    ensures |SplitFrom(s, sep, k, maxsplit)| == PartCount(Count(s[k..], sep), maxsplit)
    decreases maxsplit
  {
    if maxsplit > 0 {
      var i := IndexOfFrom(s, sep, k);
      IndexOfFromFirst(s, sep, k);
      if i == -1 {
        CountAbsent(s, sep, k);
      } else {
        CountFirst(s, sep, k, i);
        SplitFromLength(s, sep, i + 1, maxsplit - 1);
      }
    }
  }

  /** Split yields one more part than there are separators, up to maxsplit + 1
      (stated for bytes, the only element type it is needed for). */
  lemma SplitLength(s: seq<byte>, sep: byte, maxsplit: nat)
    ensures |Split(s, sep, maxsplit)| == PartCount(Count(s, sep), maxsplit)
  {
    SplitFromLength(s, sep, 0, maxsplit);
    assert s[0..] == s;
  }

  // ---------------------------------------------------------------------------
  // Decimal digits

  predicate IsDigit(c: char) { '0' <= c <= '9' }

  predicate AllDigits(s: string) {
    forall i :: 0 <= i < |s| ==> IsDigit(s[i])
  }

  function DigitChar(d: nat): (c: char)
    requires d < 10
    ensures IsDigit(c) && c as int - '0' as int == d
  {
    ('0' as int + d) as char
  }

  /** The value of a string of decimal digits (0 for the empty string). */
  function DigitsValue(s: string): nat
    requires AllDigits(s)
  {
    if |s| == 0 then 0
    else 10 * DigitsValue(s[..|s| - 1]) + (s[|s| - 1] as int - '0' as int)
  }

  /** str(n) for a natural number: no leading zeros. */
  function DecimalDigits(n: nat): (s: string)
    ensures 1 <= |s| && AllDigits(s)
    ensures |s| > 1 ==> s[0] != '0'
  {
    if n < 10 then [DigitChar(n)] else DecimalDigits(n / 10) + [DigitChar(n % 10)]
  }

  lemma {:induction false} DecimalDigitsValue(n: nat)
    ensures DigitsValue(DecimalDigits(n)) == n
  {
    if n >= 10 {
      var s := DecimalDigits(n);
      assert s[..|s| - 1] == DecimalDigits(n / 10);
      DecimalDigitsValue(n / 10);
    }
  }

  lemma {:induction false} DecimalDigitsLength(n: nat, w: nat)
    requires n < Pow10(w) && w >= 1
    ensures |DecimalDigits(n)| <= w
  {
    if n >= 10 {
      DecimalDigitsLength(n / 10, w - 1);
    }
  }

  function Pow10(w: nat): (p: nat)
    ensures p >= 1
  {
    if w == 0 then 1 else 10 * Pow10(w - 1)
  }

  function Repeat<T>(x: T, k: nat): (s: seq<T>)
    ensures |s| == k
    ensures forall i :: 0 <= i < k ==> s[i] == x
  {
    if k == 0 then [] else Repeat(x, k - 1) + [x]
  }

  lemma {:induction false} LeadingZerosValue(k: nat, s: string)
    requires AllDigits(s)
    ensures AllDigits(Repeat('0', k) + s)
    ensures DigitsValue(Repeat('0', k) + s) == DigitsValue(s)
    decreases |s|, k
  {
    var t := Repeat('0', k) + s;
    if |s| == 0 {
      assert t == Repeat('0', k);
      if k > 0 {
        assert t[..|t| - 1] == Repeat('0', k - 1) + s;
        LeadingZerosValue(k - 1, s);
      }
    } else {
      assert t[..|t| - 1] == Repeat('0', k) + s[..|s| - 1];
      LeadingZerosValue(k, s[..|s| - 1]);
    }
  }

  /** Python's "%0<width>d": the decimal form of m, padded with zeros on the left
      to width characters; a negative number keeps its sign in front of the zeros. */
  function FormatZeroPadded(m: int, width: nat): (s: string)
    ensures forall i :: 0 <= i < |s| ==> IsDigit(s[i]) || s[i] == '-'
  {
    if m >= 0 then
      var d := DecimalDigits(m);
      Repeat('0', if |d| < width then width - |d| else 0) + d
    else
      var d := DecimalDigits(-m);
      var w := if width >= 1 then width - 1 else 0;
      "-" + Repeat('0', if |d| < w then w - |d| else 0) + d
  }

  lemma FormatZeroPaddedWidth(m: nat, width: nat)
    requires width >= 1 && m < Pow10(width)
    ensures |FormatZeroPadded(m, width)| == width
    ensures AllDigits(FormatZeroPadded(m, width))
  {
    DecimalDigitsLength(m, width);
  }

  // ---------------------------------------------------------------------------
  // int()

  /** The ASCII whitespace that int() strips from both ends of its argument. */
  predicate IsSpace(c: char) {
    c == ' ' || c == '\t' || c == '\n' || c == '\r' || c == '\U{B}' || c == '\U{C}'
  }

  function TrimLeft(s: string): (t: string)
    ensures |t| <= |s| && t == s[|s| - |t|..]
    ensures |t| > 0 ==> !IsSpace(t[0])
  {
    if |s| > 0 && IsSpace(s[0]) then TrimLeft(s[1..]) else s
  }

  function TrimRight(s: string): (t: string)
    ensures |t| <= |s| && t == s[..|t|]
    ensures |t| > 0 ==> !IsSpace(t[|t| - 1])
  {
    if |s| > 0 && IsSpace(s[|s| - 1]) then TrimRight(s[..|s| - 1]) else s
  }

  /** int(s) on a str or bytes argument in base 10: optional surrounding
      whitespace, an optional sign, then at least one decimal digit.
      None stands for the ValueError int() raises. */
  function ParseInt(s: string): (r: Option<int>)
  {
    ParseTrimmed(TrimRight(TrimLeft(s)))
  }

  /** int() of its argument once the surrounding whitespace is gone. */
  function ParseTrimmed(t: string): (r: Option<int>)
  {
    if |t| == 0 then None
    else
      var neg := t[0] == '-';
      var body := if t[0] == '-' || t[0] == '+' then t[1..] else t;
      if |body| == 0 || !AllDigits(body) then None
      else if neg then Some(-(DigitsValue(body) as int))
      else Some(DigitsValue(body))
  }

  lemma ParseDigits(s: string)
    requires AllDigits(s) && |s| > 0
    ensures ParseInt(s) == Some(DigitsValue(s))
  {
    assert !IsSpace(s[0]) && !IsSpace(s[|s| - 1]);
    assert TrimLeft(s) == s;
    assert TrimRight(s) == s;
  }

  lemma ParseZeroPadded(m: nat, width: nat)
    requires width >= 1 && m < Pow10(width)
    ensures ParseInt(FormatZeroPadded(m, width)) == Some(m)
  {
    var d := DecimalDigits(m);
    var t := Repeat('0', if |d| < width then width - |d| else 0) + d;
    assert FormatZeroPadded(m, width) == t;
    LeadingZerosValue(if |d| < width then width - |d| else 0, d);
    DecimalDigitsValue(m);
    ParseDigits(t);
  }

  /** Text that neither starts nor ends with whitespace is parsed as it stands. */
  lemma ParseUntrimmed(s: string)
    requires |s| > 0 && !IsSpace(s[0]) && !IsSpace(s[|s| - 1])
    ensures ParseInt(s) == ParseTrimmed(s)
  {
    assert TrimLeft(s) == s;
    assert TrimRight(s) == s;
  }

  /** A sign in front of the digits is read as int() reads it. */
  lemma ParseSigned(d: string, sign: char)
    requires AllDigits(d) && |d| > 0 && (sign == '-' || sign == '+')
    ensures ParseInt([sign] + d) == Some(if sign == '-' then -(DigitsValue(d) as int) else DigitsValue(d))
  {
    SignedNoSpace(d, sign);
    ParseUntrimmed([sign] + d);
    ParseSignedTrimmed(d, sign);
  }

  /** A sign followed by digits neither starts nor ends with whitespace. */
  lemma SignedNoSpace(d: string, sign: char)
    requires AllDigits(d) && |d| > 0 && (sign == '-' || sign == '+')
    ensures |[sign] + d| > 0 && !IsSpace(([sign] + d)[0]) && !IsSpace(([sign] + d)[|[sign] + d| - 1])
  {
    var s := [sign] + d;
    assert s[|s| - 1] == d[|d| - 1];
  }

  /** int() of a sign followed by digits, once no whitespace is left. */
  lemma ParseSignedTrimmed(d: string, sign: char)
    requires AllDigits(d) && |d| > 0 && (sign == '-' || sign == '+')
    ensures ParseTrimmed([sign] + d) == Some(if sign == '-' then -(DigitsValue(d) as int) else DigitsValue(d))
  {
    var t := [sign] + d;
    assert t[0] == sign && t[1..] == d;
  }

  /** Appending a character to text that is not all whitespace appends it to
      the text TrimLeft leaves; appending whitespace to all-whitespace text
      leaves nothing. */
  lemma {:induction false} TrimLeftAppend(s: string, c: char)
    ensures TrimLeft(s) != [] ==> TrimLeft(s + [c]) == TrimLeft(s) + [c]
    ensures TrimLeft(s) == [] && IsSpace(c) ==> TrimLeft(s + [c]) == []
  {
    if |s| > 0 && IsSpace(s[0]) {
      assert (s + [c])[1..] == s[1..] + [c];
      TrimLeftAppend(s[1..], c);
    } else if |s| == 0 {
      assert s + [c] == [c];
      assert [c][1..] == [];
    }
  }

  /** int() ignores whitespace added at either end of its argument. */
  lemma ParseStripsSpace(s: string, c: char)
    requires IsSpace(c)
    ensures ParseInt([c] + s) == ParseInt(s)
    ensures ParseInt(s + [c]) == ParseInt(s)
  {
    assert ([c] + s)[1..] == s;
    assert TrimLeft([c] + s) == TrimLeft(s);
    TrimLeftAppend(s, c);
    var t := TrimLeft(s);
    if t != [] {
      assert (t + [c])[..|t|] == t;
      assert TrimRight(TrimLeft(s + [c])) == TrimRight(t);
    } else {
      assert TrimRight(TrimLeft(s + [c])) == TrimRight(t);
    }
  }

  /** Text without a single decimal digit is refused by int(). */
  lemma ParseNoDigit(s: string)
    requires forall i :: 0 <= i < |s| ==> !IsDigit(s[i])
    ensures ParseInt(s) == None
  {
    var l := TrimLeft(s);
    var t := TrimRight(l);
    if |t| > 0 {
      var j := if t[0] == '-' || t[0] == '+' then 1 else 0;
      if j < |t| {
        assert t[j] == l[j] == s[|s| - |l| + j];
        var body := if t[0] == '-' || t[0] == '+' then t[1..] else t;
        assert body[0] == t[j];
      }
    }
  }
}
