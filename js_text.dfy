/** Models of the JavaScript string and array built-ins the gateway and the
    classroom handlers rely on: String.prototype.trim and the regular-expression
    class \s, toLowerCase (ASCII letters), split on one character, join,
    Number.parseInt without a radix, and Array.prototype.filter. */
module JsText {

  datatype Option<T> = None | Some(value: T) {
    function GetOr(default: T): T {
      match this
      case Some(v) => v
      case None => default
    }
  }

  // ---------------------------------------------------------------------------
  // Whitespace and trim
  // ---------------------------------------------------------------------------

  /** The code points ECMAScript calls WhiteSpace or LineTerminator. They are
      exactly what String.prototype.trim removes and what \s matches. */
  predicate IsSpace(c: char) {
    c == '\t' || c == '\n' || c == '\U{0B}' || c == '\U{0C}' || c == '\r' || c == ' '
    || c == '\U{A0}' || c == '\U{1680}' || ('\U{2000}' <= c <= '\U{200A}')
    || c == '\U{2028}' || c == '\U{2029}' || c == '\U{202F}' || c == '\U{205F}'
    || c == '\U{3000}' || c == '\U{FEFF}'
  }

  predicate AllSpace(s: string) {
    forall i :: 0 <= i < |s| ==> IsSpace(s[i])
  }

  /** No whitespace at either end: what trim leaves behind. */
  predicate Trimmed(s: string) {
    s == [] || (!IsSpace(s[0]) && !IsSpace(s[|s| - 1]))
  }

  /** Drops the leading whitespace: a suffix of s, preceded only by whitespace. */
  function TrimStart(s: string): (r: string)
    ensures |r| <= |s| && r == s[|s| - |r|..]
    ensures AllSpace(s[..|s| - |r|])
    ensures r == [] || !IsSpace(r[0])
  {
    if s != [] && IsSpace(s[0]) then TrimStart(s[1..]) else s
  }

  /** Drops the trailing whitespace: a prefix of s, followed only by whitespace. */
  function TrimEnd(s: string): (r: string)
    ensures |r| <= |s| && r == s[..|r|]
    ensures AllSpace(s[|r|..])
    ensures r == [] || !IsSpace(r[|r| - 1])
  {
    if s != [] && IsSpace(s[|s| - 1]) then TrimEnd(s[..|s| - 1]) else s
  }

  /** String.prototype.trim. */
  function Trim(s: string): string {
    TrimEnd(TrimStart(s))
  }

  lemma TrimStartKeepsTrimEnd(s: string)
    requires s == [] || !IsSpace(s[0])
    ensures TrimEnd(s) == [] || !IsSpace(TrimEnd(s)[0])
  {
  }

  /** trim leaves no whitespace at either end, and what it removed was whitespace:
      s is some whitespace, then Trim(s), then some whitespace. */
  lemma TrimSpec(s: string)
    ensures Trimmed(Trim(s))
    ensures exists i, j :: 0 <= i <= j <= |s| && Trim(s) == s[i..j]
                           && AllSpace(s[..i]) && AllSpace(s[j..])
  {
    var i, j := TrimParts(s);
    TrimStartKeepsTrimEnd(TrimStart(s));
  }

  lemma TrimParts(s: string) returns (i: nat, j: nat)
    ensures i <= j <= |s| && Trim(s) == s[i..j] && AllSpace(s[..i]) && AllSpace(s[j..])
  {
    var t := TrimStart(s);
    var r := TrimEnd(t);
    i := |s| - |t|;
    j := i + |r|;
    SpaceAround(s, t, r);
  }

  /** A suffix t of s after whitespace, and a prefix r of t before whitespace:
      r is a slice of s with whitespace on both sides. */
  lemma SpaceAround(s: string, t: string, r: string)
    requires |t| <= |s| && t == s[|s| - |t|..] && AllSpace(s[..|s| - |t|])
    requires |r| <= |t| && r == t[..|r|] && AllSpace(t[|r|..])
    ensures r == s[|s| - |t|..|s| - |t| + |r|] && AllSpace(s[|s| - |t| + |r|..])
  {
    var i := |s| - |t|;
    assert s[i + |r|..] == t[|r|..];
  }

  /** trim returns a slice of its argument. */
  lemma TrimBounds(t: string) returns (i: nat, j: nat)
    ensures i <= j <= |t| && Trim(t) == t[i..j]
  {
    i := |t| - |TrimStart(t)|;
    j := i + |Trim(t)|;
  }

  /** A string with no whitespace at either end is its own trim. */
  lemma {:induction false} TrimOfTrimmed(s: string)
    requires Trimmed(s)
    ensures Trim(s) == s
  {
    assert TrimStart(s) == s;
    assert TrimEnd(s) == s;
  }

  lemma TrimIdempotent(s: string)
    ensures Trim(Trim(s)) == Trim(s)
  {
    TrimSpec(s);
    TrimOfTrimmed(Trim(s));
  }

  /** Trimming whitespace + m + whitespace gives m, when m has no whitespace at either end. */
  lemma TrimAround(w1: string, m: string, w2: string)
    requires AllSpace(w1) && AllSpace(w2) && Trimmed(m)
    ensures Trim(w1 + m + w2) == m
  {
    if m == [] {
      assert w1 + m + w2 == (w1 + w2) + [];
      TrimStartAll(w1 + w2, []);
    } else {
      assert w1 + m + w2 == w1 + (m + w2);
      TrimStartAll(w1, m + w2);
      TrimEndAll(m, w2);
    }
  }

  lemma {:induction false} TrimStartAll(w: string, t: string)
    requires AllSpace(w) && (t == [] || !IsSpace(t[0]))
    ensures TrimStart(w + t) == t
    decreases |w|
  {
    if w != [] {
      assert (w + t)[1..] == w[1..] + t;
      TrimStartAll(w[1..], t);
    } else {
      assert w + t == t;
    }
  }

  lemma {:induction false} TrimEndAll(m: string, w: string)
    requires AllSpace(w) && (m == [] || !IsSpace(m[|m| - 1]))
    ensures TrimEnd(m + w) == m
    decreases |w|
  {
    if w != [] {
      assert (m + w)[..|m + w| - 1] == m + w[..|w| - 1];
      TrimEndAll(m, w[..|w| - 1]);
    } else {
      assert m + w == m;
    }
  }

  // ---------------------------------------------------------------------------
  // toLowerCase
  // ---------------------------------------------------------------------------

  function LowerChar(c: char): char {
    if 'A' <= c <= 'Z' then (c as int + 32) as char else c
  }

  /** String.prototype.toLowerCase on ASCII letters; every other character is kept. */
  function ToLower(s: string): (r: string)
    ensures |r| == |s|
  {
    seq(|s|, i requires 0 <= i < |s| => LowerChar(s[i]))
  }

  predicate IsLowerCase(s: string) {
    forall i :: 0 <= i < |s| ==> !('A' <= s[i] <= 'Z')
  }

  lemma ToLowerIsLowerCase(s: string)
    ensures IsLowerCase(ToLower(s))
    ensures IsLowerCase(s) ==> ToLower(s) == s
  {
  }

  // ---------------------------------------------------------------------------
  // split and join
  // ---------------------------------------------------------------------------

  /** String.prototype.split with a one-character separator: the pieces between
      separators, always at least one (the empty string splits to [""]). */
  function Split(s: string, sep: char): (r: seq<string>)
    ensures |r| >= 1
    ensures forall i :: 0 <= i < |r| ==> sep !in r[i]
  {
    if s == [] then [[]]
    else
      var rest := Split(s[1..], sep);
      if s[0] == sep then [[]] + rest else [[s[0]] + rest[0]] + rest[1..]
  }

  /** Array.prototype.join with a separator string. */
  function Join(parts: seq<string>, sep: string): string
  {
    if |parts| == 0 then []
    else if |parts| == 1 then parts[0]
    else parts[0] + sep + Join(parts[1..], sep)
  }

  /** Joining the pieces of a split puts the separators back: the original string. */
  lemma {:induction false} JoinSplit(s: string, sep: char)
    ensures Join(Split(s, sep), [sep]) == s
  {
    if s != [] {
      JoinSplit(s[1..], sep);
      var rest := Split(s[1..], sep);
      if s[0] == sep {
        assert Split(s, sep) == [[]] + rest;
        assert s == [] + [sep] + Join(rest, [sep]);
      } else {
        var r := Split(s, sep);
        assert r == [[s[0]] + rest[0]] + rest[1..];
        if |rest| == 1 {
          assert Join(r, [sep]) == [s[0]] + rest[0];
        } else {
          assert r[1..] == rest[1..];
          assert Join(rest, [sep]) == rest[0] + [sep] + Join(rest[1..], [sep]);
        }
      }
    }
  }

  /** Splitting a join recovers the parts, when no part contains the separator. */
  lemma {:induction false} SplitJoin(parts: seq<string>, sep: char)
    requires |parts| >= 1
    requires forall i :: 0 <= i < |parts| ==> sep !in parts[i]
    ensures Split(Join(parts, [sep]), sep) == parts
    decreases |parts|, |parts[0]|
  {
    if |parts| == 1 {
      SplitPiece(parts[0], sep);
      assert Join(parts, [sep]) == parts[0];
      assert parts == [parts[0]];
    } else {
      var tail := parts[1..];
      SplitJoin(tail, sep);
      SplitPrefix(parts[0], [sep] + Join(tail, [sep]), sep);
      assert Join(parts, [sep]) == parts[0] + ([sep] + Join(tail, [sep]));
      SplitLeadingSep(Join(tail, [sep]), sep);
      var r := Split([sep] + Join(tail, [sep]), sep);
      assert r == [[]] + tail;
      assert r[0] == [] && r[1..] == tail;
      assert parts[0] + r[0] == parts[0];
      calc {
        Split(Join(parts, [sep]), sep);
        Split(parts[0] + ([sep] + Join(tail, [sep])), sep);
        [parts[0] + r[0]] + r[1..];
        [parts[0]] + tail;
        parts;
      }
    }
  }

  /** A string with no separator splits to itself. */
  lemma {:induction false} SplitPiece(p: string, sep: char)
    requires sep !in p
    ensures Split(p, sep) == [p]
    decreases |p|
  {
    if p != [] {
      SplitPiece(p[1..], sep);
      assert [p[0]] + p[1..] == p;
    }
  }

  lemma SplitLeadingSep(t: string, sep: char)
    ensures Split([sep] + t, sep) == [[]] + Split(t, sep)
  {
    assert ([sep] + t)[1..] == t;
  }

  /** A separator-free prefix glues onto the first piece of what follows. */
  lemma {:induction false} SplitPrefix(p: string, t: string, sep: char)
    requires sep !in p
    ensures Split(p + t, sep) == [p + Split(t, sep)[0]] + Split(t, sep)[1..]
    decreases |p|
  {
    if p == [] {
      assert p + t == t;
      var r := Split(t, sep);
      assert r == [r[0]] + r[1..];
      assert p + r[0] == r[0];
    } else {
      assert (p + t)[1..] == p[1..] + t;
      SplitPrefix(p[1..], t, sep);
      assert [p[0]] + (p[1..] + Split(t, sep)[0]) == p + Split(t, sep)[0];
    }
  }

  // ---------------------------------------------------------------------------
  // Decimal rendering and Number.parseInt
  // ---------------------------------------------------------------------------

  predicate IsDecimalDigit(c: char) { '0' <= c <= '9' }

  predicate IsHexDigit(c: char) {
    IsDecimalDigit(c) || 'a' <= c <= 'f' || 'A' <= c <= 'F'
  }

  predicate IsRadixDigit(c: char, radix: nat) {
    if radix == 16 then IsHexDigit(c) else IsDecimalDigit(c)
  }

  function DigitValue(c: char): nat {
    if IsDecimalDigit(c) then c as int - '0' as int
    else if 'a' <= c <= 'f' then c as int - 'a' as int + 10
    else if 'A' <= c <= 'F' then c as int - 'A' as int + 10
    else 0
  }

  /** The decimal rendering of a natural number, as template literals print it. */
  function Decimal(n: nat): (r: string)
    ensures |r| >= 1
    ensures forall i :: 0 <= i < |r| ==> IsDecimalDigit(r[i])
    ensures n > 0 ==> r[0] != '0'
    ensures n == 0 ==> r == "0"
  {
    if n < 10 then [("0123456789")[n]] else Decimal(n / 10) + [("0123456789")[n % 10]]
  }

  /** The decimal rendering of an integer, with a leading minus sign when negative. */
  function IntToString(n: int): string {
    if n < 0 then "-" + Decimal(-n) else Decimal(n)
  }

  /** The longest prefix of s made of digits of the radix. */
  function DigitPrefix(s: string, radix: nat): (r: string)
    ensures |r| <= |s| && r == s[..|r|]
    ensures forall i :: 0 <= i < |r| ==> IsRadixDigit(r[i], radix)
    ensures |r| < |s| ==> !IsRadixDigit(s[|r|], radix)
  {
    if s != [] && IsRadixDigit(s[0], radix) then [s[0]] + DigitPrefix(s[1..], radix) else []
  }

  /** The value of a digit string, most significant digit first. */
  function DigitsValue(ds: string, radix: nat): nat {
    if ds == [] then 0 else DigitsValue(ds[..|ds| - 1], radix) * radix + DigitValue(ds[|ds| - 1])
  }

  /** The digits of the given radix at the start of u, read as a number; None
      when there is none. */
  function ReadDigits(u: string, radix: nat): Option<nat> {
    var digits := DigitPrefix(u, radix);
    if digits == [] then None else Some(DigitsValue(digits, radix))
  }

  /** Without a sign: a 0x or 0X prefix selects base 16, otherwise base 10. */
  function ReadMagnitude(u: string): Option<nat> {
    if |u| >= 2 && u[0] == '0' && (u[1] == 'x' || u[1] == 'X') then ReadDigits(u[2..], 16)
    else ReadDigits(u, 10)
  }

  /** Number.parseInt(s) with no radix argument: leading whitespace skipped, an
      optional sign, a 0x/0X prefix selecting base 16, then the longest run of
      digits; None stands for NaN (no digit at all). Trailing text is ignored. */
  function ParseInt(s: string): Option<int> {
    var t := TrimStart(s);
    if |t| > 0 && t[0] == '-' then
      match ReadMagnitude(t[1..])
      case None => None
      case Some(v) => Some(-(v as int))
    else if |t| > 0 && t[0] == '+' then
      match ReadMagnitude(t[1..])
      case None => None
      case Some(v) => Some(v)
    else
      match ReadMagnitude(t)
      case None => None
      case Some(v) => Some(v)
  }

  lemma {:induction false} DecimalValue(n: nat)
    ensures DigitsValue(Decimal(n), 10) == n
  {
    var c := "0123456789"[n % 10];
    DigitOf(n % 10);
    if n < 10 {
      ValueOfAppend([], c, 0, n);
      assert Decimal(n) == [] + [c];
    } else {
      DecimalValue(n / 10);
      ValueOfAppend(Decimal(n / 10), c, n / 10, n % 10);
      assert Decimal(n) == Decimal(n / 10) + [c];
    }
  }

  lemma DigitOf(k: nat)
    requires k < 10
    ensures DigitValue("0123456789"[k]) == k
  {
  }

  /** One more digit at the end: the value so far times ten, plus the digit. */
  lemma ValueOfAppend(ds: string, c: char, a: nat, b: nat)
    requires DigitsValue(ds, 10) == a && DigitValue(c) == b
    ensures DigitsValue(ds + [c], 10) == a * 10 + b
  {
    assert (ds + [c])[..|ds|] == ds;
  }

  lemma {:induction false} DigitPrefixAll(ds: string, rest: string, radix: nat)
    requires forall i :: 0 <= i < |ds| ==> IsRadixDigit(ds[i], radix)
    requires rest == [] || !IsRadixDigit(rest[0], radix)
    ensures DigitPrefix(ds + rest, radix) == ds
    decreases |ds|
  {
    if ds == [] {
      assert ds + rest == rest;
    } else {
      assert (ds + rest)[1..] == ds[1..] + rest;
      DigitPrefixAll(ds[1..], rest, radix);
      assert ds == [ds[0]] + ds[1..];
    }
  }

  /** The character that may follow a rendered integer without changing what
      parseInt reads: neither a digit nor the x of a 0x prefix. */
  predicate EndsNumber(rest: string) {
    rest == [] || !(IsDecimalDigit(rest[0]) || rest[0] == 'x' || rest[0] == 'X')
  }

  lemma UnsignedDigitsParse(d: string, rest: string)
    requires |d| >= 1 && forall i :: 0 <= i < |d| ==> IsDecimalDigit(d[i])
    requires EndsNumber(rest)
    ensures ReadMagnitude(d + rest) == Some(DigitsValue(d, 10))
  {
    DigitPrefixAll(d, rest, 10);
    var u := d + rest;
    if |d| >= 2 {
      assert u[1] == d[1];
    } else if |u| >= 2 {
      assert u[1] == rest[0];
    }
  }

  /** parseInt reads back the integer a rendering starts with, whatever text
      follows it, provided that text neither continues the digits nor turns a
      leading 0 into a 0x prefix. */
  lemma ParseIntDecimalPrefix(n: int, rest: string)
    requires EndsNumber(rest)
    ensures ParseInt(IntToString(n) + rest) == Some(n)
  {
    RenderedParse(n, rest, IntToString(n) + rest);
  }

  lemma RenderedParse(n: int, rest: string, s: string)
    requires EndsNumber(rest) && s == IntToString(n) + rest
    ensures ParseInt(s) == Some(n)
  {
    var m: nat := if n < 0 then -n else n;
    var d := Decimal(m);
    DecimalValue(m);
    UnsignedDigitsParse(d, rest);
    if n < 0 {
      assert IntToString(n) == "-" + d;
      RenderedNegative(s, d, rest, m);
    } else {
      assert IntToString(n) == d;
      ParseUnsigned(s, m);
    }
  }

  lemma RenderedNegative(s: string, d: string, rest: string, v: nat)
    requires s == "-" + d + rest && ReadMagnitude(d + rest) == Some(v)
    ensures ParseInt(s) == Some(-(v as int))
  {
    assert s[1..] == d + rest;
    ParseNegative(s, v);
  }

  lemma ParseNegative(s: string, v: nat)
    requires s != [] && s[0] == '-' && ReadMagnitude(s[1..]) == Some(v)
    ensures ParseInt(s) == Some(-(v as int))
  {
    TrimStartAtNonSpace(s);
  }

  lemma ParseUnsigned(u: string, v: nat)
    requires u != [] && IsDecimalDigit(u[0]) && ReadMagnitude(u) == Some(v)
    ensures ParseInt(u) == Some(v)
  {
    TrimStartAtNonSpace(u);
  }

  lemma TrimStartAtNonSpace(u: string)
    requires u != [] && !IsSpace(u[0])
    ensures TrimStart(u) == u
  {
  }

  lemma ParseIntDecimal(n: int)
    ensures ParseInt(IntToString(n)) == Some(n)
  {
    ParseIntDecimalPrefix(n, []);
    assert IntToString(n) + [] == IntToString(n);
  }

  /** parseInt gives NaN when no digit follows the optional sign. */
  lemma ParseIntNoDigits(s: string)
    requires TrimStart(s) == [] || !(IsDecimalDigit(TrimStart(s)[0]) || TrimStart(s)[0] == '-' || TrimStart(s)[0] == '+')
    ensures ParseInt(s) == None
  {
    NoLeadingDigit(TrimStart(s));
  }

  lemma NoLeadingDigit(t: string)
    requires t == [] || !IsDecimalDigit(t[0])
    ensures ReadMagnitude(t) == None
  {
    assert DigitPrefix(t, 10) == [];
  }

  // ---------------------------------------------------------------------------
  // Array.prototype.filter and subsequences
  // ---------------------------------------------------------------------------

  /** r is s with some elements dropped, the rest in their original order. */
  predicate IsSubsequence<T(==)>(r: seq<T>, s: seq<T>)
    decreases |s|
  {
    r == [] || (s != [] && ((r[0] == s[0] && IsSubsequence(r[1..], s[1..])) || IsSubsequence(r, s[1..])))
  }

  /** Array.prototype.filter: the elements that pass, in order, each occurrence of
      a passing element kept and every occurrence of a failing one dropped. */
  function Filter<T(==,!new)>(s: seq<T>, keep: T -> bool): (r: seq<T>)
    ensures IsSubsequence(r, s)
    ensures forall x :: multiset(r)[x] == if keep(x) then multiset(s)[x] else 0
    ensures forall i :: 0 <= i < |r| ==> keep(r[i])
  {
    if s == [] then []
    else
      var rest := Filter(s[1..], keep);
      assert s == [s[0]] + s[1..];
      if keep(s[0]) then [s[0]] + rest else rest
  }

  /** Every element Filter keeps is an element of its input. */
  lemma FilterMembers<T(!new)>(s: seq<T>, keep: T -> bool)
    ensures forall i :: 0 <= i < |Filter(s, keep)| ==> Filter(s, keep)[i] in s
  {
    var r := Filter(s, keep);
    forall i | 0 <= i < |r|
      ensures r[i] in s
    {
      assert multiset(r)[r[i]] > 0;
    }
  }

  lemma {:induction false} FilterAppend<T(!new)>(a: seq<T>, b: seq<T>, keep: T -> bool)
    ensures Filter(a + b, keep) == Filter(a, keep) + Filter(b, keep)
    decreases |a|
  {
    if a == [] {
      assert a + b == b;
    } else {
      var s := a + b;
      assert s[0] == a[0] && s[1..] == a[1..] + b;
      FilterAppend(a[1..], b, keep);
      FilterCons(s, keep);
      FilterCons(a, keep);
      var h := if keep(a[0]) then [a[0]] else [];
      Regroup(h, Filter(a[1..], keep), Filter(b, keep), Filter(s, keep), Filter(a, keep));
    }
  }

  lemma Regroup<T>(h: seq<T>, x: seq<T>, y: seq<T>, whole: seq<T>, first: seq<T>)
    requires whole == h + (x + y) && first == h + x
    ensures whole == first + y
  {
  }

  /** Filter keeps or drops the head, then filters the tail. */
  lemma FilterCons<T(!new)>(s: seq<T>, keep: T -> bool)
    requires s != []
    ensures Filter(s, keep) == (if keep(s[0]) then [s[0]] else []) + Filter(s[1..], keep)
  {
  }

  /** A filter that keeps everything changes nothing. */
  lemma {:induction false} FilterAll<T(!new)>(s: seq<T>, keep: T -> bool)
    requires forall i :: 0 <= i < |s| ==> keep(s[i])
    ensures Filter(s, keep) == s
    decreases |s|
  {
    if s != [] {
      FilterAll(s[1..], keep);
    }
  }
}
