/**
 * The JavaScript string built-ins the scripts rely on: `trim`, `split(',')`,
 * `toLowerCase` compared against ASCII answers, `parseInt` without a radix,
 * and the default (code-unit) string ordering used by `Array.prototype.sort`.
 */
module Text {
  import opened Wrappers

  // ---------------------------------------------------------------------------
  // Whitespace and trim
  // ---------------------------------------------------------------------------

  /** ECMAScript WhiteSpace or LineTerminator: what `trim` and `parseInt` skip. */
  predicate IsJsSpace(c: char) {
    || c == '\t' || c == '\n' || c == '\U{000B}' || c == '\U{000C}' || c == '\r' || c == ' '
    || c == '\U{00A0}' || c == '\U{1680}' || ('\U{2000}' <= c <= '\U{200A}')
    || c == '\U{2028}' || c == '\U{2029}' || c == '\U{202F}' || c == '\U{205F}'
    || c == '\U{3000}' || c == '\U{FEFF}'
  }

  /** The number of whitespace characters `s` starts with. */
  function LeadingSpaces(s: string): (n: nat)
    ensures n <= |s|
    ensures forall i :: 0 <= i < n ==> IsJsSpace(s[i])
    ensures n < |s| ==> !IsJsSpace(s[n])
  {
    if s != [] && IsJsSpace(s[0]) then 1 + LeadingSpaces(s[1..]) else 0
  }

  /** The number of whitespace characters `s` ends with. */
  function TrailingSpaces(s: string): (n: nat)
    ensures n <= |s|
    ensures forall i :: |s| - n <= i < |s| ==> IsJsSpace(s[i])
    ensures n < |s| ==> !IsJsSpace(s[|s| - n - 1])
  {
    if s != [] && IsJsSpace(s[|s| - 1]) then 1 + TrailingSpaces(s[..|s| - 1]) else 0
  }

  /** `s` with its leading whitespace removed. */
  function TrimStart(s: string): (r: string)
    ensures r == [] || !IsJsSpace(r[0])
  {
    s[LeadingSpaces(s)..]
  }

  /** `s` with its trailing whitespace removed. */
  function TrimEnd(s: string): (r: string)
    ensures r == [] || !IsJsSpace(r[|r| - 1])
  {
    s[..|s| - TrailingSpaces(s)]
  }

  /** `String.prototype.trim`: whitespace removed at both ends, the middle kept. */
  function Trim(s: string): (r: string)
    ensures r == [] || (!IsJsSpace(r[0]) && !IsJsSpace(r[|r| - 1]))
    ensures exists i, j :: && 0 <= i <= j <= |s| && r == s[i..j]
                           && (forall k :: 0 <= k < i || j <= k < |s| ==> IsJsSpace(s[k]))
  {
    var i := LeadingSpaces(s);
    var t := s[i..];
    var r := TrimEnd(t);
    var j := i + |r|;
    TrimmedEnds(s, i, t, r);
    assert 0 <= i <= j <= |s| && r == s[i..j] && (forall k :: 0 <= k < i || j <= k < |s| ==> IsJsSpace(s[k]));
    r
  }

  /** The characters `Trim` drops from either end of `s` are whitespace. */
  lemma TrimmedEnds(s: string, i: nat, t: string, r: string)
    requires i == LeadingSpaces(s) && t == s[i..] && r == TrimEnd(t)
    ensures i + |r| <= |s| && r == s[i..i + |r|]
    ensures forall k :: 0 <= k < i || i + |r| <= k < |s| ==> IsJsSpace(s[k])
  {
    TrimmedSlice(s, i, t, r);
    TrimmedTail(s, i, t, |t| - |r|);
  }

  /** Trimming the end of `s[i..]` leaves a slice of `s` starting at `i`. */
  lemma TrimmedSlice(s: string, i: nat, t: string, r: string)
    requires i <= |s| && t == s[i..] && r == TrimEnd(t)
    ensures i + |r| <= |s| && r == s[i..i + |r|]
  {
  }

  /** The last `n` characters of `s[i..]` are the last `n` of `s`. */
  lemma TrimmedTail(s: string, i: nat, t: string, n: nat)
    requires i <= |s| && t == s[i..] && n == TrailingSpaces(t)
    ensures forall k :: |s| - n <= k < |s| ==> IsJsSpace(s[k])
  {
    forall k | |s| - n <= k < |s|
      ensures IsJsSpace(s[k])
    {
      assert s[k] == t[k - i];
    }
  }

  // ---------------------------------------------------------------------------
  // split(',')
  // ---------------------------------------------------------------------------

  /** Index of the first `c` in `s`. */
  function IndexOf(s: string, c: char): (i: nat)
    requires c in s
    ensures i < |s| && s[i] == c && c !in s[..i]
  {
    if s[0] == c then 0 else 1 + IndexOf(s[1..], c)
  }

  /** `String.prototype.split` with a one-character separator: the pieces between separators. */
  function Split(s: string, sep: char): (parts: seq<string>)
    ensures |parts| >= 1
    decreases |s|
  {
    if sep !in s then [s]
    else
      var i := IndexOf(s, sep);
      [s[..i]] + Split(s[i + 1..], sep)
  }

  /** The inverse of `Split`: the pieces glued back with the separator between them. */
  function Join(parts: seq<string>, sep: char): string
    requires |parts| >= 1
  {
    if |parts| == 1 then parts[0] else parts[0] + [sep] + Join(parts[1..], sep)
  }

  /** Splitting loses nothing: joining the pieces gives back the text. */
  lemma {:induction false} JoinSplit(s: string, sep: char)
    ensures Join(Split(s, sep), sep) == s
    decreases |s|
  {
    if sep in s {
      var i := IndexOf(s, sep);
      var rest := Split(s[i + 1..], sep);
      JoinSplit(s[i + 1..], sep);
      JoinCons(s[..i], rest, sep);
      assert s == s[..i] + [sep] + s[i + 1..];
    }
  }

  lemma JoinCons(head: string, rest: seq<string>, sep: char)
    requires |rest| >= 1
    ensures Join([head] + rest, sep) == head + [sep] + Join(rest, sep)
  {
    assert ([head] + rest)[1..] == rest;
  }

  /** No piece holds the separator. */
  lemma {:induction false} SplitPieces(s: string, sep: char)
    ensures forall i :: 0 <= i < |Split(s, sep)| ==> sep !in Split(s, sep)[i]
    decreases |s|
  {
    if sep in s {
      var i := IndexOf(s, sep);
      var rest := Split(s[i + 1..], sep);
      SplitPieces(s[i + 1..], sep);
      assert Split(s, sep) == [s[..i]] + rest;
    }
  }

  // ---------------------------------------------------------------------------
  // toLowerCase against ASCII answers
  // ---------------------------------------------------------------------------

  function LowerChar(c: char): char {
    if 'A' <= c <= 'Z' then (c as int + 32) as char else c
  }

  /**
   * `toLowerCase` on the ASCII letters. The scripts only compare its result
   * with "q", "y" and "yes"; no other Unicode character lowers to one of those
   * letters, so the comparisons come out as with the full mapping.
   */
  function AsciiLower(s: string): (r: string)
    ensures |r| == |s|
    ensures forall i :: 0 <= i < |s| ==> r[i] == LowerChar(s[i])
  {
    if s == [] then [] else [LowerChar(s[0])] + AsciiLower(s[1..])
  }

  /** `answer.toLowerCase() === 'q'`. */
  predicate IsQuit(answer: string) {
    AsciiLower(answer) == "q"
  }

  /** `confirm.toLowerCase() === 'y' || confirm.toLowerCase() === 'yes'`. */
  predicate IsYes(answer: string) {
    AsciiLower(answer) == "y" || AsciiLower(answer) == "yes"
  }

  /** Exactly the two spellings of "q" quit. */
  lemma QuitSpellings(answer: string)
    ensures IsQuit(answer) <==> answer == "q" || answer == "Q"
  {
    if IsQuit(answer) {
      assert |answer| == 1 && LowerChar(answer[0]) == 'q';
      assert answer == [answer[0]];
    }
  }

  /** Exactly the ten case variants of "y" and "yes" confirm; so "" and "n" do not. */
  lemma YesSpellings(answer: string)
    ensures IsYes(answer) <==>
              (answer in {"y", "Y", "yes", "yeS", "yEs", "yES", "Yes", "YeS", "YEs", "YES"})
  {
    if AsciiLower(answer) == "y" {
      assert |answer| == 1 && LowerChar(answer[0]) == 'y';
      assert answer == [answer[0]];
    } else if AsciiLower(answer) == "yes" {
      assert |answer| == 3;
      assert LowerChar(answer[0]) == 'y' && LowerChar(answer[1]) == 'e' && LowerChar(answer[2]) == 's';
      assert answer == [answer[0], answer[1], answer[2]];
    }
  }

  // ---------------------------------------------------------------------------
  // parseInt(text) with no radix
  // ---------------------------------------------------------------------------

  /** The value of `c` as a digit of radix up to 36, or 36 when it is no digit at all. */
  function DigitValue(c: char): (d: nat)
    ensures d <= 36
    ensures d < 10 <==> '0' <= c <= '9'
  {
    if '0' <= c <= '9' then c as int - '0' as int
    else if 'a' <= c <= 'z' then c as int - 'a' as int + 10
    else if 'A' <= c <= 'Z' then c as int - 'A' as int + 10
    else 36
  }

  /** The length of the longest prefix of `s` made of digits of `radix`. */
  function DigitCount(s: string, radix: nat): (n: nat)
    ensures n <= |s|
    ensures forall i :: 0 <= i < n ==> DigitValue(s[i]) < radix
    ensures n < |s| ==> DigitValue(s[n]) >= radix
  {
    if s == [] || DigitValue(s[0]) >= radix then 0 else 1 + DigitCount(s[1..], radix)
  }

  /** The number a digit string denotes in `radix`, most significant digit first. */
  function DigitsValue(z: string, radix: nat): nat {
    if z == [] then 0 else DigitsValue(z[..|z| - 1], radix) * radix + DigitValue(z[|z| - 1])
  }

  /**
   * `parseInt(s)`: skip leading whitespace, read an optional sign, then the
   * unsigned part. No digits at all is NaN, here `None`.
   */
  function ParseInt(s: string): Option<int> {
    Signed(TrimStart(s))
  }

  /** The part of `parseInt` after the whitespace: an optional sign, then the unsigned part. */
  function Signed(t: string): Option<int> {
    if t == [] then None
    else
      var negative := t[0] == '-';
      var u := if t[0] == '-' || t[0] == '+' then t[1..] else t;
      match ParseUnsigned(u)
      case None => None
      case Some(v) => Some(if negative then -(v as int) else v as int)
  }

  /**
   * The unsigned part of `parseInt`: radix 16 after "0x" or "0X", else 10; the
   * longest run of digits is read and whatever follows is ignored.
   */
  function ParseUnsigned(u: string): Option<nat> {
    var hex := |u| >= 2 && u[0] == '0' && (u[1] == 'x' || u[1] == 'X');
    var radix := if hex then 16 else 10;
    var digits := if hex then u[2..] else u;
    var n := DigitCount(digits, radix);
    if n == 0 then None else Some(DigitsValue(digits[..n], radix))
  }

  /** The decimal spelling of `n`, as `String(n)` writes it. */
  function Decimal(n: nat): (s: string)
    ensures |s| >= 1
    ensures forall i :: 0 <= i < |s| ==> '0' <= s[i] <= '9'
  {
    var d := ['0' + (n % 10) as char];
    if n < 10 then d else Decimal(n / 10) + d
  }

  lemma {:induction false} DecimalValue(n: nat)
    ensures DigitsValue(Decimal(n), 10) == n
  {
    var s := Decimal(n);
    assert s[..|s| - 1] == if n < 10 then [] else Decimal(n / 10);
    if n >= 10 {
      DecimalValue(n / 10);
    }
  }

  lemma {:induction false} AllDigitsCount(s: string)
    requires forall i :: 0 <= i < |s| ==> '0' <= s[i] <= '9'
    ensures DigitCount(s, 10) == |s|
  {
    if s != [] {
      AllDigitsCount(s[1..]);
    }
  }

  /** `parseInt` reads back what `String(n)` writes. */
  lemma ParseIntDecimal(n: nat)
    ensures ParseInt(Decimal(n)) == Some(n as int)
  {
    var u := Decimal(n);
    DecimalValue(n);
    UnsignedDigits(u);
    PositiveValue(u, n);
  }

  /** `parseInt` reads a minus sign before what `String(n)` writes as `-n`. */
  lemma ParseIntNegated(n: nat)
    ensures ParseInt("-" + Decimal(n)) == Some(-(n as int))
  {
    var u := Decimal(n);
    DecimalValue(n);
    UnsignedDigits(u);
    NegatedValue(u, n);
  }

  /** An all-digit string is read whole, in decimal. */
  lemma ParseDigits(u: string)
    requires |u| >= 1 && forall i :: 0 <= i < |u| ==> '0' <= u[i] <= '9'
    ensures ParseUnsigned(u) == Some(DigitsValue(u, 10))
    ensures ParseInt(u) == Some(DigitsValue(u, 10) as int)
  {
    UnsignedDigits(u);
    PositiveValue(u, DigitsValue(u, 10));
  }

  /** Unsigned text that starts with a digit is read as it stands. */
  lemma PositiveValue(u: string, v: nat)
    requires |u| >= 1 && '0' <= u[0] <= '9' && ParseUnsigned(u) == Some(v)
    ensures ParseInt(u) == Some(v as int)
  {
    NotTrimmed(u);
  }

  /** A minus sign negates what the unsigned part reads. */
  lemma NegatedValue(u: string, v: nat)
    requires ParseUnsigned(u) == Some(v)
    ensures ParseInt("-" + u) == Some(-(v as int))
  {
    var m := "-" + u;
    assert m[0] == '-' && m[1..] == u;
    NotTrimmed(m);
    SignedNegative(m, v);
  }

  /** Text starting with a digit or a sign has no leading whitespace to skip. */
  lemma NotTrimmed(u: string)
    requires |u| >= 1 && ('0' <= u[0] <= '9' || u[0] == '-')
    ensures TrimStart(u) == u
  {
    assert !IsJsSpace(u[0]);
  }

  lemma SignedNegative(t: string, v: nat)
    requires |t| >= 1 && t[0] == '-' && ParseUnsigned(t[1..]) == Some(v)
    ensures Signed(t) == Some(-(v as int))
  {
  }

  lemma UnsignedDigits(u: string)
    requires |u| >= 1 && forall i :: 0 <= i < |u| ==> '0' <= u[i] <= '9'
    ensures ParseUnsigned(u) == Some(DigitsValue(u, 10))
  {
    assert !(|u| >= 2 && u[0] == '0' && (u[1] == 'x' || u[1] == 'X'));
    AllDigitsCount(u);
    assert u[..|u|] == u;
  }

  /** Text whose first non-blank character is neither a sign nor a digit is NaN. */
  lemma ParseIntNaN(s: string)
    requires TrimStart(s) == [] || (TrimStart(s)[0] !in "+-" && DigitValue(TrimStart(s)[0]) >= 10)
    ensures ParseInt(s) == None
  {
  }

  // ---------------------------------------------------------------------------
  // The default string order of Array.prototype.sort
  // ---------------------------------------------------------------------------

  /** `a < b` on strings: a proper prefix comes first, otherwise the first differing character decides. */
  predicate LexLess(a: string, b: string) {
    if a == [] then b != []
    else if b == [] then false
    else if a[0] != b[0] then a[0] < b[0]
    else LexLess(a[1..], b[1..])
  }

  lemma {:induction false} LexIrreflexive(a: string)
    ensures !LexLess(a, a)
  {
    if a != [] {
      LexIrreflexive(a[1..]);
    }
  }

  lemma {:induction false} LexAsymmetric(a: string, b: string)
    ensures !(LexLess(a, b) && LexLess(b, a))
  {
    if a != [] && b != [] && a[0] == b[0] {
      LexAsymmetric(a[1..], b[1..]);
    }
  }

  lemma {:induction false} LexTransitive(a: string, b: string, c: string)
    requires LexLess(a, b) && LexLess(b, c)
    ensures LexLess(a, c)
  {
    if a != [] && a[0] == b[0] && b[0] == c[0] {
      LexTransitive(a[1..], b[1..], c[1..]);
    }
  }

  /** Any two different strings are ordered one way or the other. */
  lemma {:induction false} LexTotal(a: string, b: string)
    requires a != b
    ensures LexLess(a, b) || LexLess(b, a)
  {
    if a != [] && b != [] && a[0] == b[0] {
      assert a == [a[0]] + a[1..] && b == [b[0]] + b[1..];
      LexTotal(a[1..], b[1..]);
    }
  }

  /** Comparing two strings that start with prefixes of the same length: the prefixes decide unless equal. */
  lemma {:induction false} LexConcat(p: string, x: string, q: string, y: string)
    requires |p| == |q|
    ensures LexLess(p + x, q + y) <==> LexLess(p, q) || (p == q && LexLess(x, y))
  {
    if p == [] {
      assert p + x == x && q + y == y;
    } else {
      assert (p + x)[1..] == p[1..] + x && (q + y)[1..] == q[1..] + y;
      LexConcat(p[1..], x, q[1..], y);
      if p[0] == q[0] {
        assert p == q <==> p[1..] == q[1..] by {
          assert p == [p[0]] + p[1..] && q == [q[0]] + q[1..];
        }
      }
    }
  }
}
