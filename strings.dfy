/** Character-level helpers the catalog code takes from its string classes: whitespace
    trimming, delimiter search, prefix tests, C `atoi`, and the byte-wise ordering that
    `std::string::operator<` uses. */
module Strings {
  import opened Wrappers

  /** The characters `StringRef::trim()` strips from both ends. */
  predicate IsTrimSpace(c: char) {
    c == ' ' || c == '\t' || c == '\r' || c == '\n'
  }

  /** The characters C's `isspace` accepts, which `atoi` skips. */
  predicate IsCSpace(c: char) {
    c == ' ' || c == '\t' || c == '\n' || c == '\U{B}' || c == '\U{C}' || c == '\r'
  }

  predicate IsDigit(c: char) {
    '0' <= c <= '9'
  }

  predicate IsTrimmed(s: string) {
    s == [] || (!IsTrimSpace(s[0]) && !IsTrimSpace(s[|s| - 1]))
  }

  /** `StringRef::trim()`: strips trim-space characters from both ends, leaving the
      longest infix that starts and ends with a non-space character, or the empty
      string. */
  function Trim(s: string): (r: string)
    ensures IsTrimmed(r) && |r| <= |s|
    ensures IsTrimmed(s) ==> r == s
    decreases |s|
  {
    if s != [] && IsTrimSpace(s[0]) then Trim(s[1..])
    else if s != [] && IsTrimSpace(s[|s| - 1]) then Trim(s[..|s| - 1])
    else s
  }

  /** Trimming strips exactly the padding: whatever space characters surround a trimmed
      string, `Trim` gives that string back. */
  lemma {:induction false} TrimOfPadded(pre: string, mid: string, post: string)
    requires forall i :: 0 <= i < |pre| ==> IsTrimSpace(pre[i])
    requires forall i :: 0 <= i < |post| ==> IsTrimSpace(post[i])
    requires IsTrimmed(mid)
    ensures Trim(pre + mid + post) == mid
    decreases |pre| + |post|
  {
    var s := pre + mid + post;
    if pre != [] {
      assert s[0] == pre[0];
      assert s[1..] == pre[1..] + mid + post;
      TrimOfPadded(pre[1..], mid, post);
    } else if post != [] && mid == [] {
      assert s == post;
      assert s[1..] == pre + mid + post[1..];
      TrimOfPadded(pre, mid, post[1..]);
    } else if post != [] {
      var p := post[..|post| - 1];
      assert s[0] == mid[0] && s[|s| - 1] == post[|post| - 1];
      assert s[..|s| - 1] == pre + mid + p;
      TrimOfPadded(pre, mid, p);
    } else {
      assert s == mid;
    }
  }

  /** A string that starts with a non-space character keeps that first character. */
  lemma {:induction false} TrimKeepsFirst(s: string)
    requires s != [] && !IsTrimSpace(s[0])
    ensures Trim(s) != [] && Trim(s)[0] == s[0]
    decreases |s|
  {
    if IsTrimSpace(s[|s| - 1]) {
      TrimKeepsFirst(s[..|s| - 1]);
    }
  }

  /** Index of the first `c` in `s`, as `StringRef::find_first_of` with one character. */
  function FindFirst(s: string, c: char): (r: Option<nat>)
    ensures r.None? <==> c !in s
    ensures r.Some? ==> r.value < |s| && s[r.value] == c && c !in s[..r.value]
  {
    if s == [] then None
    else if s[0] == c then Some(0)
    else match FindFirst(s[1..], c)
      case None => None
      case Some(i) => Some(i + 1)
  }

  /** The first-occurrence index is determined by where a `c`-free prefix ends. */
  lemma FindFirstAfterPrefix(a: string, c: char, b: string)
    requires c !in a
    ensures FindFirst(a + [c] + b, c) == Some(|a|)
  {
    var s := a + [c] + b;
    assert s[|a|] == c;
    assert s[..|a|] == a;
  }

  predicate StartsWith(s: string, prefix: string) {
    |prefix| <= |s| && s[..|prefix|] == prefix
  }

  /** Every character `from` in `s` replaced by `to`, as `std::replace`. */
  function ReplaceChar(s: string, from: char, to: char): (r: string)
    ensures |r| == |s|
  {
    if s == [] then [] else [if s[0] == from then to else s[0]] + ReplaceChar(s[1..], from, to)
  }

  /** Character by character, what `ReplaceChar` leaves. */
  lemma {:induction false} ReplaceCharAt(s: string, from: char, to: char)
    ensures var r := ReplaceChar(s, from, to);
      forall i :: 0 <= i < |s| ==> r[i] == (if s[i] == from then to else s[i])
  {
    if s != [] {
      ReplaceCharAt(s[1..], from, to);
      var r := ReplaceChar(s, from, to);
      assert r == [if s[0] == from then to else s[0]] + ReplaceChar(s[1..], from, to);
      forall i | 1 <= i < |s| ensures r[i] == (if s[i] == from then to else s[i]) {
        assert r[i] == ReplaceChar(s[1..], from, to)[i - 1];
        assert s[i] == s[1..][i - 1];
      }
    }
  }

  /** Number of leading decimal digits of `s`. */
  function DigitRun(s: string): (n: nat)
    ensures n <= |s|
    ensures forall i :: 0 <= i < n ==> IsDigit(s[i])
    ensures n == |s| || !IsDigit(s[n])
  {
    if s != [] && IsDigit(s[0]) then 1 + DigitRun(s[1..]) else 0
  }

  /** Value of a string of decimal digits, most significant first. */
  function DecimalValue(digits: string): nat
    requires forall i :: 0 <= i < |digits| ==> IsDigit(digits[i])
  {
    if digits == [] then 0
    else
      var d := digits[|digits| - 1];
      assert IsDigit(d);
      10 * DecimalValue(digits[..|digits| - 1]) + (d as int - '0' as int)
  }

  /** C `atoi`: skip `isspace` characters, read an optional sign, then the longest run of
      decimal digits; no digits gives 0. The result is unbounded: the undefined behaviour
      of `atoi` on overflow is not modelled. */
  function Atoi(s: string): (r: int)
    ensures (r != 0) ==> exists i :: 0 <= i < |s| && IsDigit(s[i])
  {
    if s != [] && IsCSpace(s[0]) then Atoi(s[1..])
    else if s != [] && (s[0] == '-' || s[0] == '+') then
      var n := DigitRun(s[1..]);
      var v := DecimalValue(s[1..][..n]);
      if s[0] == '-' then -(v as int) else v
    else
      var n := DigitRun(s);
      DecimalValue(s[..n])
  }

  /** Number of bytes `c` takes in UTF-8, the encoding `std::string` holds. */
  function Utf8Width(c: char): (n: nat)
    ensures 1 <= n <= 4
  {
    if c as int < 0x80 then 1
    else if c as int < 0x800 then 2
    else if c as int < 0x1_0000 then 3
    else 4
  }

  /** `std::string::length()` of the UTF-8 encoding of `s`: never less than the number of
      characters, and equal to it exactly for ASCII text. */
  function Utf8Length(s: string): (n: nat)
    ensures n >= |s|
    ensures n == |s| <==> forall i :: 0 <= i < |s| ==> s[i] as int < 0x80
  {
    if s == [] then 0 else Utf8Width(s[0]) + Utf8Length(s[1..])
  }

  /** Lexicographic order on characters, as `std::string::operator<` (UTF-8 bytes compare
      in the same order as the code points they encode). */
  predicate LessStr(a: string, b: string) {
    if a == [] then b != []
    else if b == [] then false
    else a[0] < b[0] || (a[0] == b[0] && LessStr(a[1..], b[1..]))
  }

  lemma {:induction false} LessStrIrreflexive(a: string)
    ensures !LessStr(a, a)
  {
    if a != [] {
      LessStrIrreflexive(a[1..]);
    }
  }

  lemma {:induction false} LessStrTransitive(a: string, b: string, c: string)
    requires LessStr(a, b) && LessStr(b, c)
    ensures LessStr(a, c)
  {
    if a != [] && b != [] && c != [] && a[0] == b[0] && b[0] == c[0] {
      LessStrTransitive(a[1..], b[1..], c[1..]);
    }
  }

  lemma {:induction false} LessStrTotal(a: string, b: string)
    ensures a == b || LessStr(a, b) || LessStr(b, a)
  {
    if a != [] && b != [] && a[0] == b[0] {
      LessStrTotal(a[1..], b[1..]);
      if a[1..] == b[1..] {
        assert a == [a[0]] + a[1..] && b == [b[0]] + b[1..];
      }
    }
  }

  lemma {:induction false} LessStrAsymmetric(a: string, b: string)
    requires LessStr(a, b)
    ensures !LessStr(b, a)
  {
    if a != [] && b != [] && a[0] == b[0] {
      LessStrAsymmetric(a[1..], b[1..]);
    }
  }

  /** A proper prefix sorts first: this is why `std::set` iteration visits a parent path
      before any of its children. */
  lemma {:induction false} ProperPrefixIsLess(a: string, b: string)
    requires |a| < |b| && b[..|a|] == a
    ensures LessStr(a, b)
  {
    if a != [] {
      assert a[0] == b[0];
      assert b[1..][..|a| - 1] == a[1..];
      ProperPrefixIsLess(a[1..], b[1..]);
    }
  }
}
