/** Catalog identifiers: 128-bit UUIDs with a distinguished nil value, their textual form
    (`xxxxxxxx-xxxx-xxxx-xxxx-xxxxxxxxxxxx`), the partial parser the definition file relies
    on, and a stand-in for the random generator that only promises what the catalog code
    needs: a non-nil identifier nobody uses yet. */
module Uuid {
  import opened Wrappers

  function Pow16(k: nat): (r: nat)
    ensures r > 0
  {
    if k == 0 then 1 else 16 * Pow16(k - 1)
  }

  /** Number of distinct 128-bit identifiers. */
  const UUID_SPACE: nat := 0x1_0000_0000_0000_0000_0000_0000_0000_0000

  /** 32 hexadecimal digits span exactly the 128-bit identifiers. */
  lemma HexDigitsSpan()
    ensures Pow16(32) == UUID_SPACE
  {
    assert Pow16(4) == 0x1_0000;
    Pow16Sum(4, 4);
    assert Pow16(8) == 0x1_0000_0000;
    Pow16Sum(8, 8);
    assert Pow16(16) == 0x1_0000_0000_0000_0000;
    Pow16Sum(16, 16);
  }

  lemma {:induction false} Pow16Sum(a: nat, b: nat)
    ensures Pow16(a + b) == Pow16(a) * Pow16(b)
  {
    if a > 0 {
      Pow16Sum(a - 1, b);
      assert Pow16(a + b) == 16 * Pow16(a - 1 + b);
    }
  }

  type CatalogId = n: nat | n < UUID_SPACE

  /** The all-zero UUID; a tree item without a catalog of its own carries it. */
  const NIL: CatalogId := 0

  predicate IsLowerHex(c: char) {
    '0' <= c <= '9' || 'a' <= c <= 'f'
  }

  function HexChar(d: nat): (c: char)
    requires d < 16
    ensures IsLowerHex(c)
  {
    if d < 10 then ('0' as int + d) as char else ('a' as int + d - 10) as char
  }

  /** Value of one hexadecimal digit, either case. */
  function HexValue(c: char): (r: Option<nat>)
    ensures r.Some? ==> r.value < 16
  {
    if '0' <= c <= '9' then Some(c as int - '0' as int)
    else if 'a' <= c <= 'f' then Some(c as int - 'a' as int + 10)
    else if 'A' <= c <= 'F' then Some(c as int - 'A' as int + 10)
    else None
  }

  /** `n` written with exactly `k` lower-case hexadecimal digits, most significant first. */
  function ToHex(n: nat, k: nat): (s: string)
    requires n < Pow16(k)
    ensures |s| == k
    ensures forall i :: 0 <= i < k ==> IsLowerHex(s[i])
  {
    if k == 0 then "" else ToHex(n / 16, k - 1) + [HexChar(n % 16)]
  }

  /** Value of a string of hexadecimal digits; `None` if any character is not one. */
  function FromHex(s: string): (r: Option<nat>)
    ensures r.Some? ==> r.value < Pow16(|s|)
  {
    if s == [] then Some(0)
    else
      match (FromHex(s[..|s| - 1]), HexValue(s[|s| - 1]))
      case (Some(high), Some(low)) => Some(16 * high + low)
      case _ => None
  }

  lemma {:induction false} FromHexToHex(n: nat, k: nat)
    requires n < Pow16(k)
    ensures FromHex(ToHex(n, k)) == Some(n)
  {
    if k > 0 {
      var s := ToHex(n, k);
      FromHexToHex(n / 16, k - 1);
      assert s[..|s| - 1] == ToHex(n / 16, k - 1);
      assert HexValue(s[|s| - 1]) == Some(n % 16);
    }
  }

  /** The positions of the four dashes in the text form. */
  predicate IsDashPosition(i: nat) {
    i == 8 || i == 13 || i == 18 || i == 23
  }

  /** Where hex digit `j` sits in the text form: groups of 8, 4, 4, 4 and 12 digits, a
      dash before each group but the first. */
  function TextIndex(j: nat): (i: nat)
    requires j < 32
    ensures i < 36 && !IsDashPosition(i)
  {
    if j < 8 then j else if j < 12 then j + 1 else if j < 16 then j + 2 else if j < 20 then j + 3 else j + 4
  }

  /** Which hex digit sits at a position of the text form that is not a dash. */
  function DigitIndex(i: nat): (j: nat)
    requires i < 36 && !IsDashPosition(i)
    ensures j < 32 && TextIndex(j) == i
  {
    if i < 8 then i else if i < 13 then i - 1 else if i < 18 then i - 2 else if i < 23 then i - 3 else i - 4
  }

  /** The canonical text of an identifier, as written into catalog definition files:
      32 lower-case hexadecimal digits in groups of 8-4-4-4-12. */
  function Format(id: CatalogId): (s: string)
    ensures |s| == 36
  {
    HexDigitsSpan();
    var h := ToHex(id, 32);
    seq(36, i requires 0 <= i < 36 => if IsDashPosition(i) then '-' else h[DigitIndex(i)])
  }

  /** The written text is four dashes between five groups of lower-case hex digits. */
  lemma FormatShape(id: CatalogId)
    ensures var s := Format(id);
      forall i :: 0 <= i < 36 ==> if IsDashPosition(i) then s[i] == '-' else IsLowerHex(s[i])
  {
    HexDigitsSpan();
  }

  /** The 32 digits of a 36-character text, dashes left out. */
  function Digits(s: string): (d: string)
    requires |s| == 36
    ensures |d| == 32
  {
    seq(32, j requires 0 <= j < 32 => s[TextIndex(j)])
  }

  /** Parses the canonical text form (either case). Any other text, including text the C
      library's more lenient parser would take, gives `None`. */
  function Parse(s: string): (r: Option<CatalogId>)
    ensures r.Some? ==> |s| == 36
  {
    if |s| != 36 || s[8] != '-' || s[13] != '-' || s[18] != '-' || s[23] != '-' then None
    else
      HexDigitsSpan();
      match FromHex(Digits(s))
      case None => None
      case Some(v) => Some(v)
  }

  /** Writing an identifier and reading it back gives the same identifier. */
  lemma ParseFormat(id: CatalogId)
    ensures Parse(Format(id)) == Some(id)
  {
    HexDigitsSpan();
    var h := ToHex(id, 32);
    var s := Format(id);
    assert s[8] == '-' && s[13] == '-' && s[18] == '-' && s[23] == '-';
    assert Digits(s) == h by {
      forall j | 0 <= j < 32 ensures Digits(s)[j] == h[j] {
        assert DigitIndex(TextIndex(j)) == j;
      }
    }
    FromHexToHex(id, 32);
  }

  /** Identifiers 1 .. i-1. */
  ghost function Below(i: nat): (r: set<CatalogId>)
    requires i <= UUID_SPACE
    ensures forall j :: j in r <==> 1 <= j < i
  {
    if i <= 1 then {} else Below(i - 1) + {(i - 1) as CatalogId}
  }

  lemma {:induction false} BelowSize(i: nat)
    requires 1 <= i <= UUID_SPACE
    ensures |Below(i)| == i - 1
  {
    if i > 1 {
      BelowSize(i - 1);
    }
  }

  /** Stands in for `BLI_uuid_generate_random`: the catalog code relies only on the result
      being non-nil and not already in use. Picks the smallest such identifier. */
  method GenerateFresh(used: set<CatalogId>) returns (id: CatalogId)
    requires |used| < UUID_SPACE - 1
    ensures id != NIL && id !in used
  {
    var i: nat := 1;
    while i in used
      invariant 1 <= i < UUID_SPACE
      invariant Below(i) <= used
      decreases UUID_SPACE - i
    {
      FreshStep(used, i);
      i := i + 1;
    }
    id := i;
  }

  /** Every identifier from 1 to `i` in use, with room left: the next candidate is below
      the limit too. */
  lemma FreshStep(used: set<CatalogId>, i: nat)
    requires |used| < UUID_SPACE - 1
    requires 1 <= i < UUID_SPACE && Below(i) <= used && i as CatalogId in used
    ensures i + 1 < UUID_SPACE && Below(i + 1) <= used
  {
    BelowSize(i + 1);
    SubsetSize(Below(i + 1), used);
  }

  lemma SubsetSize<T>(a: set<T>, b: set<T>)
    requires a <= b
    ensures |a| <= |b|
  {
    assert b == a + (b - a);
  }
}
