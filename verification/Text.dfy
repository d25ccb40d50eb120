/** The `str` and `char` library calls the modelled code makes. */
module Text {
  import opened Wrappers

  function LowerChar(c: char): char {
    if 'A' <= c <= 'Z' then (c as int + 32) as char else c
  }

  /** `to_ascii_lowercase` */
  function Lower(s: string): string { seq(|s|, i requires 0 <= i < |s| => LowerChar(s[i])) }

  /** `eq_ignore_ascii_case` */
  predicate SameIgnoringCase(a: string, b: string) { Lower(a) == Lower(b) }

  lemma LowerIdempotent(s: string)
    ensures Lower(Lower(s)) == Lower(s)
  {
  }

  // ----- Letter case, by code point: an ASCII capital and its small letter are 32 apart -----

  predicate SmallOf(small: char, capital: char) {
    65 <= capital as int <= 90 && small as int == capital as int + 32
  }

  predicate SameLetter(c: char, d: char) { c == d || SmallOf(c, d) || SmallOf(d, c) }

  ghost predicate CaseVariants(a: string, b: string) {
    |a| == |b| && forall i | 0 <= i < |a| :: SameLetter(a[i], b[i])
  }

  ghost predicate NoCapitals(s: string) { forall i | 0 <= i < |s| :: !(65 <= s[i] as int <= 90) }

  /** Strings agree regardless of case exactly when they are of one length and differ at most in the case of letters. */
  lemma SameIsVariant(a: string, b: string)
    ensures SameIgnoringCase(a, b) <==> CaseVariants(a, b)
  {
    if SameIgnoringCase(a, b) {
      forall i | 0 <= i < |a| ensures SameLetter(a[i], b[i]) {
        assert Lower(a)[i] == Lower(b)[i];
      }
    }
  }

  /** The lowered form is the variant without capitals, and there is only one. */
  lemma LowerIsTheSmallVariant(s: string, t: string)
    ensures t == Lower(s) <==> CaseVariants(s, t) && NoCapitals(t)
  {
    if CaseVariants(s, t) && NoCapitals(t) {
      forall i | 0 <= i < |s| ensures t[i] == Lower(s)[i] {
        assert SameLetter(s[i], t[i]);
      }
    }
  }

  /** The code points of white space, listed, and those of control characters. */
  lemma ClassesByCodePoint(c: char)
    ensures IsWhitespace(c)
       <==> c as int in {9, 10, 11, 12, 13, 32, 133, 160, 5760, 8192, 8193, 8194, 8195, 8196, 8197, 8198, 8199, 8200,
                         8201, 8202, 8232, 8233, 8239, 8287, 12288}
    ensures IsControl(c) <==> 0 <= c as int <= 31 || 127 <= c as int <= 159
    ensures IsDigit(c) <==> 48 <= c as int <= 57
    ensures IsHexDigit(c) <==> 48 <= c as int <= 57 || 65 <= c as int <= 70 || 97 <= c as int <= 102
  {
  }

  predicate IsDigit(c: char) { '0' <= c <= '9' }

  predicate IsHexDigit(c: char) { IsDigit(c) || 'a' <= c <= 'f' || 'A' <= c <= 'F' }

  /** `char::is_whitespace`: the Unicode White_Space property. */
  predicate IsWhitespace(c: char) {
    var u := c as int;
    0x09 <= u <= 0x0D || u == 0x20 || u == 0x85 || u == 0xA0 || u == 0x1680 || 0x2000 <= u <= 0x200A
    || u == 0x2028 || u == 0x2029 || u == 0x202F || u == 0x205F || u == 0x3000
  }

  /** `char::is_control`: general category Cc. */
  predicate IsControl(c: char) { c as int < 0x20 || 0x7F <= c as int < 0xA0 }

  /** `split_once` at the first occurrence of c. */
  function SplitOnce(s: string, c: char): (r: Option<(string, string)>)
    ensures r.None? <==> c !in s
    ensures r.Some? ==> s == r.value.0 + [c] + r.value.1 && c !in r.value.0
  {
    if s == "" then None
    else if s[0] == c then Some(("", s[1..]))
    else
      match SplitOnce(s[1..], c)
      case None => None
      case Some((before, after)) =>
        assert s == [s[0]] + s[1..];
        Some(([s[0]] + before, after))
  }

  /** `rsplit_once` at the last occurrence of c. */
  function RSplitOnce(s: string, c: char): (r: Option<(string, string)>)
    ensures r.None? <==> c !in s
    ensures r.Some? ==> s == r.value.0 + [c] + r.value.1 && c !in r.value.1
  {
    if s == "" then None
    else
      var n := |s| - 1;
      assert s == s[..n] + [s[n]];
      if s[n] == c then Some((s[..n], ""))
      else
        match RSplitOnce(s[..n], c)
        case None => None
        case Some((before, after)) => Some((before, after + [s[n]]))
  }

  /** Where the only possible split of a separated string lies. */
  lemma SplitUnique(a: string, b: string, x: string, y: string, c: char)
    requires a + [c] + b == x + [c] + y
    requires c !in a || c !in y
    requires c !in x || c !in b
    ensures a == x && b == y
  {
    var s := a + [c] + b;
    assert s[|a|] == c && s[|x|] == c;
    assert a == s[..|a|] && x == s[..|x|];
    assert b == s[|a| + 1..] && y == s[|x| + 1..];
  }

  function Digit(c: char): (d: nat)
    requires IsDigit(c)
    ensures d < 10
  {
    c as int - '0' as int
  }

  predicate AllDigits(s: string) { forall c | c in s :: IsDigit(c) }

  /** The number a decimal digit string denotes, of any length. */
  function Numeral(s: string): nat
    requires AllDigits(s)
  {
    if s == "" then 0 else 10 * Numeral(s[..|s| - 1]) + Digit(s[|s| - 1])
  }

  /** The machine-integer digit loop: `acc` so far, with checked multiply and add. */
  function ParseDigits(acc: nat, s: string, bound: nat): (r: Option<nat>)
    decreases |s|
  {
    if s == "" then Some(acc)
    else if !IsDigit(s[0]) then None
    else if acc * 10 >= bound then None
    else if acc * 10 + Digit(s[0]) >= bound then None
    else ParseDigits(acc * 10 + Digit(s[0]), s[1..], bound)
  }

  /** `str::parse::<u32>` */
  function ParseU32(s: string): Option<nat> {
    if s == "" then None else ParseDigits(0, s, 0x1_0000_0000)
  }

  lemma NumeralExtend(s: string, c: char)
    requires AllDigits(s) && IsDigit(c)
    ensures AllDigits(s + [c]) && Numeral(s + [c]) == 10 * Numeral(s) + Digit(c)
  {
    assert (s + [c])[..|s|] == s;
  }

  lemma {:induction false} NumeralGrows(s: string, t: string)
    requires AllDigits(s) && AllDigits(t)
    ensures AllDigits(s + t) && Numeral(s) <= Numeral(s + t)
    decreases |t|
  {
    if t == "" {
      assert s + t == s;
    } else {
      NumeralExtend(s, t[0]);
      assert s + t == (s + [t[0]]) + t[1..];
      NumeralGrows(s + [t[0]], t[1..]);
    }
  }

  /** The loop that fails on overflow agrees with the unbounded numeral. */
  lemma {:induction false} ParseDigitsExact(read: string, rest: string, bound: nat)
    requires AllDigits(read) && AllDigits(rest) && Numeral(read) < bound
    ensures AllDigits(read + rest)
    ensures ParseDigits(Numeral(read), rest, bound)
         == if Numeral(read + rest) < bound then Some(Numeral(read + rest)) else None
    decreases |rest|
  {
    NumeralGrows(read, rest);
    if rest == "" {
      assert read + rest == read;
    } else {
      NumeralExtend(read, rest[0]);
      assert read + rest == (read + [rest[0]]) + rest[1..];
      NumeralGrows(read + [rest[0]], rest[1..]);
      if Numeral(read + [rest[0]]) < bound {
        ParseDigitsExact(read + [rest[0]], rest[1..], bound);
      }
    }
  }

  /** `{n}` */
  function Decimal(n: nat): (s: string)
    ensures s != "" && AllDigits(s) && Numeral(s) == n
    ensures n == 0 <==> s[0] == '0'
    ensures n == 0 ==> s == "0"
  {
    var last := ('0' as int + n % 10) as char;
    if n < 10 then
      assert [last][..0] == "";
      [last]
    else
      NumeralExtend(Decimal(n / 10), last);
      Decimal(n / 10) + [last]
  }
}
