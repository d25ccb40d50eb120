/** The `{}` placeholder of an inject-header template. */
module Template {
  ghost predicate PlaceholderAt(s: string, i: int) {
    0 <= i && i + 1 < |s| && s[i] == '{' && s[i + 1] == '}'
  }

  ghost predicate OnlyPlaceholderAt(s: string, i: int) {
    PlaceholderAt(s, i) && forall j | PlaceholderAt(s, j) :: j == i
  }

  /** `template.matches("{}").count()` */
  function CountPlaceholders(s: string): nat {
    if s == "" then 0
    else if "{}" <= s then 1 + CountPlaceholders(s[2..])
    else CountPlaceholders(s[1..])
  }

  /** `template.replacen("{}", value, 1)` */
  function ReplaceFirst(s: string, value: string): string {
    if s == "" then ""
    else if "{}" <= s then value + s[2..]
    else [s[0]] + ReplaceFirst(s[1..], value)
  }

  lemma Shift(s: string, k: nat, i: int)
    requires k <= |s| && i >= k
    ensures PlaceholderAt(s, i) <==> PlaceholderAt(s[k..], i - k)
  {
  }

  lemma {:induction false} NoPlaceholder(s: string)
    ensures CountPlaceholders(s) == 0 <==> forall i :: !PlaceholderAt(s, i)
  {
    if s != "" {
      if "{}" <= s {
        assert PlaceholderAt(s, 0);
      } else {
        NoPlaceholder(s[1..]);
        assert !PlaceholderAt(s, 0);
        forall i | i >= 1 ensures PlaceholderAt(s, i) <==> PlaceholderAt(s[1..], i - 1) { Shift(s, 1, i); }
        if i :| PlaceholderAt(s[1..], i) {
          assert PlaceholderAt(s, i + 1);
        }
      }
    }
  }

  /** A template counts one placeholder exactly when it has a single placeholder position. */
  lemma {:induction false} CountsOne(s: string)
    ensures CountPlaceholders(s) == 1 <==> exists i :: OnlyPlaceholderAt(s, i)
  {
    if s != "" {
      if "{}" <= s {
        assert PlaceholderAt(s, 0) && !PlaceholderAt(s, 1);
        NoPlaceholder(s[2..]);
        forall i | i >= 2 ensures PlaceholderAt(s, i) <==> PlaceholderAt(s[2..], i - 2) { Shift(s, 2, i); }
        if CountPlaceholders(s) == 1 {
          assert OnlyPlaceholderAt(s, 0);
        } else {
          var j :| PlaceholderAt(s[2..], j);
          assert PlaceholderAt(s, j + 2);
        }
      } else {
        CountsOne(s[1..]);
        assert !PlaceholderAt(s, 0);
        forall i | i >= 1 ensures PlaceholderAt(s, i) <==> PlaceholderAt(s[1..], i - 1) { Shift(s, 1, i); }
        if i :| OnlyPlaceholderAt(s[1..], i) {
          assert OnlyPlaceholderAt(s, i + 1);
        }
        if i :| OnlyPlaceholderAt(s, i) {
          assert OnlyPlaceholderAt(s[1..], i - 1) by {
            forall j | PlaceholderAt(s[1..], j) ensures j == i - 1 { assert PlaceholderAt(s, j + 1); }
          }
        }
      }
    }
  }

  /** The substituted value sits between the template's own halves, and nothing inside the
      value is substituted again even when it contains a placeholder itself. */
  lemma {:induction false} ReplaceAtPlaceholder(s: string, i: int, value: string)
    requires OnlyPlaceholderAt(s, i)
    ensures ReplaceFirst(s, value) == s[..i] + value + s[i + 2..]
  {
    if "{}" <= s {
      assert PlaceholderAt(s, 0);
      assert s[..0] + value + s[2..] == value + s[2..];
    } else {
      assert i >= 1;
      Shift(s, 1, i);
      forall j | PlaceholderAt(s[1..], j) ensures j == i - 1 { assert PlaceholderAt(s, j + 1); }
      ReplaceAtPlaceholder(s[1..], i - 1, value);
      assert s[..i] == [s[0]] + s[1..][..i - 1];
    }
  }
}
