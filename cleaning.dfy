/**
 * Cleaning of the Hours Viewed column: the thousands separators are removed
 * from the text before it is converted to a number.
 */
module Cleaning {

  /** The text with every ',' removed (a regex replace of ',' by ''). */
  function StripSeparators(s: string): (r: string)
    ensures ',' !in r
    ensures |r| <= |s|
  {
    if s == [] then []
    else (if s[0] == ',' then [] else [s[0]]) + StripSeparators(s[1..])
  }

  /** Every character other than ',' is kept, as often as it occurs. */
  lemma {:induction false} StripKeepsOtherCharacters(s: string)
    ensures multiset(StripSeparators(s)) == multiset(s)[',' := 0]
  {
    if s != [] {
      assert s == [s[0]] + s[1..];
      StripKeepsOtherCharacters(s[1..]);
    }
  }

  /** Stripping works piece by piece: the kept characters of a + b are those of
      a followed by those of b, so the original order is preserved. */
  lemma {:induction false} StripConcat(a: string, b: string)
    ensures StripSeparators(a + b) == StripSeparators(a) + StripSeparators(b)
  {
    if a == [] {
      assert a + b == b;
    } else {
      var head := if a[0] == ',' then [] else [a[0]];
      assert (a + b)[0] == a[0] && (a + b)[1..] == a[1..] + b;
      assert StripSeparators(a + b) == head + StripSeparators(a[1..] + b);
      StripConcat(a[1..], b);
      assert StripSeparators(a) == head + StripSeparators(a[1..]);
    }
  }

  /** Text without separators is left as it is. */
  lemma {:induction false} StripWithoutSeparators(s: string)
    requires ',' !in s
    ensures StripSeparators(s) == s
  {
    if s != [] {
      StripWithoutSeparators(s[1..]);
    }
  }

  /** Cleaning an already-clean value changes nothing. */
  lemma StripIdempotent(s: string)
    ensures StripSeparators(StripSeparators(s)) == StripSeparators(s)
  {
    StripWithoutSeparators(StripSeparators(s));
  }

  /** A number written with one thousands separator, such as "1,000.5" with
      a = "1" and b = "000.5", cleans to its digit groups run together. */
  lemma SeparatorBetweenDigitGroups(a: string, b: string)
    requires ',' !in a && ',' !in b
    ensures StripSeparators(a + ([','] + b)) == a + b
  {
    assert StripSeparators([','] + b) == StripSeparators(b) by {
      assert ([','] + b)[1..] == b;
    }
    StripConcat(a, [','] + b);
    StripWithoutSeparators(a);
    StripWithoutSeparators(b);
  }
}
