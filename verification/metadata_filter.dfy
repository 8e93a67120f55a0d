/**
 * The key filter of copy_metadata (both variants): metadata.json maps
 * typhoon ids, written as strings, to arbitrary values; only the entries
 * whose key is str(tid) for a selected tid survive, unchanged.
 *
 * str on an int is Python's decimal form: an optional '-', then digits with
 * no leading zero. ParseInt accepts exactly those strings, so the two are
 * inverse to each other and str is injective.
 */
module MetadataFilter {
  import opened Common

  /** The character of a decimal digit. */
  function DigitChar(d: nat): (c: char)
    requires d < 10
    ensures '0' <= c <= '9'
  {
    "0123456789"[d]
  }

  /** The value of a decimal digit character. */
  function DigitValue(c: char): (d: nat)
    requires IsDigit(c)
    ensures d < 10 && DigitChar(d) == c
  {
    c as int - '0' as int
  }

  predicate IsDigit(c: char) { '0' <= c <= '9' }

  /** Digits only, at least one, and no leading zero unless the number is 0. */
  predicate CanonicalDigits(s: string) {
    && |s| > 0
    && (forall i :: 0 <= i < |s| ==> IsDigit(s[i]))
    && (|s| > 1 ==> s[0] != '0')
  }

  /** str(n) for n >= 0. */
  function NatToString(n: nat): (s: string)
    ensures CanonicalDigits(s)
  {
    if n < 10 then [DigitChar(n)]
    else
      var prefix := NatToString(n / 10);
      prefix + [DigitChar(n % 10)]
  }

  /** int(s) on a string of digits. */
  function DigitsValue(s: string): (n: nat)
    requires forall i :: 0 <= i < |s| ==> IsDigit(s[i])
  {
    if |s| == 0 then 0
    else DigitsValue(s[..|s| - 1]) * 10 + DigitValue(s[|s| - 1])
  }

  /** str(tid): Python's decimal form of an int. */
  function IntToString(i: int): (s: string)
    ensures |s| > 0
    ensures i < 0 <==> s[0] == '-'
  {
    if i < 0 then "-" + NatToString(-i) else NatToString(i)
  }

  /** The int whose str is s, if there is one. */
  function ParseInt(s: string): (r: Option<int>)
    ensures r.Some? ==> |s| > 0
  {
    if |s| > 0 && s[0] == '-' then
      if CanonicalDigits(s[1..]) && s[1..] != "0" then
        var magnitude: int := DigitsValue(s[1..]);
        Some(-magnitude)
      else None
    else if CanonicalDigits(s) then Some(DigitsValue(s))
    else None
  }

  /** Reading back the digits of str(n) gives n. */
  lemma {:induction false} DigitsOfNat(n: nat)
    ensures DigitsValue(NatToString(n)) == n
  {
    var s := NatToString(n);
    if n >= 10 {
      DigitsOfNat(n / 10);
      assert s[..|s| - 1] == NatToString(n / 10);
    }
  }

  /** Writing out the value of canonical digits gives back the digits. */
  lemma {:induction false} NatOfDigits(s: string)
    requires CanonicalDigits(s)
    ensures NatToString(DigitsValue(s)) == s
    decreases |s|
  {
    if |s| > 1 {
      var prefix := s[..|s| - 1];
      assert CanonicalDigits(prefix) by {
        assert prefix[0] == s[0];
      }
      NatOfDigits(prefix);
      PositivePrefix(prefix);
      var n := DigitsValue(s);
      var d := DigitValue(s[|s| - 1]);
      assert n == DigitsValue(prefix) * 10 + d;
      assert n / 10 == DigitsValue(prefix) && n % 10 == d;
      assert s == prefix + [s[|s| - 1]];
    }
  }

  /** Canonical digits other than "0" denote a positive number. */
  lemma PositivePrefix(s: string)
    requires CanonicalDigits(s) && |s| >= 1 && s[0] != '0'
    ensures DigitsValue(s) > 0
  {
    LeadingDigit(s);
  }

  lemma {:induction false} LeadingDigit(s: string)
    requires |s| > 0 && (forall i :: 0 <= i < |s| ==> IsDigit(s[i])) && s[0] != '0'
    ensures DigitsValue(s) > 0
    decreases |s|
  {
    if |s| > 1 {
      LeadingDigit(s[..|s| - 1]);
    } else {
      assert DigitValue(s[0]) != 0 by {
        assert DigitChar(DigitValue(s[0])) == s[0];
      }
    }
  }

  /** ParseInt undoes str: every int is read back from its decimal form. */
  lemma ParseIntToString(i: int)
    ensures ParseInt(IntToString(i)) == Some(i)
  {
    if i < 0 {
      NegativeRoundTrip(i);
    } else {
      DigitsOfNat(i);
    }
  }

  lemma NegativeRoundTrip(i: int)
    requires i < 0
    ensures ParseInt(IntToString(i)) == Some(i)
  {
    var s := IntToString(i);
    var t := NatToString(-i);
    assert s[1..] == t;
    DigitsOfNat(-i);
    ZeroDigits();
    assert DigitsValue(t) != DigitsValue("0");
  }

  lemma ZeroDigits()
    ensures DigitsValue("0") == 0
  {
    assert "0"[..0] == "";
  }

  /** str undoes ParseInt: a string that parses is the decimal form of its value. */
  lemma ToStringParseInt(s: string)
    requires ParseInt(s).Some?
    ensures IntToString(ParseInt(s).value) == s
  {
    if s[0] == '-' {
      var t := s[1..];
      NatOfDigits(t);
      PositivePrefix(t);
      assert s == "-" + t;
    } else {
      NatOfDigits(s);
    }
  }

  /** Distinct ids have distinct keys. */
  lemma IntToStringInjective(a: int, b: int)
    requires IntToString(a) == IntToString(b)
    ensures a == b
  {
    ParseIntToString(a);
    ParseIntToString(b);
  }

  /** The set of keys the selection stands for: the decimal form of each selected id. */
  function IdKeys(ids: seq<int>): (keys: set<string>)
    ensures forall i :: i in ids ==> IntToString(i) in keys
  {
    set i | i in ids :: IntToString(i)
  }

  /** A key is the decimal form of some selected id iff it parses to a selected id. */
  lemma KeyOfSelected(ids: seq<int>, k: string)
    ensures k in IdKeys(ids) <==> ParseInt(k).Some? && ParseInt(k).value in ids
  {
    if k in IdKeys(ids) {
      var i :| i in ids && IntToString(i) == k;
      ParseIntToString(i);
    }
    if ParseInt(k).Some? && ParseInt(k).value in ids {
      ToStringParseInt(k);
    }
  }

  /**
   * The metadata filter: the entries whose key is the decimal form of a
   * selected id, with their values untouched. A key survives iff it parses
   * as a canonical int that was selected, so keys such as " 7", "007", "+7"
   * or "-0" never do.
   */
  function FilterMetadata<V>(meta: map<string, V>, ids: seq<int>): (r: map<string, V>)
    ensures forall k :: k in r <==> k in meta && ParseInt(k).Some? && ParseInt(k).value in ids
    ensures forall k :: k in r ==> r[k] == meta[k]
  {
    var keys := IdKeys(ids);
    forall k ensures k in keys <==> ParseInt(k).Some? && ParseInt(k).value in ids {
      KeyOfSelected(ids, k);
    }
    map k | k in meta && k in keys :: meta[k]
  }
}
