/**
 * The string operations behind the derived `country` column:
 * Python's `str.strip()` without arguments and `s.split(',')[-1]`.
 */
module Text {

  /** Python's `str.isspace()`: exactly the characters `str.strip()` removes by default. */
  predicate IsSpace(c: char) {
    || ('\t' <= c <= '\r')                  // U+0009 .. U+000D
    || ('\U{1C}' <= c <= '\U{1F}')          // file, group, record and unit separators
    || c == ' '
    || c == '\U{85}' || c == '\U{A0}' || c == '\U{1680}'
    || ('\U{2000}' <= c <= '\U{200A}')
    || c == '\U{2028}' || c == '\U{2029}' || c == '\U{202F}' || c == '\U{205F}' || c == '\U{3000}'
  }

  ghost predicate AllSpace(s: string) {
    forall i :: 0 <= i < |s| ==> IsSpace(s[i])
  }

  /** Neither the first nor the last character is whitespace. */
  predicate Unpadded(s: string) {
    s == [] || (!IsSpace(s[0]) && !IsSpace(s[|s| - 1]))
  }

  /** Length of the longest whitespace prefix of `s`. */
  function LeadingSpaces(s: string): (n: nat)
    ensures n <= |s|
    ensures forall i :: 0 <= i < n ==> IsSpace(s[i])
    ensures n == |s| || !IsSpace(s[n])
  {
    if s == [] || !IsSpace(s[0]) then 0 else 1 + LeadingSpaces(s[1..])
  }

  /** Length of the longest whitespace suffix of `s`. */
  function TrailingSpaces(s: string): (n: nat)
    ensures n <= |s|
    ensures forall i :: |s| - n <= i < |s| ==> IsSpace(s[i])
    ensures n == |s| || !IsSpace(s[|s| - n - 1])
  {
    if s == [] || !IsSpace(s[|s| - 1]) then 0 else 1 + TrailingSpaces(s[..|s| - 1])
  }

  /**
   * `s.strip()`: the longest whitespace prefix is removed (`lstrip`), then the longest whitespace
   * suffix of what remains (`rstrip`). The result neither starts nor ends with whitespace.
   */
  function Strip(s: string): (r: string)
    ensures Unpadded(r)
  {
    var t := s[LeadingSpaces(s)..];
    t[..|t| - TrailingSpaces(t)]
  }

  /** What `strip()` returns is a slice of its argument with nothing but whitespace around it. */
  lemma StripIsTrimmedSlice(s: string)
    ensures var r := Strip(s);
            exists i :: 0 <= i <= |s| - |r| && r == s[i..i + |r|] && AllSpace(s[..i]) && AllSpace(s[i + |r|..])
  {
    var a := LeadingSpaces(s);
    var t := s[a..];
    var b := TrailingSpaces(t);
    var r := t[..|t| - b];
    assert r == Strip(s);
    assert s[a..a + |r|] == r;
    assert AllSpace(s[..a]) by {
      assert forall k :: 0 <= k < a ==> s[..a][k] == s[k];
    }
    assert AllSpace(s[a + |r|..]) by {
      var tail := s[a + |r|..];
      assert forall k :: 0 <= k < |tail| ==> tail[k] == t[|r| + k];
    }
  }

  /** Stripping a string that is already unpadded returns it unchanged. */
  lemma StripUnpadded(s: string)
    requires Unpadded(s)
    ensures Strip(s) == s
  {
  }

  /** `strip()` is idempotent. */
  lemma StripIdempotent(s: string)
    ensures Strip(Strip(s)) == Strip(s)
  {
    StripUnpadded(Strip(s));
  }

  /** `s.split(',')[-1]`: the suffix of `s` after its last comma, or all of `s` when it has none. */
  function AfterLastComma(s: string): (r: string)
    ensures |r| <= |s| && forall k :: 0 <= k < |r| ==> r[k] == s[|s| - |r| + k]
    ensures ',' !in r
    ensures |r| < |s| ==> s[|s| - |r| - 1] == ','
  {
    if s == [] then []
    else if s[|s| - 1] == ',' then []
    else AfterLastComma(s[..|s| - 1]) + [s[|s| - 1]]
  }

  /** A string without a comma splits into a single field: itself. */
  lemma AfterLastCommaNoComma(s: string)
    requires ',' !in s
    ensures AfterLastComma(s) == s
  {
  }

  /** The derived country of a location: `location.split(',')[-1].strip()`; it holds no comma and no outer whitespace. */
  function ExtractCountry(location: string): (country: string)
    ensures ',' !in country && Unpadded(country)
  {
    Strip(AfterLastComma(location))
  }

  /** The derived country is the stripped text that follows the last comma of the location (all of it when there is none). */
  lemma ExtractCountryIsLastField(location: string)
    ensures exists i :: 0 <= i <= |location| && ',' !in location[i..]
                        && (i == 0 || location[i - 1] == ',')
                        && ExtractCountry(location) == Strip(location[i..])
  {
    var field := AfterLastComma(location);
    assert location[|location| - |field|..] == field;
  }

  /** Deriving the country from a derived country changes nothing. */
  lemma ExtractCountryIdempotent(location: string)
    ensures ExtractCountry(ExtractCountry(location)) == ExtractCountry(location)
  {
    var country := ExtractCountry(location);
    AfterLastCommaNoComma(country);
    StripUnpadded(country);
  }
}
