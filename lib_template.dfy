/** The version-token scan every seeker inherits (`Seeker.extractVersion`).
    Its source is not part of this model: the contract below is ASSUMED, not
    derived from code. It takes the longest run of legal characters that
    starts at the given index, and is empty when there is none or when the
    index lies past the end of the text. */
module LibTemplate {

  /** `string.digits`. */
  const DIGITS: string := "0123456789"
  /** `string.ascii_lowercase`. */
  const ASCII_LOWERCASE: string := "abcdefghijklmnopqrstuvwxyz"

  /** The characters a version token may contain: digits, lower-case ASCII and `.`. */
  predicate IsVersionChar(c: char)
  {
    '0' <= c <= '9' || 'a' <= c <= 'z' || c == '.'
  }

  /** The end of the run of `legal` characters that starts at `i`. */
  function RunEnd(s: string, i: nat, legal: string): (e: nat)
    requires i <= |s|
    ensures i <= e <= |s|
    ensures forall k :: i <= k < e ==> s[k] in legal
    ensures e == |s| || s[e] !in legal
    decreases |s| - i
  {
    if i < |s| && s[i] in legal then RunEnd(s, i + 1, legal) else i
  }

  /** `extractVersion(s, start_index=start, legal_chars=legal)` (assumed contract). */
  function ExtractVersion(s: string, start: nat, legal: string): (r: string)
    ensures |s| <= start ==> r == []
    ensures start <= |s| ==> start + |r| <= |s| && r == s[start..start + |r|]
    ensures forall c :: c in r ==> c in legal
    ensures start + |r| < |s| ==> s[start + |r|] !in legal
  {
    if start <= |s| then s[start..RunEnd(s, start, legal)] else []
  }

  lemma DigitsAreDigits(c: char)
    ensures c in DIGITS <==> '0' <= c <= '9'
  {
    if '0' <= c <= '9' {
      assert DIGITS[c as int - '0' as int] == c;
    } else {
      forall i | 0 <= i < |DIGITS| ensures DIGITS[i] != c {}
    }
  }

  lemma LowercaseAreLetters(c: char)
    ensures c in ASCII_LOWERCASE <==> 'a' <= c <= 'z'
  {
    if 'a' <= c <= 'z' {
      assert ASCII_LOWERCASE[c as int - 'a' as int] == c;
    } else {
      forall i | 0 <= i < |ASCII_LOWERCASE| ensures ASCII_LOWERCASE[i] != c {}
    }
  }

  /** The legal characters passed by the OpenSSL seeker spell exactly the
      version-character class. */
  lemma VersionCharsAreLegal(c: char)
    ensures c in DIGITS + ASCII_LOWERCASE + "." <==> IsVersionChar(c)
  {
    DigitsAreDigits(c);
    LowercaseAreLetters(c);
    assert c in DIGITS + ASCII_LOWERCASE + "." <==> c in DIGITS || c in ASCII_LOWERCASE || c == '.';
  }

  /** The scan stops at the first character outside the class: `"1.2.3g-dev"` gives `"1.2.3g"`. */
  lemma ExtractStopsAtIllegal()
    ensures ExtractVersion("1.2.3g-dev", 0, DIGITS + ASCII_LOWERCASE + ".") == "1.2.3g"
  {
    var s, legal := "1.2.3g-dev", DIGITS + ASCII_LOWERCASE + ".";
    forall k | 0 <= k < 6 ensures s[k] in legal {
      VersionCharsAreLegal(s[k]);
    }
    VersionCharsAreLegal('-');
  }
}
