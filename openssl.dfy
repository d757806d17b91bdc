/** The OpenSSL seeker: finds OpenSSL's fingerprints in the strings of a
    binary and turns them into version tokens.

    Two rules run over the corpus in one pass and share one seen-set, one
    evidence list and one counter:
    - the banner rule keeps the suffix of a string from its first
      `" part of OpenSSL "`, provided one keyword id also occurs in it;
    - the cellar rule keeps the path segment that follows `/Cellar/openssl`.

    `Step` and `Scan` state what one pass does; the `OpenSSLSeeker` class
    runs it with the fields and locals of the original. */
module OpenSSL {
  import opened Strings
  import opened LibTemplate
  import opened Wrappers

  /** The library name. */
  const NAME: string := "OpenSSL"
  /** The marker of a copyright banner. */
  const VERSION_STRING: string := " part of OpenSSL "
  /** The marker of a package-manager install path. */
  const CELLAR_STRING: string := "/Cellar/openssl"
  /** Keywords one of which must back a banner. */
  const IDS: seq<string> := ["SHA1", "SHA-256", "SHA-512", "SSLv3", "TLSv1", "ASN.1", "EVP", "RAND", "RSA", "Big Number"]
  /** The `legal_chars` passed to the version scan. */
  const VERSION_CHARS: string := DIGITS + ASCII_LOWERCASE + "."

  /** What the constants are: the banner marker is the library name with a
      leading `" part of "` and a trailing space, the cellar marker is an
      absolute path component, the ten keywords are distinct, and the
      version alphabet holds the ten digits, 26 letters and the dot. */
  lemma ConstantsShape()
    ensures VERSION_STRING == " part of " + NAME + " "
    ensures |CELLAR_STRING| == 15 && CELLAR_STRING[0] == '/' && CELLAR_STRING[1..8] == "Cellar/"
    ensures |IDS| == 10 && forall i, j :: 0 <= i < j < |IDS| ==> IDS[i] != IDS[j]
    ensures |VERSION_CHARS| == 37 && '.' in VERSION_CHARS && '/' !in VERSION_CHARS
  {
  }

  /** `[x for x in ids if x in s]`: the ids that occur in `s`, in list order. */
  function MatchingIds(s: string, ids: seq<string>): (r: seq<string>)
    ensures |r| <= |ids|
    ensures forall x :: x in r ==> x in ids && Contains(s, x)
    ensures forall x :: x in ids && Contains(s, x) ==> x in r
  {
    if ids == [] then []
    else (if Contains(s, ids[0]) then [ids[0]] else []) + MatchingIds(s, ids[1..])
  }

  /** The banner rule accepts `s`. */
  predicate IsBanner(s: string)
  {
    Contains(s, VERSION_STRING) && |MatchingIds(s, IDS)| != 0
  }

  /** The banner entry: `s` from the first occurrence of the marker on. */
  function Chop(s: string): string
    requires Contains(s, VERSION_STRING)
  {
    s[Find(s, VERSION_STRING)..]
  }

  /** The cellar rule's length gate passes: the marker occurs and the WHOLE
      string has at least `len(CELLAR_STRING) + 4` characters. */
  predicate CellarGate(s: string)
  {
    Contains(s, CELLAR_STRING) && |s| >= |CELLAR_STRING| + 4
  }

  /** The cellar entry: the text after the first `/` at or after the end of
      the marker, up to the next `/` or the end; `None` when no `/` follows
      the marker. */
  function CellarVersion(s: string): Option<string>
    requires Contains(s, CELLAR_STRING)
  {
    var leftSlash := FindFrom(s, "/", MarkerEnd(s));
    if leftSlash > 0 then Some(SegmentAfter(s, leftSlash)) else None
  }

  /** Where the search for the cellar rule's first `/` starts: the end of
      the first occurrence of the marker. */
  function MarkerEnd(s: string): nat
    requires Contains(s, CELLAR_STRING)
  {
    Find(s, CELLAR_STRING) + |CELLAR_STRING|
  }

  /** The text after the `/` at `leftSlash` up to the next `/` or the end. */
  function SegmentAfter(s: string, leftSlash: nat): string
    requires leftSlash < |s|
  {
    var rightSlash := FindFrom(s, "/", leftSlash + 1);
    if rightSlash > 0 then s[leftSlash + 1..rightSlash] else s[leftSlash + 1..]
  }

  /** The state of one pass: `_version_strings`, `seen_copyrights` and `match_counter`. */
  datatype ScanState = ScanState(entries: seq<string>, seen: set<string>, counter: nat)

  /** The state before the first string. */
  const INIT: ScanState := ScanState([], {}, 0)

  /** Record a valid match. */
  function Accept(st: ScanState, x: string): ScanState
  {
    ScanState(st.entries + [x], st.seen + {x}, st.counter + 1)
  }

  /** The cellar rule applied to `s`. */
  function CellarStep(st: ScanState, s: string): ScanState
  {
    if !CellarGate(s) then st
    else match CellarVersion(s)
      case None => st
      case Some(v) => if st.counter >= 1 && v in st.seen then st else Accept(st, v)
  }

  /** The banner rule applied to `s`, when it does not end the iteration. */
  function BannerStep(st: ScanState, s: string): ScanState
  {
    if IsBanner(s) then Accept(st, Chop(s)) else st
  }

  /** The banner rule ends the iteration: `s` is a banner already seen. */
  predicate DuplicateBanner(st: ScanState, s: string)
  {
    IsBanner(s) && st.counter >= 1 && Chop(s) in st.seen
  }

  /** One iteration of the loop: the banner rule, then the cellar rule. A
      duplicate banner leaves the iteration early, so the cellar rule is
      skipped for that string. */
  function Step(st: ScanState, s: string): ScanState
  {
    if DuplicateBanner(st, s) then st else CellarStep(BannerStep(st, s), s)
  }

  /** The state after the loop has run over all of `corpus`. */
  function Scan(corpus: seq<string>): ScanState
  {
    if corpus == [] then INIT
    else Step(Scan(corpus[..|corpus| - 1]), corpus[|corpus| - 1])
  }

  /** The scan of a corpus prefix one string longer takes one more step. */
  lemma ScanSnoc(corpus: seq<string>, i: nat)
    requires i < |corpus|
    ensures Scan(corpus[..i + 1]) == Step(Scan(corpus[..i]), corpus[i])
  {
    assert corpus[..i + 1][..i] == corpus[..i];
  }

  /** The scan of `identifyVersions` starts after `"OpenSSL"` and one more
      character when the entry holds the name, and at 0 otherwise. */
  function StartIndex(entry: string): nat
  {
    var n := Find(entry, NAME);
    if n >= 0 then n + |NAME| + 1 else 0
  }

  /** The version token of one entry (possibly empty). */
  function Token(entry: string): string
  {
    ExtractVersion(entry, StartIndex(entry), VERSION_CHARS)
  }

  lemma ExtractedAreVersionChars(s: string, start: nat)
    ensures forall c :: c in ExtractVersion(s, start, VERSION_CHARS) ==> IsVersionChar(c)
  {
    forall c | c in ExtractVersion(s, start, VERSION_CHARS) ensures IsVersionChar(c) {
      VersionCharsAreLegal(c);
    }
  }

  /** What `identifyVersions` returns for `entries`: the non-empty tokens, in
      entry order. */
  function Versions(entries: seq<string>): seq<string>
  {
    if entries == [] then []
    else
      var t := Token(entries[|entries| - 1]);
      Versions(entries[..|entries| - 1]) + (if t != [] then [t] else [])
  }

  /** A prefix of the entries one longer adds the next entry's token, if any. */
  lemma VersionsSnoc(entries: seq<string>, i: nat)
    requires i < |entries|
    ensures Versions(entries[..i + 1])
            == Versions(entries[..i]) + (if Token(entries[i]) != [] then [Token(entries[i])] else [])
  {
    assert entries[..i + 1][..i] == entries[..i];
  }

  /** Properties of versions that `identifyVersions` promises its callers:
      at most one token per entry, each non-empty and made of version characters. */
  lemma {:induction false} VersionsWellFormed(entries: seq<string>)
    ensures |Versions(entries)| <= |entries|
    ensures forall t :: t in Versions(entries) ==> t != [] && forall c :: c in t ==> IsVersionChar(c)
  {
    if entries != [] {
      VersionsWellFormed(entries[..|entries| - 1]);
      var last := entries[|entries| - 1];
      ExtractedAreVersionChars(last, StartIndex(last));
    }
  }

  /** `OpenSSLSeeker`: the corpus it was built with and the evidence list the
      search fills. */
  class OpenSSLSeeker {
    /** `_all_strings`: the strings of the binary, in address order. */
    const allStrings: seq<string>
    /** `_version_strings`: the evidence list. */
    var versionStrings: seq<string>

    constructor (strings: seq<string>)
      ensures allStrings == strings && versionStrings == []
    {
      allStrings := strings;
      versionStrings := [];
    }

    /** `searchLib`: resets the evidence list, fills it with one pass over
        the corpus and returns its length. */
    method SearchLib() returns (count: nat)
      modifies this
      ensures versionStrings == Scan(allStrings).entries
      ensures count == |versionStrings|
    {
      versionStrings := [];
      var seen: set<string> := {};
      var matchCounter: nat := 0;
      for i := 0 to |allStrings|
        invariant ScanState(versionStrings, seen, matchCounter) == Scan(allStrings[..i])
      {
        ScanSnoc(allStrings, i);
        seen, matchCounter := SearchString(allStrings[i], seen, matchCounter);
      }
      assert allStrings[..|allStrings|] == allStrings;
      count := |versionStrings|;
    }

    /** One iteration of the loop of `searchLib` over the string `s`, with the
        loop's `seen_copyrights` and `match_counter` passed in and out; each
        `continue` of the loop is a `return` here. */
    method SearchString(s: string, seen: set<string>, matchCounter: nat)
      returns (seen': set<string>, matchCounter': nat)
      modifies this
      ensures ScanState(versionStrings, seen', matchCounter')
              == Step(ScanState(old(versionStrings), seen, matchCounter), s)
    {
      var skip;
      seen', matchCounter', skip := BannerRule(s, seen, matchCounter);
      if skip {
        return;
      }
      seen', matchCounter' := CellarRule(s, seen', matchCounter');
    }

    /** The banner rule of the loop body; `skip` is its `continue`. */
    method BannerRule(s: string, seen: set<string>, matchCounter: nat)
      returns (seen': set<string>, matchCounter': nat, skip: bool)
      modifies this
      ensures skip <==> DuplicateBanner(ScanState(old(versionStrings), seen, matchCounter), s)
      ensures skip ==> versionStrings == old(versionStrings) && seen' == seen && matchCounter' == matchCounter
      ensures !skip ==> ScanState(versionStrings, seen', matchCounter')
                        == BannerStep(ScanState(old(versionStrings), seen, matchCounter), s)
    {
      seen', matchCounter', skip := seen, matchCounter, false;
      if Contains(s, VERSION_STRING) {
        if |MatchingIds(s, IDS)| != 0 {
          var chopped := s[Find(s, VERSION_STRING)..];
          assert IsBanner(s) && chopped == Chop(s);
          if matchCounter' >= 1 && chopped in seen' {
            skip := true;
            return;
          }
          matchCounter' := matchCounter' + 1;
          seen' := seen' + {chopped};
          versionStrings := versionStrings + [chopped];
        }
      }
    }

    /** The cellar rule of the loop body. */
    method CellarRule(s: string, seen: set<string>, matchCounter: nat)
      returns (seen': set<string>, matchCounter': nat)
      modifies this
      ensures ScanState(versionStrings, seen', matchCounter')
              == CellarStep(ScanState(old(versionStrings), seen, matchCounter), s)
    {
      seen', matchCounter' := seen, matchCounter;
      if Contains(s, CELLAR_STRING) {
        if |s| < |CELLAR_STRING| + 4 {
          return;
        }
        var n := Find(s, CELLAR_STRING);
        var leftSlash := FindFrom(s, "/", n + |CELLAR_STRING|);
        if leftSlash > 0 {
          var rightSlash := FindFrom(s, "/", leftSlash + 1);
          var verString;
          if rightSlash > 0 {
            verString := s[leftSlash + 1..rightSlash];
          } else {
            verString := s[leftSlash + 1..];
          }
          assert CellarVersion(s) == Some(verString) by {
            assert verString == SegmentAfter(s, leftSlash);
          }
          if matchCounter' >= 1 && verString in seen' {
            return;
          }
          matchCounter' := matchCounter' + 1;
          seen' := seen' + {verString};
          versionStrings := versionStrings + [verString];
        }
      }
    }

    /** `identifyVersions`: one token per entry that yields a non-empty one,
        in entry order; the evidence list is only read. */
    method IdentifyVersions() returns (results: seq<string>)
      ensures results == Versions(versionStrings)
      ensures |results| <= |versionStrings|
      ensures forall t :: t in results ==> t != [] && forall c :: c in t ==> IsVersionChar(c)
    {
      results := [];
      for i := 0 to |versionStrings|
        invariant results == Versions(versionStrings[..i])
      {
        var workStr := versionStrings[i];
        VersionsSnoc(versionStrings, i);
        if Find(workStr, NAME) >= 0 {
          ghost var start := Find(workStr, NAME) + |NAME| + 1;
          assert start == StartIndex(workStr);
          var copyrights := ExtractVersion(workStr, Find(workStr, NAME) + |NAME| + 1, VERSION_CHARS);
          if copyrights != [] {
            results := results + [copyrights];
          }
        } else {
          assert StartIndex(workStr) == 0;
          var cellars := ExtractVersion(workStr, 0, VERSION_CHARS);
          if cellars != [] {
            results := results + [cellars];
          }
        }
      }
      assert versionStrings[..|versionStrings|] == versionStrings;
      VersionsWellFormed(versionStrings);
    }
  }
}
