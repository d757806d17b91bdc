/** What one pass of the OpenSSL seeker guarantees: the evidence list, the
    seen-set and the counter stay in step; every entry comes from a string
    of the corpus by one of the two rules; entries keep encounter order; and
    strings seen before add nothing. */
module OpenSSLProperties {
  import opened Strings
  import opened Wrappers
  import opened OpenSSL

  /** No value occurs twice in `s`. */
  predicate NoDuplicates(s: seq<string>)
  {
    forall i, j :: 0 <= i < j < |s| ==> s[i] != s[j]
  }

  /** The invariant of the pass: the evidence list has no duplicates, the
      seen-set is exactly the set of its entries (banner and cellar alike),
      and the counter is its length. */
  predicate Consistent(st: ScanState)
  {
    && NoDuplicates(st.entries)
    && st.seen == (set x | x in st.entries)
    && st.counter == |st.entries|
  }

  /** Recording a value that has not been seen keeps the invariant. */
  lemma AcceptKeepsConsistent(st: ScanState, x: string)
    requires Consistent(st) && x !in st.seen
    ensures Consistent(Accept(st, x))
  {
    var e := Accept(st, x).entries;
    assert e[|e| - 1] == x;
    assert (set y | y in e) == (set y | y in st.entries) + {x};
  }

  /** The duplicate test `match_counter >= 1 and x in seen` is plain
      membership: while the counter is 0 the seen-set is empty, so the first
      match is never exempted from anything. */
  lemma GuardIsMembership(st: ScanState, x: string)
    requires Consistent(st)
    ensures (st.counter >= 1 && x in st.seen) <==> x in st.seen
  {
    if st.counter == 0 {
      assert st.entries == [];
    }
  }

  /** One iteration keeps the invariant. */
  lemma StepKeepsConsistent(st: ScanState, s: string)
    requires Consistent(st)
    ensures Consistent(Step(st, s))
  {
    var mid := st;
    if IsBanner(s) {
      var chopped := Chop(s);
      GuardIsMembership(st, chopped);
      if chopped in st.seen {
        return;
      }
      AcceptKeepsConsistent(st, chopped);
      mid := Accept(st, chopped);
    }
    assert Step(st, s) == CellarStep(mid, s);
    if CellarGate(s) && CellarVersion(s).Some? {
      var v := CellarVersion(s).value;
      GuardIsMembership(mid, v);
      if v !in mid.seen {
        AcceptKeepsConsistent(mid, v);
      }
    }
  }

  /** The deduplication invariant holds after the whole pass: the evidence
      list never holds a duplicate, `seen_copyrights` is the set of stored
      entries, and `match_counter` is the length of the list (so it is at
      least 1 exactly when something was stored). */
  lemma {:induction false} ScanConsistent(corpus: seq<string>)
    ensures Consistent(Scan(corpus))
    ensures Scan(corpus).counter >= 1 <==> Scan(corpus).seen != {}
  {
    if corpus != [] {
      ScanConsistent(corpus[..|corpus| - 1]);
      StepKeepsConsistent(Scan(corpus[..|corpus| - 1]), corpus[|corpus| - 1]);
    }
    var st := Scan(corpus);
    if st.counter >= 1 {
      assert st.entries[0] in st.seen;
    }
  }

  /** A string yields a banner entry only if it holds the marker and at
      least one of the ten keyword ids. */
  lemma BannerNeedsKeyword(s: string)
    ensures IsBanner(s) <==> Contains(s, VERSION_STRING) && exists k :: 0 <= k < |IDS| && Contains(s, IDS[k])
  {
    var m := MatchingIds(s, IDS);
    if |m| != 0 {
      assert m[0] in m;
    }
  }

  /** `e` is an entry the string `s` can contribute: its banner entry, or
      its cellar entry when the length gate passes. */
  predicate Emits(s: string, e: string)
  {
    || (IsBanner(s) && e == Chop(s))
    || (CellarGate(s) && CellarVersion(s) == Some(e))
  }

  /** One iteration appends at most two entries, each contributed by the
      current string, the banner entry before the cellar entry; the seen-set
      and the counter only grow. */
  lemma StepAppends(st: ScanState, s: string)
    ensures st.entries <= Step(st, s).entries
    ensures |Step(st, s).entries| <= |st.entries| + 2
    ensures forall k :: |st.entries| <= k < |Step(st, s).entries| ==> Emits(s, Step(st, s).entries[k])
    ensures |Step(st, s).entries| == |st.entries| + 2 ==> IsBanner(s) && Step(st, s).entries[|st.entries|] == Chop(s)
    ensures st.seen <= Step(st, s).seen && st.counter <= Step(st, s).counter
  {
    var mid := st;
    if IsBanner(s) {
      if st.counter >= 1 && Chop(s) in st.seen {
        return;
      }
      mid := Accept(st, Chop(s));
    }
    assert Step(st, s) == CellarStep(mid, s);
    assert mid.entries <= CellarStep(mid, s).entries;
  }

  /** Every stored entry was contributed by some string of the corpus. */
  lemma {:induction false} EntryOrigin(corpus: seq<string>, k: nat)
    requires k < |Scan(corpus).entries|
    ensures exists j :: 0 <= j < |corpus| && Emits(corpus[j], Scan(corpus).entries[k])
  {
    var init := corpus[..|corpus| - 1];
    var prev := Scan(init);
    StepAppends(prev, corpus[|corpus| - 1]);
    if k < |prev.entries| {
      EntryOrigin(init, k);
      var j :| 0 <= j < |init| && Emits(init[j], prev.entries[k]);
      assert corpus[j] == init[j];
    } else {
      assert Emits(corpus[|corpus| - 1], Scan(corpus).entries[k]);
    }
  }

  /** Entries appear in encounter order: scanning more strings only appends. */
  lemma {:induction false} ScanExtends(corpus: seq<string>, more: seq<string>)
    ensures Scan(corpus).entries <= Scan(corpus + more).entries
    ensures Scan(corpus).seen <= Scan(corpus + more).seen
    ensures Scan(corpus).counter <= Scan(corpus + more).counter
  {
    if more != [] {
      var init := more[..|more| - 1];
      assert (corpus + more)[..|corpus + more| - 1] == corpus + init;
      ScanExtends(corpus, init);
      StepAppends(Scan(corpus + init), more[|more| - 1]);
    } else {
      assert corpus + more == corpus;
    }
  }

  /** A corpus in which no string holds either marker yields nothing. */
  lemma {:induction false} NoMarkersNoEntries(corpus: seq<string>)
    requires forall j :: 0 <= j < |corpus| ==> !Contains(corpus[j], VERSION_STRING) && !Contains(corpus[j], CELLAR_STRING)
    ensures Scan(corpus).entries == []
  {
    if corpus != [] {
      NoMarkersNoEntries(corpus[..|corpus| - 1]);
    }
  }

  /** A banner entry begins with the marker, so it holds `"OpenSSL"`, first
      at index 9; the version scan of `identifyVersions` therefore starts
      right after the marker. */
  lemma BannerEntryShape(s: string)
    requires IsBanner(s)
    ensures StartsWith(Chop(s), VERSION_STRING)
    ensures Find(Chop(s), NAME) == 9
    ensures StartIndex(Chop(s)) == |VERSION_STRING|
  {
    var c := Chop(s);
    var f := Find(s, VERSION_STRING);
    FindIsFirst(s, VERSION_STRING);
    assert c[..|VERSION_STRING|] == s[f..f + |VERSION_STRING|];
    MarkerFirstName(c);
  }

  /** In a string that starts with the marker, the first `"OpenSSL"` is the
      one inside the marker. */
  lemma MarkerFirstName(c: string)
    requires StartsWith(c, VERSION_STRING)
    ensures Find(c, NAME) == 9
  {
    var m := c[..|VERSION_STRING|];
    assert OccursAt(c, NAME, 9) by {
      assert c[9..16] == m[9..16];
      assert VERSION_STRING[9..16] == NAME;
    }
    forall i | 0 <= i < 9 ensures !OccursAt(c, NAME, i) {
      assert VERSION_STRING[i] != 'O';
      assert c[i] == m[i];
      assert c[i..i + |NAME|][0] == c[i] != NAME[0];
    }
    FindIsFirst(c, NAME);
  }

  /** `FindFrom` on `"/"` finds the first `/` at or after `start`. */
  lemma SlashSearch(s: string, start: nat)
    ensures FindFrom(s, "/", start) == -1 ==> forall i :: start <= i < |s| ==> s[i] != '/'
    ensures FindFrom(s, "/", start) != -1 ==> s[FindFrom(s, "/", start)] == '/'
    ensures forall i :: start <= i < FindFrom(s, "/", start) ==> s[i] != '/'
  {
    FindFromIsFirst(s, "/", start);
    forall i | start <= i < |s| && s[i] == '/' ensures OccursAt(s, "/", i) {
      assert s[i..i + 1] == "/";
    }
    var r := FindFrom(s, "/", start);
    if r != -1 {
      assert s[r..r + 1] == "/";
    }
  }

  /** A cellar entry never contains `/`. */
  lemma CellarEntryHasNoSlash(s: string, v: string)
    requires Contains(s, CELLAR_STRING) && CellarVersion(s) == Some(v)
    ensures '/' !in v
  {
    var leftSlash := FindFrom(s, "/", MarkerEnd(s));
    assert v == SegmentAfter(s, leftSlash);
    SlashSearch(s, leftSlash + 1);
    forall i | 0 <= i < |v| ensures v[i] != '/' {
      assert v[i] == s[leftSlash + 1 + i];
    }
  }

  /** No `/` in `s[a..b]`. */
  predicate NoSlashBetween(s: string, a: int, b: int)
  {
    forall i :: a <= i < b && 0 <= i < |s| ==> s[i] != '/'
  }

  /** `v` lies strictly between the first `/` at or after the end of the
      marker and the next `/` (or the end of `s`). */
  predicate IsCellarSegment(s: string, v: string)
    requires Contains(s, CELLAR_STRING)
  {
    exists l :: MarkerEnd(s) <= l && l + 1 + |v| <= |s| && s[l] == '/'
      && NoSlashBetween(s, MarkerEnd(s), l)
      && s[l + 1..l + 1 + |v|] == v
      && (l + 1 + |v| == |s| || s[l + 1 + |v|] == '/')
  }

  /** The cellar rule stores nothing exactly when no `/` follows the marker. */
  lemma CellarEntryAbsent(s: string)
    requires Contains(s, CELLAR_STRING)
    ensures CellarVersion(s).None? <==> NoSlashBetween(s, MarkerEnd(s), |s|)
  {
    var leftSlash := FindFrom(s, "/", MarkerEnd(s));
    SlashSearch(s, MarkerEnd(s));
    if leftSlash > 0 {
      assert s[leftSlash] == '/';
    }
  }

  /** The cellar entry is the text strictly between the first `/` at or
      after the end of the marker and the next `/`, or up to the end of the
      string. */
  lemma CellarEntryBetweenSlashes(s: string)
    requires Contains(s, CELLAR_STRING) && CellarVersion(s).Some?
    ensures IsCellarSegment(s, CellarVersion(s).value)
  {
    var from := MarkerEnd(s);
    var leftSlash := FindFrom(s, "/", from);
    var rightSlash := FindFrom(s, "/", leftSlash + 1);
    SlashSearch(s, from);
    SlashSearch(s, leftSlash + 1);
    var v := CellarVersion(s).value;
    var e := leftSlash + 1 + |v|;
    if rightSlash > 0 {
      assert v == s[leftSlash + 1..rightSlash];
      assert e == rightSlash;
    } else {
      assert v == s[leftSlash + 1..];
      assert e == |s|;
    }
    assert s[leftSlash + 1..e] == v;
    assert from <= leftSlash && e <= |s| && s[leftSlash] == '/' && NoSlashBetween(s, from, leftSlash);
  }

  /** The length gate is on the whole string, not on what follows the
      marker: after the marker both strings below hold `/3`, yet only the
      one of 19 characters passes the gate. */
  lemma CellarGateOnWholeString(st: ScanState)
    requires Consistent(st) && "3" !in st.seen
    ensures CellarStep(st, "x/Cellar/openssl/3") == st
    ensures CellarStep(st, "xy/Cellar/openssl/3") == Accept(st, "3")
  {
    var s := "xy/Cellar/openssl/3";
    assert Find(s, CELLAR_STRING) == 2 by {
      assert OccursAt(s, CELLAR_STRING, 2) by {
        assert s[2..17] == CELLAR_STRING;
      }
      assert !OccursAt(s, CELLAR_STRING, 0) && !OccursAt(s, CELLAR_STRING, 1) by {
        assert CELLAR_STRING[0] == '/' && s[0] != '/' && s[1] != '/';
      }
      FindIsFirst(s, CELLAR_STRING);
    }
    assert FindFrom(s, "/", 17) == 17 by {
      SlashSearch(s, 17);
    }
    assert FindFrom(s, "/", 18) == -1 by {
      SlashSearch(s, 18);
    }
    assert CellarVersion(s) == Some("3");
    GuardIsMembership(st, "3");
  }

  /** A duplicate banner ends the iteration: the cellar rule is skipped for
      that string, even when it would have stored a new version. */
  lemma DuplicateBannerSkipsCellar(st: ScanState, s: string, v: string)
    requires Consistent(st) && IsBanner(s) && Chop(s) in st.seen
    requires CellarGate(s) && CellarVersion(s) == Some(v) && v !in st.seen
    ensures Step(st, s) == st && v !in Step(st, s).seen
  {
    GuardIsMembership(st, Chop(s));
  }

  /** The other side: a banner string not stored before runs the cellar rule
      as well, so both its banner and its cellar version end up stored, the
      version right after the banner when it is new. */
  lemma NewBannerKeepsCellar(st: ScanState, s: string)
    requires IsBanner(s) && !DuplicateBanner(st, s)
    requires CellarGate(s) && CellarVersion(s).Some?
    ensures Chop(s) in Step(st, s).seen && CellarVersion(s).value in Step(st, s).seen
    ensures CellarVersion(s).value !in st.seen + {Chop(s)} ==>
              Step(st, s) == Accept(Accept(st, Chop(s)), CellarVersion(s).value)
  {
  }

  /** `st` already holds everything `s` could contribute, so `s` changes nothing. */
  predicate Absorbs(st: ScanState, s: string)
  {
    && (IsBanner(s) ==> st.counter >= 1 && Chop(s) in st.seen)
    && (!IsBanner(s) && CellarGate(s) && CellarVersion(s).Some? ==>
          st.counter >= 1 && CellarVersion(s).value in st.seen)
  }

  lemma AbsorbedAfterStep(st: ScanState, s: string)
    ensures Absorbs(Step(st, s), s)
  {
    StepAppends(st, s);
    if IsBanner(s) && !(st.counter >= 1 && Chop(s) in st.seen) {
      var mid := Accept(st, Chop(s));
      assert Step(st, s) == CellarStep(mid, s);
      StepAppends(mid, s);
      assert CellarStep(mid, s).seen >= mid.seen;
    }
  }

  lemma AbsorbedIsNoOp(st: ScanState, s: string)
    requires Absorbs(st, s)
    ensures Step(st, s) == st
  {
  }

  lemma {:induction false} AbsorbsPersists(corpus: seq<string>, j: nat, m: nat)
    requires j < m <= |corpus|
    ensures Absorbs(Scan(corpus[..m]), corpus[j])
    decreases m - j
  {
    if m == j + 1 {
      ScanSnoc(corpus, j);
      AbsorbedAfterStep(Scan(corpus[..j]), corpus[j]);
    } else {
      AbsorbsPersists(corpus, j, m - 1);
      ScanSnoc(corpus, m - 1);
      StepAppends(Scan(corpus[..m - 1]), corpus[m - 1]);
    }
  }

  /** Strings that already occurred earlier in the corpus add nothing: in
      particular two identical banner strings are counted once. */
  lemma {:induction false} ScanIgnoresRepeats(corpus: seq<string>, more: seq<string>)
    requires forall x :: x in more ==> x in corpus
    ensures Scan(corpus + more) == Scan(corpus)
  {
    if more == [] {
      assert corpus + more == corpus;
    } else {
      var init := more[..|more| - 1];
      var last := more[|more| - 1];
      assert Absorbs(Scan(corpus), last) by {
        assert last in more;
        var j :| 0 <= j < |corpus| && corpus[j] == last;
        AbsorbsPersists(corpus, j, |corpus|);
        assert corpus[..|corpus|] == corpus;
      }
      calc {
        Scan(corpus + more);
        { assert (corpus + more)[..|corpus + more| - 1] == corpus + init; }
        Step(Scan(corpus + init), last);
        { ScanIgnoresRepeats(corpus, init); }
        Step(Scan(corpus), last);
        { AbsorbedIsNoOp(Scan(corpus), last); }
        Scan(corpus);
      }
    }
  }

  /** Scanning the corpus twice over stores the same entries as scanning it once. */
  lemma ScanTwiceIsScanOnce(corpus: seq<string>)
    ensures Scan(corpus + corpus) == Scan(corpus)
  {
    ScanIgnoresRepeats(corpus, corpus);
  }
}
