/** The file name `NSPersistentContainer.makeTest` gives a test's SQLite store
    (`sanitizeStoreFileName`): every character outside the alphanumerics and
    `._-` becomes `_`, runs of `_` collapse to one, `._-` are trimmed from
    both ends, and an empty result falls back to a fixed name.

    Foundation's alphanumeric character set is Unicode-wide; the model keeps
    it abstract as a parameter `alnum`, and `IsAlphanumericTable` collects
    the few facts about it that the properties below rely on. */
module StoreName {
  import Text

  /** Punctuation that is allowed inside a name and trimmed from its ends. */
  const NamePunctuation: set<char> := {'.', '_', '-'}

  /** The name used when nothing is left after trimming. */
  const FallbackName: string := "CoreDataEvolutionTestStore"

  predicate IsAsciiLetterOrDigit(c: char) {
    'a' <= c <= 'z' || 'A' <= c <= 'Z' || '0' <= c <= '9'
  }

  /** What the model assumes of the alphanumeric set: it holds the ASCII
      letters and digits, and not `.`, `_`, `-` or the path separator `/`. */
  predicate IsAlphanumericTable(alnum: char -> bool) {
    && (forall c :: IsAsciiLetterOrDigit(c) ==> alnum(c))
    && !alnum('.') && !alnum('_') && !alnum('-') && !alnum('/')
  }

  /** The characters a store name may keep. */
  predicate Allowed(alnum: char -> bool, c: char) {
    alnum(c) || c in NamePunctuation
  }

  predicate AllAllowed(alnum: char -> bool, s: string) {
    forall c | c in s :: Allowed(alnum, c)
  }

  predicate NoDoubleUnderscore(s: string) {
    forall i | 0 <= i < |s| - 1 :: !(s[i] == '_' && s[i + 1] == '_')
  }

  /** The map step: each allowed character stays where it is, each other
      character becomes one `_`. The result only has allowed characters, and
      it equals the input exactly when the input had only allowed ones. */
  function ReplaceDisallowed(alnum: char -> bool, rawName: string): (r: string)
    ensures |r| == |rawName|
    ensures forall i | 0 <= i < |rawName| ::
      r[i] == (if Allowed(alnum, rawName[i]) then rawName[i] else '_')
    ensures AllAllowed(alnum, r)
    ensures r == rawName <==> AllAllowed(alnum, rawName)
  {
    seq(|rawName|, i requires 0 <= i < |rawName| =>
      if Allowed(alnum, rawName[i]) then rawName[i] else '_')
  }

  /** The collapse step, stated per character: an underscore is dropped
      exactly when the character before it in the input is an underscore too.
      The result keeps the last character, takes its characters from the
      input and has no two adjacent underscores. */
  function CollapseUnderscores(s: string): (r: string)
    ensures |r| <= |s|
    ensures s != [] ==> r != [] && r[|r| - 1] == s[|s| - 1]
    ensures forall c | c in r :: c in s
    ensures NoDoubleUnderscore(r)
    decreases |s|
  {
    if s == [] then []
    else
      var init := CollapseUnderscores(s[..|s| - 1]);
      assert forall c | c in init :: c in s by {
        forall c | c in init ensures c in s {
          assert c in s[..|s| - 1];
        }
      }
      if |s| >= 2 && s[|s| - 2] == '_' && s[|s| - 1] == '_' then init
      else init + [s[|s| - 1]]
  }

  /** `s` with all underscores removed. */
  function WithoutUnderscores(s: string): string {
    if s == [] then []
    else WithoutUnderscores(s[..|s| - 1]) + (if s[|s| - 1] == '_' then [] else [s[|s| - 1]])
  }

  /** Only underscores are ever dropped by the collapse step. */
  lemma {:induction false} CollapseDropsOnlyUnderscores(s: string)
    ensures WithoutUnderscores(CollapseUnderscores(s)) == WithoutUnderscores(s)
  {
    if s != [] {
      var p := s[..|s| - 1];
      var x := s[|s| - 1];
      CollapseDropsOnlyUnderscores(p);
      var c := CollapseUnderscores(p);
      if !(|s| >= 2 && s[|s| - 2] == '_' && x == '_') {
        assert (c + [x])[..|c|] == c;
      }
    }
  }

  /** Two adjacent underscores anywhere in the input give the same collapsed
      text as one underscore in their place. */
  lemma {:induction false} CollapseMergesDoubledUnderscore(a: string, b: string)
    ensures CollapseUnderscores(a + "__" + b) == CollapseUnderscores(a + "_" + b)
    decreases |b|
  {
    var doubled := a + "__" + b;
    var single := a + "_" + b;
    if b == [] {
      assert doubled[..|doubled| - 1] == single;
      assert doubled[|doubled| - 2] == '_' && doubled[|doubled| - 1] == '_';
    } else {
      var init := b[..|b| - 1];
      CollapseMergesDoubledUnderscore(a, init);
      var last := b[|b| - 1];
      assert doubled == (a + "__" + init) + [last];
      assert single == (a + "_" + init) + [last];
      var p, q := a + "__" + init, a + "_" + init;
      assert p[|p| - 1] == q[|q| - 1];
      CollapseLastStep(p, last);
      CollapseLastStep(q, last);
    }
  }

  /** One step of the collapse: a character appended to `p` is kept unless
      it and the last character of `p` are both underscores. */
  lemma CollapseLastStep(p: string, x: char)
    ensures CollapseUnderscores(p + [x]) ==
      if p != [] && p[|p| - 1] == '_' && x == '_' then CollapseUnderscores(p)
      else CollapseUnderscores(p) + [x]
  {
    assert (p + [x])[..|p|] == p;
  }

  /** `n` underscores in a row. */
  function Underscores(n: nat): (r: string)
    ensures |r| == n && forall c | c in r :: c == '_'
  {
    seq(n, _ => '_')
  }

  /** Each run of underscores, however long, collapses to a single one; with
      `CollapseFixpoint` this determines the collapse completely. */
  lemma {:induction false} CollapseRun(a: string, n: nat, b: string)
    requires n >= 1
    ensures CollapseUnderscores(a + Underscores(n) + b) == CollapseUnderscores(a + "_" + b)
  {
    if n == 1 {
      assert Underscores(1) == "_";
    } else {
      var rest := Underscores(n - 2) + b;
      assert a + Underscores(n) + b == a + "__" + rest;
      assert a + Underscores(n - 1) + b == a + "_" + rest;
      CollapseMergesDoubledUnderscore(a, rest);
      CollapseRun(a, n - 1, b);
    }
  }

  /** Every non-underscore character survives removal of the underscores. */
  lemma {:induction false} WithoutUnderscoresKeeps(s: string, c: char)
    requires c != '_'
    ensures c in WithoutUnderscores(s) <==> c in s
  {
    if s != [] {
      var p := s[..|s| - 1];
      WithoutUnderscoresKeeps(p, c);
      assert s == p + [s[|s| - 1]];
    }
  }

  /** The collapse step changes a text exactly when it has two adjacent
      underscores. */
  lemma CollapseFixpoint(s: string)
    ensures CollapseUnderscores(s) == s <==> NoDoubleUnderscore(s)
  {
    if NoDoubleUnderscore(s) {
      CollapseKeepsSingleUnderscores(s);
    }
  }

  lemma {:induction false} CollapseKeepsSingleUnderscores(s: string)
    requires NoDoubleUnderscore(s)
    ensures CollapseUnderscores(s) == s
  {
    if s != [] {
      var p := s[..|s| - 1];
      var x := s[|s| - 1];
      assert NoDoubleUnderscore(p) by {
        forall i | 0 <= i < |p| - 1 ensures !(p[i] == '_' && p[i + 1] == '_') {
          assert p[i] == s[i] && p[i + 1] == s[i + 1];
        }
      }
      CollapseKeepsSingleUnderscores(p);
      if |s| >= 2 {
        assert !(s[|s| - 2] == '_' && s[|s| - 2 + 1] == '_');
      }
      assert CollapseUnderscores(s) == p + [x];
      assert s == p + [x];
    }
  }

  /** Any contiguous slice of a text without two adjacent underscores has none either. */
  lemma SliceNoDoubleUnderscore(s: string, i: nat, j: nat)
    requires i <= j <= |s| && NoDoubleUnderscore(s)
    ensures NoDoubleUnderscore(s[i..j])
  {
    var t := s[i..j];
    forall k | 0 <= k < |t| - 1 ensures !(t[k] == '_' && t[k + 1] == '_') {
      assert t[k] == s[i + k] && t[k + 1] == s[i + k + 1];
    }
  }

  /** The name after the map, collapse and trim steps, before the fallback:
      never longer than the raw name. */
  function TrimmedName(alnum: char -> bool, rawName: string): (t: string)
    ensures |t| <= |rawName|
  {
    Text.Trim(CollapseUnderscores(ReplaceDisallowed(alnum, rawName)), NamePunctuation)
  }

  /** The sanitized store file name of `rawName`: never empty, and either the
      fallback name or no longer than the raw name. */
  function SanitizedName(alnum: char -> bool, rawName: string): (r: string)
    ensures r != []
    ensures r == FallbackName || |r| <= |rawName|
  {
    var trimmed := TrimmedName(alnum, rawName);
    if trimmed == [] then FallbackName else trimmed
  }

  /** What is left after trimming has only allowed characters, no doubled
      underscore, and neither begins nor ends with `.`, `_` or `-`. */
  lemma TrimmedNameWellFormed(alnum: char -> bool, rawName: string)
    ensures var t := TrimmedName(alnum, rawName);
      && AllAllowed(alnum, t)
      && NoDoubleUnderscore(t)
      && (t != [] ==> t[0] !in NamePunctuation && t[|t| - 1] !in NamePunctuation)
  {
    var collapsed := CollapseUnderscores(ReplaceDisallowed(alnum, rawName));
    var i, j := Text.TrimSlice(collapsed, NamePunctuation);
    SliceNoDoubleUnderscore(collapsed, i, j);
    forall c | c in collapsed[i..j] ensures Allowed(alnum, c) {
      assert c in collapsed;
    }
  }

  /** The fallback name is itself a well-formed store name. */
  lemma FallbackNameWellFormed(alnum: char -> bool)
    requires IsAlphanumericTable(alnum)
    ensures AllAllowed(alnum, FallbackName)
    ensures NoDoubleUnderscore(FallbackName)
    ensures FallbackName[0] !in NamePunctuation
    ensures FallbackName[|FallbackName| - 1] !in NamePunctuation
  {
    forall c | c in FallbackName ensures IsAsciiLetterOrDigit(c) {
    }
    assert '_' !in FallbackName;
  }

  /** A sanitized name is never empty, has only allowed characters (so no
      path separator), no two adjacent underscores, and neither begins nor
      ends with `.`, `_` or `-`. */
  lemma SanitizedNameWellFormed(alnum: char -> bool, rawName: string)
    requires IsAlphanumericTable(alnum)
    ensures var r := SanitizedName(alnum, rawName);
      && r != []
      && AllAllowed(alnum, r)
      && '/' !in r
      && NoDoubleUnderscore(r)
      && r[0] !in NamePunctuation && r[|r| - 1] !in NamePunctuation
  {
    var r := SanitizedName(alnum, rawName);
    var t := TrimmedName(alnum, rawName);
    if t == [] {
      FallbackNameWellFormed(alnum);
      assert r == FallbackName;
    } else {
      TrimmedNameWellFormed(alnum, rawName);
      assert r == t;
    }
    assert '/' !in r by {
      assert !Allowed(alnum, '/');
    }
  }

  /** A text consists of characters of `cs` (a set holding `_`) exactly when
      its collapsed form does. */
  lemma CollapseKeepsAllIn(s: string, cs: set<char>)
    requires '_' in cs
    ensures Text.AllIn(CollapseUnderscores(s), cs) <==> Text.AllIn(s, cs)
  {
    var collapsed := CollapseUnderscores(s);
    CollapseDropsOnlyUnderscores(s);
    if Text.AllIn(collapsed, cs) {
      forall i | 0 <= i < |s| ensures s[i] in cs {
        var c := s[i];
        if c != '_' {
          WithoutUnderscoresKeeps(s, c);
          WithoutUnderscoresKeeps(collapsed, c);
          var k :| 0 <= k < |collapsed| && collapsed[k] == c;
        }
      }
    }
    if Text.AllIn(s, cs) {
      forall k | 0 <= k < |collapsed| ensures collapsed[k] in cs {
        assert collapsed[k] in s;
      }
    }
  }

  /** Trimming leaves nothing, so that the fallback name is used, exactly when
      the raw name has no alphanumeric character. */
  lemma FallbackExactlyWithoutAlphanumerics(alnum: char -> bool, rawName: string)
    requires IsAlphanumericTable(alnum)
    ensures TrimmedName(alnum, rawName) == [] <==> forall i | 0 <= i < |rawName| :: !alnum(rawName[i])
    ensures (forall i | 0 <= i < |rawName| :: !alnum(rawName[i])) ==> SanitizedName(alnum, rawName) == FallbackName
  {
    var mapped := ReplaceDisallowed(alnum, rawName);
    var collapsed := CollapseUnderscores(mapped);
    Text.TrimEmptyExactly(collapsed, NamePunctuation);
    CollapseKeepsAllIn(mapped, NamePunctuation);
    MappedAllPunctuation(alnum, rawName);
  }

  /** The mapped name is all punctuation exactly when the raw name has no
      alphanumeric character. */
  lemma MappedAllPunctuation(alnum: char -> bool, rawName: string)
    requires IsAlphanumericTable(alnum)
    ensures Text.AllIn(ReplaceDisallowed(alnum, rawName), NamePunctuation)
      <==> forall i | 0 <= i < |rawName| :: !alnum(rawName[i])
  {
    var mapped := ReplaceDisallowed(alnum, rawName);
    if Text.AllIn(mapped, NamePunctuation) {
      forall i | 0 <= i < |rawName| ensures !alnum(rawName[i]) {
        assert mapped[i] in NamePunctuation;
      }
    }
  }

  /** Sanitizing a sanitized name changes nothing. */
  lemma SanitizeIdempotent(alnum: char -> bool, rawName: string)
    requires IsAlphanumericTable(alnum)
    ensures SanitizedName(alnum, SanitizedName(alnum, rawName)) == SanitizedName(alnum, rawName)
  {
    var r := SanitizedName(alnum, rawName);
    SanitizedNameWellFormed(alnum, rawName);
    assert ReplaceDisallowed(alnum, r) == r;
    CollapseFixpoint(r);
    Text.TrimCleanUnchanged(r, NamePunctuation);
  }

  /** The sanitizer as the source runs it: the map as one expression, then a
      loop that appends characters to `collapsed` while tracking whether the
      previous character was an underscore, then trim and fallback. */
  method SanitizeStoreFileName(alnum: char -> bool, rawName: string) returns (name: string)
    ensures name == SanitizedName(alnum, rawName)
  {
    var sanitized := ReplaceDisallowed(alnum, rawName);
    var collapsed := "";
    var previousWasUnderscore := false;
    for i := 0 to |sanitized|
      invariant collapsed == CollapseUnderscores(sanitized[..i])
      invariant previousWasUnderscore <==> i > 0 && sanitized[i - 1] == '_'
    {
      var character := sanitized[i];
      assert sanitized[..i + 1][..i] == sanitized[..i];
      if character == '_' {
        if !previousWasUnderscore {
          collapsed := collapsed + [character];
        }
        previousWasUnderscore := true;
      } else {
        collapsed := collapsed + [character];
        previousWasUnderscore := false;
      }
    }
    assert sanitized[..|sanitized|] == sanitized;
    var trimmed := Text.Trim(collapsed, NamePunctuation);
    name := if trimmed == [] then FallbackName else trimmed;
  }
}
