/** Text utilities shared by the store-name model and the macro templates:
    substring search, Foundation-style trimming of a character set, and
    scanning a prefix up to a delimiter. */
module Text {

  /** `t` occurs in `s` as a contiguous run of characters. */
  ghost predicate Contains(s: string, t: string) {
    exists i :: OccursAt(s, t, i)
  }

  /** `t` occurs in `s` starting at index `i`. */
  predicate OccursAt(s: string, t: string, i: int) {
    0 <= i <= |s| - |t| && s[i..i + |t|] == t
  }

  /** `s` ends with `t`. */
  predicate EndsWith(s: string, t: string) {
    |t| <= |s| && s[|s| - |t|..] == t
  }

  /** A text that ends with `t + u` ends with `u`. */
  lemma EndsWithSuffix(s: string, t: string, u: string)
    requires EndsWith(s, t + u)
    ensures EndsWith(s, u)
  {
    assert s[|s| - |u|..] == (t + u)[|t|..];
  }

  /** A text that lacks one of the characters of `t` cannot contain `t`. */
  lemma MissingCharacterNotContained(s: string, t: string, c: char)
    requires c in t && c !in s
    ensures !Contains(s, t)
  {
    var k :| 0 <= k < |t| && t[k] == c;
    forall i | 0 <= i <= |s| - |t|
      ensures !OccursAt(s, t, i)
    {
      assert s[i..i + |t|][k] == s[i + k];
      assert s[i + k] in s;
    }
  }

  /** The longest prefix of `s` that does not contain `c`. */
  function TakeUntil(s: string, c: char): (r: string)
    ensures r <= s && c !in r
    ensures |r| < |s| ==> s[|r|] == c
  {
    if s == [] || s[0] == c then [] else [s[0]] + TakeUntil(s[1..], c)
  }

  /** Without the delimiter, the whole text is read. */
  lemma {:induction false} TakeUntilWithoutDelimiter(s: string, c: char)
    requires c !in s
    ensures TakeUntil(s, c) == s
  {
    if s != [] {
      assert c !in s[1..] by { assert forall x | x in s[1..] :: x in s; }
      TakeUntilWithoutDelimiter(s[1..], c);
      assert s == [s[0]] + s[1..];
    }
  }

  lemma {:induction false} TakeUntilStopsAtDelimiter(w: string, c: char, rest: string)
    requires c !in w
    ensures TakeUntil(w + [c] + rest, c) == w
  {
    if w != [] {
      assert (w + [c] + rest)[1..] == w[1..] + [c] + rest;
      TakeUntilStopsAtDelimiter(w[1..], c, rest);
    }
  }

  /** `s` with every leading character that belongs to `cs` removed. */
  function TrimLeading(s: string, cs: set<char>): (r: string)
    ensures |r| <= |s| && r == s[|s| - |r|..]
    ensures forall k | 0 <= k < |s| - |r| :: s[k] in cs
    ensures r != [] ==> r[0] !in cs
  {
    if s != [] && s[0] in cs then TrimLeading(s[1..], cs) else s
  }

  /** `s` with every trailing character that belongs to `cs` removed. */
  function TrimTrailing(s: string, cs: set<char>): (r: string)
    ensures |r| <= |s| && r == s[..|r|]
    ensures forall k | |r| <= k < |s| :: s[k] in cs
    ensures r != [] ==> r[|r| - 1] !in cs
  {
    if s != [] && s[|s| - 1] in cs then TrimTrailing(s[..|s| - 1], cs) else s
  }

  /** Every character of `s` belongs to `cs`. */
  predicate AllIn(s: string, cs: set<char>) {
    forall k | 0 <= k < |s| :: s[k] in cs
  }

  /** `r` is `s` with characters of `cs` removed from its ends only: it
      occurs in `s` at `i`, and every character of `s` before or after that
      occurrence belongs to `cs`. */
  predicate TrimmedAt(s: string, r: string, cs: set<char>, i: int) {
    && OccursAt(s, r, i)
    && (forall k | 0 <= k < i :: s[k] in cs)
    && (forall k | i + |r| <= k < |s| :: s[k] in cs)
  }

  ghost predicate TrimmedFrom(s: string, r: string, cs: set<char>) {
    exists i :: TrimmedAt(s, r, cs, i)
  }

  /** Removes the characters of `cs` from both ends of `s`, as Foundation's
      `trimmingCharacters(in:)` does: only characters of `cs` are removed, and
      only from the ends; neither end of the result is in `cs`. */
  function Trim(s: string, cs: set<char>): (r: string)
    ensures |r| <= |s|
    ensures TrimmedFrom(s, r, cs)
    ensures r != [] ==> r[0] !in cs && r[|r| - 1] !in cs
  {
    TrimBothEnds(s, cs);
    TrimTrailing(TrimLeading(s, cs), cs)
  }

  /** The contract of `Trim`, for its two passes; proved apart from the
      function, where it costs the solver far less. */
  lemma TrimBothEnds(s: string, cs: set<char>)
    ensures var r := TrimTrailing(TrimLeading(s, cs), cs);
      && TrimmedFrom(s, r, cs)
      && (r != [] ==> r[0] !in cs && r[|r| - 1] !in cs)
  {
    var lead := TrimLeading(s, cs);
    TrimmedAtParts(s, lead, TrimTrailing(lead, cs), cs);
  }

  /** A suffix of `s` after a run of `cs` characters, cut short before a
      run of `cs` characters, is `s` trimmed of `cs` characters at its ends;
      when both cuts stop at a character outside `cs`, so do its ends. */
  lemma TrimmedAtParts(s: string, lead: string, r: string, cs: set<char>)
    requires |lead| <= |s| && lead == s[|s| - |lead|..]
    requires forall k | 0 <= k < |s| - |lead| :: s[k] in cs
    requires |r| <= |lead| && r == lead[..|r|]
    requires forall k | |r| <= k < |lead| :: lead[k] in cs
    requires lead != [] ==> lead[0] !in cs
    requires r != [] ==> r[|r| - 1] !in cs
    ensures TrimmedAt(s, r, cs, |s| - |lead|) && TrimmedFrom(s, r, cs)
    ensures r != [] ==> r[0] !in cs && r[|r| - 1] !in cs
  {
    assert r != [] ==> r[0] == lead[0];
    var i := |s| - |lead|;
    forall k | i + |r| <= k < |s| ensures s[k] in cs {
      assert s[k] == lead[k - i];
    }
    assert s[i..i + |r|] == r;
    assert TrimmedAt(s, r, cs, i);
  }

  /** Trimming leaves nothing exactly when every character is in `cs`. */
  lemma TrimEmptyExactly(s: string, cs: set<char>)
    ensures Trim(s, cs) == [] <==> AllIn(s, cs)
  {
    var lead := TrimLeading(s, cs);
    if lead != [] {
      var m := |s| - |lead|;
      assert lead[0] == s[m] && s[m] !in cs;
      assert TrimTrailing(lead, cs) != [] by {
        assert |lead| - 0 > 0 && lead[0] !in cs;
      }
    }
  }

  /** A text whose ends are already outside `cs` is left unchanged. */
  lemma TrimCleanUnchanged(s: string, cs: set<char>)
    requires s != [] ==> s[0] !in cs && s[|s| - 1] !in cs
    ensures Trim(s, cs) == s
  {
    if s != [] {
      assert TrimLeading(s, cs) == s;
    }
  }

  /** What `Trim` keeps is one contiguous slice of its input, and what it
      removes before and after that slice belongs to `cs`. */
  lemma TrimSlice(s: string, cs: set<char>) returns (i: nat, j: nat)
    ensures i <= j <= |s| && Trim(s, cs) == s[i..j]
    ensures forall k | 0 <= k < i || j <= k < |s| :: s[k] in cs
  {
    var r := Trim(s, cs);
    var k :| TrimmedAt(s, r, cs, k);
    i, j := k, k + |r|;
  }

  /** The text made of `lines`, separated by newline characters: it begins
      with the first line and ends with the last. */
  function JoinLines(lines: seq<string>): (r: string)
    ensures |lines| >= 1 ==> lines[0] <= r && EndsWith(r, lines[|lines| - 1])
  {
    if |lines| == 0 then ""
    else if |lines| == 1 then lines[0]
    else lines[0] + "\n" + JoinLines(lines[1..])
  }

  /** Joining a first line to further lines puts one newline between it and
      the joined rest. */
  lemma JoinLinesCons(line: string, rest: seq<string>)
    requires rest != []
    ensures JoinLines([line] + rest) == line + "\n" + JoinLines(rest)
  {
    assert ([line] + rest)[1..] == rest;
  }

  /** The lines of `s`: the runs of characters between newline characters. */
  function SplitLines(s: string): (lines: seq<string>)
    ensures |lines| >= 1
    ensures forall line | line in lines :: '\n' !in line
    decreases |s|
  {
    var first := TakeUntil(s, '\n');
    if |first| == |s| then [s] else [first] + SplitLines(s[|first| + 1..])
  }

  /** Splitting joined lines gives the lines back, when none of them holds a newline. */
  lemma {:induction false} SplitJoinLines(lines: seq<string>)
    requires |lines| >= 1
    requires forall line | line in lines :: '\n' !in line
    ensures SplitLines(JoinLines(lines)) == lines
  {
    assert '\n' !in lines[0] by { assert lines[0] in lines; }
    if |lines| == 1 {
      TakeUntilWithoutDelimiter(lines[0], '\n');
    } else {
      assert forall line | line in lines[1..] :: line in lines;
      SplitJoinLines(lines[1..]);
      SplitFirstLine(lines[0], JoinLines(lines[1..]));
      assert lines == [lines[0]] + lines[1..];
    }
  }

  lemma SplitFirstLine(first: string, rest: string)
    requires '\n' !in first
    ensures SplitLines(first + "\n" + rest) == [first] + SplitLines(rest)
  {
    var s := first + "\n" + rest;
    TakeUntilStopsAtDelimiter(first, '\n', rest);
    assert s[|first| + 1..] == rest;
  }

  /** Joining the lines of a text gives the text back. */
  lemma {:induction false} JoinSplitLines(s: string)
    ensures JoinLines(SplitLines(s)) == s
    decreases |s|
  {
    var first := TakeUntil(s, '\n');
    if |first| < |s| {
      var rest := s[|first| + 1..];
      JoinSplitLines(rest);
      JoinFirstLine(first, SplitLines(rest));
      SplitAtDelimiter(s, |first|);
    }
  }

  lemma JoinFirstLine(first: string, lines: seq<string>)
    requires |lines| >= 1
    ensures JoinLines([first] + lines) == first + "\n" + JoinLines(lines)
  {
    assert ([first] + lines)[1..] == lines;
  }

  lemma SplitAtDelimiter(s: string, k: nat)
    requires k < |s| && s[k] == '\n'
    ensures s == s[..k] + "\n" + s[k + 1..]
  {
  }
}
