/** The three Foundation / standard-library string operations the word game
    relies on, over strings as sequences of Unicode scalar values:
    `lowercased()`, `trimmingCharacters(in: .whitespacesAndNewlines)` and
    `components(separatedBy:)` with a one-character separator. */
module StringOps {

  // ---------------------------------------------------------------------------
  // Character classes
  // ---------------------------------------------------------------------------

  /** Membership in Foundation's `CharacterSet.whitespacesAndNewlines`: the
      space separators (general category Zs), the tab, the line feeds
      U+000A..U+000D, NEXT LINE U+0085, and the line/paragraph separators
      U+2028 and U+2029. */
  predicate IsWhitespaceOrNewline(c: char) {
    var n := c as int;
    || 0x09 <= n <= 0x0D
    || n == 0x20
    || n == 0x85
    || n == 0xA0
    || n == 0x1680
    || 0x2000 <= n <= 0x200A
    || n == 0x2028 || n == 0x2029
    || n == 0x202F
    || n == 0x205F
    || n == 0x3000
  }

  predicate IsAsciiUpper(c: char) {
    'A' <= c <= 'Z'
  }

  predicate AllWhitespace(s: string) {
    forall i :: 0 <= i < |s| ==> IsWhitespaceOrNewline(s[i])
  }

  predicate NoAsciiUpper(s: string) {
    forall i :: 0 <= i < |s| ==> !IsAsciiUpper(s[i])
  }

  /** Neither end of `s` is whitespace or a newline (vacuous for ""). */
  predicate NoEdgeWhitespace(s: string) {
    |s| == 0 || (!IsWhitespaceOrNewline(s[0]) && !IsWhitespaceOrNewline(s[|s| - 1]))
  }

  // ---------------------------------------------------------------------------
  // lowercased()
  // ---------------------------------------------------------------------------

  /** Lower-casing of one character, restricted to ASCII. */
  function LowercaseChar(c: char): (d: char)
    ensures !IsAsciiUpper(d)
    ensures !IsAsciiUpper(c) ==> d == c
    ensures IsAsciiUpper(c) ==> 'a' <= d <= 'z' && d as int - 'a' as int == c as int - 'A' as int
    ensures IsWhitespaceOrNewline(d) <==> IsWhitespaceOrNewline(c)
  {
    if IsAsciiUpper(c) then (c as int - 'A' as int + 'a' as int) as char else c
  }

  /** `s.lowercased()`: every character is mapped on its own, so the length is
      kept and no upper-case letter survives. */
  function Lowercased(s: string): (r: string)
    ensures |r| == |s|
    ensures forall i :: 0 <= i < |s| ==> r[i] == LowercaseChar(s[i])
    ensures NoAsciiUpper(r)
    ensures AllWhitespace(r) <==> AllWhitespace(s)
  {
    seq(|s|, i requires 0 <= i < |s| => LowercaseChar(s[i]))
  }

  /** Lower-casing changes exactly the strings that hold an upper-case letter. */
  lemma LowercasedFixedPoint(s: string)
    ensures Lowercased(s) == s <==> NoAsciiUpper(s)
  {
    if !NoAsciiUpper(s) {
      var i :| 0 <= i < |s| && IsAsciiUpper(s[i]);
      assert Lowercased(s)[i] != s[i];
    }
  }

  // ---------------------------------------------------------------------------
  // trimmingCharacters(in: .whitespacesAndNewlines)
  // ---------------------------------------------------------------------------

  /** Drops the leading run of whitespace: the result is a suffix of `s`
      and everything cut off is whitespace. */
  function TrimLeading(s: string): (r: string)
    ensures |r| <= |s| && r == s[|s| - |r|..]
    ensures AllWhitespace(s[..|s| - |r|])
    ensures |r| == 0 || !IsWhitespaceOrNewline(r[0])
  {
    if |s| > 0 && IsWhitespaceOrNewline(s[0]) then TrimLeading(s[1..]) else s
  }

  /** Drops the trailing run of whitespace: the result is a prefix of `s`
      and everything cut off is whitespace. */
  function TrimTrailing(s: string): (r: string)
    ensures |r| <= |s| && r == s[..|r|]
    ensures AllWhitespace(s[|r|..])
    ensures |r| == 0 || !IsWhitespaceOrNewline(r[|r| - 1])
  {
    if |s| > 0 && IsWhitespaceOrNewline(s[|s| - 1]) then TrimTrailing(s[..|s| - 1]) else s
  }

  /** `s.trimmingCharacters(in: .whitespacesAndNewlines)`. */
  function Trimmed(s: string): (r: string)
    ensures |r| <= |s|
    ensures NoEdgeWhitespace(r)
    ensures |r| == 0 <==> AllWhitespace(s)
  {
    var t := TrimLeading(s);
    var r := TrimTrailing(t);
    assert |r| > 0 ==> r[0] == t[0];
    r
  }

  /** A trim window of `s`: `s[lo..hi]` with only whitespace on either side
      and no whitespace at its own ends. */
  predicate IsTrimWindow(s: string, lo: int, hi: int) {
    && 0 <= lo <= hi <= |s|
    && AllWhitespace(s[..lo])
    && AllWhitespace(s[hi..])
    && NoEdgeWhitespace(s[lo..hi])
  }

  /** The trimmed string is the contents of a trim window of the input. */
  lemma TrimmedIsWindow(s: string) returns (lo: nat, hi: nat)
    ensures IsTrimWindow(s, lo, hi)
    ensures Trimmed(s) == s[lo..hi]
  {
    var t := TrimLeading(s);
    lo := |s| - |t|;
    var r := TrimTrailing(t);
    hi := lo + |r|;
    assert Trimmed(s) == r;
    assert AllWhitespace(s[..lo]);
    assert s[hi..] == t[|r|..];
    assert s[lo..hi] == r by {
      assert t == s[lo..];
      assert r == t[..|r|];
    }
  }

  /** Any trim window of `s` holds exactly the trimmed string: trimming is
      characterised independently of how it is computed. */
  lemma {:induction false} TrimWindowUnique(s: string, lo: int, hi: int)
    requires IsTrimWindow(s, lo, hi)
    ensures Trimmed(s) == s[lo..hi]
  {
    var lo', hi' := TrimmedIsWindow(s);
    if lo == hi || lo' == hi' {
      // One window is empty, so every character of s is whitespace.
      if lo == hi {
        AllWhitespaceAround(s, lo);
      } else {
        AllWhitespaceAround(s, lo');
      }
      assert |Trimmed(s)| == 0;
    } else {
      WindowStart(s, lo, hi, lo', hi');
      WindowStart(s, lo', hi', lo, hi);
      WindowEnd(s, lo, hi, lo', hi');
      WindowEnd(s, lo', hi', lo, hi);
    }
  }

  lemma AllWhitespaceAround(s: string, k: int)
    requires 0 <= k <= |s|
    requires AllWhitespace(s[..k]) && AllWhitespace(s[k..])
    ensures AllWhitespace(s)
  {
    forall i | 0 <= i < |s| ensures IsWhitespaceOrNewline(s[i]) {
      if i < k {
        assert s[i] == s[..k][i];
      } else {
        assert s[i] == s[k..][i - k];
      }
    }
  }

  lemma WhitespaceBefore(s: string, k: int)
    requires 0 <= k <= |s| && AllWhitespace(s[..k])
    ensures forall i :: 0 <= i < k ==> IsWhitespaceOrNewline(s[i])
  {
    forall i | 0 <= i < k ensures IsWhitespaceOrNewline(s[i]) {
      assert s[..k][i] == s[i];
    }
  }

  lemma WindowStart(s: string, lo: int, hi: int, lo': int, hi': int)
    requires IsTrimWindow(s, lo, hi) && IsTrimWindow(s, lo', hi')
    requires lo < hi && lo' < hi'
    ensures lo <= lo'
  {
    WhitespaceBefore(s, lo);
    assert s[lo'..hi'][0] == s[lo'];
  }

  lemma WindowEnd(s: string, lo: int, hi: int, lo': int, hi': int)
    requires IsTrimWindow(s, lo, hi) && IsTrimWindow(s, lo', hi')
    requires lo < hi && lo' < hi'
    ensures hi' <= hi
  {
  }

  /** Trimming changes exactly the strings with whitespace at an end, so it
      is idempotent. */
  lemma TrimmedFixedPoint(s: string)
    ensures Trimmed(s) == s <==> NoEdgeWhitespace(s)
  {
    if NoEdgeWhitespace(s) {
      assert s[..0] == [] && s[|s|..] == [] && s[0..|s|] == s;
      TrimWindowUnique(s, 0, |s|);
    }
  }

  /** Trimming twice is trimming once. */
  lemma TrimmedIdempotent(s: string)
    ensures Trimmed(Trimmed(s)) == Trimmed(s)
  {
    TrimmedFixedPoint(Trimmed(s));
  }

  /** Trimming keeps a string free of upper-case letters. */
  lemma TrimmedKeepsNoAsciiUpper(s: string)
    requires NoAsciiUpper(s)
    ensures NoAsciiUpper(Trimmed(s))
  {
    var lo, hi := TrimmedIsWindow(s);
    forall i | 0 <= i < hi - lo ensures !IsAsciiUpper(Trimmed(s)[i]) {
      assert Trimmed(s)[i] == s[lo + i];
    }
  }

  // ---------------------------------------------------------------------------
  // components(separatedBy:)
  // ---------------------------------------------------------------------------

  /** Glues pieces together with `sep` between neighbours (Swift's
      `joined(separator:)`); the inverse of `Components`. */
  function Joined(parts: seq<string>, sep: char): string {
    if |parts| == 0 then ""
    else if |parts| == 1 then parts[0]
    else parts[0] + [sep] + Joined(parts[1..], sep)
  }

  /** `s.components(separatedBy: String(sep))`: the maximal runs of `s`
      between occurrences of `sep`. There is always at least one piece —
      the empty string yields `[""]` and a trailing separator yields a
      trailing "" — and no piece contains the separator. */
  function Components(s: string, sep: char): (parts: seq<string>)
    ensures |parts| >= 1
    ensures |parts| == multiset(s)[sep] + 1
    ensures forall i :: 0 <= i < |parts| ==> sep !in parts[i]
  {
    if |s| == 0 then [""]
    else
      assert s == [s[0]] + s[1..];
      var rest := Components(s[1..], sep);
      if s[0] == sep then [""] + rest
      else [[s[0]] + rest[0]] + rest[1..]
  }

  /** Splitting and re-joining gives back the input. */
  lemma {:induction false} JoinedComponents(s: string, sep: char)
    ensures Joined(Components(s, sep), sep) == s
  {
    if |s| > 0 {
      JoinedComponents(s[1..], sep);
      JoinedComponentsStep(s, sep);
    }
  }

  /** The inductive step: if re-joining works for the text after the first
      character, it works for the whole text. */
  lemma JoinedComponentsStep(s: string, sep: char)
    requires |s| > 0
    requires Joined(Components(s[1..], sep), sep) == s[1..]
    ensures Joined(Components(s, sep), sep) == s
  {
    var rest := Components(s[1..], sep);
    if s[0] == sep {
      assert Components(s, sep) == [""] + rest;
      JoinedConsEmpty(rest, sep);
    } else {
      assert Components(s, sep) == [[s[0]] + rest[0]] + rest[1..];
      JoinedConsFirst(s[0], rest, sep);
    }
    assert s == [s[0]] + s[1..];
  }

  /** An empty first piece contributes just the separator to the join. */
  lemma JoinedConsEmpty(parts: seq<string>, sep: char)
    requires |parts| >= 1
    ensures Joined([""] + parts, sep) == [sep] + Joined(parts, sep)
  {
    assert ([""] + parts)[1..] == parts;
  }

  /** Prepending a character to the first piece prepends it to the join. */
  lemma JoinedConsFirst(c: char, parts: seq<string>, sep: char)
    requires |parts| >= 1
    ensures Joined([[c] + parts[0]] + parts[1..], sep) == [c] + Joined(parts, sep)
  {
    var ps := [[c] + parts[0]] + parts[1..];
    assert ps[1..] == parts[1..];
  }

  /** Joining pieces that do not contain the separator and splitting again
      gives back the pieces. */
  lemma {:induction false} ComponentsJoined(parts: seq<string>, sep: char)
    requires |parts| >= 1
    requires forall i :: 0 <= i < |parts| ==> sep !in parts[i]
    ensures Components(Joined(parts, sep), sep) == parts
  {
    if |parts| == 1 {
      ComponentsWithoutSeparator(parts[0], sep);
    } else {
      var tail := Joined(parts[1..], sep);
      ComponentsJoined(parts[1..], sep);
      ComponentsOfPieceThenRest(parts[0], tail, sep);
      assert [parts[0]] + parts[1..] == parts;
    }
  }

  /** A string without the separator is a single piece. */
  lemma {:induction false} ComponentsWithoutSeparator(w: string, sep: char)
    requires sep !in w
    ensures Components(w, sep) == [w]
  {
    if |w| > 0 {
      ComponentsWithoutSeparator(w[1..], sep);
      assert [w[0]] + w[1..] == w;
    }
  }

  /** The pieces of `w + [sep] + t`, where `w` holds no separator, are `w`
      followed by the pieces of `t`. */
  lemma {:induction false} ComponentsOfPieceThenRest(w: string, t: string, sep: char)
    requires sep !in w
    ensures Components(w + [sep] + t, sep) == [w] + Components(t, sep)
  {
    var s := w + [sep] + t;
    if |w| == 0 {
      assert s[1..] == t;
    } else {
      assert s[1..] == w[1..] + [sep] + t;
      ComponentsOfPieceThenRest(w[1..], t, sep);
      assert [w[0]] + w[1..] == w;
    }
  }
}
