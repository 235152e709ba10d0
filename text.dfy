/** The operations of Rust's `str` that the HTTP layer is built from:
    `contains`, `trim`, `split_whitespace`, `split_once`, `split`, `lines`,
    `ends_with`, `len` (a UTF-8 byte count) and the decimal formatting of an
    unsigned integer. A string is a sequence of Unicode scalar values, as a
    Rust `&str` is a sequence of `char`s. */
module Text {
  import opened Wrappers

  /** Rust's `char::is_whitespace`: the Unicode White_Space property. */
  predicate IsWhitespace(c: char) {
    var n := c as int;
    (9 <= n <= 13) || n == 32 || n == 0x85 || n == 0xA0 || n == 0x1680
    || (0x2000 <= n <= 0x200A) || n == 0x2028 || n == 0x2029 || n == 0x202F
    || n == 0x205F || n == 0x3000
  }

  predicate AllWhitespace(s: string) {
    forall i :: 0 <= i < |s| ==> IsWhitespace(s[i])
  }

  predicate NoWhitespace(s: string) {
    forall i :: 0 <= i < |s| ==> !IsWhitespace(s[i])
  }

  // ---------------------------------------------------------------------
  // str::contains with a string pattern

  /** `pat` occurs in `s` starting at index `i`. */
  predicate OccursAt(s: string, pat: string, i: int) {
    0 <= i && i + |pat| <= |s| && s[i..i + |pat|] == pat
  }

  lemma OccursShift(s: string, pat: string)
    requires |s| > 0
    ensures forall i :: OccursAt(s[1..], pat, i) ==> OccursAt(s, pat, i + 1)
    ensures forall i :: OccursAt(s, pat, i) && i > 0 ==> OccursAt(s[1..], pat, i - 1)
  {
    forall i | OccursAt(s[1..], pat, i) ensures OccursAt(s, pat, i + 1) {
      assert s[1..][i..i + |pat|] == s[i + 1..i + 1 + |pat|];
    }
    forall i | OccursAt(s, pat, i) && i > 0 ensures OccursAt(s[1..], pat, i - 1) {
      assert s[1..][i - 1..i - 1 + |pat|] == s[i..i + |pat|];
    }
  }

  function Contains(s: string, pat: string): (b: bool)
    ensures b <==> exists i :: OccursAt(s, pat, i)
    decreases |s|
  {
    if |s| < |pat| then false
    else if s[..|pat|] == pat then assert OccursAt(s, pat, 0); true
    else
      assert !OccursAt(s, pat, 0);
      OccursShift(s, pat);
      Contains(s[1..], pat)
  }

  /** A one-character pattern occurs exactly when the character does. */
  lemma ContainsChar(s: string, c: char)
    ensures Contains(s, [c]) <==> c in s
  {
    if c in s {
      var i :| 0 <= i < |s| && s[i] == c;
      assert OccursAt(s, [c], i);
    }
    if Contains(s, [c]) {
      var i :| OccursAt(s, [c], i);
      assert s[i] == s[i..i + 1][0];
    }
  }

  /** A string that lacks one character of the pattern cannot contain it. */
  lemma MissingCharNotContained(s: string, pat: string, k: nat)
    requires k < |pat| && pat[k] !in s
    ensures !Contains(s, pat)
  {
  }

  // ---------------------------------------------------------------------
  // str::trim

  /** The number of whitespace characters `s` starts with. */
  function LeadingWhitespace(s: string): (n: nat)
    ensures n <= |s|
    decreases |s|
  {
    if s != [] && IsWhitespace(s[0]) then LeadingWhitespace(s[1..]) + 1 else 0
  }

  lemma {:induction false} LeadingWhitespaceSpec(s: string)
    ensures AllWhitespace(s[..LeadingWhitespace(s)])
    ensures LeadingWhitespace(s) < |s| ==> !IsWhitespace(s[LeadingWhitespace(s)])
    decreases |s|
  {
    if s != [] && IsWhitespace(s[0]) {
      var m := LeadingWhitespace(s[1..]);
      LeadingWhitespaceSpec(s[1..]);
      assert s[..m + 1] == [s[0]] + s[1..][..m];
    }
  }

  /** The number of whitespace characters `s` ends with. */
  function TrailingWhitespace(s: string): (n: nat)
    ensures n <= |s|
    decreases |s|
  {
    if s != [] && IsWhitespace(s[|s| - 1]) then TrailingWhitespace(s[..|s| - 1]) + 1 else 0
  }

  lemma {:induction false} TrailingWhitespaceSpec(s: string)
    ensures AllWhitespace(s[|s| - TrailingWhitespace(s)..])
    ensures TrailingWhitespace(s) < |s| ==> !IsWhitespace(s[|s| - TrailingWhitespace(s) - 1])
    decreases |s|
  {
    if s != [] && IsWhitespace(s[|s| - 1]) {
      var init := s[..|s| - 1];
      var m := TrailingWhitespace(init);
      TrailingWhitespaceSpec(init);
      assert TrailingWhitespace(s) == m + 1;
      forall i | |s| - (m + 1) <= i < |s| ensures IsWhitespace(s[i]) {
        if i < |s| - 1 {
          assert s[i] == init[|init| - m..][i - (|init| - m)];
        }
      }
      if m + 1 < |s| {
        assert s[|s| - (m + 1) - 1] == init[|init| - m - 1];
      }
    }
  }

  function TrimStart(s: string): string {
    s[LeadingWhitespace(s)..]
  }

  function TrimEnd(s: string): string {
    s[..|s| - TrailingWhitespace(s)]
  }

  /** Neither the first nor the last character is whitespace. */
  predicate IsTrimmed(s: string) {
    s == [] || (!IsWhitespace(s[0]) && !IsWhitespace(s[|s| - 1]))
  }

  /** Rust's `trim`: what it returns is trimmed; `TrimDecomposes` says it
      removes only whitespace. */
  function Trim(s: string): (r: string)
    ensures IsTrimmed(r)
  {
    var t := TrimStart(s);
    LeadingWhitespaceSpec(s);
    TrailingWhitespaceSpec(t);
    assert TrimEnd(t) != [] ==> TrimEnd(t)[0] == t[0];
    TrimEnd(t)
  }

  /** Trim removes only whitespace: `s` is the trimmed string between two
      runs of whitespace. */
  lemma TrimDecomposes(s: string)
    ensures exists p, q :: AllWhitespace(p) && AllWhitespace(q) && s == p + Trim(s) + q
  {
    var p, q := TrimmedAway(s);
  }

  /** What `trim` returns is found inside its input. */
  lemma TrimKeeps(s: string, c: char)
    requires c !in s
    ensures c !in Trim(s)
  {
    var p, q := TrimmedAway(s);
    assert forall i :: 0 <= i < |Trim(s)| ==> Trim(s)[i] == s[|p| + i];
  }

  /** The whitespace `trim` removes from the front and from the back. */
  lemma TrimmedAway(s: string) returns (p: string, q: string)
    ensures AllWhitespace(p) && AllWhitespace(q) && s == p + Trim(s) + q
  {
    var t := TrimStart(s);
    p := s[..LeadingWhitespace(s)];
    q := t[|t| - TrailingWhitespace(t)..];
    assert AllWhitespace(p) by {
      LeadingWhitespaceSpec(s);
    }
    assert AllWhitespace(q) by {
      TrailingWhitespaceSpec(t);
    }
    var r := Trim(s);
    assert s == p + t;
    assert t == r + q;
    assert p + (r + q) == p + r + q;
  }

  lemma {:induction false} LeadingWhitespaceOfPadded(p: string, r: string)
    requires AllWhitespace(p) && (r != [] ==> !IsWhitespace(r[0]))
    ensures LeadingWhitespace(p + r) == |p|
    decreases |p|
  {
    var s := p + r;
    if p != [] {
      assert s[0] == p[0] && IsWhitespace(p[0]);
      assert s[1..] == p[1..] + r;
      assert AllWhitespace(p[1..]) by {
        assert forall i :: 0 <= i < |p[1..]| ==> p[1..][i] == p[i + 1];
      }
      LeadingWhitespaceOfPadded(p[1..], r);
    } else {
      assert s == r;
    }
  }

  lemma {:induction false} TrailingWhitespaceOfPadded(r: string, q: string)
    requires AllWhitespace(q) && (r != [] ==> !IsWhitespace(r[|r| - 1]))
    ensures TrailingWhitespace(r + q) == |q|
    decreases |q|
  {
    var s := r + q;
    if q != [] {
      var init := q[..|q| - 1];
      assert s[|s| - 1] == q[|q| - 1] && IsWhitespace(q[|q| - 1]);
      assert s[..|s| - 1] == r + init;
      assert AllWhitespace(init) by {
        assert forall i :: 0 <= i < |init| ==> init[i] == q[i];
      }
      TrailingWhitespaceOfPadded(r, init);
    } else {
      assert s == r;
    }
  }

  /** A trimmed string is its own trim. */
  lemma TrimOfTrimmed(s: string)
    requires IsTrimmed(s)
    ensures Trim(s) == s
  {
    TrimPadded([], s, []);
    assert [] + s + [] == s;
  }

  /** Trim removes exactly the whitespace around a trimmed string. */
  lemma {:induction false} TrimPadded(p: string, r: string, q: string)
    requires AllWhitespace(p) && AllWhitespace(q) && IsTrimmed(r)
    ensures Trim(p + r + q) == r
  {
    if r == [] {
      assert p + r + q == p + q;
      assert AllWhitespace(p + q);
      LeadingWhitespaceOfPadded(p + q, []);
      assert p + q + [] == p + q;
    } else {
      assert p + r + q == p + (r + q);
      LeadingWhitespaceOfPadded(p, r + q);
      assert TrimStart(p + r + q) == r + q;
      TrailingWhitespaceOfPadded(r, q);
    }
  }

  // ---------------------------------------------------------------------
  // str::split_whitespace

  /** The length of the run of non-whitespace characters `s` starts with. */
  function WordLength(s: string): (n: nat)
    ensures n <= |s|
    ensures NoWhitespace(s[..n])
    ensures n < |s| ==> IsWhitespace(s[n])
    decreases |s|
  {
    if s != [] && !IsWhitespace(s[0]) then
      var m := WordLength(s[1..]);
      assert s[..m + 1] == [s[0]] + s[1..][..m];
      m + 1
    else 0
  }

  /** The words of `s`: its maximal runs of non-whitespace characters. */
  function SplitWhitespace(s: string): (words: seq<string>)
    ensures forall i :: 0 <= i < |words| ==> words[i] != [] && NoWhitespace(words[i])
    decreases |s|
  {
    if s == [] then []
    else if IsWhitespace(s[0]) then SplitWhitespace(s[1..])
    else
      var n := WordLength(s);
      [s[..n]] + SplitWhitespace(s[n..])
  }

  /** The words joined by single spaces. */
  function Unwords(words: seq<string>): string {
    if words == [] then []
    else if |words| == 1 then words[0]
    else words[0] + " " + Unwords(words[1..])
  }

  lemma WordLengthOfWord(w: string, rest: string)
    requires NoWhitespace(w) && (rest != [] ==> IsWhitespace(rest[0]))
    ensures WordLength(w + rest) == |w|
  {
    var s := w + rest;
    assert forall k :: 0 <= k < |w| ==> s[k] == w[k];
    assert forall k :: |w| < k <= |s| ==> s[..k][|w|] == rest[0];
  }

  /** Splitting words joined by spaces gives the words back. */
  lemma {:induction false} SplitWhitespaceUnwords(words: seq<string>)
    requires forall i :: 0 <= i < |words| ==> words[i] != [] && NoWhitespace(words[i])
    ensures SplitWhitespace(Unwords(words)) == words
    decreases |words|
  {
    if words == [] {
    } else if |words| == 1 {
      var w := words[0];
      WordLengthOfWord(w, []);
      assert w + [] == w;
      assert w[|w|..] == [];
    } else {
      var w, rest := words[0], Unwords(words[1..]);
      var s := w + " " + rest;
      assert s == w + (" " + rest);
      WordLengthOfWord(w, " " + rest);
      assert s[..|w|] == w;
      assert s[|w|..] == " " + rest;
      assert (" " + rest)[1..] == rest;
      SplitWhitespaceUnwords(words[1..]);
    }
  }

  /** Words laid out between runs of whitespace: `seps[0]`, `words[0]`,
      `seps[1]`, …, `words[n - 1]`, `seps[n]`. */
  function Spaced(seps: seq<string>, words: seq<string>): string
    requires |seps| == |words| + 1
    decreases |words|
  {
    if words == [] then seps[0] else seps[0] + words[0] + Spaced(seps[1..], words[1..])
  }

  /** The runs are whitespace, those between two words are not empty, and
      the words are non-empty and hold no whitespace. */
  ghost predicate WellSpaced(seps: seq<string>, words: seq<string>) {
    |seps| == |words| + 1
    && (forall i :: 0 <= i < |seps| ==> AllWhitespace(seps[i]))
    && (forall i :: 0 < i < |words| ==> seps[i] != [])
    && (forall i :: 0 <= i < |words| ==> words[i] != [] && NoWhitespace(words[i]))
  }

  /** Leading whitespace is skipped. */
  lemma {:induction false} SplitWhitespaceSkip(p: string, s: string)
    requires AllWhitespace(p)
    ensures SplitWhitespace(p + s) == SplitWhitespace(s)
    decreases |p|
  {
    if p != [] {
      assert (p + s)[0] == p[0];
      assert (p + s)[1..] == p[1..] + s;
      assert AllWhitespace(p[1..]) by {
        assert forall i :: 0 <= i < |p[1..]| ==> p[1..][i] == p[i + 1];
      }
      SplitWhitespaceSkip(p[1..], s);
    } else {
      assert p + s == s;
    }
  }

  /** A word followed by whitespace or by nothing is the first word. */
  lemma SplitWhitespaceWord(w: string, rest: string)
    requires w != [] && NoWhitespace(w) && (rest != [] ==> IsWhitespace(rest[0]))
    ensures SplitWhitespace(w + rest) == [w] + SplitWhitespace(rest)
  {
    var s := w + rest;
    WordLengthOfWord(w, rest);
    assert s[0] == w[0];
    assert s[..|w|] == w && s[|w|..] == rest;
  }

  lemma SpacedStart(seps: seq<string>, words: seq<string>)
    requires |seps| == |words| + 1 && AllWhitespace(seps[0])
    requires words != [] ==> seps[0] != []
    ensures Spaced(seps, words) != [] ==> IsWhitespace(Spaced(seps, words)[0])
  {
    if words != [] {
      assert Spaced(seps, words)[0] == seps[0][0];
    }
  }

  lemma WellSpacedTail(seps: seq<string>, words: seq<string>)
    requires WellSpaced(seps, words) && words != []
    ensures WellSpaced(seps[1..], words[1..])
  {
    assert forall i :: 0 <= i < |seps| - 1 ==> seps[1..][i] == seps[i + 1];
    assert forall i :: 0 <= i < |words| - 1 ==> words[1..][i] == words[i + 1];
  }

  /** `split_whitespace` gives back the words however they are spaced. */
  lemma {:induction false} SplitWhitespaceSpaced(seps: seq<string>, words: seq<string>)
    requires WellSpaced(seps, words)
    ensures SplitWhitespace(Spaced(seps, words)) == words
    decreases |words|
  {
    if words == [] {
      SplitWhitespaceSkip(seps[0], []);
      assert seps[0] + [] == seps[0];
    } else {
      var rest := Spaced(seps[1..], words[1..]);
      WellSpacedTail(seps, words);
      SpacedStart(seps[1..], words[1..]);
      SplitWhitespaceSpaced(seps[1..], words[1..]);
      SplitWhitespaceWord(words[0], rest);
      assert Spaced(seps, words) == seps[0] + (words[0] + rest);
      SplitWhitespaceSkip(seps[0], words[0] + rest);
      assert [words[0]] + words[1..] == words;
    }
  }

  /** One more whitespace character in front of the first run. */
  lemma SpacedGrowRun(c: char, seps: seq<string>, words: seq<string>)
    requires |seps| == |words| + 1
    ensures Spaced([[c] + seps[0]] + seps[1..], words) == [c] + Spaced(seps, words)
  {
    var seps' := [[c] + seps[0]] + seps[1..];
    assert seps'[1..] == seps[1..];
  }

  lemma WellSpacedGrowRun(c: char, seps: seq<string>, words: seq<string>)
    requires WellSpaced(seps, words) && IsWhitespace(c)
    ensures WellSpaced([[c] + seps[0]] + seps[1..], words)
  {
    var seps' := [[c] + seps[0]] + seps[1..];
    assert forall i :: 0 < i < |seps'| ==> seps'[i] == seps[i];
    assert forall i :: 0 < i < |seps'[0]| ==> seps'[0][i] == seps[0][i - 1];
  }

  /** One more word in front, with an empty run before it. */
  lemma SpacedWord(w: string, seps: seq<string>, words: seq<string>)
    requires |seps| == |words| + 1
    ensures Spaced([[]] + seps, [w] + words) == w + Spaced(seps, words)
  {
    var seps', words' := [[]] + seps, [w] + words;
    assert seps'[0] + words'[0] == w;
    assert seps'[1..] == seps && words'[1..] == words;
  }

  lemma WellSpacedWord(w: string, seps: seq<string>, words: seq<string>)
    requires WellSpaced(seps, words) && w != [] && NoWhitespace(w)
    requires words != [] ==> seps[0] != []
    ensures WellSpaced([[]] + seps, [w] + words)
  {
    var seps', words' := [[]] + seps, [w] + words;
    assert forall i :: 0 < i < |seps'| ==> seps'[i] == seps[i - 1];
    assert forall i :: 0 < i < |words'| ==> words'[i] == words[i - 1];
  }

  /** The spacing of a string that starts with whitespace, from that of its tail. */
  lemma SpacingOfRun(s: string, seps': seq<string>) returns (seps: seq<string>)
    requires s != [] && IsWhitespace(s[0])
    requires WellSpaced(seps', SplitWhitespace(s[1..])) && s[1..] == Spaced(seps', SplitWhitespace(s[1..]))
    ensures WellSpaced(seps, SplitWhitespace(s)) && s == Spaced(seps, SplitWhitespace(s)) && seps[0] != []
  {
    var words := SplitWhitespace(s[1..]);
    seps := [[s[0]] + seps'[0]] + seps'[1..];
    SpacedGrowRun(s[0], seps', words);
    WellSpacedGrowRun(s[0], seps', words);
    assert s == [s[0]] + s[1..];
  }

  /** The spacing of a string that starts with a word, from that of what follows the word. */
  lemma SpacingOfWord(s: string, seps': seq<string>) returns (seps: seq<string>)
    requires s != [] && !IsWhitespace(s[0])
    requires var t := s[WordLength(s)..];
      WellSpaced(seps', SplitWhitespace(t)) && t == Spaced(seps', SplitWhitespace(t))
      && (t != [] && IsWhitespace(t[0]) ==> seps'[0] != [])
    ensures WellSpaced(seps, SplitWhitespace(s)) && s == Spaced(seps, SplitWhitespace(s))
  {
    var n := WordLength(s);
    var w, t := s[..n], s[n..];
    seps := [[]] + seps';
    SpacedWord(w, seps', SplitWhitespace(t));
    WellSpacedWord(w, seps', SplitWhitespace(t));
    assert s == w + t;
  }

  /** The whitespace runs around and between the words of `s`. */
  lemma {:induction false} SpacingOf(s: string) returns (seps: seq<string>)
    ensures WellSpaced(seps, SplitWhitespace(s)) && s == Spaced(seps, SplitWhitespace(s))
    ensures s != [] && IsWhitespace(s[0]) ==> seps[0] != []
    decreases |s|
  {
    if s == [] {
      seps := [[]];
    } else if IsWhitespace(s[0]) {
      var seps' := SpacingOf(s[1..]);
      seps := SpacingOfRun(s, seps');
    } else {
      var seps' := SpacingOf(s[WordLength(s)..]);
      seps := SpacingOfWord(s, seps');
    }
  }

  /** Every string is its words laid out between whitespace runs. */
  lemma SplitWhitespaceDecomposes(s: string)
    ensures exists seps :: WellSpaced(seps, SplitWhitespace(s)) && s == Spaced(seps, SplitWhitespace(s))
  {
    var seps := SpacingOf(s);
  }

  // ---------------------------------------------------------------------
  // Character search, str::split_once, str::split

  /** The index of the first occurrence of `c` in `s`. */
  function IndexOf(s: string, c: char): (r: Option<nat>)
    ensures r.None? ==> c !in s
    ensures r.Some? ==> r.value < |s| && s[r.value] == c && c !in s[..r.value]
    decreases |s|
  {
    if s == [] then None
    else if s[0] == c then Some(0)
    else match IndexOf(s[1..], c)
      case None => None
      case Some(i) =>
        assert s[..i + 1] == [s[0]] + s[1..][..i];
        Some(i + 1)
  }

  /** Rust's `split_once` at a character: the parts before and after its
      first occurrence. */
  function SplitOnce(s: string, c: char): (r: Option<(string, string)>)
    ensures r.None? <==> c !in s
    ensures r.Some? ==> s == r.value.0 + [c] + r.value.1 && c !in r.value.0
  {
    match IndexOf(s, c)
    case None => None
    case Some(i) =>
      assert s == s[..i] + [c] + s[i + 1..];
      Some((s[..i], s[i + 1..]))
  }

  /** `split_once` succeeds exactly when `s` is `a`, `c`, `b` with no `c` in `a`. */
  lemma SplitOnceIff(s: string, c: char, a: string, b: string)
    ensures SplitOnce(s, c) == Some((a, b)) <==> s == a + [c] + b && c !in a
  {
    if s == a + [c] + b && c !in a {
      var i := IndexOf(s, c).value;
      assert s[|a|] == c;
      assert forall k :: 0 <= k < |a| ==> s[k] == a[k];
      assert i == |a|;
      assert s[..i] == a && s[i + 1..] == b;
    }
    if SplitOnce(s, c) == Some((a, b)) {
      var i := IndexOf(s, c).value;
      assert a == s[..i] && b == s[i + 1..];
      assert s == s[..i] + [c] + s[i + 1..];
    }
  }

  /** Rust's `split` at a character: the pieces between its occurrences. */
  function Split(s: string, c: char): (parts: seq<string>)
    ensures |parts| >= 1
    ensures forall i :: 0 <= i < |parts| ==> c !in parts[i]
    decreases |s|
  {
    match IndexOf(s, c)
    case None => [s]
    case Some(i) => [s[..i]] + Split(s[i + 1..], c)
  }

  /** `split` gives one more piece than there are separators. */
  lemma {:induction false} SplitCount(s: string, c: char)
    ensures |Split(s, c)| == multiset(s)[c] + 1
    decreases |s|
  {
    match IndexOf(s, c)
    case None =>
    case Some(i) =>
      assert s == s[..i] + [c] + s[i + 1..];
      SplitCount(s[i + 1..], c);
  }

  /** The pieces joined with `c` between them. */
  function Join(parts: seq<string>, c: char): string
    requires |parts| >= 1
  {
    if |parts| == 1 then parts[0] else parts[0] + [c] + Join(parts[1..], c)
  }

  lemma {:induction false} JoinSplit(s: string, c: char)
    ensures Join(Split(s, c), c) == s
    decreases |s|
  {
    match IndexOf(s, c)
    case None =>
    case Some(i) =>
      var rest := Split(s[i + 1..], c);
      assert Split(s, c) == [s[..i]] + rest;
      assert ([s[..i]] + rest)[1..] == rest;
      assert Join(Split(s, c), c) == s[..i] + [c] + Join(rest, c);
      JoinSplit(s[i + 1..], c);
      assert s == s[..i] + [c] + s[i + 1..];
  }

  lemma {:induction false} SplitJoin(parts: seq<string>, c: char)
    requires |parts| >= 1
    requires forall i :: 0 <= i < |parts| ==> c !in parts[i]
    ensures Split(Join(parts, c), c) == parts
    decreases |parts|
  {
    if |parts| > 1 {
      var rest := parts[1..];
      var tail := Join(rest, c);
      assert Join(parts, c) == parts[0] + [c] + tail;
      assert Split(Join(parts, c), c) == [parts[0]] + Split(tail, c) by {
        SplitAtFirst(parts[0], c, tail);
      }
      assert Split(tail, c) == rest by {
        assert forall j :: 0 <= j < |rest| ==> rest[j] == parts[j + 1];
        SplitJoin(rest, c);
      }
      assert [parts[0]] + rest == parts;
    }
  }

  /** The first piece of `split` ends at the first separator. */
  lemma SplitAtFirst(a: string, c: char, b: string)
    requires c !in a
    ensures Split(a + [c] + b, c) == [a] + Split(b, c)
  {
    var s := a + [c] + b;
    SplitOnceIff(s, c, a, b);
    var i := IndexOf(s, c).value;
    assert s[..i] == a && s[i + 1..] == b;
  }

  // ---------------------------------------------------------------------
  // str::lines

  /** Drops one carriage return at the end of a line. */
  function StripCarriageReturn(l: string): string {
    if l != [] && l[|l| - 1] == '\r' then l[..|l| - 1] else l
  }

  /** Rust's `lines`: the pieces between line feeds, each with one trailing
      carriage return removed; a final line feed does not start an empty
      last line, and a carriage return not followed by a line feed stays. */
  function Lines(s: string): (lines: seq<string>)
    ensures forall i :: 0 <= i < |lines| ==> '\n' !in lines[i]
    decreases |s|
  {
    if s == [] then []
    else match IndexOf(s, '\n')
      case None => [s]
      case Some(i) =>
        assert forall j :: 0 <= j < |StripCarriageReturn(s[..i])| ==> StripCarriageReturn(s[..i])[j] == s[j];
        [StripCarriageReturn(s[..i])] + Lines(s[i + 1..])
  }

  /** Every line followed by CRLF, as the lines of an HTTP message are sent. */
  function CrlfTerminated(lines: seq<string>): string {
    if lines == [] then [] else lines[0] + "\r\n" + CrlfTerminated(lines[1..])
  }

  /** Reading back CRLF-terminated lines gives the lines. */
  lemma {:induction false} LinesOfCrlfTerminated(lines: seq<string>)
    requires forall i :: 0 <= i < |lines| ==> '\n' !in lines[i]
    ensures Lines(CrlfTerminated(lines)) == lines
    decreases |lines|
  {
    if lines != [] {
      LinesAtFirst(lines[0], CrlfTerminated(lines[1..]));
      LinesOfCrlfTerminated(lines[1..]);
    }
  }

  /** Text without a line feed is one line, kept whole (a final `\r`
      included, since only `\r\n` is a line ending). */
  lemma LinesOfLine(s: string)
    requires s != [] && '\n' !in s
    ensures Lines(s) == [s]
  {
  }

  /** The first line ends at the first `\n`, and loses one `\r` before it:
      LF and CRLF endings are read alike. */
  lemma LinesAtNewline(l: string, rest: string)
    requires '\n' !in l
    ensures Lines(l + "\n" + rest) == [StripCarriageReturn(l)] + Lines(rest)
  {
    var s := l + "\n" + rest;
    SplitOnceIff(s, '\n', l, rest);
    var i := IndexOf(s, '\n').value;
    assert s[..i] == l && s[i + 1..] == rest;
  }

  lemma CrlfTerminatedThen(lines: seq<string>, last: string)
    requires lines != []
    ensures CrlfTerminated(lines) + last == lines[0] + "\r\n" + (CrlfTerminated(lines[1..]) + last)
  {
  }

  /** A last line without a line ending is read like the others. */
  lemma {:induction false} LinesOfUnterminated(lines: seq<string>, last: string)
    requires forall i :: 0 <= i < |lines| ==> '\n' !in lines[i]
    requires last != [] && '\n' !in last
    ensures Lines(CrlfTerminated(lines) + last) == lines + [last]
    decreases |lines|
  {
    if lines == [] {
      LinesOfLine(last);
      assert CrlfTerminated(lines) + last == last;
    } else {
      var tail := lines[1..];
      assert forall i :: 0 <= i < |tail| ==> '\n' !in tail[i] by {
        assert forall i :: 0 <= i < |tail| ==> tail[i] == lines[i + 1];
      }
      LinesOfUnterminated(tail, last);
      CrlfTerminatedThen(lines, last);
      LinesAtFirst(lines[0], CrlfTerminated(tail) + last);
      assert [lines[0]] + (tail + [last]) == lines + [last];
    }
  }

  /** The first line a CRLF ends is read without its CRLF. */
  lemma LinesAtFirst(l: string, rest: string)
    requires '\n' !in l
    ensures Lines(l + "\r\n" + rest) == [l] + Lines(rest)
  {
    var s := l + "\r\n" + rest;
    assert s == (l + ['\r']) + ['\n'] + rest;
    assert '\n' !in l + ['\r'];
    SplitOnceIff(s, '\n', l + ['\r'], rest);
    var i := IndexOf(s, '\n').value;
    assert s[..i] == l + ['\r'] && s[i + 1..] == rest;
    assert (l + ['\r'])[..|l|] == l;
  }

  /** Writing one more line appends it with its CRLF. */
  lemma {:induction false} CrlfTerminatedSnoc(lines: seq<string>, l: string)
    ensures CrlfTerminated(lines + [l]) == CrlfTerminated(lines) + l + "\r\n"
    decreases |lines|
  {
    if lines == [] {
      assert lines + [l] == [l];
    } else {
      assert (lines + [l])[1..] == lines[1..] + [l];
      CrlfTerminatedSnoc(lines[1..], l);
    }
  }

  /** Writing two runs of lines writes one after the other. */
  lemma {:induction false} CrlfTerminatedAppend(a: seq<string>, b: seq<string>)
    ensures CrlfTerminated(a + b) == CrlfTerminated(a) + CrlfTerminated(b)
    decreases |a|
  {
    if a != [] {
      assert (a + b)[1..] == a[1..] + b;
      CrlfTerminatedAppend(a[1..], b);
    } else {
      assert a + b == b;
    }
  }

  // ---------------------------------------------------------------------
  // str::ends_with and str::len

  /** Rust's `ends_with`: `s` is something followed by `suffix`. */
  function EndsWith(s: string, suffix: string): (b: bool)
    ensures b <==> exists p :: s == p + suffix
  {
    if |suffix| <= |s| && s[|s| - |suffix|..] == suffix then
      assert s == s[..|s| - |suffix|] + suffix;
      true
    else
      assert forall p :: (p + suffix)[|p|..] == suffix;
      false
  }

  predicate IsAscii(s: string) {
    forall i :: 0 <= i < |s| ==> (s[i] as int) < 0x80
  }

  /** The number of bytes UTF-8 uses for `c`. */
  function Utf8Width(c: char): nat {
    var n := c as int;
    if n < 0x80 then 1 else if n < 0x800 then 2 else if n < 0x1_0000 then 3 else 4
  }

  /** Rust's `str::len`: the length in bytes of the UTF-8 encoding. */
  function Utf8Length(s: string): (n: nat)
    ensures |s| <= n <= 4 * |s|
    ensures IsAscii(s) ==> n == |s|
    decreases |s|
  {
    if s == [] then 0 else Utf8Width(s[0]) + Utf8Length(s[1..])
  }

  // ---------------------------------------------------------------------
  // Formatting an unsigned integer with `{}`

  predicate IsDigit(c: char) {
    '0' <= c <= '9'
  }

  function DigitChar(d: nat): char
    requires d < 10
  {
    ('0' as int + d) as char
  }

  /** The decimal numeral of `n`, without leading zeros. */
  function Decimal(n: nat): (d: string)
    ensures d != []
    ensures forall i :: 0 <= i < |d| ==> IsDigit(d[i])
    ensures |d| > 1 ==> d[0] != '0'
  {
    if n < 10 then [DigitChar(n)] else Decimal(n / 10) + [DigitChar(n % 10)]
  }

  /** The number a string of decimal digits denotes. */
  function DecimalValue(d: string): nat
    requires forall i :: 0 <= i < |d| ==> IsDigit(d[i])
  {
    if d == [] then 0
    else
      assert IsDigit(d[|d| - 1]);
      10 * DecimalValue(d[..|d| - 1]) + (d[|d| - 1] as int - '0' as int)
  }

  /** Reading the numeral back gives the number. */
  lemma {:induction false} DecimalRoundTrip(n: nat)
    ensures DecimalValue(Decimal(n)) == n
  {
    if n >= 10 {
      DecimalRoundTrip(n / 10);
      var d := Decimal(n);
      assert d[..|d| - 1] == Decimal(n / 10);
    }
  }
}
