/** The Python string operations the SSP role derivation relies on:
    whitespace, `find`, slicing, `split`, `strip`, ASCII case mapping,
    and the first "(...)" group of a regular-expression search. */
module Text {
  import opened Common

  /** Python's `str.isspace()` for one character. */
  predicate IsSpace(c: char)
  {
    var n := c as int;
    || 0x09 <= n <= 0x0D
    || 0x1C <= n <= 0x20
    || n == 0x85 || n == 0xA0 || n == 0x1680
    || 0x2000 <= n <= 0x200A
    || n == 0x2028 || n == 0x2029 || n == 0x202F || n == 0x205F || n == 0x3000
  }

  /** `pat` occurs in `s` starting at index `k`. */
  predicate OccursAt(s: string, pat: string, k: nat)
  {
    k + |pat| <= |s| && s[k..k + |pat|] == pat
  }

  /** Python's `s.find(pat)`: the lowest index at which `pat` occurs, or -1
      (see `FindIsFirstOccurrence`). */
  function Find(s: string, pat: string): (r: int)
    ensures -1 <= r <= |s|
    decreases |s|
  {
    if OccursAt(s, pat, 0) then 0
    else if s == [] then -1
    else
      var r := Find(s[1..], pat);
      if r == -1 then -1 else r + 1
  }

  /** `Find` returns the first occurrence, and -1 exactly when there is none. */
  lemma {:induction false} FindIsFirstOccurrence(s: string, pat: string)
    ensures Find(s, pat) >= 0 ==>
      OccursAt(s, pat, Find(s, pat)) && forall k :: 0 <= k < Find(s, pat) ==> !OccursAt(s, pat, k)
    ensures Find(s, pat) == -1 <==> forall k :: 0 <= k <= |s| ==> !OccursAt(s, pat, k)
    decreases |s|
  {
    if !OccursAt(s, pat, 0) && s != [] {
      FindIsFirstOccurrence(s[1..], pat);
      forall k: nat | 1 <= k ensures OccursAt(s[1..], pat, k - 1) <==> OccursAt(s, pat, k) {
        if k + |pat| <= |s| {
          assert s[1..][k - 1..k - 1 + |pat|] == s[k..k + |pat|];
        }
      }
    }
  }

  /** Python's `s[:k]`, where a negative `k` counts from the end. */
  function SliceTo(s: string, k: int): (r: string)
    ensures r <= s
    ensures k >= 0 ==> |r| == if k <= |s| then k else |s|
    ensures k < 0 ==> |r| == if |s| + k >= 0 then |s| + k else 0
  {
    if k >= 0 then (if k <= |s| then s[..k] else s)
    else if |s| + k >= 0 then s[..|s| + k] else []
  }

  /** `group` is what the lazy pattern `\((.*?)\)` captures when its match
      starts at the first "(" of `s`, found at `a`. */
  ghost predicate GroupAt(s: string, a: nat, group: string)
  {
    && a + |group| + 1 < |s|
    && s[a] == '('
    && (forall j :: 0 <= j < a ==> s[j] != '(')
    && s[a + 1..a + 1 + |group|] == group
    && s[a + 1 + |group|] == ')'
    && (forall j :: 0 <= j < |group| ==> group[j] != ')')
  }

  /** The first group of Python's `re.search(r"\((.*?)\)", s)` on text
      without line breaks: the group from the first "(" to the first ")"
      after it, if there is one (see `ParenGroupIsFirstGroup`). */
  function ParenGroup(s: string): Option<string>
  {
    match FirstWhere(s, (ch: char) => ch == '(')
    case None => None
    case Some(a) =>
      match FirstWhere(s[a + 1..], (ch: char) => ch == ')')
      case None => None
      case Some(b) => Some(s[a + 1..a + 1 + b])
  }

  /** The search succeeds when some ")" follows some "(", and then its
      group starts right after the first "(" and ends at the first ")"
      after it. */
  lemma ParenGroupIsFirstGroup(s: string)
    ensures ParenGroup(s).Some? <==> exists a, b :: 0 <= a < b < |s| && s[a] == '(' && s[b] == ')'
    ensures ParenGroup(s).Some? ==> exists a :: GroupAt(s, a, ParenGroup(s).value)
  {
    match FirstWhere(s, (ch: char) => ch == '(')
    case None =>
    case Some(a) =>
      match FirstWhere(s[a + 1..], (ch: char) => ch == ')')
      case None =>
        assert forall a', b :: 0 <= a' < b < |s| && s[a'] == '(' ==> s[b] != ')' by {
          forall a', b | 0 <= a' < b < |s| && s[a'] == '(' ensures s[b] != ')' {
            assert s[a + 1..][b - a - 1] == s[b];
          }
        }
      case Some(b) =>
        var group := s[a + 1..a + 1 + b];
        assert s[a + 1 + b] == s[a + 1..][b];
        assert forall j :: 0 <= j < |group| ==> group[j] == s[a + 1..][j];
        assert GroupAt(s, a, group);
  }

  /** The first "(" and the first ")" after it fix the group: at most one
      group is captured. */
  lemma GroupAtUnique(s: string, a: nat, group: string, a': nat, group': string)
    requires GroupAt(s, a, group) && GroupAt(s, a', group')
    ensures a == a' && group == group'
  {
    assert a == a';
    assert forall j :: 0 <= j < |group| ==> s[a + 1 + j] == group[j];
    assert forall j :: 0 <= j < |group'| ==> s[a + 1 + j] == group'[j];
    assert |group| == |group'|;
  }

  /** Length of the word at the front of `s`: the characters before the
      first whitespace. */
  function WordLength(s: string): (n: nat)
    requires s != [] && !IsSpace(s[0])
    ensures 1 <= n <= |s|
    ensures forall i :: 0 <= i < n ==> !IsSpace(s[i])
    ensures n < |s| ==> IsSpace(s[n])
  {
    if |s| == 1 || IsSpace(s[1]) then 1 else 1 + WordLength(s[1..])
  }

  /** Python's `s.split()` with no separator: the maximal runs of
      non-whitespace characters, in order. */
  function Split(s: string): (words: seq<string>)
    ensures forall k :: 0 <= k < |words| ==> words[k] != []
    ensures forall k, i :: 0 <= k < |words| && 0 <= i < |words[k]| ==> !IsSpace(words[k][i])
    decreases |s|
  {
    if s == [] then []
    else if IsSpace(s[0]) then Split(s[1..])
    else
      var n := WordLength(s);
      [s[..n]] + Split(s[n..])
  }

  /** `s[i..j]` starts with non-whitespace and has whitespace, or an end of
      `s`, on either side; a word, which holds no whitespace (`Split`), so
      placed is a maximal run of non-whitespace. */
  predicate MaximalRun(s: string, i: int, j: int)
  {
    && 0 <= i < j <= |s| && !IsSpace(s[i])
    && (i == 0 || IsSpace(s[i - 1])) && (j == |s| || IsSpace(s[j]))
  }

  /** A maximal run `s[d..][i'..j']` of a suffix that starts at a boundary,
      at whitespace or at the front, is the maximal run `s[i..j]` of the
      whole text. */
  lemma ShiftRun(s: string, d: nat, i': nat, j': nat, i: nat, j: nat)
    requires d <= |s| && MaximalRun(s[d..], i', j') && i == d + i' && j == d + j'
    requires d == 0 || IsSpace(s[d - 1]) || IsSpace(s[d])
    ensures MaximalRun(s, i, j) && s[d..][i'..j'] == s[i..j]
  {
    assert s[d..][i'] == s[i];
  }

  /** Leading whitespace does not change the words. */
  lemma SplitPastSpace(s: string, k: nat)
    requires s != [] && IsSpace(s[0]) && k < |Split(s)|
    ensures k < |Split(s[1..])| && Split(s)[k] == Split(s[1..])[k]
  {
  }

  /** The first word of a text that starts with one. */
  lemma FirstWordRun(s: string)
    requires s != [] && !IsSpace(s[0])
    ensures MaximalRun(s, 0, WordLength(s)) && Split(s)[0] == s[0..WordLength(s)]
  {
    assert s[0..WordLength(s)] == s[..WordLength(s)];
  }

  /** Past the first word, word `k` of `s` is word `k - 1` of the rest. */
  lemma SplitPastFirstWord(s: string, k: nat)
    requires s != [] && !IsSpace(s[0]) && 0 < k < |Split(s)|
    ensures WordLength(s) < |s| && k - 1 < |Split(s[WordLength(s)..])|
    ensures Split(s)[k] == Split(s[WordLength(s)..])[k - 1]
  {
    assert Split(s) == [s[..WordLength(s)]] + Split(s[WordLength(s)..]);
  }

  /** Where the word `k` of `Split(s)` lies in `s`. */
  lemma SplitWordPosition(s: string, k: nat) returns (i: nat, j: nat)
    requires k < |Split(s)|
    ensures MaximalRun(s, i, j) && Split(s)[k] == s[i..j]
    decreases |s|, 1
  {
    assert s != [];
    if IsSpace(s[0]) {
      i, j := PositionPastSpace(s, k);
    } else if k == 0 {
      FirstWordRun(s);
      i, j := 0, WordLength(s);
    } else {
      i, j := PositionPastWord(s, k);
    }
  }

  /** `SplitWordPosition` for a text that starts with whitespace. */
  lemma PositionPastSpace(s: string, k: nat) returns (i: nat, j: nat)
    requires s != [] && IsSpace(s[0]) && k < |Split(s)|
    ensures MaximalRun(s, i, j) && Split(s)[k] == s[i..j]
    decreases |s|, 0
  {
    SplitPastSpace(s, k);
    var i', j' := SplitWordPosition(s[1..], k);
    i, j := 1 + i', 1 + j';
    ShiftRun(s, 1, i', j', i, j);
  }

  /** `SplitWordPosition` for a word after the first. */
  lemma PositionPastWord(s: string, k: nat) returns (i: nat, j: nat)
    requires s != [] && !IsSpace(s[0]) && 0 < k < |Split(s)|
    ensures MaximalRun(s, i, j) && Split(s)[k] == s[i..j]
    decreases |s|, 0
  {
    SplitPastFirstWord(s, k);
    var n := WordLength(s);
    var i', j' := SplitWordPosition(s[n..], k - 1);
    i, j := n + i', n + j';
    ShiftRun(s, n, i', j', i, j);
  }

  /** Every word of `Split(s)` is a maximal run of non-whitespace in `s`,
      so `split()` neither breaks a run apart nor joins two runs. */
  lemma SplitWordIsMaximalRun(s: string, k: nat)
    requires k < |Split(s)|
    ensures exists i, j :: MaximalRun(s, i, j) && Split(s)[k] == s[i..j]
  {
    var i, j := SplitWordPosition(s, k);
  }

  function Concat(words: seq<string>): string
  {
    if words == [] then [] else words[0] + Concat(words[1..])
  }

  /** The characters of `s` that are not whitespace, in order. */
  function NonSpace(s: string): string
  {
    if s == [] then []
    else if IsSpace(s[0]) then NonSpace(s[1..])
    else [s[0]] + NonSpace(s[1..])
  }

  lemma {:induction false} NonSpaceOfWord(s: string, n: nat)
    requires n <= |s|
    requires forall i :: 0 <= i < n ==> !IsSpace(s[i])
    ensures NonSpace(s) == s[..n] + NonSpace(s[n..])
    decreases n
  {
    if n > 0 {
      NonSpaceOfWord(s[1..], n - 1);
      assert s[1..][..n - 1] == s[1..n];
      assert s[1..][n - 1..] == s[n..];
      assert s[..n] == [s[0]] + s[1..n];
    }
  }

  /** Splitting loses nothing but whitespace: the words, put back
      together, are the text with its whitespace removed. */
  lemma {:induction false} SplitKeepsNonSpace(s: string)
    ensures Concat(Split(s)) == NonSpace(s)
    decreases |s|
  {
    if s != [] {
      if IsSpace(s[0]) {
        SplitKeepsNonSpace(s[1..]);
      } else {
        var n := WordLength(s);
        SplitKeepsNonSpace(s[n..]);
        NonSpaceOfWord(s, n);
        assert ([s[..n]] + Split(s[n..]))[1..] == Split(s[n..]);
      }
    }
  }

  /** The first letter of every word, as `"".join(w[0] for w in s.split())`. */
  function Initials(s: string): (r: string)
    ensures |r| == |Split(s)|
  {
    var words := Split(s);
    seq(|words|, k requires 0 <= k < |words| => words[k][0])
  }

  /** The characters of `s` that start a word: non-whitespace characters at
      the front or right after whitespace (`atBoundary` says whether the
      text before `s` ended at a boundary). */
  function WordStarts(s: string, atBoundary: bool): string
  {
    if s == [] then []
    else if IsSpace(s[0]) then WordStarts(s[1..], true)
    else (if atBoundary then [s[0]] else []) + WordStarts(s[1..], false)
  }

  lemma {:induction false} WordStartsSkipsWord(s: string, n: nat)
    requires n <= |s|
    requires forall i :: 0 <= i < n ==> !IsSpace(s[i])
    requires n < |s| ==> IsSpace(s[n])
    requires n > 0
    ensures WordStarts(s[1..], false) == WordStarts(s[n..], true)
    decreases n
  {
    if n == 1 {
      if |s| > 1 {
        assert s[1..][1..] == s[2..];
      }
    } else {
      WordStartsSkipsWord(s[1..], n - 1);
      assert s[1..][n - 1..] == s[n..];
    }
  }

  /** The initials are exactly the characters that start a word. */
  lemma {:induction false} InitialsAreWordStarts(s: string)
    ensures Initials(s) == WordStarts(s, true)
    decreases |s|
  {
    if s != [] {
      if IsSpace(s[0]) {
        InitialsAreWordStarts(s[1..]);
      } else {
        var n := WordLength(s);
        InitialsAreWordStarts(s[n..]);
        WordStartsSkipsWord(s, n);
        assert Split(s) == [s[..n]] + Split(s[n..]);
      }
    }
  }

  /** Number of whitespace characters at the front of `s`. */
  function LeadingSpace(s: string): (n: nat)
    ensures n <= |s|
    ensures forall i :: 0 <= i < n ==> IsSpace(s[i])
    ensures n < |s| ==> !IsSpace(s[n])
  {
    if s != [] && IsSpace(s[0]) then 1 + LeadingSpace(s[1..]) else 0
  }

  /** Where the whitespace at the back of `s` begins. */
  function TrailingSpaceStart(s: string): (m: nat)
    ensures m <= |s|
    ensures forall i :: m <= i < |s| ==> IsSpace(s[i])
    ensures m > 0 ==> !IsSpace(s[m - 1])
  {
    if s != [] && IsSpace(s[|s| - 1]) then TrailingSpaceStart(s[..|s| - 1]) else |s|
  }

  /** Python's `s.strip()`: the text without leading or trailing whitespace. */
  function Strip(s: string): string
  {
    var n := LeadingSpace(s);
    if n == |s| then []
    else
      var m := TrailingSpaceStart(s);
      assert n < m;
      s[n..m]
  }

  /** `Strip` removes whitespace, and only whitespace, from both ends. */
  lemma StripRemovesOuterSpace(s: string)
    ensures exists i, j :: (0 <= i <= j <= |s| && Strip(s) == s[i..j] &&
      (forall k :: 0 <= k < i ==> IsSpace(s[k])) && (forall k :: j <= k < |s| ==> IsSpace(s[k])))
    ensures Strip(s) != [] ==> !IsSpace(Strip(s)[0]) && !IsSpace(Strip(s)[|Strip(s)| - 1])
  {
    var n := LeadingSpace(s);
    if n == |s| {
      assert Strip(s) == s[|s|..|s|];
    } else {
      var m := TrailingSpaceStart(s);
      assert Strip(s) == s[n..m];
    }
  }

  /** ASCII upper-case letters become lower-case; everything else is kept. */
  function LowerChar(c: char): char
  {
    if 'A' <= c <= 'Z' then (c as int + 32) as char else c
  }

  /** ASCII lower-case letters become upper-case; everything else is kept. */
  function UpperChar(c: char): char
  {
    if 'a' <= c <= 'z' then (c as int - 32) as char else c
  }

  /** Python's `s.lower()` on ASCII letters. */
  function Lower(s: string): (r: string)
    ensures |r| == |s| && forall i :: 0 <= i < |s| ==> !('A' <= r[i] <= 'Z')
    ensures forall i :: 0 <= i < |s| ==> UpperChar(r[i]) == UpperChar(s[i])
  {
    seq(|s|, i requires 0 <= i < |s| => LowerChar(s[i]))
  }

  /** Python's `s.upper()` on ASCII letters. */
  function Upper(s: string): (r: string)
    ensures |r| == |s| && forall i :: 0 <= i < |s| ==> !('a' <= r[i] <= 'z')
    ensures forall i :: 0 <= i < |s| ==> LowerChar(r[i]) == LowerChar(s[i])
  {
    seq(|s|, i requires 0 <= i < |s| => UpperChar(s[i]))
  }

  /** Python's `s.replace(" ", "-")`: every space character becomes a hyphen. */
  function HyphenateSpaces(s: string): (r: string)
    ensures |r| == |s| && forall i :: 0 <= i < |s| ==> r[i] != ' '
    ensures forall i :: 0 <= i < |s| ==> (s[i] == ' ' ==> r[i] == '-') && (s[i] != ' ' ==> r[i] == s[i])
  {
    seq(|s|, i requires 0 <= i < |s| => if s[i] == ' ' then '-' else s[i])
  }
}
