/** The JavaScript string primitives the widget and the page call: `trim`,
    `toLowerCase`, `split` and `join` with a one-character separator,
    `startsWith` and `endsWith`; and LastIndexOf, the helper with which the
    lemmas name the last separator that `split(...).pop()` cuts at. Strings
    are sequences of characters. */
module Text {

  /** ECMAScript WhiteSpace and LineTerminator code points, the characters
      `String.prototype.trim` removes. */
  predicate IsWhitespace(c: char) {
    c == '\t' || c == '\n' || c == '\U{B}' || c == '\U{C}' || c == '\r' || c == ' ' ||
    c == '\U{A0}' || c == '\U{1680}' || ('\U{2000}' <= c <= '\U{200A}') ||
    c == '\U{2028}' || c == '\U{2029}' || c == '\U{202F}' || c == '\U{205F}' ||
    c == '\U{3000}' || c == '\U{FEFF}'
  }

  predicate AllWhitespace(s: string) {
    forall k :: 0 <= k < |s| ==> IsWhitespace(s[k])
  }

  /** `s` with its leading whitespace removed: a suffix of `s` that does
      not start with whitespace; TrimStartDropsWhitespace shows that what it
      drops is whitespace. */
  function TrimStart(s: string): (r: string)
    ensures |r| <= |s| && r == s[|s| - |r|..]
    ensures r == [] || !IsWhitespace(r[0])
  {
    if s != [] && IsWhitespace(s[0]) then TrimStart(s[1..]) else s
  }

  lemma {:induction false} TrimStartDropsWhitespace(s: string)
    ensures forall k :: 0 <= k < |s| - |TrimStart(s)| ==> IsWhitespace(s[k])
    decreases |s|
  {
    if s != [] && IsWhitespace(s[0]) {
      TrimStartDropsWhitespace(s[1..]);
      assert forall k :: 1 <= k < |s| ==> s[k] == s[1..][k - 1];
    }
  }

  /** `s` with its trailing whitespace removed: a prefix of `s` that does
      not end with whitespace; TrimEndDropsWhitespace shows that what it
      drops is whitespace. */
  function TrimEnd(s: string): (r: string)
    ensures |r| <= |s| && r == s[..|r|]
    ensures r == [] || !IsWhitespace(r[|r| - 1])
  {
    if s != [] && IsWhitespace(s[|s| - 1]) then TrimEnd(s[..|s| - 1]) else s
  }

  lemma {:induction false} TrimEndDropsWhitespace(s: string)
    ensures forall k :: |TrimEnd(s)| <= k < |s| ==> IsWhitespace(s[k])
    decreases |s|
  {
    if s != [] && IsWhitespace(s[|s| - 1]) {
      TrimEndDropsWhitespace(s[..|s| - 1]);
      assert forall k :: 0 <= k < |s| - 1 ==> s[k] == s[..|s| - 1][k];
    }
  }

  /** `String.prototype.trim`. */
  function Trim(s: string): string {
    TrimEnd(TrimStart(s))
  }

  /** A string that neither starts nor ends with white space trims to
      itself. */
  lemma TrimKeepsTrimmed(s: string)
    requires s == [] || (!IsWhitespace(s[0]) && !IsWhitespace(s[|s| - 1]))
    ensures Trim(s) == s
  {
  }

  /** How many leading characters `trim` removes. */
  function TrimOffset(s: string): nat {
    |s| - |TrimStart(s)|
  }

  /** The trimmed string is a contiguous slice of the input, with only
      whitespace cut off on either side, and neither end of it is
      whitespace. */
  lemma TrimIsInnerSlice(s: string)
    ensures TrimOffset(s) + |Trim(s)| <= |s|
    ensures Trim(s) == s[TrimOffset(s)..TrimOffset(s) + |Trim(s)|]
    ensures forall k :: 0 <= k < TrimOffset(s) ==> IsWhitespace(s[k])
    ensures forall k :: TrimOffset(s) + |Trim(s)| <= k < |s| ==> IsWhitespace(s[k])
    ensures Trim(s) == [] || (!IsWhitespace(Trim(s)[0]) && !IsWhitespace(Trim(s)[|Trim(s)| - 1]))
  {
    TrimSlice(s);
    TrimStartDropsWhitespace(s);
    TrimCutsWhitespace(s);
    TrimEnds(s);
  }

  lemma TrimSlice(s: string)
    ensures TrimOffset(s) + |Trim(s)| <= |s|
    ensures Trim(s) == s[TrimOffset(s)..TrimOffset(s) + |Trim(s)|]
  {
    var t := TrimStart(s);
    var i := |s| - |t|;
    var r := TrimEnd(t);
    SliceOfSuffix(s, i, |r|);
  }

  lemma SliceOfSuffix(s: string, i: nat, n: nat)
    requires i + n <= |s|
    ensures s[i..][..n] == s[i..i + n]
  {
  }

  lemma TrimCutsWhitespace(s: string)
    ensures forall k :: TrimOffset(s) + |Trim(s)| <= k < |s| ==> IsWhitespace(s[k])
  {
    var t := TrimStart(s);
    var i := |s| - |t|;
    var r := TrimEnd(t);
    TrimEndDropsWhitespace(t);
    forall k | i + |r| <= k < |s| ensures IsWhitespace(s[k]) {
      assert s[k] == t[k - i];
    }
  }

  lemma TrimEnds(s: string)
    ensures Trim(s) == [] || (!IsWhitespace(Trim(s)[0]) && !IsWhitespace(Trim(s)[|Trim(s)| - 1]))
  {
    var t := TrimStart(s);
    var r := TrimEnd(t);
    if r != [] {
      assert r[0] == t[0];
    }
  }

  /** Trimming removes characters only, so a character absent from the
      input is absent from the result. */
  lemma TrimAbsent(s: string, c: char)
    requires c !in s
    ensures c !in Trim(s)
  {
    TrimSlice(s);
    AbsentFromSlice(s, TrimOffset(s), TrimOffset(s) + |Trim(s)|, c);
  }

  lemma AbsentFromSlice(s: string, i: nat, j: nat, c: char)
    requires i <= j <= |s| && c !in s
    ensures c !in s[i..j]
  {
    assert forall k :: i <= k < j ==> s[i..j][k - i] == s[k];
  }

  /** A string trims to the empty string exactly when every character of it
      is whitespace. */
  lemma TrimEmptyIff(s: string)
    ensures Trim(s) == [] <==> AllWhitespace(s)
  {
    var t := TrimStart(s);
    TrimStartDropsWhitespace(s);
    if Trim(s) == [] {
      TrimEndDropsWhitespace(t);
      assert AllWhitespace(t);
    } else {
      assert t != [];
      assert s[|s| - |t|] == t[0];
    }
  }

  /** `toLowerCase` on one character; only the ASCII letters are mapped. */
  function LowerChar(c: char): char {
    if 'A' <= c <= 'Z' then (c as int + 32) as char else c
  }

  predicate IsUpper(c: char) {
    'A' <= c <= 'Z'
  }

  /** `String.prototype.toLowerCase`, character by character. */
  function ToLower(s: string): (r: string)
    ensures |r| == |s|
    ensures forall k :: 0 <= k < |s| ==> !IsUpper(r[k])
    ensures forall k :: 0 <= k < |s| && !IsUpper(s[k]) ==> r[k] == s[k]
    ensures forall k :: 0 <= k < |s| && IsUpper(s[k]) ==> r[k] as int == s[k] as int + 32
  {
    seq(|s|, k requires 0 <= k < |s| => LowerChar(s[k]))
  }

  /** A string without upper-case letters lower-cases to itself. */
  lemma ToLowerKeepsLowerCase(s: string)
    requires forall k :: 0 <= k < |s| ==> !IsUpper(s[k])
    ensures ToLower(s) == s
  {
  }

  lemma ToLowerIdempotent(s: string)
    ensures ToLower(ToLower(s)) == ToLower(s)
  {
  }

  /** Lower-casing commutes with slicing. */
  lemma ToLowerSlice(s: string, i: nat, j: nat)
    requires i <= j <= |s|
    ensures ToLower(s[i..j]) == ToLower(s)[i..j]
  {
  }

  /** Lower-casing keeps every character that is not an upper-case letter in
      place, and maps no other character onto it. */
  lemma LowerCharKeeps(c: char, d: char)
    requires !IsUpper(d) && !('a' <= d <= 'z')
    ensures LowerChar(c) == d <==> c == d
  {
  }

  /** Lower-casing neither creates nor removes whitespace. */
  lemma LowerCharWhitespace(c: char)
    ensures IsWhitespace(LowerChar(c)) <==> IsWhitespace(c)
  {
  }

  /** Lower-casing a string that neither starts nor ends with whitespace
      gives one that does not either. */
  lemma ToLowerKeepsEnds(t: string)
    requires t == [] || (!IsWhitespace(t[0]) && !IsWhitespace(t[|t| - 1]))
    ensures ToLower(t) == [] || (!IsWhitespace(ToLower(t)[0]) && !IsWhitespace(ToLower(t)[|t| - 1]))
  {
    if t != [] {
      LowerCharWhitespace(t[0]);
      LowerCharWhitespace(t[|t| - 1]);
    }
  }

  /** A character that is no letter stays absent after lower-casing. */
  lemma ToLowerAbsent(s: string, d: char)
    requires !IsUpper(d) && !('a' <= d <= 'z') && d !in s
    ensures d !in ToLower(s)
  {
    forall k | 0 <= k < |s| ensures ToLower(s)[k] != d {
      LowerCharKeeps(s[k], d);
    }
  }

  predicate StartsWith(s: string, prefix: string) {
    |prefix| <= |s| && s[..|prefix|] == prefix
  }

  predicate EndsWith(s: string, suffix: string) {
    |suffix| <= |s| && s[|s| - |suffix|..] == suffix
  }

  /** The position of the last `c` in `s`, or -1: not a call of the code,
      but the helper that names the last separator, where
      `split(c).pop()` takes its last piece from. */
  function LastIndexOf(s: string, c: char): (r: int)
    ensures r == -1 <==> c !in s
    ensures r != -1 ==> 0 <= r < |s| && s[r] == c && c !in s[r + 1..]
  {
    if s == [] then -1
    else if s[|s| - 1] == c then |s| - 1
    else
      assert s == s[..|s| - 1] + [s[|s| - 1]];
      LastIndexOf(s[..|s| - 1], c)
  }

  /** `s.split(c)` for a one-character separator `c`: the pieces between the
      occurrences of `c`. Written here as "the pieces of the text before the
      last `c`, then the text after it"; SplitJoin and JoinSplit show that
      this is the unique decomposition the left-to-right JavaScript
      algorithm produces. */
  function Split(s: string, c: char): (r: seq<string>)
    ensures |r| >= 1
    ensures forall k :: 0 <= k < |r| ==> c !in r[k]
    decreases |s|
  {
    var j := LastIndexOf(s, c);
    if j == -1 then [s] else Split(s[..j], c) + [s[j + 1..]]
  }

  /** `xs.join(c)`: the pieces with one `c` between neighbours. */
  function Join(xs: seq<string>, c: char): string
    decreases |xs|
  {
    if |xs| == 0 then ""
    else if |xs| == 1 then xs[0]
    else Join(xs[..|xs| - 1], c) + [c] + xs[|xs| - 1]
  }

  /** Joining the pieces of a split gives the string back. */
  lemma {:induction false} SplitJoin(s: string, c: char)
    ensures Join(Split(s, c), c) == s
    decreases |s|
  {
    var j := LastIndexOf(s, c);
    if j != -1 {
      var front := Split(s[..j], c);
      SplitJoin(s[..j], c);
      var parts := front + [s[j + 1..]];
      assert Split(s, c) == parts;
      assert parts[..|parts| - 1] == front;
      assert Join(parts, c) == Join(front, c) + [c] + s[j + 1..];
      CutAt(s, j);
    }
  }

  lemma CutAt(s: string, j: nat)
    requires j < |s|
    ensures s == s[..j] + [s[j]] + s[j + 1..]
  {
  }

  /** The last piece of `a + [c] + b` begins right after the `c` when `b`
      holds no `c`. */
  lemma {:induction false} LastIndexOfAfter(a: string, c: char, b: string)
    requires c !in b
    ensures LastIndexOf(a + [c] + b, c) == |a|
    decreases |b|
  {
    var s := a + [c] + b;
    if b != [] {
      assert s[|s| - 1] == b[|b| - 1];
      assert s[..|s| - 1] == a + [c] + b[..|b| - 1];
      LastIndexOfAfter(a, c, b[..|b| - 1]);
    }
  }

  /** Splitting a join of separator-free pieces gives the pieces back, so a
      split is determined by its two properties (no piece holds `c`, and the
      join of the pieces is the input). */
  lemma {:induction false} JoinSplit(xs: seq<string>, c: char)
    requires |xs| >= 1
    requires forall k :: 0 <= k < |xs| ==> c !in xs[k]
    ensures Split(Join(xs, c), c) == xs
    decreases |xs|
  {
    if |xs| == 1 {
      assert LastIndexOf(xs[0], c) == -1;
    } else {
      var front := xs[..|xs| - 1];
      var last := xs[|xs| - 1];
      var jf := Join(front, c);
      assert Join(xs, c) == jf + [c] + last;
      assert c !in last;
      JoinSplitStep(jf, c, last);
      assert forall k :: 0 <= k < |front| ==> front[k] == xs[k];
      JoinSplit(front, c);
      assert xs == front + [last];
    }
  }

  lemma JoinSplitStep(a: string, c: char, b: string)
    requires c !in b
    ensures Split(a + [c] + b, c) == Split(a, c) + [b]
  {
    var s := a + [c] + b;
    LastIndexOfAfter(a, c, b);
    assert s[..|a|] == a;
    assert s[|a| + 1..] == b;
  }

  /** Splitting across one separator: the pieces of the text before it,
      then the pieces of the text after it. */
  lemma {:induction false} SplitConcat(x: string, c: char, y: string)
    ensures Split(x + [c] + y, c) == Split(x, c) + Split(y, c)
    decreases |y|
  {
    var j := LastIndexOf(y, c);
    if j == -1 {
      JoinSplitStep(x, c, y);
    } else {
      var y1 := y[..j];
      var y2 := y[j + 1..];
      assert y == y1 + [c] + y2;
      assert x + [c] + y == (x + [c] + y1) + [c] + y2;
      JoinSplitStep(x + [c] + y1, c, y2);
      SplitConcat(x, c, y1);
      JoinSplitStep(y1, c, y2);
    }
  }

  /** The last piece of a split is the text after the last separator, or the
      whole string when there is none; the pieces before it join to the text
      before that separator, or to the empty string. */
  lemma SplitAtLast(s: string, c: char)
    ensures var parts := Split(s, c);
      var j := LastIndexOf(s, c);
      (j == -1 ==> parts[|parts| - 1] == s && Join(parts[..|parts| - 1], c) == "") &&
      (j != -1 ==> parts[|parts| - 1] == s[j + 1..] && Join(parts[..|parts| - 1], c) == s[..j])
  {
    var j := LastIndexOf(s, c);
    if j != -1 {
      var parts := Split(s, c);
      assert parts[..|parts| - 1] == Split(s[..j], c);
      SplitJoin(s[..j], c);
    }
  }
}
