/** The few operations of Python's `str` and `list` that the inline rules use,
    with Python's semantics: `find` returns -1 when absent, `split` with an explicit
    separator, `strip` with a set of characters, negative indices and clamped slices. */
module PyStr {
  import opened Wrappers

  /** `sub` occurs in `s` starting at index `k`. */
  predicate OccursAt(s: string, sub: string, k: int) {
    0 <= k && k + |sub| <= |s| && s[k..k + |sub|] == sub
  }

  /** Python's `s.find(sub, k)` for `k <= |s|`: the least index from `k` on where
      `sub` occurs, or -1 (that it is the least is `FindFromIsFirst`). */
  function FindFrom(s: string, sub: string, k: nat): (r: int)
    requires k <= |s|
    ensures r == -1 || (k <= r && OccursAt(s, sub, r))
    decreases |s| - k
  {
    if k + |sub| > |s| then -1
    else if s[k..k + |sub|] == sub then k
    else FindFrom(s, sub, k + 1)
  }

  /** `find` from `k` returns the first occurrence at or after `k`, and -1 only when
      there is none. */
  lemma {:induction false} FindFromIsFirst(s: string, sub: string, k: nat)
    requires k <= |s|
    ensures forall j :: k <= j && (j < FindFrom(s, sub, k) || FindFrom(s, sub, k) == -1) ==> !OccursAt(s, sub, j)
    decreases |s| - k
  {
    if k + |sub| <= |s| && s[k..k + |sub|] != sub {
      FindFromIsFirst(s, sub, k + 1);
    }
  }

  /** Python's `s.find(sub)`. */
  function Find(s: string, sub: string): (r: int)
    ensures -1 <= r <= |s|
    ensures r >= 0 ==> OccursAt(s, sub, r)
  {
    FindFrom(s, sub, 0)
  }

  /** `find` returns the first occurrence, and -1 only when there is none. */
  lemma FindIsFirst(s: string, sub: string)
    ensures Find(s, sub) >= 0 ==> forall k :: 0 <= k < Find(s, sub) ==> !OccursAt(s, sub, k)
    ensures Find(s, sub) == -1 ==> forall k :: !OccursAt(s, sub, k)
  {
    FindFromIsFirst(s, sub, 0);
  }

  /** Python's `sub in s`. */
  predicate Contains(s: string, sub: string) {
    Find(s, sub) >= 0
  }

  /** `sub in s` holds exactly when `sub` occurs somewhere in `s`. */
  lemma ContainsSpec(s: string, sub: string)
    ensures Contains(s, sub) <==> exists k :: OccursAt(s, sub, k)
  {
    FindIsFirst(s, sub);
    if Contains(s, sub) {
      assert OccursAt(s, sub, Find(s, sub));
    }
  }

  /** Python's `s.startswith(p)`. */
  predicate StartsWith(s: string, p: string) {
    |p| <= |s| && s[..|p|] == p
  }

  /** The first index at or after `k` that holds `c`, or -1: how a regular expression
      scans for one character. */
  function NextChar(s: string, c: char, k: nat): (r: int)
    requires k <= |s|
    ensures r == -1 || (k <= r < |s| && s[r] == c)
    decreases |s| - k
  {
    if k == |s| then -1 else if s[k] == c then k else NextChar(s, c, k + 1)
  }

  /** No `c` lies between `k` and the index `NextChar` returns. */
  lemma {:induction false} NextCharIsFirst(s: string, c: char, k: nat)
    requires k <= |s|
    ensures forall j :: k <= j < |s| && (j < NextChar(s, c, k) || NextChar(s, c, k) == -1) ==> s[j] != c
    decreases |s| - k
  {
    if k < |s| && s[k] != c {
      NextCharIsFirst(s, c, k + 1);
    }
  }

  /** For a one-character string, Python's `in` is membership of the character. */
  lemma ContainsChar(s: string, c: char)
    ensures Contains(s, [c]) <==> c in s
  {
    FindIsFirst(s, [c]);
    if c in s {
      var k :| 0 <= k < |s| && s[k] == c;
      assert OccursAt(s, [c], k);
    }
    if Contains(s, [c]) {
      var r := Find(s, [c]);
      assert s[r..r + 1] == [c];
      assert s[r] == c;
    }
  }

  /** The pieces of `s[k..]` between the non-overlapping occurrences of `sep`,
      scanned from the left. */
  function SplitFrom(s: string, sep: string, k: nat): (r: seq<string>)
    requires sep != "" && k <= |s|
    ensures |r| >= 1
    decreases |s| - k
  {
    var i := FindFrom(s, sep, k);
    if i < 0 then [s[k..]] else [s[k..i]] + SplitFrom(s, sep, i + |sep|)
  }

  /** Python's `s.split(sep)` with a non-empty separator. */
  function Split(s: string, sep: string): (r: seq<string>)
    requires sep != ""
    ensures |r| >= 1
  {
    SplitFrom(s, sep, 0)
  }

  /** Python's `sep.join(parts)`. */
  function Join(sep: string, parts: seq<string>): string
  {
    if |parts| == 0 then ""
    else if |parts| == 1 then parts[0]
    else parts[0] + sep + Join(sep, parts[1..])
  }

  lemma JoinCons(sep: string, x: string, tail: seq<string>)
    requires |tail| >= 1
    ensures Join(sep, [x] + tail) == x + sep + Join(sep, tail)
  {
    assert ([x] + tail)[1..] == tail;
  }

  /** A string is the concatenation of its three parts around two cut points. */
  lemma Reassemble(s: string, k: nat, i: nat, j: nat)
    requires k <= i <= j <= |s|
    ensures s[k..] == s[k..i] + s[i..j] + s[j..]
  {
  }

  lemma {:induction false} JoinSplitFrom(s: string, sep: string, k: nat)
    requires sep != "" && k <= |s|
    ensures Join(sep, SplitFrom(s, sep, k)) == s[k..]
    decreases |s| - k
  {
    var i := FindFrom(s, sep, k);
    if i >= 0 {
      var j := i + |sep|;
      JoinSplitFrom(s, sep, j);
      JoinCons(sep, s[k..i], SplitFrom(s, sep, j));
      Reassemble(s, k, i, j);
    }
  }

  /** Joining the pieces of a split with the same separator gives back the string. */
  lemma JoinSplit(s: string, sep: string)
    requires sep != ""
    ensures Join(sep, Split(s, sep)) == s
  {
    JoinSplitFrom(s, sep, 0);
  }

  /** A part `s[k..i]` of `s` holding no occurrence of `sep` that lies inside it
      does not contain `sep`. */
  lemma PieceFree(s: string, sep: string, k: nat, i: nat)
    requires k <= i <= |s|
    requires forall j :: k <= j && j + |sep| <= i ==> !OccursAt(s, sep, j)
    ensures !Contains(s[k..i], sep)
  {
    var p := s[k..i];
    if Contains(p, sep) {
      var j := Find(p, sep);
      assert p[j..j + |sep|] == s[k + j..k + j + |sep|];
      assert OccursAt(s, sep, k + j);
    }
  }

  /** No piece of a split contains the separator. */
  lemma {:induction false} SplitFromPieceFree(s: string, sep: string, k: nat, n: nat)
    requires sep != "" && k <= |s| && n < |SplitFrom(s, sep, k)|
    ensures !Contains(SplitFrom(s, sep, k)[n], sep)
    decreases |s| - k
  {
    var i := FindFrom(s, sep, k);
    if i >= 0 {
      var tail := SplitFrom(s, sep, i + |sep|);
      assert SplitFrom(s, sep, k) == [s[k..i]] + tail;
      if n == 0 {
        FindFromIsFirst(s, sep, k);
        PieceFree(s, sep, k, i);
      } else {
        SplitFromPieceFree(s, sep, i + |sep|, n - 1);
      }
    } else {
      FindFromIsFirst(s, sep, k);
      PieceFree(s, sep, k, |s|);
      assert s[k..|s|] == s[k..];
    }
  }

  lemma SplitPiecesFree(s: string, sep: string)
    requires sep != ""
    ensures forall p :: p in Split(s, sep) ==> !Contains(p, sep)
  {
    forall p | p in Split(s, sep) ensures !Contains(p, sep) {
      var n :| 0 <= n < |Split(s, sep)| && Split(s, sep)[n] == p;
      SplitFromPieceFree(s, sep, 0, n);
    }
  }

  /** The first piece of a split of `s[k..]` runs from `k` to the next occurrence of
      the separator, or to the end. */
  lemma FirstPieceFrom(s: string, sep: string, k: nat)
    requires sep != "" && k <= |s|
    ensures var p := SplitFrom(s, sep, k)[0];
      && k + |p| <= |s| && s[k..k + |p|] == p
      && !Contains(p, sep)
      && (k + |p| == |s| || OccursAt(s, sep, k + |p|))
      && forall j :: k <= j < k + |p| ==> !OccursAt(s, sep, j)
  {
    SplitFromPieceFree(s, sep, k, 0);
    FindFromIsFirst(s, sep, k);
  }

  /** The first piece of a split is the text before the first occurrence of the separator. */
  lemma FirstPiece(s: string, sep: string)
    requires sep != ""
    ensures var p := Split(s, sep)[0];
      && StartsWith(s, p)
      && !Contains(p, sep)
      && (|p| == |s| || OccursAt(s, sep, |p|))
  {
    FirstPieceFrom(s, sep, 0);
  }

  /** Joining with a separator splits at any inner boundary. */
  lemma {:induction false} JoinAt(sep: string, parts: seq<string>, k: nat)
    requires 0 < k < |parts|
    ensures Join(sep, parts) == Join(sep, parts[..k]) + sep + Join(sep, parts[k..])
    decreases k
  {
    if k > 1 {
      JoinAt(sep, parts[1..], k - 1);
      assert parts[1..][..k - 1] == parts[1..k];
      assert parts[1..][k - 1..] == parts[k..];
      assert parts[..k][1..] == parts[1..k];
    }
  }

  /** Python's `str.lower()` on the characters that matter here: ASCII upper case
      letters become lower case, every other character is kept. */
  function LowerChar(c: char): char {
    if 'A' <= c <= 'Z' then (c as int + 32) as char else c
  }

  function Lower(s: string): (r: string)
    ensures |r| == |s|
    ensures forall i :: 0 <= i < |s| ==> r[i] == LowerChar(s[i])
  {
    if s == [] then [] else [LowerChar(s[0])] + Lower(s[1..])
  }

  /** Where `lstrip` stops: the first index from `k` on whose character is not in `chars`. */
  function LeftEdge(s: string, chars: set<char>, k: nat): (r: nat)
    requires k <= |s|
    ensures k <= r <= |s| && (r == |s| || s[r] !in chars)
    ensures forall i :: k <= i < r ==> s[i] in chars
    decreases |s| - k
  {
    if k < |s| && s[k] in chars then LeftEdge(s, chars, k + 1) else k
  }

  /** Where `rstrip` stops when it may not cross `lo`: the end of the last character
      before `j` that is not in `chars`, or `lo`. */
  function RightEdge(s: string, chars: set<char>, lo: nat, j: nat): (r: nat)
    requires lo <= j <= |s|
    ensures lo <= r <= j && (r == lo || s[r - 1] !in chars)
    ensures forall i :: r <= i < j ==> s[i] in chars
    decreases j - lo
  {
    if lo < j && s[j - 1] in chars then RightEdge(s, chars, lo, j - 1) else j
  }

  /** Python's `s.strip(chars)`: what is left of `s` once the leading and then the
      trailing characters in `chars` are dropped. It is the contiguous part
      `s[lo..lo + |r|]` that neither starts nor ends with a character of `chars`,
      with only characters of `chars` outside it. */
  function Strip(s: string, chars: set<char>): (r: string)
    ensures var lo := LeftEdge(s, chars, 0);
      && lo + |r| <= |s| && r == s[lo..lo + |r|]
      && (r == [] || (r[0] !in chars && r[|r| - 1] !in chars))
      && (forall i :: 0 <= i < lo ==> s[i] in chars)
      && (forall i :: lo + |r| <= i < |s| ==> s[i] in chars)
  {
    var lo := LeftEdge(s, chars, 0);
    s[lo..RightEdge(s, chars, lo, |s|)]
  }

  /** Python's normalisation of a slice bound `i` against a length `n`. */
  function ClampIndex(i: int, n: nat): (r: nat)
    ensures r <= n
    ensures 0 <= i <= n ==> r == i
    ensures -(n as int) <= i < 0 ==> r as int == n as int + i
  {
    if i < 0 then (if i + n < 0 then 0 else i + n)
    else if i > n then n
    else i
  }

  /** Python's `s[i:j]`: the contiguous run of `s` between the two normalised bounds,
      empty when they cross. */
  function Slice<T>(s: seq<T>, i: int, j: int): (r: seq<T>)
    ensures var lo, hi := ClampIndex(i, |s|), ClampIndex(j, |s|);
      && |r| == (if lo < hi then hi - lo else 0)
      && forall k :: 0 <= k < |r| ==> r[k] == s[lo + k]
  {
    var lo, hi := ClampIndex(i, |s|), ClampIndex(j, |s|);
    if lo < hi then s[lo..hi] else []
  }

  /** Python's `xs[i:]`: the suffix of `xs` from the normalised bound on. */
  function SliceFrom<T>(xs: seq<T>, i: int): (r: seq<T>)
    ensures var lo := ClampIndex(i, |xs|);
      && |r| == |xs| - lo
      && forall k :: 0 <= k < |r| ==> r[k] == xs[lo + k]
  {
    xs[ClampIndex(i, |xs|)..]
  }

  /** Python's `xs[i]`, with negative indices counted from the end and `None`
      standing for the `IndexError` Python raises out of range. */
  function Index<T>(xs: seq<T>, i: int): (r: Option<T>)
    ensures r.Some? <==> -|xs| <= i < |xs|
    ensures 0 <= i < |xs| ==> r == Some(xs[i])
    ensures -|xs| <= i < 0 ==> r == Some(xs[|xs| + i])
  {
    if 0 <= i < |xs| then Some(xs[i])
    else if -|xs| <= i < 0 then Some(xs[|xs| + i])
    else None
  }
}
