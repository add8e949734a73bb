/** Python's str.strip() and str.split(",") as the habit form uses them. */
module Text {

  /** The characters Python's str.strip() (no argument) removes: ASCII
      whitespace, the four information separators and the Unicode spaces. */
  predicate IsSpace(c: char)
  {
    c == ' ' || c == '\t' || c == '\n' || c == '\r' || c == '\U{000B}' || c == '\U{000C}'
    || c == '\U{001C}' || c == '\U{001D}' || c == '\U{001E}' || c == '\U{001F}'
    || c == '\U{0085}' || c == '\U{00A0}' || c == '\U{1680}'
    || ('\U{2000}' <= c <= '\U{200A}')
    || c == '\U{2028}' || c == '\U{2029}' || c == '\U{202F}' || c == '\U{205F}' || c == '\U{3000}'
  }

  predicate AllSpace(s: string)
  {
    forall k :: 0 <= k < |s| ==> IsSpace(s[k])
  }

  /** Drops leading whitespace: the result is the suffix of s that starts at
      the first non-space character. */
  function TrimStart(s: string): (r: string)
    ensures |r| <= |s| && r == s[|s| - |r|..]
    ensures AllSpace(s[..|s| - |r|])
    ensures r == [] || !IsSpace(r[0])
  {
    if s != [] && IsSpace(s[0]) then
      var r := TrimStart(s[1..]);
      SpacesCons(s[..|s| - |r|], s[1..][..|s| - 1 - |r|]);
      r
    else s
  }

  /** Drops trailing whitespace: the result is the prefix of s that ends at
      the last non-space character. */
  function TrimEnd(s: string): (r: string)
    ensures |r| <= |s| && r == s[..|r|]
    ensures AllSpace(s[|r|..])
    ensures r == [] || !IsSpace(r[|r| - 1])
  {
    if s != [] && IsSpace(s[|s| - 1]) then
      var r := TrimEnd(s[..|s| - 1]);
      assert s[..|s| - 1][..|r|] == s[..|r|];
      SpacesSnoc(s[|r|..], s[..|s| - 1][|r|..]);
      r
    else s
  }

  /** A space followed by spaces is all spaces. */
  lemma SpacesCons(s: string, t: string)
    requires s != [] && IsSpace(s[0]) && t == s[1..] && AllSpace(t)
    ensures AllSpace(s)
  {
    forall k | 0 < k < |s| ensures IsSpace(s[k]) {
      assert s[k] == t[k - 1];
    }
  }

  /** Spaces followed by a space are all spaces. */
  lemma SpacesSnoc(s: string, t: string)
    requires s != [] && IsSpace(s[|s| - 1]) && t == s[..|s| - 1] && AllSpace(t)
    ensures AllSpace(s)
  {
    forall k | 0 <= k < |s| - 1 ensures IsSpace(s[k]) {
      assert s[k] == t[k];
    }
  }

  /** str.strip(): the part of s between its leading and trailing whitespace. */
  function Strip(s: string): string
  {
    TrimEnd(TrimStart(s))
  }

  /** Strip cuts s into whitespace + result + whitespace, and the result
      neither starts nor ends with whitespace. */
  lemma StripShape(s: string)
    ensures var r := Strip(s);
      exists i, j :: 0 <= i <= j <= |s| && r == s[i..j] && AllSpace(s[..i]) && AllSpace(s[j..])
    ensures IsStripped(Strip(s))
  {
    var t := TrimStart(s);
    var r := TrimEnd(t);
    var i := |s| - |t|;
    var j := i + |r|;
    SliceOfSuffix(s, i, |r|);
    assert 0 <= i <= j <= |s| && r == s[i..j] && AllSpace(s[..i]) && AllSpace(s[j..]);
    StripEnds(s);
  }

  /** Cutting a suffix of s again gives slices of s. */
  lemma SliceOfSuffix(s: string, i: nat, n: nat)
    requires i + n <= |s|
    ensures s[i..][..n] == s[i..i + n] && s[i..][n..] == s[i + n..]
  {
  }

  /** Every character of a slice occurs in the whole. */
  lemma SliceMembers(s: string, i: nat, j: nat)
    requires i <= j <= |s|
    ensures forall c :: c in s[i..j] ==> c in s
  {
    forall c | c in s[i..j] ensures c in s {
      var k :| 0 <= k < j - i && s[i..j][k] == c;
      assert s[i + k] == c;
    }
  }

  /** Strip's result neither starts nor ends with whitespace and holds only
      characters of s. */
  lemma StripIsStripped(s: string)
    ensures IsStripped(Strip(s))
    ensures forall c :: c in Strip(s) ==> c in s
  {
    StripEnds(s);
    StripMembers(s);
  }

  lemma StripEnds(s: string)
    ensures IsStripped(Strip(s))
  {
    var t := TrimStart(s);
    var r := TrimEnd(t);
    if r != [] {
      assert r[0] == t[0];
    }
  }

  lemma StripMembers(s: string)
    ensures forall c :: c in Strip(s) ==> c in s
  {
    var t := TrimStart(s);
    var r := TrimEnd(t);
    SliceMembers(s, |s| - |t|, |s|);
    SliceMembers(t, 0, |r|);
  }

  /** The result is empty exactly when s is all whitespace. */
  lemma StripEmptyIff(s: string)
    ensures Strip(s) == [] <==> AllSpace(s)
  {
    var t := TrimStart(s);
    if Strip(s) == [] {
      assert AllSpace(t[0..]);
      assert t == [];
      assert s[..|s|] == s;
    } else {
      assert t != [] && !IsSpace(t[0]) && t[0] == s[|s| - |t|];
    }
  }

  /** Neither starts nor ends with whitespace: what Strip returns. */
  predicate IsStripped(s: string)
  {
    s == [] || (!IsSpace(s[0]) && !IsSpace(s[|s| - 1]))
  }

  /** Strip leaves a stripped text as it is. */
  lemma StripStripped(s: string)
    requires IsStripped(s)
    ensures Strip(s) == s
  {
  }

  /** Stripping twice is stripping once. */
  lemma StripIdempotent(s: string)
    ensures Strip(Strip(s)) == Strip(s)
  {
    var r := Strip(s);
    StripShape(s);
    if r != [] {
      assert TrimStart(r) == r;
      assert TrimEnd(r) == r;
    }
  }

  /** The parts joined back with sep between them. */
  function Join(parts: seq<string>, sep: char): string
  {
    if parts == [] then []
    else if |parts| == 1 then parts[0]
    else parts[0] + [sep] + Join(parts[1..], sep)
  }

  /** str.split(sep) with a one-character separator: never an empty list
      ("".split(",") is [""]), no part holds sep, and joining the parts with
      sep gives s back. */
  function Split(s: string, sep: char): (r: seq<string>)
    ensures |r| >= 1
    ensures forall k :: 0 <= k < |r| ==> sep !in r[k]
    ensures Join(r, sep) == s
    decreases |s|
  {
    if s == [] then [[]]
    else if s[0] == sep then
      var rest := Split(s[1..], sep);
      assert [sep] + Join(rest, sep) == s;
      [[]] + rest
    else
      var rest := Split(s[1..], sep);
      var r := [[s[0]] + rest[0]] + rest[1..];
      assert Join(r, sep) == [s[0]] + Join(rest, sep) by {
        if |rest| > 1 {
          assert r[1..] == rest[1..];
        }
      }
      r
  }

  /** Splitting counts pieces: one more than the separators in s. */
  function Count(s: string, c: char): nat
  {
    if s == [] then 0 else (if s[0] == c then 1 else 0) + Count(s[1..], c)
  }

  lemma {:induction false} SplitCount(s: string, sep: char)
    ensures |Split(s, sep)| == Count(s, sep) + 1
    decreases |s|
  {
    if s != [] {
      SplitCount(s[1..], sep);
    }
  }
}
