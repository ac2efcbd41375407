/**
 * The string helpers the FOLLOW computation relies on: `trim` and `split`
 * (declared in utils.h, whose text is not part of this model) and
 * `std::string::find`. They are given small explicit definitions here; what
 * is proved about them is what follow.cpp needs of them.
 */
module Text {
  import opened Wrappers

  /** The characters `trim` removes: the C locale's white space. */
  predicate IsSpace(c: char) {
    c == ' ' || c == '\t' || c == '\n' || c == '\r' || c == '\U{B}' || c == '\U{C}'
  }

  function TrimLeft(s: string): (r: string)
    ensures |r| <= |s|
    decreases |s|
  {
    if |s| > 0 && IsSpace(s[0]) then TrimLeft(s[1..]) else s
  }

  function TrimRight(s: string): (r: string)
    ensures |r| <= |s|
    decreases |s|
  {
    if |s| > 0 && IsSpace(s[|s| - 1]) then TrimRight(s[..|s| - 1]) else s
  }

  /** Leading and trailing white space removed. */
  function Trim(s: string): string {
    TrimRight(TrimLeft(s))
  }

  /** All characters of `s` are white space. */
  predicate AllSpace(s: string) {
    forall i :: 0 <= i < |s| ==> IsSpace(s[i])
  }

  /** `s` neither starts nor ends with white space. */
  predicate Trimmed(s: string) {
    |s| > 0 ==> !IsSpace(s[0]) && !IsSpace(s[|s| - 1])
  }

  /** TrimLeft drops a white-space prefix and keeps the rest. */
  lemma {:induction false} TrimLeftSplits(s: string)
    ensures |TrimLeft(s)| <= |s|
    ensures TrimLeft(s) == s[|s| - |TrimLeft(s)|..]
    ensures AllSpace(s[..|s| - |TrimLeft(s)|])
    ensures |TrimLeft(s)| > 0 ==> !IsSpace(TrimLeft(s)[0])
    decreases |s|
  {
    if |s| > 0 && IsSpace(s[0]) {
      var t := s[1..];
      TrimLeftSplits(t);
      var k := |t| - |TrimLeft(t)|;
      assert t[k..] == s[k + 1..];
      forall i | 0 <= i < k + 1
        ensures IsSpace(s[i])
      {
        if i > 0 { assert s[i] == t[..k][i - 1]; }
      }
    }
  }

  /** TrimRight drops a white-space suffix and keeps the rest. */
  lemma {:induction false} TrimRightSplits(s: string)
    ensures |TrimRight(s)| <= |s|
    ensures TrimRight(s) == s[..|TrimRight(s)|]
    ensures AllSpace(s[|TrimRight(s)|..])
    ensures |TrimRight(s)| > 0 ==> !IsSpace(TrimRight(s)[|TrimRight(s)| - 1])
    decreases |s|
  {
    if |s| > 0 && IsSpace(s[|s| - 1]) {
      var p := s[..|s| - 1];
      TrimRightSplits(p);
      var k := |TrimRight(p)|;
      assert p[..k] == s[..k];
      forall i | k <= i < |s|
        ensures IsSpace(s[i])
      {
        if i < |s| - 1 { assert s[i] == p[k..][i - k]; }
      }
    }
  }

  lemma TrimLeftOfUntrimmedStart(s: string)
    requires |s| > 0 ==> !IsSpace(s[0])
    ensures TrimLeft(s) == s
  {
  }

  lemma TrimRightOfUntrimmedEnd(s: string)
    requires |s| > 0 ==> !IsSpace(s[|s| - 1])
    ensures TrimRight(s) == s
  {
  }

  /** Where Trim's result starts in its input. */
  function TrimStart(s: string): nat {
    |s| - |TrimLeft(s)|
  }

  /**
   * Trim cuts its input into white space, the result, and white space;
   * the result neither starts nor ends with white space.
   */
  lemma {:induction false} TrimSplits(s: string)
    ensures Trimmed(Trim(s))
    ensures TrimStart(s) + |Trim(s)| <= |s|
    ensures Trim(s) == s[TrimStart(s)..TrimStart(s) + |Trim(s)|]
    ensures AllSpace(s[..TrimStart(s)]) && AllSpace(s[TrimStart(s) + |Trim(s)|..])
  {
    var l := TrimLeft(s);
    TrimLeftSplits(s);
    TrimRightSplits(l);
    var i := |s| - |l|;
    var k := |TrimRight(l)|;
    assert Trim(s) == s[i..i + k];
    assert s[i + k..] == l[k..];
    if k > 0 { assert Trim(s)[0] == l[0]; }
  }

  /** A string without white space at either end is its own trimmed form. */
  lemma TrimOfTrimmed(s: string)
    requires Trimmed(s)
    ensures Trim(s) == s
  {
    TrimLeftOfUntrimmedStart(s);
    TrimRightOfUntrimmedEnd(s);
  }

  /** Trimming twice is trimming once. */
  lemma {:induction false} TrimIdempotent(s: string)
    ensures Trim(Trim(s)) == Trim(s)
  {
    TrimSplits(s);
    TrimOfTrimmed(Trim(s));
  }

  /** A character absent from the input is absent from its trimmed form. */
  lemma TrimKeepsOut(s: string, c: char)
    requires c !in s
    ensures c !in Trim(s)
  {
    TrimSplits(s);
    var i := TrimStart(s);
    forall k | 0 <= k < |Trim(s)| ensures Trim(s)[k] != c {
      assert Trim(s)[k] == s[i + k];
    }
  }

  /** Index of the first occurrence of `d` in `s`. */
  function IndexOf(s: string, d: char): (i: nat)
    requires d in s
    ensures i < |s| && s[i] == d && d !in s[..i]
  {
    if s[0] == d then 0 else
      var j := IndexOf(s[1..], d);
      assert s[..j + 1] == [s[0]] + s[1..][..j];
      j + 1
  }

  /**
   * `split(s, d)`: the pieces between the occurrences of `d`, empty pieces
   * kept, so there is always at least one piece.
   */
  function Split(s: string, d: char): (parts: seq<string>)
    ensures |parts| >= 1
    ensures forall i :: 0 <= i < |parts| ==> d !in parts[i]
    decreases |s|
  {
    if d in s then
      var i := IndexOf(s, d);
      [s[..i]] + Split(s[i + 1..], d)
    else
      [s]
  }

  /** The inverse of Split: the pieces glued back with the delimiter. */
  function Join(parts: seq<string>, d: char): string
    requires |parts| >= 1
  {
    if |parts| == 1 then parts[0] else parts[0] + [d] + Join(parts[1..], d)
  }

  /** Splitting loses nothing: joining the pieces gives the input back. */
  lemma {:induction false} JoinSplit(s: string, d: char)
    ensures Join(Split(s, d), d) == s
    decreases |s|
  {
    if d in s {
      var i := IndexOf(s, d);
      JoinSplit(s[i + 1..], d);
      assert Split(s, d)[1..] == Split(s[i + 1..], d);
      assert s == s[..i] + [d] + s[i + 1..];
    }
  }

  /** `pat` occurs in `s` at position `p`. */
  predicate OccursAt(s: string, pat: string, p: nat) {
    p + |pat| <= |s| && s[p..p + |pat|] == pat
  }

  /** `s.find(pat, from)`: the first occurrence at or after `from`. */
  function FindFrom(s: string, pat: string, from: nat): (r: Option<nat>)
    requires from <= |s|
    ensures r.Some? ==> from <= r.value && OccursAt(s, pat, r.value)
    ensures r.Some? ==> forall p :: from <= p < r.value ==> !OccursAt(s, pat, p)
    ensures r.None? ==> forall p :: from <= p <= |s| ==> !OccursAt(s, pat, p)
    decreases |s| - from
  {
    if OccursAt(s, pat, from) then Some(from)
    else if from + |pat| >= |s| then None
    else FindFrom(s, pat, from + 1)
  }

  /** `s.find(pat)`: the position of the first occurrence, `npos` as None. */
  function Find(s: string, pat: string): (r: Option<nat>)
    ensures r.Some? ==> OccursAt(s, pat, r.value)
    ensures r.Some? ==> forall p :: 0 <= p < r.value ==> !OccursAt(s, pat, p)
    ensures r.None? ==> forall p :: 0 <= p <= |s| ==> !OccursAt(s, pat, p)
  {
    FindFrom(s, pat, 0)
  }
}
