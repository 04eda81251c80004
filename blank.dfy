/** The embedded string helper: trimming of blank characters (space, ideographic space
    U+3000 and tab) from either end, and the null-or-blank test every text parser runs
    first. */
module Blank {
  import opened Wrappers

  predicate IsBlankChar(c: char) {
    c == ' ' || c == '\U{3000}' || c == '\t'
  }

  /** Every character is blank (the empty string included). */
  predicate IsBlank(s: string) {
    forall i :: 0 <= i < |s| ==> IsBlankChar(s[i])
  }

  lemma BlankSlice(s: string, i: int, j: int)
    requires IsBlank(s) && 0 <= i <= j <= |s|
    ensures IsBlank(s[i..j])
  {
    assert forall k :: 0 <= k < j - i ==> s[i..j][k] == s[i + k];
  }

  lemma BlankJoin(a: string, b: string)
    requires IsBlank(a) && IsBlank(b)
    ensures IsBlank(a + b)
  {
    assert forall k :: 0 <= k < |a + b| ==> (a + b)[k] == if k < |a| then a[k] else b[k - |a|];
  }

  /** Removes the blank characters at the front: the result is the suffix of the source
      after its longest blank prefix. */
  method FHLTrim(s: string) returns (r: string)
    ensures |r| <= |s| && r == s[|s| - |r|..]
    ensures IsBlank(s[..|s| - |r|])
    ensures r == [] || !IsBlankChar(r[0])
  {
    if s == [] {
      return s;
    }
    var pos := 0;
    var index := 0;
    while index < |s|
      invariant 0 <= index <= |s|
      invariant pos == index
      invariant IsBlank(s[..pos])
    {
      if !IsBlankChar(s[index]) {
        break;
      }
      pos := index + 1;
      index := index + 1;
    }
    if pos > 0 {
      return s[pos..];
    }
    return s;
  }

  /** Removes the blank characters at the end, except that an all-blank source comes back
      unchanged: the scan records where the trailing blank run starts, and a run that
      starts at index 0 is indistinguishable from "no trailing blanks". */
  method FHRTrim(s: string) returns (r: string)
    ensures IsBlank(s) ==> r == s
    ensures !IsBlank(s) ==> 0 < |r| <= |s| && r == s[..|r|] && IsBlank(s[|r|..]) && !IsBlankChar(r[|r| - 1])
  {
    if s == [] {
      return s;
    }
    var pos := 0;
    var index := |s| - 1;
    while index >= 0
      invariant -1 <= index < |s|
      invariant pos == if index == |s| - 1 then 0 else index + 1
      invariant IsBlank(s[index + 1..])
    {
      if !IsBlankChar(s[index]) {
        break;
      }
      assert s[index..] == [s[index]] + s[index + 1..];
      pos := index;
      index := index - 1;
    }
    if index < 0 {
      assert s[0..] == s;
      return s;
    }
    assert !IsBlankChar(s[index]);
    if pos > 0 {
      return s[..pos];
    }
    assert s[..|s|] == s;
    return s;
  }

  /** Both ends trimmed: empty exactly for a blank source, otherwise the source with its
      blank prefix and suffix removed. */
  method FHTrim(s: string) returns (r: string)
    ensures |r| == 0 <==> IsBlank(s)
    ensures !IsBlank(s) ==> (exists i, j ::
                               0 <= i < j <= |s| && r == s[i..j] && IsBlank(s[..i]) && IsBlank(s[j..]) &&
                               !IsBlankChar(r[0]) && !IsBlankChar(r[|r| - 1]))
  {
    var right := FHRTrim(s);
    r := FHLTrim(right);
    if IsBlank(s) {
      assert right == s;
      BlankSlice(s, |s| - |r|, |s|);
    } else {
      var i, j := |right| - |r|, |right|;
      assert s[..j][..i] == s[..i];
      assert right[i..] == s[i..j];
      assert !IsBlank(right[..|right|]) by {
        assert right[..|right|][|right| - 1] == right[|right| - 1];
      }
      assert r[|r| - 1] == right[|right| - 1];
    }
  }

  /** The null-or-blank test: a null reference, or a string that trims to nothing. */
  method IsNullOrBlank(source: Option<string>) returns (b: bool)
    ensures b <==> source.None? || IsBlank(source.value)
  {
    if source.None? {
      return true;
    }
    var trimmed := FHTrim(source.value);
    return |trimmed| == 0;
  }
}
