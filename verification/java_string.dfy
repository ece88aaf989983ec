/**
 * The part of `java.lang.String` the title check relies on: `trim()` removes
 * every leading and trailing char whose code is at most U+0020 (space and all
 * control characters), not only the space character.
 */
module JavaString {

  /** A char that `String.trim()` strips from either end. */
  predicate IsTrimmable(c: char) {
    c <= ' '
  }

  /** Every char of `s` is trimmable: the meaning of "empty after trimming". */
  predicate IsBlank(s: string) {
    forall i :: 0 <= i < |s| ==> IsTrimmable(s[i])
  }

  /** `s` without its longest trimmable prefix. */
  function TrimLeading(s: string): (r: string)
    ensures |r| <= |s| && r == s[|s| - |r|..]
    ensures r != [] ==> !IsTrimmable(r[0])
    ensures IsBlank(s[..|s| - |r|])
    decreases |s|
  {
    if s != [] && IsTrimmable(s[0]) then
      var tail := s[1..];
      var r := TrimLeading(tail);
      assert tail[|tail| - |r|..] == s[|s| - |r|..];
      assert s[..|s| - |r|] == [s[0]] + tail[..|tail| - |r|];
      r
    else
      s
  }

  /** `s` without its longest trimmable suffix. */
  function TrimTrailing(s: string): (r: string)
    ensures |r| <= |s| && r == s[..|r|]
    ensures r != [] ==> !IsTrimmable(r[|r| - 1])
    ensures IsBlank(s[|r|..])
    decreases |s|
  {
    if s != [] && IsTrimmable(s[|s| - 1]) then
      var init := s[..|s| - 1];
      var r := TrimTrailing(init);
      assert init[..|r|] == s[..|r|];
      assert s[|r|..] == init[|r|..] + [s[|s| - 1]];
      r
    else
      s
  }

  /**
   * `String.trim()`: the result is empty exactly when the input is blank, and
   * otherwise starts and ends with a char that is not trimmable.
   */
  function Trim(s: string): (r: string)
    ensures |r| <= |s|
    ensures r == [] <==> IsBlank(s)
    ensures r != [] ==> !IsTrimmable(r[0]) && !IsTrimmable(r[|r| - 1])
  {
    var lead := TrimLeading(s);
    var r := TrimTrailing(lead);
    TrimEmptyIffBlank(s, lead, r);
    r
  }

  lemma TrimEmptyIffBlank(s: string, lead: string, r: string)
    requires lead == TrimLeading(s) && r == TrimTrailing(lead)
    ensures r == [] <==> IsBlank(s)
  {
    var k := |s| - |lead|;
    if r == [] {
      assert IsBlank(lead[|r|..]);
      assert s[..k] == s;
    } else {
      assert lead[0] == s[k];
    }
  }

  /** Where the kept part of `s` begins: the length of its longest trimmable prefix. */
  function KeptFrom(s: string): nat {
    |s| - |TrimLeading(s)|
  }

  /**
   * `Trim(s)` is the slice of `s` starting at `KeptFrom(s)`, and what it
   * cuts off on either side is blank.
   */
  lemma TrimIsBlankCut(s: string)
    ensures KeptFrom(s) + |Trim(s)| <= |s|
    ensures Trim(s) == s[KeptFrom(s)..KeptFrom(s) + |Trim(s)|]
    ensures IsBlank(s[..KeptFrom(s)]) && IsBlank(s[KeptFrom(s) + |Trim(s)|..])
  {
    var lead := TrimLeading(s);
    var r := TrimTrailing(lead);
    var k := |s| - |lead|;
    assert KeptFrom(s) == k && Trim(s) == r;
    assert lead == s[k..];
    SliceOfSuffix(s, k, |r|);
  }

  /** Slicing a suffix is slicing the whole string at shifted indices. */
  lemma SliceOfSuffix(s: string, k: nat, n: nat)
    requires k + n <= |s|
    ensures s[k..][..n] == s[k..k + n]
    ensures s[k..][n..] == s[k + n..]
  {
  }

  lemma TrimLeadingStep(s: string, st: nat)
    requires st < |s| && IsTrimmable(s[st])
    ensures TrimLeading(s[st..]) == TrimLeading(s[st + 1..])
  {
  }

  lemma TrimTrailingStep(s: string, st: nat, len: nat)
    requires st < len <= |s| && IsTrimmable(s[len - 1])
    ensures TrimTrailing(s[st..len]) == TrimTrailing(s[st..len - 1])
  {
    assert s[st..len][..len - 1 - st] == s[st..len - 1];
  }

  /** The JDK's first `trim()` loop: the index of the first char kept. */
  method SkipLeading(s: string) returns (st: nat)
    ensures st == KeptFrom(s) && st <= |s|
    ensures s[st..] == TrimLeading(s)
    ensures forall i :: 0 <= i < st ==> IsTrimmable(s[i])
  {
    st := 0;
    while st < |s| && IsTrimmable(s[st])
      invariant st <= |s|
      invariant TrimLeading(s[st..]) == TrimLeading(s)
      invariant forall i :: 0 <= i < st ==> IsTrimmable(s[i])
    {
      TrimLeadingStep(s, st);
      st := st + 1;
    }
  }

  /** The JDK's second `trim()` loop: the end (exclusive) of the kept slice. */
  method SkipTrailing(s: string, st: nat) returns (len: nat)
    requires st <= |s|
    ensures st <= len <= |s|
    ensures s[st..len] == TrimTrailing(s[st..])
    ensures forall i :: len <= i < |s| ==> IsTrimmable(s[i])
  {
    len := |s|;
    assert s[st..len] == s[st..];
    while st < len && IsTrimmable(s[len - 1])
      invariant st <= len <= |s|
      invariant TrimTrailing(s[st..len]) == TrimTrailing(s[st..])
      invariant forall i :: len <= i < |s| ==> IsTrimmable(s[i])
    {
      TrimTrailingStep(s, st, len);
      len := len - 1;
    }
  }

  /**
   * The index computation behind the JDK's `String.trim()`: advance `st` over
   * leading trimmable chars, then pull `len` back over trailing ones. The kept
   * slice is `Trim(s)`, and everything cut off on either side is blank.
   */
  method TrimBounds(s: string) returns (st: nat, len: nat)
    ensures st <= len <= |s|
    ensures s[st..len] == Trim(s)
    ensures IsBlank(s[..st]) && IsBlank(s[len..])
  {
    st := SkipLeading(s);
    len := SkipTrailing(s, st);
  }
}
