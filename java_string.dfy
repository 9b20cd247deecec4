/** The part of java.lang.String that the record store relies on: `trim()`.
    Java's `trim()` strips every leading and trailing character whose code
    is at most U+0020 (space and the control characters) and keeps the
    characters in between. */
module JavaString {

  /** True of the characters `trim()` strips. */
  predicate IsTrimmable(c: char) {
    c <= ' '
  }

  /** True when every character of `s` is one that `trim()` strips. */
  predicate AllTrimmable(s: string) {
    forall i :: 0 <= i < |s| ==> IsTrimmable(s[i])
  }

  /** `s` without its leading trimmable characters. */
  function TrimStart(s: string): (r: string)
    ensures |r| <= |s| && r == s[|s| - |r|..]
    ensures r == [] || !IsTrimmable(r[0])
  {
    if |s| > 0 && IsTrimmable(s[0]) then TrimStart(s[1..]) else s
  }

  /** `s` without its trailing trimmable characters. */
  function TrimEnd(s: string): (r: string)
    ensures |r| <= |s| && r == s[..|r|]
    ensures r == [] || !IsTrimmable(r[|r| - 1])
  {
    if |s| > 0 && IsTrimmable(s[|s| - 1]) then TrimEnd(s[..|s| - 1]) else s
  }

  /** Java's `s.trim()`. */
  function Trim(s: string): (r: string)
    ensures |r| <= |s|
    ensures r == [] || (!IsTrimmable(r[0]) && !IsTrimmable(r[|r| - 1]))
  {
    var t := TrimStart(s);
    assert TrimEnd(t) == [] || TrimEnd(t)[0] == t[0];
    TrimEnd(t)
  }

  /** What `trim()` returns is a contiguous piece of its argument that
      neither starts nor ends with a trimmable character, and everything
      cut away on either side is trimmable. */
  lemma TrimIsInnerSlice(s: string)
    ensures exists i, j :: 0 <= i <= j <= |s| && Trim(s) == s[i..j]
                           && AllTrimmable(s[..i]) && AllTrimmable(s[j..])
    ensures Trim(s) == [] || (!IsTrimmable(Trim(s)[0]) && !IsTrimmable(Trim(s)[|Trim(s)| - 1]))
  {
    TrimStartCutsTrimmable(s);
    var t := TrimStart(s);
    TrimEndCutsTrimmable(t);
    var i := |s| - |t|;
    var j := i + |TrimEnd(t)|;
    assert t == s[i..];
    assert Trim(s) == s[i..j];
    assert s[j..] == t[|TrimEnd(t)|..];
    if Trim(s) != [] {
      assert TrimEnd(t)[0] == t[0];
    }
  }

  lemma {:induction false} TrimStartCutsTrimmable(s: string)
    ensures AllTrimmable(s[..|s| - |TrimStart(s)|])
  {
    if |s| > 0 && IsTrimmable(s[0]) {
      TrimStartCutsTrimmable(s[1..]);
      var k := |s| - |TrimStart(s)|;
      assert s[..k] == [s[0]] + s[1..][..k - 1];
    }
  }

  lemma {:induction false} TrimEndCutsTrimmable(s: string)
    ensures AllTrimmable(s[|TrimEnd(s)|..])
  {
    if |s| > 0 && IsTrimmable(s[|s| - 1]) {
      var p := s[..|s| - 1];
      TrimEndCutsTrimmable(p);
      assert s[|TrimEnd(s)|..] == p[|TrimEnd(p)|..] + [s[|s| - 1]];
    }
  }

  lemma {:induction false} TrimStartEmptyIff(s: string)
    ensures TrimStart(s) == [] <==> AllTrimmable(s)
  {
    if |s| > 0 && IsTrimmable(s[0]) {
      TrimStartEmptyIff(s[1..]);
      assert AllTrimmable(s) <==> AllTrimmable(s[1..]) by {
        assert forall i :: 0 < i < |s| ==> s[i] == s[1..][i - 1];
      }
    }
  }

  lemma {:induction false} TrimEndEmptyIff(s: string)
    ensures TrimEnd(s) == [] <==> AllTrimmable(s)
  {
    if |s| > 0 && IsTrimmable(s[|s| - 1]) {
      var p := s[..|s| - 1];
      TrimEndEmptyIff(p);
      assert AllTrimmable(s) <==> AllTrimmable(p) by {
        assert forall i :: 0 <= i < |p| ==> s[i] == p[i];
      }
    }
  }

  /** `s.trim().isEmpty()` holds exactly when every character of `s` is at
      most U+0020: the blank-name test of the record store. */
  lemma TrimEmptyIffAllTrimmable(s: string)
    ensures Trim(s) == [] <==> AllTrimmable(s)
  {
    var t := TrimStart(s);
    TrimStartEmptyIff(s);
    TrimEndEmptyIff(t);
    if t != [] {
      assert !IsTrimmable(t[0]);
    }
  }
}
